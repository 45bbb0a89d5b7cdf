# NotebookLM notebook microservice — Dafny model

This project models the decision logic of a small service that gives each
user (identified by email) one NotebookLM notebook for chess study, and of the
language utilities that sit beside it:

- **Store** (`src/database.py`): the MongoDB collection of user-to-notebook
  mappings, as a map keyed by email, with a "not connected" mode.
- **Registry** (`src/notebooklm_service.py`): get-or-create, add-source,
  add-chess-game, save-note, ask-question, generate-content and delete, as
  state transitions over the store and the remote NotebookLM account (a set
  of notebook ids plus the log of sources sent to it).
- **Language** (`src/language_utils.py`): the whitespace clean-up and length
  gate before language detection, the language verdict, and the Spanish
  prompt directive.
- **Fallback** (`src/fallback_translation.py`): the fail-open translation
  client and the incident record with truncated previews.
- **Glossary** (`src/glossary_source.py`): attaching the terminology glossary
  to a notebook.
- **Models** (`src/models.py`) and **Common** hold the records and the
  `Option`/`Outcome` values the others share.

Every remote call and every storage write is an input: an `Outcome`
(`Success | Failure`) for calls whose failure the code catches, a `CreateReply` for notebook
creation, and oracle functions for the chat, artifact, translation and
`add_text` calls, so that the exact request sent is part of what is proved.
A read of a connected store always answers (see "Left out").
Clock readings are parameters. The chess-notation regex pass and the
statistical language classifier are parameters too (a `string -> string` and
a `Detector` whose confidences lie in [0, 1]). Python's `x or default` on an
optional string is `OrElse`: `None` and `""` both take the default.

Mappings are keyed by email alone, with no category. Nothing probes whether
a mapped notebook still exists or re-creates it. There is no preferred
language. Get-or-create does not attach the glossary. Ask-question sends the
question without the language directive and neither checks nor translates
the answer.

## Model

| member | source | states |
|---|---|---|
| Models.ParseSourceType | src/models.py:9-14 | only the four wire values "url", "file", "text", "youtube" are accepted, and the kind accepted has exactly that value |
| Models.SourceTypeRoundTrip | src/models.py:9-14 | converting a kind to its string value and parsing it back gives the same kind |
| Models.SourceTypeValueInjective | src/models.py:9-14 | distinct kinds have distinct string values, so a stored value names one kind |
| Models.NewSource | src/models.py:17-23 | a newly recorded source has no remote source id and keeps its kind, content, optional title and time |
| Store.GetUserNotebook | src/database.py:37-46 | a disconnected store returns nothing; otherwise the mapping stored for the email, which carries that email |
| Store.SaveUserNotebook | src/database.py:48-62 | upsert keyed by the notebook's email; false and no change when disconnected or the write fails; other users' mappings unchanged; one mapping per email is kept |
| Store.SaveThenGet | src/database.py:48-62 | after a successful save, reading that email returns the saved mapping |
| Store.SaveFrame | src/database.py:48-62 | a save does not change what any other email reads |
| Store.SaveTwiceKeepsOne | src/database.py:53-57 | two saves for one email leave a single mapping, the later one |
| Store.AddSourceToNotebook | src/database.py:64-84 | appends the source after the existing ones and sets updated_at to its time; a missing email changes nothing yet reports true; false and no change when disconnected or the write fails |
| Store.DeleteUserNotebook | src/database.py:86-96 | true exactly when a mapping existed and was removed; afterwards the email has no mapping |
| Store.DeleteThenGet | src/database.py:86-96 | after a delete that reached the store, reading the email returns nothing |
| Store.ListAllNotebooks | src/database.py:98-107 | returns every stored mapping exactly once (distinct keys, same count); empty when disconnected |
| Store.DisconnectedIsInert | src/database.py:39-40 | a disconnected store returns nothing or false from every call and never changes |
| Registry.RemoteSourceFor | src/notebooklm_service.py:123-132 | URL and YouTube go out by URL, text with its title or "Pasted Text", a file is not forwarded |
| Registry.GetOrCreateNotebook | src/notebooklm_service.py:58-99 | an existing mapping is returned with no change and no remote notebook; otherwise a created notebook gets a mapping with no sources and the given name or "Chess Learning - " + email; a missing client library or a failed create returns nothing and changes nothing; a failed save still returns the new mapping, and the remote notebook stays created |
| Registry.GetOrCreateIdempotent | src/notebooklm_service.py:65-69 | once the mapping is stored, a second call returns the same mapping whatever the remote would answer and creates nothing |
| Registry.GetOrCreateWithoutStoreCreatesEachTime | src/notebooklm_service.py:65-95 | with no connected store every call creates a new remote notebook |
| Registry.AddSource | src/notebooklm_service.py:101-148 | false with no effect when there is no mapping, no client library, a file source or a remote failure; the local record is appended only after the remote accepted the source, with the caller's title |
| Registry.AddSourceRecordsLocally | src/notebooklm_service.py:134-144 | after a successful add with a working store, the mapping ends with the new source, keeps earlier ones and was touched at the source's time |
| Registry.ChessGameContent | src/notebooklm_service.py:159-166 | the game document is its heading and PGN block joined by a newline, followed by a newline and the analysis section exactly when the analysis is non-empty |
| Registry.ChessGameContentStartsWithHeading | src/notebooklm_service.py:160 | the document starts with "# Chess Game: " and the title or "Game Analysis" |
| Registry.ChessGameContentHoldsPgn | src/notebooklm_service.py:161 | the PGN appears verbatim at a fixed offset between an opening and a closing code fence |
| Registry.ChessGameContentAnalysis | src/notebooklm_service.py:163-166 | the document is longer than its head exactly when the analysis is non-empty, and then ends with the analysis section |
| Registry.AddChessGame | src/notebooklm_service.py:150-173 | the game is sent as a text source titled with the game title or "Chess Game", and recorded with that title; on success nothing else changes: availability and the set of remote notebooks are kept |
| Registry.SaveNote | src/notebooklm_service.py:175-229 | notebook_created is true exactly when no mapping existed and creation succeeded; a creation failure gives success false with empty id and name and no change; for an existing mapping the response carries that mapping's notebook id and name; otherwise success is the add-source result |
| Registry.SaveNoteRecordsNote | src/notebooklm_service.py:184-221 | with a working store and remote the note is saved into the user's notebook and the response names it |
| Registry.SaveNoteWithoutStoreOrphansNotebook | src/notebooklm_service.py:189-212 | without a store the response says created and not saved while a remote notebook now exists |
| Registry.AskQuestion | src/notebooklm_service.py:231-265 | nothing without a mapping, without the client library or after a failed chat call; the question is sent verbatim to the user's notebook; the answer is the reply's `answer` or its rendering, the conversation id comes from the reply when present; sources used are empty |
| Registry.ArtifactKindOf | src/notebooklm_service.py:288-294 | only "podcast" and "quiz" name an artifact kind |
| Registry.GenerateContent | src/notebooklm_service.py:267-303 | nothing for an unknown content type or a failure; otherwise a processing task whose id is the remote id or "unknown" |
| Registry.GenerateContentIgnoresTopic | src/notebooklm_service.py:267-303 | the topic has no effect on the result |
| Registry.DeleteNotebook | src/notebooklm_service.py:318-339 | false when there is no mapping; the local mapping is deleted only after the remote delete succeeded; a remote failure returns false and keeps the mapping; on success only that remote notebook and the local mapping go |
| Registry.DeleteThenAddRefused | src/notebooklm_service.py:321-332 | after a stored delete the user has no mapping and adding a source is refused without effect |
| Registry.DeleteFailureKeepsMapping | src/notebooklm_service.py:328-339 | after a failed remote delete a retry targets the same remote notebook |
| Language.StripLeft | src/language_utils.py:43 | drops exactly the leading whitespace and keeps every other character |
| Language.StripRight | src/language_utils.py:43 | drops exactly the trailing whitespace and keeps every other character |
| Language.StripIsSlice | src/language_utils.py:43 | what `strip()` returns is one contiguous slice of the input, starting where the `lstrip()` result starts: the input is the part before it, the returned text and the part after it, so interior whitespace stays |
| Language.StripLeftDropsSpace | src/language_utils.py:43 | everything before that slice is whitespace |
| Language.StripDropsTrailingSpace | src/language_utils.py:43 | everything after that slice is whitespace |
| Language.StripKeepsWords | src/language_utils.py:43 | `strip()` keeps the words of the text |
| Language.CollapseRuns | src/language_utils.py:43 | after replacing whitespace runs no two whitespace characters are adjacent, the only whitespace is a plain space, the text is empty exactly when the input is and starts with whitespace exactly when the input does |
| Language.CollapseRunsKeepsWords | src/language_utils.py:43 | replacing whitespace runs keeps the words exactly, so each run becomes one space and no word is split, joined or dropped |
| Language.CollapseRunsKeepsEnd | src/language_utils.py:43 | the result ends with whitespace exactly when the input does |
| Language.CollapsedIsJoinedWords | src/language_utils.py:43 | a trimmed text with single plain spaces is its words joined by single spaces |
| Language.CollapseWhitespace | src/language_utils.py:42-44 | the cleaned text is the words of the input joined by single spaces (Python's `" ".join(s.split())`), hence trimmed, with only single plain spaces, and no longer than the input |
| Language.CollapseRunsFixpoint | src/language_utils.py:43 | text already without runs is not changed by the run replacement |
| Language.CollapseWhitespaceIdempotent | src/language_utils.py:42-44 | cleaning whitespace twice equals cleaning it once |
| Language.StripChessNotation | src/language_utils.py:33-44 | the text the classifier sees is the words of the notation pass's output joined by single spaces, and is no longer than that output |
| Language.JudgeCleaned | src/language_utils.py:64-77 | cleaned text under 20 characters gives no verdict; a verdict is the classifier's language for the text with its confidence in that language; no verdict on long enough text means the classifier chose none |
| Language.DetectResponseLanguage | src/language_utils.py:47-77 | empty text or cleaned text under 20 characters gives no verdict; a verdict is the classifier's language for the cleaned text with its confidence in that language; no verdict on long enough text means the classifier chose none |
| Language.DetectionAsReported | src/language_utils.py:68-77 | the reported code is "en", "es" or "unknown", the confidence lies in [0, 1] and is 0.0 for "unknown", and a known code comes with the classifier's confidence in that language |
| Language.ShortTextIgnoresDetector | src/language_utils.py:58-66 | short cleaned text gets the same verdict from any classifier, so the classifier is not consulted |
| Language.ShortInputIsUnknown | src/language_utils.py:58-66 | input under 20 characters is "unknown" when the notation pass never lengthens text |
| Language.AcceptsVerdict | src/language_utils.py:100-106 | no verdict passes; a verdict passes exactly when it names the expected language with confidence above 0.5, so for a language other than en/es only no verdict passes |
| Language.IsLanguageCorrect | src/language_utils.py:80-106 | true for English without detection; otherwise the verdict on the response decides, and a failure implies the cleaned response has at least 20 characters |
| Language.HalfConfidenceIsNotEnough | src/language_utils.py:106 | a Spanish verdict at exactly 0.5 confidence fails a Spanish expectation, for the verdict alone and for any response detected that way |
| Language.LanguageInstruction | src/language_utils.py:131-139 | the directive is empty exactly for targets other than "es", and for "es" is the Spanish instruction |
| Language.BuildEnhancedPrompt | src/language_utils.py:109-152 | any target but Spanish returns the question unchanged; a Spanish prompt is the directive followed by the question when no note is due, and otherwise exactly the directive, then the user-language note, then the question |
| Language.EnglishUserNote | src/language_utils.py:146-150 | a user writing in English gets a note naming "English" and "Spanish"; a code without a display name appears as it is |
| Language.EnhancedPromptRoundTrip | src/language_utils.py:146-152 | a Spanish prompt is a directive independent of the question followed by the question, which is recovered by dropping it |
| Fallback.TranslateAsWritten | src/fallback_translation.py:21-80 | the code as written sends one glossary request for different languages and returns a non-string exactly when a 2xx reply has a non-string "translated" member, the string when it is a string, and the original text otherwise |
| Fallback.NullTranslationEscapes | src/fallback_translation.py:54-56 | a 2xx reply {"translated": null} makes the code as written return a non-string |
| Fallback.TranslateResponse | src/fallback_translation.py:21-80 | same languages: no request and the text unchanged; otherwise one glossary request and the original text unless a 2xx reply carries a string translation |
| Fallback.TranslateAgreesWithAsWritten | src/fallback_translation.py:54-56 | the corrected function differs from the code as written only where that code returns a non-string |
| Fallback.SameLanguageIgnoresService | src/fallback_translation.py:40-41 | with equal languages the result does not depend on the service |
| Fallback.FailuresReturnOriginal | src/fallback_translation.py:57-80 | timeout, transport error and non-2xx status return the original text |
| Fallback.Preview | src/fallback_translation.py:105-106 | a preview is None exactly for empty text, else a prefix of min(100, length) characters |
| Fallback.LogLanguageIncident | src/fallback_translation.py:83-116 | identifiers are kept verbatim and each preview is exactly the first min(100, length) characters, None exactly for empty text |
| Fallback.PreviewIdempotent | src/fallback_translation.py:105-106 | text of at most 100 characters is its own preview and previewing a preview changes nothing |
| Glossary.AddGlossarySourceToNotebook | src/glossary_source.py:134-179 | for a language other than "es" no call and false; for "es" exactly one add_text with the glossary title and document, true exactly when it succeeded |
| Glossary.DefaultLanguageProvisions | src/glossary_source.py:137 | the target language defaults to "es" |
| Glossary.ProvisionDependsOnlyOnTheCall | src/glossary_source.py:161-179 | the result depends only on the remote's answer to that one call; a failure is returned as false |

## Left out

- `check_auth`, `is_authenticated` and `list_notebooks` in the service: authentication and listing pass-throughs to the NotebookLM library.
- `Database.connect`/`disconnect`: connection management; the model takes the store as connected or not.
- The HTTP API, configuration, the keep-alive browser script and the authentication smoke scripts: adapters and tooling around the core.
- The four chess-notation regular expressions: the removal pass is an arbitrary `string -> string`; only the whitespace clean-up and the length gate are modelled.
- The language classifier's internals: it is an arbitrary `Detector`.
- async/await and the fire-and-forget scheduling of incident logging: every operation is one sequential step.
- Logging (structlog) and the wall clock: log lines are not modelled, clock readings are parameters.
- The wording of the glossary document: `Glossary.GlossarySourceTemplate` is an opaque constant.
- Failed store reads: `find_one` and the listing cursor are not guarded, and the service calls `get_user_notebook` outside its own error handling, so a MongoDB error after connecting escapes from every service operation; in the model a read of a connected store always answers.
- Several documents for one email: the service does not serialise get-or-create, so two concurrent requests for the same new user (creating a notebook, or saving a note) can both miss the mapping, each create a remote notebook, and both upsert; `Database.connect` creates no unique index on `user_email`, so both upserts may insert, and a later `delete_one` leaves the other document visible. The model runs operations one at a time and the store is a map, so at most one mapping per email; `Store.SaveTwiceKeepsOne` and `Store.DeleteThenGet` hold for sequential use only.
- Registry.GetOrCreateNotebook: a mapping whose remote notebook was deleted elsewhere is still returned; the code has no staleness check.

## Findings

| source | as written | input that shows it | evidently intended | confidence | as-written member | corrected member |
|---|---|---|---|---|---|---|
| src/fallback_translation.py:54-56 | a 2xx reply's `translated` member is returned whatever JSON value it holds | the translation service answers 200 with `{"translated": null}`: the function returns `None` although it is declared to return `str` and documented to return the original on failure | a missing or non-string translation returns the original text | medium, not executed | Fallback.TranslateAsWritten | Fallback.TranslateResponse |
