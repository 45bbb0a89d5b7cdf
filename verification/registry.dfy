/** The notebook registry: each operation of the NotebookLM service as a state
    transition over the mapping store and the remote NotebookLM account.

    The remote account is the set of notebook ids it holds plus the log of
    sources sent to it. Whatever a remote or storage call answers is an input
    (an `Outcome`, a `CreateReply`, or an oracle function for the chat and
    artifact calls), so every branch the service takes on those
    answers is visible. `available` is whether the NotebookLM client library
    could be imported. */
module Registry {
  import opened Common
  import opened Models
  import Store

  /** A source as sent to NotebookLM: by URL, or as titled text. */
  datatype RemoteSource = UrlSource(url: string) | TextSource(title: string, content: string)

  /** The remote NotebookLM account. */
  datatype Remote = Remote(notebooks: set<NotebookId>, added: seq<(NotebookId, RemoteSource)>)

  datatype Service = Service(available: bool, db: Store.Db, remote: Remote)

  /** The result of one operation and the state after it. */
  datatype Step<T> = Step(result: T, svc: Service)

  /** NotebookLM's answer to a create call. */
  datatype CreateReply = Created(id: NotebookId) | CreateFailed

  /** What the world answers during a get-or-create: the remote create, the
      store write, and the two clock readings for `created_at`/`updated_at`. */
  datatype CreateEnv = CreateEnv(reply: CreateReply, write: Outcome, createdAt: Timestamp, updatedAt: Timestamp)

  /** What the world answers during an add-source: the remote add, the store
      append, and the clock reading for `added_at`. */
  datatype AddEnv = AddEnv(reply: Outcome, write: Outcome, addedAt: Timestamp)

  /** NotebookLM's answer to a chat question. The answer and conversation id
      are read only if the response object has them; `rendered` is its `str`. */
  datatype ChatReply =
    | ChatFailed
    | Answered(answer: Option<string>, rendered: string, conversationId: Option<Option<string>>)

  datatype ArtifactKind = Audio | Quiz

  /** NotebookLM's answer to an artifact request; `id` is the rendered id if the
      response has one. */
  datatype ArtifactReply = ArtifactFailed | Started(id: Option<string>)

  const DefaultTextTitle := "Pasted Text"
  const DefaultGameHeading := "Game Analysis"
  const DefaultGameTitle := "Chess Game"

  function DefaultNotebookName(email: Email): string
  {
    "Chess Learning - " + email
  }

  function Lookup(s: Service, email: Email): Option<UserNotebook>
  {
    Store.GetUserNotebook(s.db, email)
  }

  /** The remote source a kind of local source is sent as, or `None` for the
      kind the service does not forward (a file). */
  function RemoteSourceFor(kind: SourceType, content: string, title: Option<string>): (r: Option<RemoteSource>)
    ensures r.None? <==> kind == File
    ensures kind == Url || kind == YouTube ==> r == Some(UrlSource(content))
    ensures kind == Text ==> r == Some(TextSource(OrElse(title, DefaultTextTitle), content))
  {
    match kind
    case Url => Some(UrlSource(content))
    case Text => Some(TextSource(OrElse(title, DefaultTextTitle), content))
    case YouTube => Some(UrlSource(content))
    case File => None
  }

  /** Returns the user's mapping if there is one; otherwise creates a remote
      notebook, saves a mapping with no sources for it and returns that
      mapping. The save's result is not inspected: a mapping that could not be
      stored is still returned. */
  function GetOrCreateNotebook(s: Service, email: Email, name: Option<string>, env: CreateEnv): (r: Step<Option<UserNotebook>>)
    ensures Lookup(s, email).Some? ==> r == Step(Lookup(s, email), s)
    ensures Lookup(s, email).None? && (!s.available || env.reply.CreateFailed?) ==> r == Step(None, s)
    ensures r.result.None? ==> r.svc == s
    ensures r.svc.available == s.available && r.svc.remote.added == s.remote.added
    ensures r.svc.remote.notebooks != s.remote.notebooks ==> Lookup(s, email).None? && env.reply.Created?
    ensures Lookup(s, email).None? && s.available && env.reply.Created? ==>
      && r.result.Some?
      && var nb := r.result.value;
      && nb == UserNotebook(email, env.reply.id, OrElse(name, DefaultNotebookName(email)), [], env.createdAt, env.updatedAt)
      && r.svc.remote.notebooks == s.remote.notebooks + {env.reply.id}
      && r.svc.db == Store.SaveUserNotebook(s.db, nb, env.write).db
  {
    var existing := Lookup(s, email);
    if existing.Some? then Step(existing, s)
    else if !s.available then Step(None, s)
    else
      var title := OrElse(name, DefaultNotebookName(email));
      match env.reply
      case CreateFailed => Step(None, s)
      case Created(id) =>
        var nb := UserNotebook(email, id, title, [], env.createdAt, env.updatedAt);
        var saved := Store.SaveUserNotebook(s.db, nb, env.write);
        Step(Some(nb), s.(db := saved.db, remote := s.remote.(notebooks := s.remote.notebooks + {id})))
  }

  /** Sends a source to the user's notebook by kind, then records it in the
      mapping. The record is appended only after NotebookLM accepted the
      source; the store append's own result is not inspected. The recorded
      title is the caller's, not the defaulted one sent to NotebookLM. */
  function AddSource(s: Service, email: Email, kind: SourceType, content: string, title: Option<string>, env: AddEnv): (r: Step<bool>)
    ensures Lookup(s, email).None? ==> r == Step(false, s)
    ensures r.result <==> Lookup(s, email).Some? && s.available && kind != File && env.reply.Success?
    ensures !r.result ==> r.svc == s
    ensures r.svc.available == s.available && r.svc.remote.notebooks == s.remote.notebooks
    ensures r.svc.db.connected == s.db.connected && r.svc.db.docs.Keys == s.db.docs.Keys
    ensures r.svc.db != s.db ==> r.result && env.reply.Success?
    ensures r.result ==>
      && var nb := Lookup(s, email).value;
      && r.svc.remote.added == s.remote.added + [(nb.notebookId, RemoteSourceFor(kind, content, title).value)]
      && r.svc.db == Store.AddSourceToNotebook(s.db, email, NewSource(kind, content, title, env.addedAt), env.write).db
  {
    var existing := Lookup(s, email);
    if existing.None? || !s.available then Step(false, s)
    else
      var nb := existing.value;
      match RemoteSourceFor(kind, content, title)
      case None => Step(false, s)
      case Some(sent) =>
        if env.reply.Failure? then Step(false, s)
        else
          var remote := s.remote.(added := s.remote.added + [(nb.notebookId, sent)]);
          var w := Store.AddSourceToNotebook(s.db, email, NewSource(kind, content, title, env.addedAt), env.write);
          Step(true, s.(db := w.db, remote := remote))
  }

  function ChessGameHeading(gameTitle: Option<string>): string
  {
    "# Chess Game: " + OrElse(gameTitle, DefaultGameHeading) + "\n"
  }

  function PgnBlock(pgn: string): string
  {
    PgnOpen + pgn + PgnClose
  }

  const PgnOpen := "## PGN Notation\n```\n"
  const PgnClose := "\n```\n"

  function AnalysisBlock(analysis: string): string
  {
    "## Analysis\n" + analysis + "\n"
  }

  /** The Markdown document a chess game is stored as: a heading, the PGN in a
      fenced block, and an analysis section only for a non-empty analysis,
      joined with newlines. So the document is its head, followed by a newline
      and the analysis section exactly when the analysis is non-empty. */
  function ChessGameContent(pgn: string, gameTitle: Option<string>, analysis: Option<string>): (c: string)
    ensures Truthy(analysis) ==> c == ChessGameHead(pgn, gameTitle) + ("\n" + AnalysisBlock(analysis.value))
    ensures !Truthy(analysis) ==> c == ChessGameHead(pgn, gameTitle)
  {
    var heading, block := ChessGameHeading(gameTitle), PgnBlock(pgn);
    var parts := [heading, block];
    if Truthy(analysis) then
      var tail := AnalysisBlock(analysis.value);
      assert (parts + [tail])[1..] == [block, tail];
      assert [block, tail][1..] == [tail];
      assert JoinLines([block, tail]) == block + "\n" + tail;
      JoinLines(parts + [tail])
    else
      assert parts[1..] == [block];
      assert JoinLines([block]) == block;
      JoinLines(parts)
  }

  /** Python's `"\n".join(parts)`. */
  function JoinLines(parts: seq<string>): string
  {
    if |parts| == 0 then ""
    else if |parts| == 1 then parts[0]
    else parts[0] + "\n" + JoinLines(parts[1..])
  }

  /** The part of a chess game document before any analysis section. */
  function ChessGameHead(pgn: string, gameTitle: Option<string>): string
  {
    ChessGameHeading(gameTitle) + "\n" + PgnBlock(pgn)
  }

  /** The document starts with the game heading, and with the whole head. */
  lemma ChessGameContentStartsWithHeading(pgn: string, gameTitle: Option<string>, analysis: Option<string>)
    ensures ChessGameHeading(gameTitle) <= ChessGameContent(pgn, gameTitle, analysis)
    ensures ChessGameHead(pgn, gameTitle) <= ChessGameContent(pgn, gameTitle, analysis)
  {
    var heading, head := ChessGameHeading(gameTitle), ChessGameHead(pgn, gameTitle);
    var rest := if Truthy(analysis) then "\n" + AnalysisBlock(analysis.value) else "";
    assert ChessGameContent(pgn, gameTitle, analysis) == head + rest;
    PrefixOfConcat(heading, "\n");
    PrefixOfConcat(heading + "\n", PgnBlock(pgn));
    PrefixOfConcat(head, rest);
    PrefixTransitive(heading, heading + "\n", head);
    PrefixTransitive(heading, head, head + rest);
  }

  /** The PGN sits verbatim at a fixed offset after the heading, between the
      opening and the closing fence. */
  lemma ChessGameContentHoldsPgn(pgn: string, gameTitle: Option<string>, analysis: Option<string>)
    ensures var c := ChessGameContent(pgn, gameTitle, analysis);
      var at := |ChessGameHeading(gameTitle)| + 1 + |PgnOpen|;
      && |c| >= at + |pgn| + |PgnClose|
      && c[at - |PgnOpen|..at] == PgnOpen
      && c[at..at + |pgn|] == pgn
      && c[at + |pgn|..at + |pgn| + |PgnClose|] == PgnClose
  {
    var c, top := ChessGameContent(pgn, gameTitle, analysis), ChessGameHeading(gameTitle) + "\n";
    var rest := if Truthy(analysis) then "\n" + AnalysisBlock(analysis.value) else "";
    assert c == ChessGameHead(pgn, gameTitle) + rest;
    assert ChessGameHead(pgn, gameTitle) == top + ((PgnOpen + pgn) + PgnClose);
    Window(c, top, PgnOpen, pgn, PgnClose, rest);
  }

  /** The document is longer than its head exactly when the analysis is
      non-empty, and then it ends with the analysis section. */
  lemma ChessGameContentAnalysis(pgn: string, gameTitle: Option<string>, analysis: Option<string>)
    ensures var c := ChessGameContent(pgn, gameTitle, analysis);
      && (Truthy(analysis) <==> |c| > |ChessGameHead(pgn, gameTitle)|)
      && (Truthy(analysis) ==> IsSuffix("\n" + AnalysisBlock(analysis.value), c))
  {
    if Truthy(analysis) {
      var head, rest := ChessGameHead(pgn, gameTitle), "\n" + AnalysisBlock(analysis.value);
      assert (head + rest)[|head + rest| - |rest|..] == rest;
    }
  }

  /** Adds a chess game as a text source titled with the game title, or
      "Chess Game" when there is none. */
  function AddChessGame(s: Service, email: Email, pgn: string, gameTitle: Option<string>, analysis: Option<string>, env: AddEnv): (r: Step<bool>)
    ensures r.result <==> Lookup(s, email).Some? && s.available && env.reply.Success?
    ensures !r.result ==> r.svc == s
    ensures r.result ==>
      && r.svc.available == s.available
      && r.svc.remote.notebooks == s.remote.notebooks
      && r.svc.remote.added == s.remote.added + [(Lookup(s, email).value.notebookId,
           TextSource(OrElse(gameTitle, DefaultGameTitle), ChessGameContent(pgn, gameTitle, analysis)))]
      && r.svc.db == Store.AddSourceToNotebook(s.db, email,
           NewSource(Text, ChessGameContent(pgn, gameTitle, analysis), Some(OrElse(gameTitle, DefaultGameTitle)), env.addedAt), env.write).db
  {
    AddSource(s, email, Text, ChessGameContent(pgn, gameTitle, analysis), Some(OrElse(gameTitle, DefaultGameTitle)), env)
  }

  const NotebookCreateFailedMessage := "Failed to create notebook. Check if NotebookLM is authenticated."
  const NoteSaveFailedMessage := "Failed to save note to NotebookLM"

  function NoteSavedMessage(created: bool): string
  {
    "Note saved successfully" + (if created then " (new notebook created)" else "")
  }

  /** Saves a note as a text source, first creating the user's notebook when
      there is no mapping. The response reports the mapping the note went to,
      whether it was created by this call, and whether the note was added. */
  function SaveNote(s: Service, email: Email, content: string, title: Option<string>, notebookName: Option<string>,
                    create: CreateEnv, add: AddEnv): (r: Step<SaveNoteResponse>)
    ensures r.result.notebookCreated <==> Lookup(s, email).None? && s.available && create.reply.Created?
    ensures Lookup(s, email).None? && !(s.available && create.reply.Created?) ==>
      r == Step(SaveNoteResponse(false, "", "", false, NotebookCreateFailedMessage), s)
    ensures Lookup(s, email).Some? ==>
      && r.result.notebookId == Lookup(s, email).value.notebookId
      && r.result.notebookName == Lookup(s, email).value.notebookName
      && r == Step(r.result, AddSource(s, email, Text, content, title, add).svc)
      && r.result.success == AddSource(s, email, Text, content, title, add).result
    ensures r.result.notebookCreated ==>
      var mid := GetOrCreateNotebook(s, email, notebookName, create).svc;
      && r.result.notebookId == create.reply.id
      && r.result.notebookName == OrElse(notebookName, DefaultNotebookName(email))
      && r.svc == AddSource(mid, email, Text, content, title, add).svc
      && r.result.success == AddSource(mid, email, Text, content, title, add).result
    ensures r.result.success ==> r.result.message == NoteSavedMessage(r.result.notebookCreated)
    ensures !r.result.success && (Lookup(s, email).Some? || r.result.notebookCreated) ==>
      r.result.message == NoteSaveFailedMessage
  {
    var existing := Lookup(s, email);
    var (nb, created, s1) :=
      if existing.Some? then (existing, false, s)
      else
        var c := GetOrCreateNotebook(s, email, notebookName, create);
        (c.result, c.result.Some?, c.svc);
    if nb.None? then
      Step(SaveNoteResponse(false, "", "", false, NotebookCreateFailedMessage), s1)
    else
      var added := AddSource(s1, email, Text, content, title, add);
      var message := if added.result then NoteSavedMessage(created) else NoteSaveFailedMessage;
      Step(SaveNoteResponse(added.result, nb.value.notebookId, nb.value.notebookName, created, message), added.svc)
  }

  /** Asks the user's notebook a question. The question reaches NotebookLM
      verbatim; the answer and conversation id are taken from the reply when it
      has them, and the sources used are always reported empty. Changes neither
      the modelled store nor the modelled remote. */
  function AskQuestion(s: Service, email: Email, question: string, conversationId: Option<string>,
                       chat: (NotebookId, string) -> ChatReply): (r: Option<AskQuestionResponse>)
    ensures r.Some? <==> Lookup(s, email).Some? && s.available && chat(Lookup(s, email).value.notebookId, question).Answered?
    ensures r.Some? ==>
      var reply := chat(Lookup(s, email).value.notebookId, question);
      && r.value.sourcesUsed == []
      && r.value.answer == (if reply.answer.Some? then reply.answer.value else reply.rendered)
      && r.value.conversationId == (if reply.conversationId.Some? then reply.conversationId.value else conversationId)
  {
    var existing := Lookup(s, email);
    if existing.None? || !s.available then None
    else
      match chat(existing.value.notebookId, question)
      case ChatFailed => None
      case Answered(answer, rendered, conv) =>
        Some(AskQuestionResponse(
          if answer.Some? then answer.value else rendered,
          [],
          if conv.Some? then conv.value else conversationId))
  }

  /** The artifact kind a content type names: only "podcast" and "quiz" are known. */
  function ArtifactKindOf(contentType: string): (r: Option<ArtifactKind>)
    ensures r == Some(Audio) <==> contentType == "podcast"
    ensures r == Some(Quiz) <==> contentType == "quiz"
    ensures r.None? <==> contentType != "podcast" && contentType != "quiz"
  {
    if contentType == "podcast" then Some(Audio)
    else if contentType == "quiz" then Some(Quiz)
    else None
  }

  /** Starts generating an artifact from the user's notebook and reports the
      remote task as processing; the topic is accepted but not used. Changes
      neither the modelled store nor the modelled remote: the artifact task
      NotebookLM starts is not recorded in `Remote`. */
  function GenerateContent(s: Service, email: Email, contentType: string, topic: Option<string>,
                           artifacts: (NotebookId, ArtifactKind) -> ArtifactReply): (r: Option<GenerateContentResponse>)
    ensures r.Some? <==>
      && Lookup(s, email).Some? && s.available && ArtifactKindOf(contentType).Some?
      && artifacts(Lookup(s, email).value.notebookId, ArtifactKindOf(contentType).value).Started?
    ensures r.Some? ==>
      var reply := artifacts(Lookup(s, email).value.notebookId, ArtifactKindOf(contentType).value);
      && r.value.status == "processing"
      && r.value.contentUrl.None?
      && r.value.taskId == (if reply.id.Some? then reply.id.value else "unknown")
  {
    var existing := Lookup(s, email);
    if existing.None? || !s.available then None
    else
      match ArtifactKindOf(contentType)
      case None => None
      case Some(kind) =>
        match artifacts(existing.value.notebookId, kind)
        case ArtifactFailed => None
        case Started(id) => Some(GenerateContentResponse(if id.Some? then id.value else "unknown", "processing", None))
  }

  /** Deletes the user's remote notebook, then the local mapping. When the
      remote delete fails the mapping is kept, so the reference to the remote
      notebook is not lost. The store delete's own result is not inspected. */
  function DeleteNotebook(s: Service, email: Email, reply: Outcome, write: Outcome): (r: Step<bool>)
    ensures r.result <==> Lookup(s, email).Some? && s.available && reply.Success?
    ensures !r.result ==> r.svc == s
    ensures r.result ==>
      && r.svc.available == s.available
      && r.svc.remote.notebooks == s.remote.notebooks - {Lookup(s, email).value.notebookId}
      && r.svc.remote.added == s.remote.added
      && r.svc.db == Store.DeleteUserNotebook(s.db, email, write).db
    ensures Lookup(r.svc, email) != Lookup(s, email) ==> r.result && reply.Success?
  {
    var existing := Lookup(s, email);
    if existing.None? || !s.available || reply.Failure? then Step(false, s)
    else
      var remote := s.remote.(notebooks := s.remote.notebooks - {existing.value.notebookId});
      Step(true, s.(db := Store.DeleteUserNotebook(s.db, email, write).db, remote := remote))
  }

  /** Get-or-create is idempotent once its mapping is stored: a second call, with
      whatever the remote would answer, returns the same mapping, creates no
      remote notebook and changes nothing. */
  lemma GetOrCreateIdempotent(s: Service, email: Email, name: Option<string>, env: CreateEnv,
                              name2: Option<string>, env2: CreateEnv)
    requires s.db.connected && env.write.Success?
    requires GetOrCreateNotebook(s, email, name, env).result.Some?
    ensures var first := GetOrCreateNotebook(s, email, name, env);
      GetOrCreateNotebook(first.svc, email, name2, env2) == Step(first.result, first.svc)
  {
    var first := GetOrCreateNotebook(s, email, name, env);
    if Lookup(s, email).None? {
      Store.SaveThenGet(s.db, first.result.value, env.write);
    }
  }

  /** Without a working store nothing is remembered: every call creates a
      fresh remote notebook. */
  lemma GetOrCreateWithoutStoreCreatesEachTime(s: Service, email: Email, name: Option<string>, env: CreateEnv, env2: CreateEnv)
    requires !s.db.connected && s.available && env.reply.Created? && env2.reply.Created?
    ensures var first := GetOrCreateNotebook(s, email, name, env);
      var second := GetOrCreateNotebook(first.svc, email, name, env2);
      && second.result.Some? && second.result.value.notebookId == env2.reply.id
      && second.svc.remote.notebooks == s.remote.notebooks + {env.reply.id, env2.reply.id}
  {
  }

  /** After a successful add with a working store, the mapping ends with the new
      source and was touched at its time; its earlier sources are kept. */
  lemma AddSourceRecordsLocally(s: Service, email: Email, kind: SourceType, content: string, title: Option<string>, env: AddEnv)
    requires AddSource(s, email, kind, content, title, env).result && env.write.Success?
    ensures var before := Lookup(s, email).value;
      var after := Lookup(AddSource(s, email, kind, content, title, env).svc, email);
      && after.Some?
      && after.value.sources == before.sources + [NewSource(kind, content, title, env.addedAt)]
      && after.value.updatedAt == env.addedAt
      && after.value.notebookId == before.notebookId
  {
  }

  /** Once a delete succeeded and the store took it, the user has no mapping and
      a later add-source for that user is refused without any effect. */
  lemma DeleteThenAddRefused(s: Service, email: Email, reply: Outcome, write: Outcome,
                             kind: SourceType, content: string, title: Option<string>, env: AddEnv)
    requires DeleteNotebook(s, email, reply, write).result && write.Success?
    ensures var s1 := DeleteNotebook(s, email, reply, write).svc;
      Lookup(s1, email).None? && AddSource(s1, email, kind, content, title, env) == Step(false, s1)
  {
    var s1 := DeleteNotebook(s, email, reply, write).svc;
    Store.DeleteThenGet(s.db, email, write);
  }

  /** With a working store and a remote that accepts everything, a note is
      saved: the response names the user's notebook, says whether this call
      created it, and the mapping ends with the note. */
  lemma SaveNoteRecordsNote(s: Service, email: Email, content: string, title: Option<string>, notebookName: Option<string>,
                            create: CreateEnv, add: AddEnv)
    requires s.db.connected && s.available
    requires create.reply.Created? && create.write.Success? && add.reply.Success? && add.write.Success?
    ensures var r := SaveNote(s, email, content, title, notebookName, create, add);
      && r.result.success
      && r.result.notebookCreated == Lookup(s, email).None?
      && Lookup(r.svc, email).Some?
      && Lookup(r.svc, email).value.notebookId == r.result.notebookId
      && var sources := Lookup(r.svc, email).value.sources;
      && |sources| > 0 && sources[|sources| - 1] == NewSource(Text, content, title, add.addedAt)
  {
    if Lookup(s, email).None? {
      var mid := GetOrCreateNotebook(s, email, notebookName, create);
      Store.SaveThenGet(s.db, mid.result.value, create.write);
      AddSourceRecordsLocally(mid.svc, email, Text, content, title, add);
    } else {
      AddSourceRecordsLocally(s, email, Text, content, title, add);
    }
  }

  /** Without a working store a new notebook is created remotely but the note
      cannot be added: the response says "created" and "not saved" at once,
      leaving an orphaned remote notebook. */
  lemma SaveNoteWithoutStoreOrphansNotebook(s: Service, email: Email, content: string, title: Option<string>,
                                            notebookName: Option<string>, create: CreateEnv, add: AddEnv)
    requires !s.db.connected && s.available && create.reply.Created?
    ensures var r := SaveNote(s, email, content, title, notebookName, create, add);
      && r.result.notebookCreated && !r.result.success
      && r.result.notebookId == create.reply.id
      && create.reply.id in r.svc.remote.notebooks
      && Lookup(r.svc, email).None?
  {
  }

  /** The topic of a generation request has no effect on the outcome. */
  lemma GenerateContentIgnoresTopic(s: Service, email: Email, contentType: string, t1: Option<string>, t2: Option<string>,
                                    artifacts: (NotebookId, ArtifactKind) -> ArtifactReply)
    ensures GenerateContent(s, email, contentType, t1, artifacts) == GenerateContent(s, email, contentType, t2, artifacts)
  {
  }

  /** A failed remote delete keeps the mapping: the user can retry and the
      same remote notebook is targeted again. */
  lemma DeleteFailureKeepsMapping(s: Service, email: Email, write: Outcome, reply2: Outcome, write2: Outcome)
    requires Lookup(s, email).Some? && s.available && reply2.Success?
    ensures var s1 := DeleteNotebook(s, email, Failure, write).svc;
      && Lookup(s1, email) == Lookup(s, email)
      && DeleteNotebook(s1, email, reply2, write2).svc.remote.notebooks == s.remote.notebooks - {Lookup(s, email).value.notebookId}
  {
  }
}
