/** Glossary provisioning: attaching the chess terminology glossary to a
    notebook as a text source. The NotebookLM client's `add_text` is an oracle
    from the call to its outcome; the result records the calls made. */
module Glossary {
  import opened Common

  /** The glossary document. Its wording (the English-Spanish chess terms and
      the notation rules) is not part of this model; only its identity is. */
  const GlossarySourceTemplate: string

  const GlossaryTitle := "Chess Terminology Glossary"

  /** The only language a glossary exists for. */
  const GlossaryLanguage := "es"

  datatype AddTextCall = AddTextCall(notebookId: string, title: string, content: string)

  /** The calls made and whether the glossary was added. */
  datatype Provision = Provision(calls: seq<AddTextCall>, added: bool)

  /** For Spanish, one `add_text` call with the glossary; true exactly when that
      call succeeded, and a failed call is reported as false rather than
      raised. For any other language, no call and false. */
  function AddGlossarySourceToNotebook(addText: AddTextCall -> Outcome, notebookId: string,
                                       targetLang: string := GlossaryLanguage): (r: Provision)
    ensures targetLang != GlossaryLanguage ==> r == Provision([], false)
    ensures targetLang == GlossaryLanguage ==>
      && r.calls == [AddTextCall(notebookId, GlossaryTitle, GlossarySourceTemplate)]
      && (r.added <==> addText(r.calls[0]).Success?)
    ensures r.added ==> |r.calls| == 1 && addText(r.calls[0]).Success?
  {
    if targetLang != GlossaryLanguage then Provision([], false)
    else
      var call := AddTextCall(notebookId, GlossaryTitle, GlossarySourceTemplate);
      Provision([call], addText(call).Success?)
  }

  /** Leaving the language out means Spanish: the glossary is added. */
  lemma DefaultLanguageProvisions(addText: AddTextCall -> Outcome, notebookId: string)
    ensures AddGlossarySourceToNotebook(addText, notebookId) == AddGlossarySourceToNotebook(addText, notebookId, "es")
    ensures |AddGlossarySourceToNotebook(addText, notebookId).calls| == 1
  {
  }

  /** Whether the glossary is added depends only on the remote's answer for the
      one call, never on anything else the client would do. */
  lemma ProvisionDependsOnlyOnTheCall(a1: AddTextCall -> Outcome, a2: AddTextCall -> Outcome, notebookId: string, targetLang: string)
    requires a1(AddTextCall(notebookId, GlossaryTitle, GlossarySourceTemplate)) == a2(AddTextCall(notebookId, GlossaryTitle, GlossarySourceTemplate))
    ensures AddGlossarySourceToNotebook(a1, notebookId, targetLang) == AddGlossarySourceToNotebook(a2, notebookId, targetLang)
  {
  }
}
