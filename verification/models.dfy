/** The records exchanged by the notebook microservice: the kinds of source a
    notebook accepts, a recorded source, the user-to-notebook mapping, and the
    responses of the question, generation and note operations. */
module Models {
  import opened Common

  type Email = string
  type NotebookId = string

  /** A point in time; only equality and the order of readings matter here. */
  type Timestamp = int

  /** The closed set of source kinds a notebook accepts. */
  datatype SourceType = Url | File | Text | YouTube

  /** The string value each kind carries on the wire and in the store. */
  function SourceTypeValue(t: SourceType): string
  {
    match t
    case Url => "url"
    case File => "file"
    case Text => "text"
    case YouTube => "youtube"
  }

  /** Looking a kind up by its string value; an unknown value is rejected. */
  function ParseSourceType(s: string): (r: Option<SourceType>)
    ensures r.Some? ==> SourceTypeValue(r.value) == s
    ensures r.None? ==> forall t :: SourceTypeValue(t) != s
  {
    if s == "url" then Some(Url)
    else if s == "file" then Some(File)
    else if s == "text" then Some(Text)
    else if s == "youtube" then Some(YouTube)
    else None
  }

  /** Every kind survives the trip to its string value and back. */
  lemma SourceTypeRoundTrip(t: SourceType)
    ensures ParseSourceType(SourceTypeValue(t)) == Some(t)
  {
  }

  /** Distinct kinds have distinct string values. */
  lemma SourceTypeValueInjective(t: SourceType, u: SourceType)
    ensures SourceTypeValue(t) == SourceTypeValue(u) ==> t == u
  {
  }

  /** A source recorded in a user's mapping; it has no remote source id unless one is given. */
  datatype NotebookSource = NotebookSource(
    sourceId: Option<string> := None,
    sourceType: SourceType,
    content: string,
    title: Option<string>,
    addedAt: Timestamp)

  /** A source built the way the service builds one: no remote source id. */
  function NewSource(sourceType: SourceType, content: string, title: Option<string>, addedAt: Timestamp): (r: NotebookSource)
    ensures r.sourceId.None?
    ensures r.sourceType == sourceType && r.content == content && r.title == title && r.addedAt == addedAt
  {
    NotebookSource(sourceType := sourceType, content := content, title := title, addedAt := addedAt)
  }

  /** The mapping between a user's email and that user's notebook. */
  datatype UserNotebook = UserNotebook(
    userEmail: Email,
    notebookId: NotebookId,
    notebookName: string,
    sources: seq<NotebookSource> := [],
    createdAt: Timestamp,
    updatedAt: Timestamp)

  /** The answer to a question; the service never fills `sourcesUsed`. */
  datatype AskQuestionResponse = AskQuestionResponse(
    answer: string,
    sourcesUsed: seq<string> := [],
    conversationId: Option<string> := None)

  /** The answer to a generation request: a remote task that is still running. */
  datatype GenerateContentResponse = GenerateContentResponse(
    taskId: string,
    status: string,
    contentUrl: Option<string>)

  /** The answer to a save-note request. */
  datatype SaveNoteResponse = SaveNoteResponse(
    success: bool,
    notebookId: NotebookId,
    notebookName: string,
    notebookCreated: bool,
    message: string)
}
