/** Fallback translation and language-incident records.

    The translation service is an oracle from the request the client would
    send to the reply it would get; the client sends at most one request, so
    the result records which request, if any, was sent. The reply is what the
    HTTP layer reports: a timeout, a transport error, or a status with a body,
    where the body may not be JSON, may be JSON but not an object, or may be
    an object whose `translated` member is absent, a string, or some other
    JSON value. */
module Fallback {
  import opened Common

  datatype TranslateRequest = TranslateRequest(text: string, source: string, target: string, useGlossary: bool)

  /** A JSON value as far as it matters here: a string, or anything else
      (null, a number, a list, an object). */
  datatype Json = JString(s: string) | JOther

  datatype Body = NotJson | NotObject | Object(translated: Option<Json>)

  datatype HttpReply = Timeout | TransportError | Response(status: int, body: Body)

  /** The value a Python function returns, as far as its type goes. */
  datatype PyValue = PyStr(s: string) | PyNonStr

  /** The result of a translation: the request sent (if any) and the text returned. */
  datatype Translation = Translation(sent: Option<TranslateRequest>, text: string)

  /** The result of the translation code as it is written, which may hand back
      a non-string. */
  datatype RawTranslation = RawTranslation(sent: Option<TranslateRequest>, value: PyValue)

  /** The client's status check passes for 2xx only. */
  predicate IsSuccessStatus(status: int)
  {
    200 <= status <= 299
  }

  /** The reply carries a translation the caller can use: a 2xx JSON object
      whose `translated` member is a string. */
  predicate UsableReply(reply: HttpReply)
  {
    reply.Response? && IsSuccessStatus(reply.status) && reply.body.Object?
    && reply.body.translated.Some? && reply.body.translated.value.JString?
  }

  /** The translation code as it is written: the same language sends nothing;
      otherwise one glossary request, and `translated` is returned whatever
      JSON value it holds, the original text when the member is missing, and
      the original text on every failure. */
  function TranslateAsWritten(text: string, sourceLang: string, targetLang: string,
                              service: TranslateRequest -> HttpReply): (r: RawTranslation)
    ensures sourceLang == targetLang ==> r == RawTranslation(None, PyStr(text))
    ensures sourceLang != targetLang ==>
      var reply := service(TranslateRequest(text, sourceLang, targetLang, true));
      && r.sent == Some(TranslateRequest(text, sourceLang, targetLang, true))
      && (reply.Response? && IsSuccessStatus(reply.status) && reply.body == Object(Some(JOther)) ==> r.value == PyNonStr)
      && (UsableReply(reply) ==> r.value == PyStr(reply.body.translated.value.s))
      && (!(reply.Response? && IsSuccessStatus(reply.status) && reply.body.Object? && reply.body.translated.Some?) ==>
            r.value == PyStr(text))
    ensures r.value.PyNonStr? ==>
      var reply := service(TranslateRequest(text, sourceLang, targetLang, true));
      reply.Response? && IsSuccessStatus(reply.status) && reply.body == Object(Some(JOther))
  {
    if sourceLang == targetLang then RawTranslation(None, PyStr(text))
    else
      var request := TranslateRequest(text, sourceLang, targetLang, true);
      var value := match service(request)
        case Timeout => PyStr(text)
        case TransportError => PyStr(text)
        case Response(status, body) =>
          if !IsSuccessStatus(status) then PyStr(text)
          else match body
            case NotJson => PyStr(text)
            case NotObject => PyStr(text)
            case Object(None) => PyStr(text)
            case Object(Some(JString(t))) => PyStr(t)
            case Object(Some(JOther)) => PyNonStr;
      RawTranslation(Some(request), value)
  }

  /** A 2xx reply of `{"translated": null}` makes the code as written return a
      non-string, although the function promises a string. */
  lemma NullTranslationEscapes()
    ensures TranslateAsWritten("Hello", "en", "es", _ => Response(200, Object(Some(JOther)))).value == PyNonStr
  {
  }

  /** Translates `text`, failing open: the same language is a no-op that sends
      nothing; otherwise exactly one glossary-aware request is sent and the
      original text comes back unless the reply holds a usable translation. */
  function TranslateResponse(text: string, sourceLang: string, targetLang: string,
                             service: TranslateRequest -> HttpReply): (r: Translation)
    ensures sourceLang == targetLang ==> r == Translation(None, text)
    ensures sourceLang != targetLang ==> r.sent == Some(TranslateRequest(text, sourceLang, targetLang, true))
    ensures sourceLang != targetLang ==>
      var reply := service(TranslateRequest(text, sourceLang, targetLang, true));
      && (UsableReply(reply) ==> r.text == reply.body.translated.value.s)
      && (!UsableReply(reply) ==> r.text == text)
    ensures r.text != text ==> r.sent.Some? && UsableReply(service(r.sent.value))
  {
    if sourceLang == targetLang then Translation(None, text)
    else
      var request := TranslateRequest(text, sourceLang, targetLang, true);
      var reply := service(request);
      Translation(Some(request), if UsableReply(reply) then reply.body.translated.value.s else text)
  }

  /** The correction changes nothing where the code as written already returns
      a string: it only turns a non-string `translated` into the original text. */
  lemma TranslateAgreesWithAsWritten(text: string, sourceLang: string, targetLang: string,
                                     service: TranslateRequest -> HttpReply)
    ensures var raw := TranslateAsWritten(text, sourceLang, targetLang, service);
      var fixed := TranslateResponse(text, sourceLang, targetLang, service);
      && fixed.sent == raw.sent
      && (raw.value.PyStr? ==> fixed.text == raw.value.s)
      && (raw.value.PyNonStr? ==> fixed.text == text)
  {
  }

  /** With equal languages the service is never consulted: any two services
      give the same result. */
  lemma SameLanguageIgnoresService(text: string, lang: string, s1: TranslateRequest -> HttpReply, s2: TranslateRequest -> HttpReply)
    ensures TranslateResponse(text, lang, lang, s1) == TranslateResponse(text, lang, lang, s2)
  {
  }

  /** A timeout, a transport error or a non-2xx status gives back the original text. */
  lemma FailuresReturnOriginal(text: string, sourceLang: string, targetLang: string, service: TranslateRequest -> HttpReply)
    requires var reply := service(TranslateRequest(text, sourceLang, targetLang, true));
      reply.Timeout? || reply.TransportError? || (reply.Response? && !IsSuccessStatus(reply.status))
    ensures TranslateResponse(text, sourceLang, targetLang, service).text == text
  {
  }

  /** The most characters of a question or response an incident keeps. */
  const PreviewLength := 100

  /** Python's `s[:100] if s else None`. */
  function Preview(s: string): (p: Option<string>)
    ensures p.None? <==> s == []
    ensures p.Some? ==> p.value <= s && |p.value| == if |s| < PreviewLength then |s| else PreviewLength
  {
    if s == [] then None
    else if |s| <= PreviewLength then Some(s)
    else Some(s[..PreviewLength])
  }

  /** A wrong-language incident as it is logged. */
  datatype Incident = Incident(
    userEmail: string,
    expectedLang: string,
    detectedLang: string,
    questionPreview: Option<string>,
    responsePreview: Option<string>,
    timestamp: int)

  /** The record of a wrong-language answer: identifiers verbatim, the question
      and the response cut to previews. */
  function LogLanguageIncident(userEmail: string, expectedLang: string, detectedLang: string,
                               question: string, response: string, now: int): (i: Incident)
    ensures i.userEmail == userEmail && i.expectedLang == expectedLang && i.detectedLang == detectedLang
    ensures i.timestamp == now
    ensures i.questionPreview == Preview(question) && i.responsePreview == Preview(response)
    ensures i.questionPreview.None? <==> question == []
    ensures i.questionPreview.Some? ==> i.questionPreview.value <= question && |i.questionPreview.value| <= PreviewLength
    ensures i.responsePreview.None? <==> response == []
    ensures i.responsePreview.Some? ==> i.responsePreview.value <= response && |i.responsePreview.value| <= PreviewLength
  {
    Incident(userEmail, expectedLang, detectedLang, Preview(question), Preview(response), now)
  }

  /** A preview of something short enough is the whole of it, and previewing a
      preview changes nothing. */
  lemma PreviewIdempotent(s: string)
    ensures |s| <= PreviewLength ==> Preview(s) == (if s == [] then None else Some(s))
    ensures Preview(s).Some? ==> Preview(Preview(s).value) == Preview(s)
  {
  }
}
