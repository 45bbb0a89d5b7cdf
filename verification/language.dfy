/** Language utilities: cleaning text before language detection, the
    detection gate, the verdict on whether a response is in the expected
    language, and the prompt that asks for a Spanish answer.

    The chess-notation removal pass (four regular-expression substitutions)
    and the statistical language classifier are parameters: the first is any
    `string -> string`, the second answers which language, if any, it sees in
    a text and how confident it is in a given language. */
module Language {
  import opened Common

  /** The languages the classifier was built for. */
  datatype Lang = English | Spanish

  /** A confidence score as the classifier reports it. */
  type Confidence = r: real | 0.0 <= r <= 1.0

  /** The classifier: `classify` is the language it decides on (none if the
      text is ambiguous), `confidence(t, l)` its confidence that `t` is in `l`. */
  datatype Detector = Detector(classify: string -> Option<Lang>, confidence: (string, Lang) -> Confidence)

  /** A detection verdict: a language with the classifier's confidence in it,
      or no verdict (reported as "unknown" with confidence 0.0). */
  datatype Detection = Detected(lang: Lang, score: Confidence) | Undetermined {

    /** The language code the verdict is reported as. */
    function Code(): (c: string)
      ensures c == "en" || c == "es" || c == "unknown"
      ensures c == "unknown" <==> Undetermined?
    {
      if Undetermined? then "unknown" else LangCode(lang)
    }

    /** The confidence the verdict is reported with. */
    function Confidence(): (r: real)
      ensures 0.0 <= r <= 1.0
      ensures Undetermined? ==> r == 0.0
    {
      if Undetermined? then 0.0 else score
    }
  }

  /** Below this many characters of cleaned text no detection is attempted. */
  const MinDetectLength := 20

  /** Python's whitespace (`str.isspace`, which is also what `\s` and
      `str.strip` use for text). */
  predicate IsSpace(c: char)
  {
    || c == ' ' || '\t' <= c <= '\r' || '\U{001C}' <= c <= '\U{001F}'
    || c == '\U{0085}' || c == '\U{00A0}' || c == '\U{1680}' || '\U{2000}' <= c <= '\U{200A}'
    || c == '\U{2028}' || c == '\U{2029}' || c == '\U{202F}' || c == '\U{205F}' || c == '\U{3000}'
  }

  /** No two whitespace characters are adjacent. */
  predicate NoDoubleSpace(s: string)
  {
    forall i :: 0 <= i < |s| - 1 ==> !(IsSpace(s[i]) && IsSpace(s[i + 1]))
  }

  /** The only whitespace character in `s` is the plain space. */
  predicate OnlyPlainSpaces(s: string)
  {
    forall i :: 0 <= i < |s| && IsSpace(s[i]) ==> s[i] == ' '
  }

  /** `s` neither starts nor ends with whitespace. */
  predicate Trimmed(s: string)
  {
    s == [] || (!IsSpace(s[0]) && !IsSpace(s[|s| - 1]))
  }

  /** The shape the whitespace clean-up produces: trimmed, single plain spaces. */
  predicate Collapsed(s: string)
  {
    Trimmed(s) && NoDoubleSpace(s) && OnlyPlainSpaces(s)
  }

  /** The last character of a non-empty string. */
  function Last(s: string): char
    requires s != []
  {
    s[|s| - 1]
  }

  /** The non-whitespace characters of `s`, in order. */
  function NonSpace(s: string): string
  {
    if s == [] then [] else (if IsSpace(s[0]) then [] else [s[0]]) + NonSpace(s[1..])
  }

  lemma {:induction false} NonSpaceAppend(a: string, b: string)
    ensures NonSpace(a + b) == NonSpace(a) + NonSpace(b)
    decreases |a|
  {
    if a == [] {
      assert a + b == b;
    } else {
      assert (a + b)[1..] == a[1..] + b;
      NonSpaceAppend(a[1..], b);
    }
  }

  /** Python's `s.split()`: the maximal runs of non-whitespace characters, in
      order. A character that starts no new word extends the word after it. */
  function Words(s: string): (ws: seq<string>)
    ensures s != [] && !IsSpace(s[0]) ==> |ws| > 0
    decreases |s|
  {
    if s == [] then []
    else
      var rest := Words(s[1..]);
      if IsSpace(s[0]) then rest
      else if s[1..] != [] && !IsSpace(s[1]) then [[s[0]] + rest[0]] + rest[1..]
      else [[s[0]]] + rest
  }

  /** Python's `" ".join(ws)`. */
  function JoinSpace(ws: seq<string>): string
    decreases |ws|
  {
    if ws == [] then []
    else if |ws| == 1 then ws[0]
    else ws[0] + " " + JoinSpace(ws[1..])
  }

  /** Whitespace in front of a text does not change its words. */
  lemma {:induction false} WordsAfterSpaces(w: string, t: string)
    requires forall i :: 0 <= i < |w| ==> IsSpace(w[i])
    ensures Words(w + t) == Words(t)
    decreases |w|
  {
    if w != [] {
      assert (w + t)[1..] == w[1..] + t;
      WordsAfterSpaces(w[1..], t);
    } else {
      assert w + t == t;
    }
  }

  /** A leading whitespace character does not change the words. */
  lemma SpaceConsWords(c: char, x: string)
    requires IsSpace(c)
    ensures Words([c] + x) == Words(x)
  {
    assert ([c] + x)[1..] == x;
  }

  /** Putting a non-whitespace character in front of two texts with the same
      words, which both start a word or both do not, gives the same words. */
  lemma CharConsWords(c: char, x: string, y: string)
    requires !IsSpace(c) && Words(x) == Words(y)
    requires x == [] <==> y == []
    requires x != [] ==> (IsSpace(x[0]) <==> IsSpace(y[0]))
    ensures Words([c] + x) == Words([c] + y)
  {
    assert ([c] + x)[1..] == x;
    assert ([c] + y)[1..] == y;
  }

  /** Python's `s.lstrip()` keeps the words. */
  lemma {:induction false} StripLeftWords(s: string)
    ensures Words(StripLeft(s)) == Words(s)
    decreases |s|
  {
    if s != [] && IsSpace(s[0]) {
      StripLeftWords(s[1..]);
    }
  }

  /** Whitespace after a text does not change its words. */
  lemma {:induction false} WordsBeforeSpaces(t: string, w: string)
    requires forall i :: 0 <= i < |w| ==> IsSpace(w[i])
    ensures Words(t + w) == Words(t)
    decreases |t|
  {
    if t == [] {
      assert t + w == w + [];
      WordsAfterSpaces(w, []);
    } else {
      assert (t + w)[1..] == t[1..] + w;
      WordsBeforeSpaces(t[1..], w);
    }
  }

  /** Gluing a character to the first word glues it to the joined text. */
  lemma JoinSpaceGlue(c: char, ws: seq<string>)
    requires ws != []
    ensures JoinSpace([[c] + ws[0]] + ws[1..]) == [c] + JoinSpace(ws)
  {
    var vs := [[c] + ws[0]] + ws[1..];
    assert vs[0] == [c] + ws[0] && vs[1..] == ws[1..];
    if |ws| > 1 {
      assert JoinSpace(vs) == [c] + ws[0] + " " + JoinSpace(ws[1..]);
    }
  }

  /** A word character in front of a joined text that starts with a word
      character lengthens that text's first word. */
  lemma JoinGlueChar(c: char, t: string)
    requires !IsSpace(c) && t != [] && !IsSpace(t[0])
    requires t == JoinSpace(Words(t))
    ensures [c] + t == JoinSpace(Words([c] + t))
  {
    var ws := Words(t);
    assert ([c] + t)[1..] == t;
    assert Words([c] + t) == [[c] + ws[0]] + ws[1..];
    JoinSpaceGlue(c, ws);
  }

  /** A one-character word in front of a space and a text that starts with a
      word character adds that word in front of the text's words. */
  lemma WordsSpaceStep(c: char, u: string)
    requires !IsSpace(c) && u != [] && !IsSpace(u[0])
    ensures Words([c] + " " + u) == [[c]] + Words(u)
  {
    var t := " " + u;
    assert [c] + " " + u == [c] + t;
    SpaceConsWords(' ', u);
    WordBeforeSpace(c, t);
  }

  /** A word character followed by whitespace is a one-character word. */
  lemma WordBeforeSpace(c: char, t: string)
    requires !IsSpace(c) && t != [] && IsSpace(t[0])
    ensures Words([c] + t) == [[c]] + Words(t)
  {
    assert ([c] + t)[1..] == t;
  }

  /** Joining one more word in front puts it and a space before the join. */
  lemma JoinSpaceCons(w: string, ws: seq<string>)
    requires ws != []
    ensures JoinSpace([w] + ws) == w + " " + JoinSpace(ws)
  {
    assert ([w] + ws)[1..] == ws;
  }

  /** A one-character word, a plain space and a joined text is the join of
      that word and the text's words. */
  lemma JoinSpaceStep(c: char, u: string)
    requires !IsSpace(c) && u != [] && !IsSpace(u[0])
    requires u == JoinSpace(Words(u))
    ensures [c] + " " + u == JoinSpace(Words([c] + " " + u))
  {
    WordsSpaceStep(c, u);
    JoinSpaceCons([c], Words(u));
  }

  /** A string with no whitespace at its ends and single plain spaces inside
      is its words joined by spaces. */
  lemma {:induction false} CollapsedIsJoinedWords(r: string)
    requires Collapsed(r)
    ensures r == JoinSpace(Words(r))
    decreases |r|
  {
    if r != [] {
      var t := r[1..];
      SuffixKeepsShape(r, 1);
      assert r == [r[0]] + t;
      if t == [] {
      } else if !IsSpace(t[0]) {
        CollapsedIsJoinedWords(t);
        JoinGlueChar(r[0], t);
      } else {
        var u := t[1..];
        SuffixKeepsShape(t, 1);
        assert u != [] && !IsSpace(u[0]) && t[0] == ' ';
        CollapsedIsJoinedWords(u);
        assert r == [r[0]] + " " + u;
        JoinSpaceStep(r[0], u);
      }
    }
  }

  /** Python's `s.lstrip()`. */
  function StripLeft(s: string): (r: string)
    ensures |r| <= |s| && r == s[|s| - |r|..]
    ensures r == [] || !IsSpace(r[0])
    ensures forall i :: 0 <= i < |s| - |r| ==> IsSpace(s[i])
    ensures NonSpace(r) == NonSpace(s)
    decreases |s|
  {
    if s != [] && IsSpace(s[0]) then StripLeft(s[1..]) else s
  }

  /** Python's `s.rstrip()`. */
  function StripRight(s: string): (r: string)
    ensures |r| <= |s| && r == s[..|r|]
    ensures r == [] || !IsSpace(r[|r| - 1])
    ensures forall i :: |r| <= i < |s| ==> IsSpace(s[i])
    ensures NonSpace(r) == NonSpace(s)
    decreases |s|
  {
    if s != [] && IsSpace(s[|s| - 1]) then
      var t := s[..|s| - 1];
      assert s == t + [s[|s| - 1]];
      NonSpaceAppend(t, [s[|s| - 1]]);
      StripRight(t)
    else s
  }

  /** Python's `s.strip()`: both ends lose their whitespace. */
  function Strip(s: string): (r: string)
    ensures Trimmed(r)
    ensures NonSpace(r) == NonSpace(s)
    ensures |r| <= |s|
  {
    var l := StripLeft(s);
    var r := StripRight(l);
    assert r != [] ==> r[0] == l[0];
    r
  }

  /** Every character of `w` is whitespace. */
  predicate AllSpace(w: string)
  {
    forall k :: 0 <= k < |w| ==> IsSpace(w[k])
  }

  /** What `s.lstrip()` drops is whitespace. */
  lemma StripLeftDropsSpace(s: string)
    ensures AllSpace(s[..|s| - |StripLeft(s)|])
  {
    var w := s[..|s| - |StripLeft(s)|];
    assert forall k :: 0 <= k < |w| ==> w[k] == s[k];
  }

  /** What `s.rstrip()` drops is whitespace. */
  lemma StripRightDropsSpace(s: string)
    ensures AllSpace(s[|StripRight(s)|..])
  {
    var n := |StripRight(s)|;
    var w := s[n..];
    assert forall k :: 0 <= k < |w| ==> w[k] == s[n + k];
  }

  /** `StripRightDropsSpace` for a named result. */
  lemma RightDropped(s: string, r: string)
    requires r == StripRight(s)
    ensures |r| <= |s| && AllSpace(s[|r|..])
  {
    StripRightDropsSpace(s);
  }

  /** Whitespace after the first `n` characters of a suffix `l` of `s` is
      whitespace at the end of `s`. */
  lemma AllSpaceTail(s: string, l: string, n: nat)
    requires |l| <= |s| && l == s[|s| - |l|..] && n <= |l|
    requires AllSpace(l[n..])
    ensures AllSpace(s[|s| - |l| + n..])
  {
    SuffixTail(s, l, n);
  }

  /** What `s.strip()` returns, `r`, is one slice of `s`, starting where
      `s.lstrip()`, `l`, starts: the words and everything between them stay
      where they were. The two results are parameters fixed by the `requires`
      rather than calls inside the `ensures`: written over `s` alone, the
      obligation exceeds the verifier's resource budget on some solver seeds. */
  lemma StripIsSlice(s: string, l: string, r: string)
    requires l == StripLeft(s) && r == Strip(s)
    ensures var i := |s| - |l|;
      && i + |r| <= |s|
      && s == s[..i] + r + s[i + |r|..]
  {
    assert r == StripRight(l);
    PrefixOfSuffix(s, l, r);
  }

  /** After the slice `s.strip()` keeps there is only whitespace (before it,
      see `StripLeftDropsSpace`). Stated over named results for the same
      resource reason as `StripIsSlice`. */
  lemma StripDropsTrailingSpace(s: string, l: string, r: string)
    requires l == StripLeft(s) && r == Strip(s)
    ensures |s| - |l| + |r| <= |s| && AllSpace(s[|s| - |l| + |r|..])
  {
    assert r == StripRight(l);
    RightDropped(l, r);
    AllSpaceTail(s, l, |r|);
  }

  /** Python's `s.rstrip()` keeps the words. */
  lemma StripRightWords(s: string)
    ensures Words(StripRight(s)) == Words(s)
  {
    var r := StripRight(s);
    assert s == r + s[|r|..];
    WordsBeforeSpaces(r, s[|r|..]);
  }

  /** Python's `s.strip()` keeps the words. */
  lemma StripKeepsWords(s: string)
    ensures Words(Strip(s)) == Words(s)
  {
    StripLeftWords(s);
    StripRightWords(StripLeft(s));
  }

  /** Python's `re.sub(r'\s+', ' ', s)`: every run of whitespace becomes one
      plain space. */
  function CollapseRuns(s: string): (r: string)
    ensures NoDoubleSpace(r) && OnlyPlainSpaces(r)
    ensures |r| <= |s|
    ensures r == [] <==> s == []
    ensures r != [] ==> (IsSpace(r[0]) <==> IsSpace(s[0]))
    ensures NonSpace(r) == NonSpace(s)
    decreases |s|
  {
    if s == [] then []
    else if IsSpace(s[0]) then
      var rest := CollapseRuns(StripLeft(s[1..]));
      assert ([' '] + rest)[1..] == rest;
      [' '] + rest
    else
      var rest := CollapseRuns(s[1..]);
      assert ([s[0]] + rest)[1..] == rest;
      [s[0]] + rest
  }

  /** Replacing the whitespace runs keeps the words as they are: each run
      becomes exactly one space, so no word is split, joined or dropped. */
  lemma {:induction false} CollapseRunsKeepsWords(s: string)
    ensures Words(CollapseRuns(s)) == Words(s)
    decreases |s|
  {
    if s != [] {
      if IsSpace(s[0]) {
        var rest := CollapseRuns(StripLeft(s[1..]));
        CollapseRunsKeepsWords(StripLeft(s[1..]));
        StripLeftWords(s[1..]);
        SpaceConsWords(' ', rest);
      } else {
        var rest := CollapseRuns(s[1..]);
        CollapseRunsKeepsWords(s[1..]);
        CharConsWords(s[0], rest, s[1..]);
        assert s == [s[0]] + s[1..];
      }
    }
  }

  /** Whitespace at the end of the text is kept as one space there. */
  lemma {:induction false} CollapseRunsKeepsEnd(s: string)
    requires s != []
    ensures IsSpace(Last(CollapseRuns(s))) <==> IsSpace(Last(s))
    decreases |s|
  {
    var r := CollapseRuns(s);
    if IsSpace(s[0]) {
      var t := StripLeft(s[1..]);
      if t == [] {
        assert |s| == 1 || IsSpace(s[1..][|s| - 2]);
      } else {
        CollapseRunsKeepsEnd(t);
        assert Last(t) == Last(s);
      }
    } else if |s| > 1 {
      CollapseRunsKeepsEnd(s[1..]);
    }
  }

  /** A suffix of a string without whitespace runs has none either. */
  lemma SuffixKeepsShape(s: string, k: nat)
    requires k <= |s| && NoDoubleSpace(s) && OnlyPlainSpaces(s)
    ensures NoDoubleSpace(s[k..]) && OnlyPlainSpaces(s[k..])
  {
    var t := s[k..];
    assert forall i :: 0 <= i < |t| ==> t[i] == s[k + i];
  }

  /** A prefix of a string without whitespace runs has none either. */
  lemma PrefixKeepsShape(s: string, n: nat)
    requires n <= |s| && NoDoubleSpace(s) && OnlyPlainSpaces(s)
    ensures NoDoubleSpace(s[..n]) && OnlyPlainSpaces(s[..n])
  {
    var t := s[..n];
    assert forall i :: 0 <= i < |t| ==> t[i] == s[i];
  }

  /** Stripping a string without whitespace runs leaves it in collapsed form. */
  lemma StripKeepsShape(c: string)
    requires NoDoubleSpace(c) && OnlyPlainSpaces(c)
    ensures Collapsed(Strip(c))
  {
    var l := StripLeft(c);
    SuffixKeepsShape(c, |c| - |l|);
    var r := StripRight(l);
    PrefixKeepsShape(l, |r|);
    assert Strip(c) == r;
    assert NoDoubleSpace(r) && OnlyPlainSpaces(r) && Trimmed(r);
  }

  /** The whitespace clean-up after the notation pass: runs of whitespace
      collapse to single spaces and both ends are trimmed, which is Python's
      `" ".join(s.split())`. */
  function CollapseWhitespace(s: string): (r: string)
    ensures r == JoinSpace(Words(s))
    ensures Collapsed(r)
    ensures |r| <= |s|
    ensures NonSpace(r) == NonSpace(s)
  {
    var c := CollapseRuns(s);
    StripKeepsShape(c);
    CollapseRunsKeepsWords(s);
    StripKeepsWords(c);
    CollapsedIsJoinedWords(Strip(c));
    Strip(c)
  }

  /** A string already in collapsed form is left as it is. */
  lemma {:induction false} CollapseRunsFixpoint(s: string)
    requires NoDoubleSpace(s) && OnlyPlainSpaces(s)
    ensures CollapseRuns(s) == s
    decreases |s|
  {
    if s != [] {
      var t := s[1..];
      SuffixKeepsShape(s, 1);
      if IsSpace(s[0]) {
        assert t == [] || !IsSpace(t[0]);
        assert StripLeft(t) == t;
      }
      CollapseRunsFixpoint(t);
      assert s == [s[0]] + t;
    }
  }

  /** Cleaning whitespace twice is the same as cleaning it once. */
  lemma CollapseWhitespaceIdempotent(s: string)
    ensures CollapseWhitespace(CollapseWhitespace(s)) == CollapseWhitespace(s)
  {
    var r := CollapseWhitespace(s);
    CollapseRunsFixpoint(r);
    assert StripLeft(r) == r;
    assert StripRight(r) == r;
  }

  /** The text the classifier sees: the notation pass, then the whitespace clean-up. */
  function StripChessNotation(text: string, removeNotation: string -> string): (r: string)
    ensures r == JoinSpace(Words(removeNotation(text)))
    ensures Collapsed(r) && |r| <= |removeNotation(text)|
  {
    CollapseWhitespace(removeNotation(text))
  }

  function LangCode(l: Lang): (c: string)
    ensures c == "en" <==> l == English
    ensures c == "es" <==> l == Spanish
    ensures c != "unknown"
  {
    match l
    case English => "en"
    case Spanish => "es"
  }

  /** The verdict on cleaned text: none for text too short to judge, without
      asking the classifier; otherwise the classifier's language with its
      confidence in that same language, or none if it chose no language. */
  function JudgeCleaned(cleaned: string, detector: Detector): (d: Detection)
    ensures |cleaned| < MinDetectLength ==> d == Undetermined
    ensures d.Detected? ==>
      && |cleaned| >= MinDetectLength
      && detector.classify(cleaned) == Some(d.lang)
      && d.score == detector.confidence(cleaned, d.lang)
    ensures d.Undetermined? && |cleaned| >= MinDetectLength ==> detector.classify(cleaned).None?
  {
    if |cleaned| < MinDetectLength then Undetermined
    else
      match detector.classify(cleaned)
      case Some(l) => Detected(l, detector.confidence(cleaned, l))
      case None => Undetermined
  }

  /** The language of a response: no verdict for empty text or for text too
      short to judge once its notation and extra whitespace are removed;
      otherwise the classifier's language for the cleaned text, with its
      confidence in that same language. */
  function DetectResponseLanguage(text: string, removeNotation: string -> string, detector: Detector): (d: Detection)
    ensures text == [] || |StripChessNotation(text, removeNotation)| < MinDetectLength ==> d == Undetermined
    ensures d.Detected? ==>
      var cleaned := StripChessNotation(text, removeNotation);
      && text != [] && |cleaned| >= MinDetectLength
      && detector.classify(cleaned) == Some(d.lang)
      && d.score == detector.confidence(cleaned, d.lang)
    ensures d.Undetermined? && text != [] && |StripChessNotation(text, removeNotation)| >= MinDetectLength ==>
      detector.classify(StripChessNotation(text, removeNotation)).None?
  {
    if text == [] then Undetermined
    else JudgeCleaned(StripChessNotation(text, removeNotation), detector)
  }

  /** As reported: the code is "en", "es" or "unknown", the confidence lies in
      [0, 1] and is 0.0 for "unknown"; a known code is the classifier's choice
      and the confidence is the classifier's confidence in that language. */
  lemma DetectionAsReported(text: string, removeNotation: string -> string, detector: Detector)
    ensures var d := DetectResponseLanguage(text, removeNotation, detector);
      var cleaned := StripChessNotation(text, removeNotation);
      && (d.Code() == "en" || d.Code() == "es" || d.Code() == "unknown")
      && 0.0 <= d.Confidence() <= 1.0
      && (d.Code() == "unknown" ==> d.Confidence() == 0.0)
      && (d.Code() == "en" ==> detector.classify(cleaned) == Some(English) && d.Confidence() == detector.confidence(cleaned, English))
      && (d.Code() == "es" ==> detector.classify(cleaned) == Some(Spanish) && d.Confidence() == detector.confidence(cleaned, Spanish))
  {
  }

  /** Text that is short after cleaning is judged without the classifier: any
      two classifiers give the same verdict on it. */
  lemma ShortTextIgnoresDetector(text: string, removeNotation: string -> string, d1: Detector, d2: Detector)
    requires |StripChessNotation(text, removeNotation)| < MinDetectLength
    ensures DetectResponseLanguage(text, removeNotation, d1) == DetectResponseLanguage(text, removeNotation, d2) == Undetermined
  {
  }

  /** When the notation pass never lengthens a text (each of its patterns
      matches at least two characters and is replaced by one space), any text
      shorter than the minimum is "unknown", whatever it says. */
  lemma ShortInputIsUnknown(text: string, removeNotation: string -> string, detector: Detector)
    requires |text| < MinDetectLength
    requires forall t :: |removeNotation(t)| <= |t|
    ensures DetectResponseLanguage(text, removeNotation, detector) == Undetermined
  {
  }

  /** Whether a verdict passes for a non-English expectation: no verdict
      passes; otherwise the verdict must name the expected language with
      confidence above one half. */
  function AcceptsVerdict(d: Detection, expectedLang: string): (ok: bool)
    ensures d.Undetermined? ==> ok
    ensures d.Detected? ==> (ok <==> LangCode(d.lang) == expectedLang && d.score > 0.5)
    ensures expectedLang != "en" && expectedLang != "es" ==> (ok <==> d.Undetermined?)
  {
    if d.Code() == "unknown" then true
    else d.Code() == expectedLang && d.Confidence() > 0.5
  }

  /** Whether a response is in the expected language. English is never
      checked; any other expectation is decided on the response's verdict. */
  function IsLanguageCorrect(responseText: string, expectedLang: string, removeNotation: string -> string, detector: Detector): (ok: bool)
    ensures expectedLang == "en" ==> ok
    ensures expectedLang != "en" ==> ok == AcceptsVerdict(DetectResponseLanguage(responseText, removeNotation, detector), expectedLang)
    ensures !ok ==> expectedLang != "en" && |StripChessNotation(responseText, removeNotation)| >= MinDetectLength
  {
    if expectedLang == "en" then true
    else AcceptsVerdict(DetectResponseLanguage(responseText, removeNotation, detector), expectedLang)
  }

  /** Confidence of exactly one half is not enough: a Spanish detection at 0.5
      fails a Spanish expectation. */
  lemma HalfConfidenceIsNotEnough(responseText: string, removeNotation: string -> string, detector: Detector)
    ensures !AcceptsVerdict(Detected(Spanish, 0.5), "es")
    ensures DetectResponseLanguage(responseText, removeNotation, detector) == Detected(Spanish, 0.5) ==>
      !IsLanguageCorrect(responseText, "es", removeNotation, detector)
  {
  }

  /** The directive put in front of a question that must be answered in Spanish. */
  const SpanishInstruction := "[IMPORTANT: Respond in Spanish. Use the chess terminology from the glossary source. Keep all chess notation (Nf3, O-O, exd5) in standard algebraic notation - do not translate moves. Translate piece names when explaining: 'el caballo en f3' but notation stays 'Nf3'.]\n\n"

  /** The directive for a target language; empty for every language but Spanish. */
  function LanguageInstruction(targetLang: string): (r: string)
    ensures r == "" <==> targetLang != "es"
    ensures targetLang == "es" ==> r == SpanishInstruction
  {
    if targetLang == "es" then SpanishInstruction else ""
  }

  /** The display name of a language code; an unlisted code names itself. */
  function LanguageName(code: string): string
  {
    if code == "en" then "English" else if code == "es" then "Spanish" else code
  }

  /** Whether the prompt notes that the user wrote in another language. */
  predicate NotesUserLanguage(targetLang: string, userWritesIn: Option<string>)
  {
    Truthy(userWritesIn) && userWritesIn.value != targetLang && userWritesIn.value != "unknown"
  }

  /** The note's wording, given the two languages' display names. */
  function NoteText(userLangName: string, targetLangName: string): string
  {
    "[Note: The user wrote in " + userLangName + " but prefers responses in " + targetLangName + ".]\n\n"
  }

  /** The note telling the notebook which language the user wrote in and
      which one they want answers in, each by its display name. */
  function UserLanguageNote(userLang: string, targetLang: string): (r: string)
    ensures |r| > 0
  {
    NoteText(LanguageName(userLang), LanguageName(targetLang))
  }

  /** The question sent to the notebook. English and unsupported targets get
      the question unchanged; Spanish gets the directive in front, plus a note
      when the user is known to have written in another language. */
  function BuildEnhancedPrompt(question: string, targetLang: string, userWritesIn: Option<string>): (p: string)
    ensures targetLang != "es" ==> p == question
    ensures targetLang == "es" ==>
      && SpanishInstruction <= p
      && IsSuffix(question, p)
      && |p| > |question|
      && (NotesUserLanguage(targetLang, userWritesIn) <==> |p| > |SpanishInstruction| + |question|)
    ensures targetLang == "es" && NotesUserLanguage(targetLang, userWritesIn) ==>
      && SpanishInstruction + UserLanguageNote(userWritesIn.value, "es") <= p
      && |p| == |SpanishInstruction| + |UserLanguageNote(userWritesIn.value, "es")| + |question|
    ensures targetLang == "es" && !NotesUserLanguage(targetLang, userWritesIn) ==>
      p == SpanishInstruction + question
  {
    if targetLang == "en" then question
    else
      var instruction := LanguageInstruction(targetLang);
      if instruction == "" then question
      else
        var note := if NotesUserLanguage(targetLang, userWritesIn) then UserLanguageNote(userWritesIn.value, targetLang) else "";
        Framed(instruction, note, question);
        assert note == "" ==> instruction + note == instruction;
        instruction + note + question
  }

  /** The pieces of a framed text can be read back from it. */
  lemma Framed(a: string, b: string, c: string)
    ensures a <= a + b + c && a + b <= a + b + c && IsSuffix(c, a + b + c)
    ensures |a + b + c| == |a| + |b| + |c|
  {
    PrefixOfConcat(a + b, c);
    assert a + b + c == a + (b + c);
    PrefixOfConcat(a, b + c);
    SuffixOfConcat(a + b, c);
  }

  /** A user who wrote in English and wants Spanish answers is told so, with
      both languages by name; a code without a display name appears as it is. */
  lemma EnglishUserNote(question: string)
    ensures NotesUserLanguage("es", Some("en"))
    ensures UserLanguageNote("en", "es") == NoteText("English", "Spanish")
    ensures SpanishInstruction + NoteText("English", "Spanish") <= BuildEnhancedPrompt(question, "es", Some("en"))
    ensures UserLanguageNote("fr", "es") == NoteText("fr", "Spanish")
  {
  }

  /** Removing the directive from a Spanish prompt gives back the question, and
      the directive depends only on the target and the user's language. */
  lemma EnhancedPromptRoundTrip(question: string, userWritesIn: Option<string>)
    ensures var p := BuildEnhancedPrompt(question, "es", userWritesIn);
      var directive := BuildEnhancedPrompt("", "es", userWritesIn);
      p == directive + question && p[|directive|..] == question
  {
    var note := if NotesUserLanguage("es", userWritesIn) then UserLanguageNote(userWritesIn.value, "es") else "";
    var directive := LanguageInstruction("es") + note;
    assert directive + "" == directive;
    assert (directive + question)[|directive|..] == question;
  }
}
