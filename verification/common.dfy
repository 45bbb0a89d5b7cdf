/** Small value types shared by every module of the notebook microservice model:
    Python's `Optional[...]`, the success/failure answer of a remote or storage
    call, and Python's truthiness rule for an optional string. */
module Common {

  /** Python's `Optional[T]`: `None` or a present value. */
  datatype Option<+T> = None | Some(value: T)

  /** What an external collaborator (NotebookLM, MongoDB) answered to one call:
      it completed, or it raised. */
  datatype Outcome = Success | Failure

  /** Python truthiness of an `Optional[str]`: `None` and `""` are both falsy. */
  predicate Truthy(o: Option<string>)
  {
    o.Some? && o.value != ""
  }

  /** Python's `o or default` for an `Optional[str]`. */
  function OrElse(o: Option<string>, default: string): (r: string)
    ensures Truthy(o) ==> r == o.value
    ensures !Truthy(o) ==> r == default
  {
    if Truthy(o) then o.value else default
  }

  /** `p` is a suffix of `s`. */
  predicate IsSuffix(p: string, s: string)
  {
    |p| <= |s| && s[|s| - |p|..] == p
  }

  lemma PrefixOfConcat(a: string, b: string)
    ensures a <= a + b
  {
    assert (a + b)[..|a|] == a;
  }

  lemma SuffixOfConcat(a: string, b: string)
    ensures IsSuffix(b, a + b)
  {
    assert (a + b)[|a|..] == b;
  }

  /** A prefix `r` of a suffix `l` of `s` is the slice of `s` where `l`
      starts, and `s` goes on as `l` does after it. */
  lemma PrefixOfSuffix(s: string, l: string, r: string)
    requires |l| <= |s| && l == s[|s| - |l|..]
    requires |r| <= |l| && r == l[..|r|]
    ensures var i := |s| - |l|;
      && i + |r| <= |s| && r == s[i..i + |r|]
      && (forall k :: i + |r| <= k < |s| ==> s[k] == l[k - i])
      && s == s[..i] + r + s[i + |r|..]
  {
    var i := |s| - |l|;
    assert s[i..][..|r|] == s[i..i + |r|];
    CutThree(s, i, i + |r|);
  }

  /** Dropping `n` more characters from the suffix `l` of `s` is dropping
      them from `s`. */
  lemma SuffixTail(s: string, l: string, n: nat)
    requires |l| <= |s| && l == s[|s| - |l|..] && n <= |l|
    ensures s[|s| - |l| + n..] == l[n..]
  {
  }

  /** Cutting `s` at two points and gluing the pieces back gives `s`. */
  lemma CutThree(s: string, i: int, j: int)
    requires 0 <= i <= j <= |s|
    ensures s == s[..i] + s[i..j] + s[j..]
  {
    assert s[..j] == s[..i] + s[i..j];
    assert s == s[..j] + s[j..];
  }

  /** Being a prefix is transitive. */
  lemma PrefixTransitive(a: string, b: string, c: string)
    requires a <= b && b <= c
    ensures a <= c
  {
    assert c[..|a|] == c[..|b|][..|a|];
  }

  /** Where the middle pieces of a concatenation sit. */
  lemma Window(s: string, x: string, p: string, q: string, r: string, t: string)
    requires s == x + ((p + q) + r) + t
    ensures |s| >= |x| + |p| + |q| + |r|
      && s[|x|..|x| + |p|] == p
      && s[|x| + |p|..|x| + |p| + |q|] == q
      && s[|x| + |p| + |q|..|x| + |p| + |q| + |r|] == r
  {
    assert forall i :: 0 <= i < |p| ==> s[|x| + i] == p[i];
    assert forall i :: 0 <= i < |q| ==> s[|x| + |p| + i] == q[i];
    assert forall i :: 0 <= i < |r| ==> s[|x| + |p| + |q| + i] == r[i];
  }
}
