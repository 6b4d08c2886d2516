/**
  The first two text corrections applied to the rendered Atom document
  (main.go:84-87), each a `strings.Replace(data, old, new, 1)`: only the first
  occurrence of the pattern, if any, is replaced. The patterns are plain ASCII,
  so matching characters here agrees with Go's matching of UTF-8 bytes.
*/
module Sanitize {

  datatype Option<T> = None | Some(value: T)

  /** The XML declaration the serializer puts in front of the document. */
  const PROLOG: string := "<?xml version=\"1.0\" encoding=\"UTF-8\"?>"
  const DOUBLE_AMPERSAND: string := "&&"
  const ESCAPED_AMPERSANDS: string := "&#38;&#38;"

  /** `pat` occurs in `s` starting at index `p`. */
  predicate MatchAt(s: string, pat: string, p: int)
  {
    0 <= p && p + |pat| <= |s| && s[p..p + |pat|] == pat
  }

  /** `pat` occurs somewhere in `s`. */
  ghost predicate Occurs(s: string, pat: string)
  {
    exists p :: MatchAt(s, pat, p)
  }

  /** `p` is the least index at which `pat` occurs in `s`. */
  predicate FirstMatch(s: string, pat: string, p: int)
  {
    MatchAt(s, pat, p) && forall q :: 0 <= q < p ==> !MatchAt(s, pat, q)
  }

  /** The least index from `i` on at which `pat` occurs in `s`, if there is one. */
  function IndexFrom(s: string, pat: string, i: nat): (r: Option<nat>)
    ensures r.Some? ==> i <= r.value && MatchAt(s, pat, r.value)
    ensures r.Some? ==> forall q :: i <= q < r.value ==> !MatchAt(s, pat, q)
    ensures r.None? ==> forall q :: i <= q ==> !MatchAt(s, pat, q)
    decreases |s| + 1 - i
  {
    if i + |pat| > |s| then None
    else if s[i..i + |pat|] == pat then Some(i)
    else IndexFrom(s, pat, i + 1)
  }

  /** Go's `strings.Index`: the first occurrence of `pat` in `s`, or none. */
  function Index(s: string, pat: string): (r: Option<nat>)
    ensures r.Some? ==> FirstMatch(s, pat, r.value)
    ensures r.None? <==> !Occurs(s, pat)
  {
    IndexFrom(s, pat, 0)
  }

  /**
    `strings.Replace(s, pat, rep, 1)`: the first occurrence of `pat` is cut out
    and `rep` put in its place; a text without `pat` is returned unchanged.
    An empty `pat` matches at the very start, as it does in Go.
  */
  function ReplaceFirst(s: string, pat: string, rep: string): (r: string)
    ensures !Occurs(s, pat) ==> r == s
    ensures forall p :: FirstMatch(s, pat, p) ==> r == s[..p] + rep + s[p + |pat|..]
    ensures |r| == if Occurs(s, pat) then |s| - |pat| + |rep| else |s|
  {
    match Index(s, pat)
    case None => s
    case Some(p) => s[..p] + rep + s[p + |pat|..]
  }

  /** If `pat` occurs at all, it has a first occurrence. */
  lemma FirstMatchExists(s: string, pat: string) returns (p: nat)
    requires Occurs(s, pat)
    ensures FirstMatch(s, pat, p)
  {
    p := Index(s, pat).value;
  }

  /** Step one (main.go:85): delete the first XML declaration. */
  function StripProlog(s: string): (r: string)
    ensures !Occurs(s, PROLOG) ==> r == s
    ensures forall p :: FirstMatch(s, PROLOG, p) ==> r == s[..p] + s[p + |PROLOG|..]
    ensures |r| == if Occurs(s, PROLOG) then |s| - |PROLOG| else |s|
  {
    ReplaceFirst(s, PROLOG, "")
  }

  /** Step two (main.go:87): rewrite the first `&&` as `&#38;&#38;`. */
  function EscapeFirstDoubleAmpersand(s: string): (r: string)
    ensures !Occurs(s, DOUBLE_AMPERSAND) ==> r == s
    ensures forall p :: FirstMatch(s, DOUBLE_AMPERSAND, p) ==>
      r == s[..p] + ESCAPED_AMPERSANDS + s[p + |DOUBLE_AMPERSAND|..]
    ensures |r| == if Occurs(s, DOUBLE_AMPERSAND) then |s| + 8 else |s|
  {
    ReplaceFirst(s, DOUBLE_AMPERSAND, ESCAPED_AMPERSANDS)
  }

  /**
    Both steps, in the order main.go:85-87 applies them: the text loses the
    38 characters of the first declaration if it has one, and gains 8 if an
    `&&` is left to escape; each step leaves the text alone when its pattern
    is absent.
  */
  function SanitizeSteps(s: string): (r: string)
    ensures |r| == |s| - (if Occurs(s, PROLOG) then |PROLOG| else 0) +
      (if Occurs(StripProlog(s), DOUBLE_AMPERSAND) then 8 else 0)
    ensures !Occurs(s, PROLOG) ==> r == EscapeFirstDoubleAmpersand(s)
    ensures !Occurs(StripProlog(s), DOUBLE_AMPERSAND) ==> r == StripProlog(s)
  {
    EscapeFirstDoubleAmpersand(StripProlog(s))
  }

  /** A text with neither the prolog nor `&&` passes both steps unchanged. */
  lemma SanitizeFixedPoint(s: string)
    requires !Occurs(s, PROLOG) && !Occurs(s, DOUBLE_AMPERSAND)
    ensures SanitizeSteps(s) == s
  {
  }

  /** An occurrence of `x` wholly before the replaced one is still there, at the same index. */
  lemma MatchBeforeKept(s: string, pat: string, rep: string, p: nat, x: string, q: int)
    requires FirstMatch(s, pat, p) && MatchAt(s, x, q) && q + |x| <= p
    ensures MatchAt(ReplaceFirst(s, pat, rep), x, q)
  {
    ReplacedShape(s, pat, rep, p);
    WindowShared(ReplaceFirst(s, pat, rep), s, 0, 0, p, x, q);
  }

  /**
    An occurrence of `x` wholly after the replaced one is still there, moved by
    the difference in length between `rep` and `pat`.
  */
  lemma MatchAfterKept(s: string, pat: string, rep: string, p: nat, x: string, q: int)
    requires FirstMatch(s, pat, p) && MatchAt(s, x, q) && p + |pat| <= q
    ensures MatchAt(ReplaceFirst(s, pat, rep), x, q - |pat| + |rep|)
  {
    ReplacedShape(s, pat, rep, p);
    WindowShared(ReplaceFirst(s, pat, rep), s, p + |pat|, p + |rep|, |s| - p - |pat|, x, q);
  }

  /**
    Only the first `&&` is rewritten: any later, non-overlapping `&&` survives
    in the output, eight characters further on.
  */
  lemma LaterDoubleAmpersandsSurvive(s: string, p: nat, q: int)
    requires FirstMatch(s, DOUBLE_AMPERSAND, p)
    requires MatchAt(s, DOUBLE_AMPERSAND, q) && p + 2 <= q
    ensures Occurs(EscapeFirstDoubleAmpersand(s), DOUBLE_AMPERSAND)
    ensures MatchAt(EscapeFirstDoubleAmpersand(s), DOUBLE_AMPERSAND, q + 8)
  {
    MatchAfterKept(s, DOUBLE_AMPERSAND, ESCAPED_AMPERSANDS, p, DOUBLE_AMPERSAND, q);
  }

  /** A window of `r` lying in a part that `r` shares with `s` is a window of `s` too. */
  lemma WindowShared(s: string, r: string, a: nat, b: nat, n: nat, x: string, q: int)
    requires a + n <= |r| && b + n <= |s| && r[a..a + n] == s[b..b + n]
    requires MatchAt(r, x, q) && a <= q && q + |x| <= a + n
    ensures MatchAt(s, x, q - a + b)
  {
    var q' := q - a + b;
    forall k | 0 <= k < |x|
      ensures s[q' + k] == x[k]
    {
      assert s[q' + k] == s[b..b + n][q - a + k];
      assert r[q + k] == r[a..a + n][q - a + k];
      assert r[q + k] == r[q..q + |x|][k];
    }
    assert s[q'..q' + |x|] == x;
  }

  /** Every character of a window that matches `x` is a character of `x`. */
  lemma WindowChar(r: string, x: string, q: int, e: int)
    requires MatchAt(r, x, q) && q <= e < q + |x|
    ensures r[e] in x
  {
    assert r[e] == r[q..q + |x|][e - q];
  }

  /** What the text looks like after its first `pat`, at `p`, is replaced by `rep`. */
  lemma ReplacedShape(s: string, pat: string, rep: string, p: nat)
    requires FirstMatch(s, pat, p)
    ensures var r := ReplaceFirst(s, pat, rep);
      |r| == |s| - |pat| + |rep| &&
      r[0..p] == s[0..p] &&
      r[p..p + |rep|] == rep &&
      r[p + |rep|..|r|] == s[p + |pat|..|s|]
  {
    var r := ReplaceFirst(s, pat, rep);
    assert r == s[..p] + rep + s[p + |pat|..];
    assert r[0..p] == s[..p];
    assert r[p + |rep|..|r|] == s[p + |pat|..];
  }

  /** No window of the replaced text matches `x`, under the conditions of NoMatchCreated. */
  lemma NoMatchCreatedAt(s: string, pat: string, rep: string, p: nat, x: string, q: int)
    requires FirstMatch(s, pat, p) && !Occurs(s, x)
    requires 0 < |rep| < |x|
    requires rep[0] !in x && rep[|rep| - 1] !in x
    ensures !MatchAt(ReplaceFirst(s, pat, rep), x, q)
  {
    var r := ReplaceFirst(s, pat, rep);
    ReplacedShape(s, pat, rep, p);
    if MatchAt(r, x, q) {
      if q + |x| <= p {
        WindowShared(s, r, 0, 0, p, x, q);
      } else if q >= p + |rep| {
        WindowShared(s, r, p + |rep|, p + |pat|, |s| - p - |pat|, x, q);
      } else if q <= p {
        WindowChar(r, x, q, p);
      } else {
        WindowChar(r, x, q, p + |rep| - 1);
      }
    }
  }

  /**
    Replacing cannot create an occurrence of `x`: when `x` is longer than
    `rep` and contains neither the first nor the last character of `rep`, any
    window of the output that overlaps `rep` holds one of those characters.
  */
  lemma NoMatchCreated(s: string, pat: string, rep: string, p: nat, x: string)
    requires FirstMatch(s, pat, p) && !Occurs(s, x)
    requires 0 < |rep| < |x|
    requires rep[0] !in x && rep[|rep| - 1] !in x
    ensures !Occurs(ReplaceFirst(s, pat, rep), x)
  {
    forall q
      ensures !MatchAt(ReplaceFirst(s, pat, rep), x, q)
    {
      NoMatchCreatedAt(s, pat, rep, p, x, q);
    }
  }

  /** The characters of the XML declaration that matter here. */
  lemma PrologFacts()
    ensures |PROLOG| == 38 && '&' !in PROLOG && ';' !in PROLOG
  {
  }

  /** A pattern whose first character `s` lacks does not occur in `s`. */
  lemma AbsentFirstChar(s: string, pat: string)
    requires 0 < |pat| && pat[0] !in s
    ensures !Occurs(s, pat)
  {
  }

  /**
    A rendered document that begins with the XML declaration and holds no
    other copy of it has none left after both steps.
  */
  lemma LeadingPrologRemoved(rest: string)
    requires !Occurs(rest, PROLOG)
    ensures !Occurs(SanitizeSteps(PROLOG + rest), PROLOG)
  {
    var s := PROLOG + rest;
    assert s[0..|PROLOG|] == PROLOG;
    assert FirstMatch(s, PROLOG, 0);
    assert s[|PROLOG|..] == rest;
    assert StripProlog(s) == rest;
    match Index(rest, DOUBLE_AMPERSAND)
    case None =>
    case Some(p) =>
      PrologFacts();
      NoMatchCreated(rest, DOUBLE_AMPERSAND, ESCAPED_AMPERSANDS, p, PROLOG);
  }

  /**
    Only the first XML declaration is deleted: a document holding two of them
    still holds one after both steps.
  */
  lemma SecondPrologSurvives()
    ensures SanitizeSteps(PROLOG + PROLOG) == PROLOG
    ensures Occurs(SanitizeSteps(PROLOG + PROLOG), PROLOG)
  {
    var s := PROLOG + PROLOG;
    assert s[0..|PROLOG|] == PROLOG;
    assert FirstMatch(s, PROLOG, 0);
    assert s[|PROLOG|..] == PROLOG;
    assert StripProlog(s) == PROLOG;
    PrologFacts();
    AbsentFirstChar(PROLOG, DOUBLE_AMPERSAND);
    assert PROLOG[0..|PROLOG|] == PROLOG;
    assert MatchAt(PROLOG, PROLOG, 0);
  }
}
