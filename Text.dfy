/**
 * The JavaScript string operations the query-string builder relies on:
 * a global regular-expression replace of a literal pattern, joining with
 * a separator, and the prefix before a separator (`split(sep)[0]`).
 */
module Text {
  import opened Wrappers

  /**
   * `s.replace(/pat/g, rep)` for a literal pattern: the string is scanned
   * from the left and every non-overlapping occurrence of `pat` is replaced.
   */
  function ReplaceAll(s: string, pat: string, rep: string): string
    requires |pat| > 0
    decreases |s|
  {
    if |s| < |pat| then s
    else if s[..|pat|] == pat then rep + ReplaceAll(s[|pat|..], pat, rep)
    else [s[0]] + ReplaceAll(s[1..], pat, rep)
  }

  lemma Assoc(a: string, b: string, c: string)
    ensures a + (b + c) == a + b + c
  {
  }

  /** Two prefixes that each pass through unchanged pass through together. */
  lemma ReplaceThroughPrefix(a: string, b: string, t: string, pat: string, rep: string)
    requires |pat| > 0
    requires ReplaceAll(a + (b + t), pat, rep) == a + ReplaceAll(b + t, pat, rep)
    requires ReplaceAll(b + t, pat, rep) == b + ReplaceAll(t, pat, rep)
    ensures ReplaceAll((a + b) + t, pat, rep) == (a + b) + ReplaceAll(t, pat, rep)
  {
    assert (a + b) + t == a + (b + t);
    assert a + (b + ReplaceAll(t, pat, rep)) == (a + b) + ReplaceAll(t, pat, rep);
  }

  /** A character that cannot start the pattern is copied through unchanged. */
  lemma ReplaceSkipsChar(x: char, t: string, pat: string, rep: string)
    requires |pat| > 0 && x != pat[0]
    ensures ReplaceAll([x] + t, pat, rep) == [x] + ReplaceAll(t, pat, rep)
  {
    var s := [x] + t;
    assert s[1..] == t;
    if |s| < |pat| {
      assert ReplaceAll(t, pat, rep) == t;
    } else {
      assert s[..|pat|][0] == x;
    }
  }

  /** A string with no occurrence of `sep`. */
  predicate Free(s: string, sep: char) {
    forall i :: 0 <= i < |s| ==> s[i] != sep
  }

  /** `parts.join(sep)`, built from the left the way a loop appends to it. */
  function Join(parts: seq<string>, sep: char): string {
    if |parts| == 0 then ""
    else if |parts| == 1 then parts[0]
    else Join(parts[..|parts| - 1], sep) + [sep] + parts[|parts| - 1]
  }

  /** The text before the first `sep`: `s.split(sep)[0]`. */
  function Before(s: string, sep: char): (r: string)
    ensures Free(r, sep)
    ensures r <= s
    ensures |r| < |s| ==> s[|r|] == sep
  {
    if s == [] || s[0] == sep then [] else [s[0]] + Before(s[1..], sep)
  }

  /** The index of the last `sep`, if there is one. */
  function LastIndex(s: string, sep: char): (r: Option<nat>)
    ensures r.None? <==> Free(s, sep)
    ensures r.Some? ==> r.value < |s| && s[r.value] == sep && Free(s[r.value + 1..], sep)
  {
    if s == [] then None
    else if s[|s| - 1] == sep then Some(|s| - 1)
    else LastIndex(s[..|s| - 1], sep)
  }

  /** The index of the first `sep`, if there is one. */
  function FirstIndex(s: string, sep: char): (r: Option<nat>)
    ensures r.None? <==> Free(s, sep)
    ensures r.Some? ==> r.value < |s| && s[r.value] == sep && Free(s[..r.value], sep)
  {
    if s == [] then None
    else if s[0] == sep then Some(0)
    else match FirstIndex(s[1..], sep)
      case None => None
      case Some(i) => Some(i + 1)
  }

  /** `s.split(sep)`: the pieces between separators (one piece when there is none). */
  function Split(s: string, sep: char): (r: seq<string>)
    ensures |r| > 0
    decreases |s|
  {
    match LastIndex(s, sep)
    case None => [s]
    case Some(i) => Split(s[..i], sep) + [s[i + 1..]]
  }

  /** Splitting a join of separator-free pieces gives the pieces back. */
  lemma {:induction false} SplitJoin(parts: seq<string>, sep: char)
    requires |parts| > 0
    requires forall k :: 0 <= k < |parts| ==> Free(parts[k], sep)
    ensures Split(Join(parts, sep), sep) == parts
  {
    if |parts| == 1 {
      assert LastIndex(parts[0], sep).None?;
    } else {
      var init, last := parts[..|parts| - 1], parts[|parts| - 1];
      var j := Join(init, sep);
      var s := j + [sep] + last;
      assert s == Join(parts, sep);
      assert s[|j| + 1..] == last;
      LastIndexAfter(j, last, sep);
      assert s[..|j|] == j;
      SplitJoin(init, sep);
      assert init + [last] == parts;
    }
  }

  /** The first `sep` of `a + [sep] + b`, when `a` has none, is right after `a`. */
  lemma {:induction false} FirstIndexAt(a: string, b: string, sep: char)
    requires Free(a, sep)
    ensures FirstIndex(a + [sep] + b, sep) == Some(|a|)
  {
    if a != [] {
      assert (a + [sep] + b)[1..] == a[1..] + [sep] + b;
      FirstIndexAt(a[1..], b, sep);
    }
  }

  /** Characters that cannot start the pattern are copied through unchanged. */
  lemma {:induction false} ReplaceSkipsChars(y: string, t: string, pat: string, rep: string)
    requires |pat| > 0 && forall k :: 0 <= k < |y| ==> y[k] != pat[0]
    ensures ReplaceAll(y + t, pat, rep) == y + ReplaceAll(t, pat, rep)
  {
    if y != [] {
      ReplaceSkipsChars(y[1..], t, pat, rep);
      assert y + t == [y[0]] + (y[1..] + t);
      ReplaceSkipsChar(y[0], y[1..] + t, pat, rep);
      assert [y[0]] + (y[1..] + ReplaceAll(t, pat, rep)) == y + ReplaceAll(t, pat, rep);
    } else {
      assert y + t == t && y + ReplaceAll(t, pat, rep) == ReplaceAll(t, pat, rep);
    }
  }

  /**
   * A piece as long as the pattern, different from it, and whose later
   * characters cannot start it, is copied through unchanged.
   */
  lemma ReplaceSkipsPiece(x: string, t: string, pat: string, rep: string)
    requires |pat| > 0 && |x| == |pat| && x != pat
    requires forall k :: 1 <= k < |x| ==> x[k] != pat[0]
    ensures ReplaceAll(x + t, pat, rep) == x + ReplaceAll(t, pat, rep)
  {
    var s := x + t;
    assert s[..|pat|] == x;
    assert s[1..] == x[1..] + t;
    ReplaceSkipsChars(x[1..], t, pat, rep);
    assert [x[0]] + (x[1..] + ReplaceAll(t, pat, rep)) == x + ReplaceAll(t, pat, rep);
  }

  lemma {:induction false} LastIndexAfter(j: string, last: string, sep: char)
    requires Free(last, sep)
    ensures LastIndex(j + [sep] + last, sep) == Some(|j|)
  {
    var s := j + [sep] + last;
    if last != [] {
      var shorter := last[..|last| - 1];
      assert s[..|s| - 1] == j + [sep] + shorter;
      LastIndexAfter(j, shorter, sep);
    }
  }
}
