/**
 * The order `Array.prototype.sort()` puts string keys in when called
 * without a comparator: ascending, comparing the strings' UTF-16 code units
 * lexicographically (a proper prefix comes first). An insertion sort that
 * works in place on the array, and the sorted listing of a key set that
 * specifies it.
 */
module KeyOrder {

  /**
   * The UTF-16 code units of one scalar value: itself below U+10000,
   * a high and a low surrogate above.
   */
  function CodeUnits(c: char): (u: seq<int>)
    ensures 1 <= |u| <= 2
  {
    var n := c as int;
    if n < 0x10000 then [n] else [0xD800 + (n - 0x10000) / 1024, 0xDC00 + (n - 0x10000) % 1024]
  }

  /** Lexicographic order on sequences of code units. */
  predicate UnitsBelow(u: seq<int>, v: seq<int>)
    decreases |u|
  {
    if u == [] then v != []
    else if v == [] then false
    else if u[0] == v[0] then UnitsBelow(u[1..], v[1..])
    else u[0] < v[0]
  }

  /**
   * A number per character that sorts characters the way their code units do:
   * characters below U+D800 first, then the supplementary characters (whose
   * high surrogates lie in D800-DBFF), then U+E000 to U+FFFF.
   */
  function Rank(c: char): int {
    var n := c as int;
    if n < 0xD800 then n
    else if n >= 0x10000 then n - 0x10000 + 0xD800
    else n + 0x100000
  }

  /** Ranking two different characters agrees with comparing their code units. */
  lemma RankMatchesCodeUnits(a: char, b: char)
    requires a != b
    ensures Rank(a) < Rank(b) <==> UnitsBelow(CodeUnits(a), CodeUnits(b))
  {
    var x, y := a as int, b as int;
    if x >= 0x10000 && y >= 0x10000 {
      var u, v := CodeUnits(a), CodeUnits(b);
      var hx, lx := (x - 0x10000) / 1024, (x - 0x10000) % 1024;
      var hy, ly := (y - 0x10000) / 1024, (y - 0x10000) % 1024;
      assert x - 0x10000 == hx * 1024 + lx && y - 0x10000 == hy * 1024 + ly;
      if hx == hy {
        assert u[1..] == [0xDC00 + lx] && v[1..] == [0xDC00 + ly];
        assert UnitsBelow(u, v) == UnitsBelow(u[1..], v[1..]);
      } else if hx < hy {
        assert hx * 1024 + lx < hy * 1024 + ly;
      } else {
        assert hy * 1024 + ly < hx * 1024 + lx;
      }
    }
  }

  /** `a < b` for two JavaScript strings. */
  predicate Below(a: string, b: string)
    decreases |a|
  {
    if a == [] then b != []
    else if b == [] then false
    else if a[0] == b[0] then Below(a[1..], b[1..])
    else Rank(a[0]) < Rank(b[0])
  }

  /** The UTF-16 code units of a string, in order. */
  function Units(s: string): (u: seq<int>)
    ensures |u| >= |s|
  {
    if s == [] then [] else CodeUnits(s[0]) + Units(s[1..])
  }

  /** `Below` is exactly the lexicographic order on the strings' UTF-16 code units. */
  lemma {:induction false} BelowIsCodeUnitOrder(a: string, b: string)
    ensures Below(a, b) <==> UnitsBelow(Units(a), Units(b))
    decreases |a|
  {
    if a == [] {
    } else if b == [] {
    } else if a[0] == b[0] {
      BelowIsCodeUnitOrder(a[1..], b[1..]);
      UnitsBelowAfterPrefix(CodeUnits(a[0]), Units(a[1..]), Units(b[1..]));
    } else {
      RankMatchesCodeUnits(a[0], b[0]);
      DistinctCharsDecide(a[0], b[0], Units(a[1..]), Units(b[1..]));
    }
  }

  /** A common prefix does not change the comparison. */
  lemma {:induction false} UnitsBelowAfterPrefix(p: seq<int>, u: seq<int>, v: seq<int>)
    ensures UnitsBelow(p + u, p + v) == UnitsBelow(u, v)
    decreases |p|
  {
    if p != [] {
      assert (p + u)[1..] == p[1..] + u && (p + v)[1..] == p[1..] + v;
      UnitsBelowAfterPrefix(p[1..], u, v);
    } else {
      assert p + u == u && p + v == v;
    }
  }

  /** Two different characters are told apart within their own code units, whatever follows them. */
  lemma DistinctCharsDecide(x: char, y: char, u: seq<int>, v: seq<int>)
    requires x != y
    ensures UnitsBelow(CodeUnits(x) + u, CodeUnits(y) + v) == UnitsBelow(CodeUnits(x), CodeUnits(y))
  {
    var cx, cy := CodeUnits(x), CodeUnits(y);
    var n, m := x as int, y as int;
    if cx[0] == cy[0] {
      // Equal first units: both are supplementary with the same high surrogate.
      assert n >= 0x10000 && m >= 0x10000;
      var hx, lx := (n - 0x10000) / 1024, (n - 0x10000) % 1024;
      var hy, ly := (m - 0x10000) / 1024, (m - 0x10000) % 1024;
      assert n - 0x10000 == hx * 1024 + lx && m - 0x10000 == hy * 1024 + ly;
      assert lx != ly;
      assert (cx + u)[1..] == [cx[1]] + u && (cy + v)[1..] == [cy[1]] + v;
      assert cx[1..] == [cx[1]] && cy[1..] == [cy[1]];
    }
  }

  /** `a` sorts no later than `b`. */
  predicate Leq(a: string, b: string) {
    !Below(b, a)
  }

  lemma {:induction false} Irreflexive(a: string)
    ensures !Below(a, a)
  {
    if a != [] {
      Irreflexive(a[1..]);
    }
  }

  lemma {:induction false} Asymmetric(a: string, b: string)
    requires Below(a, b)
    ensures !Below(b, a)
  {
    if a != [] && b != [] && a[0] == b[0] {
      Asymmetric(a[1..], b[1..]);
    }
  }

  lemma {:induction false} Transitive(a: string, b: string, c: string)
    requires Below(a, b) && Below(b, c)
    ensures Below(a, c)
  {
    if a != [] && a[0] == b[0] && b[0] == c[0] {
      Transitive(a[1..], b[1..], c[1..]);
    }
  }

  lemma {:induction false} Total(a: string, b: string)
    requires a != b
    ensures Below(a, b) || Below(b, a)
  {
    if a != [] && b != [] && a[0] == b[0] {
      assert a[1..] != b[1..] by {
        assert a == [a[0]] + a[1..] && b == [b[0]] + b[1..];
      }
      Total(a[1..], b[1..]);
    }
  }

  lemma LeqTransitive(a: string, b: string, c: string)
    requires Leq(a, b) && Leq(b, c)
    ensures Leq(a, c)
  {
    if Below(c, a) {
      if a == b {
      } else {
        Total(a, b);
        Transitive(c, a, b);
      }
    }
  }

  lemma LeqAntisymmetric(a: string, b: string)
    requires Leq(a, b) && Leq(b, a)
    ensures a == b
  {
    if a != b {
      Total(a, b);
    }
  }

  predicate Ascending(s: seq<string>) {
    forall i, j :: 0 <= i < j < |s| ==> Leq(s[i], s[j])
  }

  predicate StrictlyAscending(s: seq<string>) {
    forall i, j :: 0 <= i < j < |s| ==> Below(s[i], s[j])
  }

  /** `a.sort()`: sorts the array in place into ascending order, keeping its elements. */
  method Sort(a: array<string>)
    modifies a
    ensures Ascending(a[..])
    ensures multiset(a[..]) == multiset(old(a[..]))
  {
    var i := 0;
    while i < a.Length
      invariant 0 <= i <= a.Length
      invariant Ascending(a[..i])
      invariant multiset(a[..]) == multiset(old(a[..]))
    {
      Insert(a, i);
      i := i + 1;
    }
    assert a[..] == a[..a.Length];
  }

  /** Moves `a[i]` down into the ascending prefix `a[..i]`. */
  method Insert(a: array<string>, i: nat)
    requires i < a.Length && Ascending(a[..i])
    modifies a
    ensures Ascending(a[..i + 1])
    ensures multiset(a[..]) == multiset(old(a[..]))
  {
    var j := i;
    while j > 0 && Below(a[j], a[j - 1])
      invariant 0 <= j <= i
      invariant multiset(a[..]) == multiset(old(a[..]))
      invariant AscendingExcept(a[..], i, j) && BelowLater(a[..], i, j)
    {
      SwapDown(a[..], i, j);
      SwapWithPrevious(a, j);
      j := j - 1;
    }
    InsertDone(a[..], i, j);
  }

  /** Exchanges the element at `j` with the one before it. */
  method SwapWithPrevious(a: array<string>, j: nat)
    requires 0 < j < a.Length
    modifies a
    ensures a[..] == old(a[..])[j := old(a[j - 1])][j - 1 := old(a[j])]
    ensures multiset(a[..]) == multiset(old(a[..]))
  {
    a[j], a[j - 1] := a[j - 1], a[j];
  }

  /** Up to index `i`, the elements other than the one at `j` are in ascending order. */
  predicate AscendingExcept(s: seq<string>, i: nat, j: nat)
    requires i < |s|
  {
    forall p, q :: 0 <= p < q <= i && p != j && q != j ==> Leq(s[p], s[q])
  }

  /** The element at `j` is below every element after it up to index `i`. */
  predicate BelowLater(s: seq<string>, i: nat, j: nat)
    requires j <= i < |s|
  {
    forall q :: j < q <= i ==> Below(s[j], s[q])
  }

  /** Swapping the element at `j` with a greater predecessor moves it down one place. */
  lemma SwapDown(s: seq<string>, i: nat, j: nat)
    requires 0 < j <= i < |s| && AscendingExcept(s, i, j) && BelowLater(s, i, j)
    requires Below(s[j], s[j - 1])
    ensures AscendingExcept(s[j := s[j - 1]][j - 1 := s[j]], i, j - 1)
    ensures BelowLater(s[j := s[j - 1]][j - 1 := s[j]], i, j - 1)
  {
    var t := s[j := s[j - 1]][j - 1 := s[j]];
    forall p, q | 0 <= p < q <= i && p != j - 1 && q != j - 1
      ensures Leq(t[p], t[q])
    {
      if q == j && p < j - 1 {
        assert t[q] == s[j - 1] && t[p] == s[p];
      } else if p == j {
        assert t[p] == s[j - 1] && t[q] == s[q];
        assert Leq(s[j - 1], s[q]);
      }
    }
    forall q | j - 1 < q <= i
      ensures Below(t[j - 1], t[q])
    {
      if q > j {
        assert t[q] == s[q];
      }
    }
  }

  /** Once the element at `j` is not below its predecessor, the prefix up to `i` is ascending. */
  lemma InsertDone(s: seq<string>, i: nat, j: nat)
    requires j <= i < |s| && AscendingExcept(s, i, j) && BelowLater(s, i, j)
    requires j == 0 || !Below(s[j], s[j - 1])
    ensures Ascending(s[..i + 1])
  {
    forall p, q | 0 <= p < q <= i
      ensures Leq(s[p], s[q])
    {
      if p == j {
        Asymmetric(s[j], s[q]);
      } else if q == j && p < j - 1 {
        LeqTransitive(s[p], s[j - 1], s[j]);
      }
    }
  }

  /** Two ascending sequences with the same elements are the same sequence. */
  lemma {:induction false} SortedUnique(x: seq<string>, y: seq<string>)
    requires Ascending(x) && Ascending(y) && multiset(x) == multiset(y)
    ensures x == y
  {
    if x == [] {
      assert |y| == |multiset(y)| == 0;
    } else {
      assert |y| == |multiset(y)| == |multiset(x)| > 0;
      SameLeast(x, y);
      SameTail(x, y);
      SortedUnique(x[1..], y[1..]);
      assert x == [x[0]] + x[1..] && y == [y[0]] + y[1..];
    }
  }

  lemma SameLeast(x: seq<string>, y: seq<string>)
    requires Ascending(x) && Ascending(y) && multiset(x) == multiset(y)
    requires x != [] && y != []
    ensures x[0] == y[0]
  {
    assert x[0] in multiset(y) && y[0] in multiset(x);
    var i :| 0 <= i < |y| && y[i] == x[0];
    var j :| 0 <= j < |x| && x[j] == y[0];
    assert Leq(y[0], y[i]) by { if i == 0 { Irreflexive(y[0]); } }
    assert Leq(x[0], x[j]) by { if j == 0 { Irreflexive(x[0]); } }
    LeqAntisymmetric(x[0], y[0]);
  }

  lemma SameTail(x: seq<string>, y: seq<string>)
    requires x != [] && y != [] && x[0] == y[0] && multiset(x) == multiset(y)
    ensures multiset(x[1..]) == multiset(y[1..])
  {
    assert x == [x[0]] + x[1..] && y == [y[0]] + y[1..];
    assert multiset(x) == multiset{x[0]} + multiset(x[1..]);
    assert multiset(y) == multiset{y[0]} + multiset(y[1..]);
    var m := multiset{x[0]};
    assert multiset(x[1..]) == (m + multiset(x[1..])) - m;
    assert multiset(y[1..]) == (m + multiset(y[1..])) - m;
  }

  /** The first key of a non-empty set in the order. */
  ghost function Least(s: set<string>): (m: string)
    requires s != {}
    ensures m in s && forall x :: x in s ==> Leq(m, x)
    decreases |s|
  {
    var x :| x in s;
    if s == {x} then
      Irreflexive(x);
      x
    else
      var m := Least(s - {x});
      if Below(x, m) then
        assert forall y :: y in s ==> Leq(x, y) by {
          forall y | y in s ensures Leq(x, y) {
            if y == x {
              Irreflexive(x);
            } else {
              Asymmetric(x, m);
              LeqTransitive(x, m, y);
            }
          }
        }
        x
      else
        m
  }

  /** The keys of `s`, each once, in ascending order. */
  ghost function SortedKeys(s: set<string>): (r: seq<string>)
    ensures StrictlyAscending(r)
    ensures multiset(r) == multiset(s)
    decreases |s|
  {
    if s == {} then []
    else
      var m := Least(s);
      var rest := SortedKeys(s - {m});
      assert forall y :: y in rest ==> Below(m, y) by {
        forall y | y in rest ensures Below(m, y) {
          assert y in multiset(s - {m});
          Total(m, y);
        }
      }
      [m] + rest
  }

  lemma StrictlyAscendingIsAscending(s: seq<string>)
    requires StrictlyAscending(s)
    ensures Ascending(s)
  {
    forall i, j | 0 <= i < j < |s| ensures Leq(s[i], s[j]) {
      Asymmetric(s[i], s[j]);
    }
  }

  /** Each key of `s` appears in the listing, and nothing else does. */
  lemma SortedKeysElements(s: set<string>)
    ensures |SortedKeys(s)| == |s|
    ensures forall k :: k in SortedKeys(s) <==> k in s
  {
    var r := SortedKeys(s);
    assert |r| == |multiset(r)| == |multiset(s)| == |s|;
    forall k ensures k in r <==> k in s {
      assert k in r <==> k in multiset(r);
    }
  }
}
