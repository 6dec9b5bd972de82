/**
 * What the normalised URL means: a reference parser for query strings
 * (split on `&`, split each pair at its first `=`, `decodeURIComponent`
 * both halves) and the laws connecting it to the normaliser — the query
 * string parses back to exactly the merged entries, by ascending key, each
 * key once — together with worked examples of sorting, flattening and
 * overriding.
 */
module QueryStringLaws {
  import opened Wrappers
  import opened Text
  import opened UriComponent
  import opened KeyOrder
  import opened QueryString

  /** `key=value` decoded, split at the first `=`. */
  function ParsePair(piece: string): Option<(string, string)> {
    match FirstIndex(piece, '=')
    case None => None
    case Some(i) =>
      match (DecodeUriComponent(piece[..i]), DecodeUriComponent(piece[i + 1..]))
      case (Some(k), Some(v)) => Some((k, v))
      case _ => None
  }

  function ParsePieces(pieces: seq<string>): Option<seq<(string, string)>> {
    if pieces == [] then Some([])
    else
      match (ParsePair(pieces[0]), ParsePieces(pieces[1..]))
      case (Some(e), Some(es)) => Some([e] + es)
      case _ => None
  }

  /** The pairs of a query string, in order; the empty string has none. */
  function ParseQuery(qs: string): Option<seq<(string, string)>> {
    if qs == "" then Some([]) else ParsePieces(Split(qs, '&'))
  }

  /** The given keys with their values, in the order given. */
  function KeyValues(keys: seq<string>, query: map<string, string>): (es: seq<(string, string)>)
    requires forall k :: k in keys ==> k in query
    ensures |es| == |keys|
    ensures forall i :: 0 <= i < |keys| ==> es[i] == (keys[i], query[keys[i]])
  {
    if keys == [] then [] else [(keys[0], query[keys[0]])] + KeyValues(keys[1..], query)
  }

  /** The entries of a query by ascending key. */
  ghost function Entries(query: map<string, string>): (es: seq<(string, string)>)
  {
    SortedKeysElements(query.Keys);
    KeyValues(SortedKeys(query.Keys), query)
  }

  /**
   * The entries name keys of the query in strictly ascending order, each
   * with its value; there are as many as the query has keys.
   */
  lemma EntriesAscending(query: map<string, string>)
    ensures |Entries(query)| == |query|
    ensures forall i, j :: 0 <= i < j < |Entries(query)| ==> Below(Entries(query)[i].0, Entries(query)[j].0)
    ensures forall i :: 0 <= i < |Entries(query)| ==> Entries(query)[i].0 in query && query[Entries(query)[i].0] == Entries(query)[i].1
  {
    var ks := SortedKeys(query.Keys);
    SortedKeysElements(query.Keys);
    var es := KeyValues(ks, query);
    assert Entries(query) == es;
    forall i, j | 0 <= i < j < |es| ensures Below(es[i].0, es[j].0) {
      assert es[i].0 == ks[i] && es[j].0 == ks[j];
    }
    forall i | 0 <= i < |es| ensures es[i].0 in query && query[es[i].0] == es[i].1 {
      assert es[i] == (ks[i], query[ks[i]]);
    }
  }

  /** Every key of the query has an entry. */
  lemma EntriesComplete(query: map<string, string>)
    ensures forall k :: k in query ==> exists i :: 0 <= i < |Entries(query)| && Entries(query)[i].0 == k
  {
    var ks := SortedKeys(query.Keys);
    SortedKeysElements(query.Keys);
    var es := Entries(query);
    forall k | k in query ensures exists i :: 0 <= i < |es| && es[i].0 == k {
      var i :| 0 <= i < |ks| && ks[i] == k;
      assert es[i].0 == k;
    }
  }

  /** An encoded key holds no `&`, `=` or `?`: only unreserved characters, `%`, `[` and `]`. */
  lemma KeyAlphabet(key: string)
    ensures forall i :: 0 <= i < |EncodeKey(key)| ==>
      IsUnreserved(EncodeKey(key)[i]) || EncodeKey(key)[i] in {'%', '[', ']'}
    ensures Free(EncodeKey(key), '&') && Free(EncodeKey(key), '=') && Free(EncodeKey(key), '?')
  {
  }

  /** An encoded value holds no literal `&`, `=`, `[`, `]` or `?`. */
  lemma ValueAlphabet(value: string)
    ensures Free(EncodeUriComponent(value), '&') && Free(EncodeUriComponent(value), '=')
    ensures Free(EncodeUriComponent(value), '[') && Free(EncodeUriComponent(value), ']')
    ensures Free(EncodeUriComponent(value), '?')
  {
  }

  /** The key decodes back to itself, its literal brackets included. */
  lemma DecodeKey(key: string)
    ensures DecodeUriComponent(EncodeKey(key)) == Some(key)
  {
    DecodeEncodeExcept(key, {'[', ']'});
  }

  lemma ParsePairOf(key: string, value: string)
    ensures ParsePair(Pair(key, value)) == Some((key, value))
  {
    var ek, ev := EncodeKey(key), EncodeUriComponent(value);
    var p := ek + "=" + ev;
    KeyAlphabet(key);
    FirstIndexAt(ek, ev, '=');
    assert p[..|ek|] == ek && p[|ek| + 1..] == ev;
    DecodeKey(key);
    DecodeEncode(value);
  }

  lemma {:induction false} ParsePiecesOf(keys: seq<string>, query: map<string, string>)
    requires forall k :: k in keys ==> k in query
    ensures ParsePieces(Pairs(keys, query)) == Some(KeyValues(keys, query))
  {
    if keys != [] {
      var ps := Pairs(keys, query);
      assert ps[1..] == Pairs(keys[1..], query);
      ParsePiecesOf(keys[1..], query);
      ParsePairOf(keys[0], query[keys[0]]);
    }
  }

  /** The canonical query string parses back to exactly the query's entries by ascending key. */
  lemma CanonicalQueryRoundTrip(query: map<string, string>)
    ensures ParseQuery(CanonicalQuery(query)) == Some(Entries(query))
  {
    SortedKeysElements(query.Keys);
    JoinedPairsParse(SortedKeys(query.Keys), query);
  }

  /** Pairs joined with `&` parse back to the keys with their values. */
  lemma JoinedPairsParse(keys: seq<string>, query: map<string, string>)
    requires forall k :: k in keys ==> k in query
    ensures ParseQuery(Join(Pairs(keys, query), '&')) == Some(KeyValues(keys, query))
  {
    var ps := Pairs(keys, query);
    ParsePiecesOf(keys, query);
    if keys != [] {
      PairsFree(keys, query);
      SplitJoin(ps, '&');
      JoinNonEmpty(ps, '&');
    }
  }

  /** Every pair is non-empty and holds no `&`. */
  lemma PairsFree(keys: seq<string>, query: map<string, string>)
    requires forall k :: k in keys ==> k in query
    ensures forall i :: 0 <= i < |keys| ==> |Pairs(keys, query)[i]| > 0 && Free(Pairs(keys, query)[i], '&')
  {
    var ps := Pairs(keys, query);
    forall i | 0 <= i < |ps| ensures |ps[i]| > 0 && Free(ps[i], '&') {
      KeyAlphabet(keys[i]);
      ValueAlphabet(query[keys[i]]);
      assert ps[i] == EncodeKey(keys[i]) + "=" + EncodeUriComponent(query[keys[i]]);
    }
  }

  lemma {:induction false} JoinNonEmpty(parts: seq<string>, sep: char)
    requires |parts| > 0 && |parts[0]| > 0
    ensures |Join(parts, sep)| > 0
  {
    if |parts| > 1 {
      JoinNonEmpty(parts[..|parts| - 1], sep);
    }
  }

  lemma CanonicalQueryHasNoQuestionMark(query: map<string, string>)
    ensures Free(CanonicalQuery(query), '?')
  {
    var ks := SortedKeys(query.Keys);
    SortedKeysElements(query.Keys);
    var ps := Pairs(ks, query);
    forall i | 0 <= i < |ps| ensures Free(ps[i], '?') {
      KeyAlphabet(ks[i]);
      ValueAlphabet(query[ks[i]]);
      assert ps[i] == EncodeKey(ks[i]) + "=" + EncodeUriComponent(query[ks[i]]);
    }
    JoinFree(ps, '&', '?');
  }

  lemma {:induction false} JoinFree(parts: seq<string>, sep: char, c: char)
    requires sep != c
    requires forall i :: 0 <= i < |parts| ==> Free(parts[i], c)
    ensures Free(Join(parts, sep), c)
  {
    if |parts| > 1 {
      JoinFree(parts[..|parts| - 1], sep, c);
    }
  }

  /**
   * Outside the fast path the normalised URL is the text before the URL's
   * first `?`, then the result's only `?`, then a query string that parses
   * back to the merged entries, by ascending key.
   */
  lemma NormalizedLayout(url: string, parsed: map<string, string>, params: seq<Param>)
    requires '?' in url || params != []
    ensures var r, b := Normalized(url, parsed, params), Before(url, '?');
      |b| < |r| && r[..|b|] == b && r[|b|] == '?' && Free(r[..|b|], '?') && Free(r[|b| + 1..], '?') &&
      ParseQuery(r[|b| + 1..]) == Some(Entries(Merge(parsed, params)))
  {
    var r, b := Normalized(url, parsed, params), Before(url, '?');
    var qs := CanonicalQuery(Merge(parsed, params));
    assert r == b + "?" + qs;
    assert r[..|b|] == b && r[|b| + 1..] == qs;
    CanonicalQueryRoundTrip(Merge(parsed, params));
    CanonicalQueryHasNoQuestionMark(Merge(parsed, params));
  }

  /** A URL without `?` and without parameters comes back unchanged. */
  lemma FastPath(url: string, parsed: map<string, string>)
    requires '?' !in url
    ensures Normalized(url, parsed, []) == url
  {
  }

  /**
   * Parameters that add no entry still produce a `?`: a URL without `?`
   * and a single `null` (or `{}`) parameter gain a bare trailing `?`.
   */
  lemma EmptyObjectLeavesBareQuestionMark(url: string, key: string)
    requires '?' !in url
    ensures Normalized(url, map[], [(key, Object(map[]))]) == url + "?"
  {
    BeforeWhole(url, '?');
    FlattenEntries(key, map[]);
    var params := [(key, Object(map[]))];
    assert Merge(map[], params) == Merge(map[] + Flatten(key, map[]), []);
    assert Merge(map[], params) == map[];
    NoKeysNoQuery(Merge(map[], params));
  }

  lemma NoKeysNoQuery(query: map<string, string>)
    requires query == map[]
    ensures CanonicalQuery(query) == ""
  {
    assert query.Keys == {};
    assert SortedKeys(query.Keys) == [];
  }

  lemma {:induction false} BeforeWhole(s: string, sep: char)
    requires sep !in s
    ensures Before(s, sep) == s
  {
    if s != [] {
      BeforeWhole(s[1..], sep);
    }
  }

  /** Text of unreserved and kept characters encodes to itself. */
  lemma {:induction false} EncodesToItself(s: string, keep: set<char>)
    requires forall i :: 0 <= i < |s| ==> s[i] in keep || IsUnreserved(s[i])
    ensures EncodeExcept(s, keep) == s
  {
    if s != [] {
      EncodesToItself(s[1..], keep);
      assert s == [s[0]] + s[1..];
    }
  }

  /** A pair of plain key and value is written out as it is. */
  lemma PlainPair(key: string, value: string)
    requires Plain(key, true) && Plain(value, false)
    ensures Pair(key, value) == key + "=" + value
  {
    EncodesToItself(key, {'[', ']'});
    EncodesToItself(value, {});
  }

  lemma TwoPairs(query: map<string, string>, a: string, b: string)
    requires query.Keys == {a, b} && Below(a, b)
    ensures CanonicalQuery(query) == Pair(a, query[a]) + "&" + Pair(b, query[b])
  {
    TwoSortedKeys(query, a, b);
    var ps := Pairs([a, b], query);
    assert CanonicalQuery(query) == Join(ps, '&');
    assert ps == [Pair(a, query[a]), Pair(b, query[b])];
    assert ps[..1] == [Pair(a, query[a])];
    assert Join(ps, '&') == Join(ps[..1], '&') + ['&'] + ps[1];
  }

  /** Text that encodes to itself: unreserved characters only, with `[` and `]` too when it is a key. */
  predicate Plain(s: string, isKey: bool) {
    forall i :: 0 <= i < |s| ==> IsUnreserved(s[i]) || (isKey && s[i] in {'[', ']'})
  }

  /**
   * Two scalar parameters given in descending order come out in ascending
   * order: `_normalizeQueryString("x", {b: "1", a: "2"})` is `"x?a=2&b=1"`.
   */
  lemma SortsKeys(url: string, n1: string, v1: string, n2: string, v2: string)
    requires '?' !in url && Below(n2, n1)
    requires Plain(n1, true) && Plain(n2, true) && Plain(v1, false) && Plain(v2, false)
    ensures Normalized(url, map[], [(n1, Scalar(v1)), (n2, Scalar(v2))]) == url + "?" + n2 + "=" + v2 + "&" + n1 + "=" + v1
  {
    var params := [(n1, Scalar(v1)), (n2, Scalar(v2))];
    var merged := Merge(map[], params);
    Irreflexive(n1);
    assert Writes(params[0]) == map[n1 := v1] && Writes(params[1]) == map[n2 := v2];
    assert merged == Merge(map[] + map[n1 := v1], params[1..]);
    assert params[1..][1..] == [];
    assert merged == (map[] + map[n1 := v1]) + map[n2 := v2];
    assert merged == map[n2 := v2, n1 := v1];
    TwoEntryUrl(url, merged, n2, v2, n1, v1);
  }

  /**
   * An object parameter is flattened into bracketed keys:
   * `_normalizeQueryString("x", {filter: {status: "1", type: "2"}})` is
   * `"x?filter[status]=1&filter[type]=2"`.
   */
  lemma FlattensNestedObject(url: string, key: string, p1: string, v1: string, p2: string, v2: string)
    requires '?' !in url && Below(Bracket(key, p1), Bracket(key, p2))
    requires Plain(Bracket(key, p1), true) && Plain(Bracket(key, p2), true) && Plain(v1, false) && Plain(v2, false)
    ensures Normalized(url, map[], [(key, Object(map[p1 := v1, p2 := v2]))])
      == url + "?" + Bracket(key, p1) + "=" + v1 + "&" + Bracket(key, p2) + "=" + v2
  {
    Irreflexive(Bracket(key, p1));
    MergedObject(key, p1, v1, p2, v2);
    TwoEntryUrl(url, Merge(map[], [(key, Object(map[p1 := v1, p2 := v2]))]), Bracket(key, p1), v1, Bracket(key, p2), v2);
  }

  lemma MergedObject(key: string, p1: string, v1: string, p2: string, v2: string)
    requires p1 != p2
    ensures Merge(map[], [(key, Object(map[p1 := v1, p2 := v2]))]) == map[Bracket(key, p1) := v1, Bracket(key, p2) := v2]
  {
    var props := map[p1 := v1, p2 := v2];
    MergeOne(map[], (key, Object(props)));
    assert map[] + Flatten(key, props) == Flatten(key, props);
    FlattenInsert(key, map[p1 := v1], p2, v2);
    FlattenInsert(key, map[], p1, v1);
    FlattenEntries(key, map[]);
    assert map[][p1 := v1][p2 := v2] == props;
  }

  /** A URL without `?` and a merged query of two plain entries `a < b`: `url?a=va&b=vb`. */
  lemma TwoEntryUrl(url: string, merged: map<string, string>, a: string, va: string, b: string, vb: string)
    requires '?' !in url && Below(a, b) && merged == map[a := va, b := vb]
    requires Plain(a, true) && Plain(b, true) && Plain(va, false) && Plain(vb, false)
    ensures Before(url, '?') + "?" + CanonicalQuery(merged) == url + "?" + a + "=" + va + "&" + b + "=" + vb
  {
    Irreflexive(a);
    TwoPairs(merged, a, b);
    PlainPair(a, va);
    PlainPair(b, vb);
    BeforeWhole(url, '?');
    TwoPairText(url, a, va, b, vb);
  }

  /**
   * A parameter wins over the URL's own query:
   * `_normalizeQueryString("x?a=1", {a: "2"})` is `"x?a=2"`.
   */
  lemma ParamOverridesUrlQuery(base: string, query: string, key: string, previous: string, given: string)
    requires '?' !in base && Plain(key, true) && Plain(given, false)
    ensures Normalized(base + "?" + query, map[key := previous], [(key, Scalar(given))]) == base + "?" + key + "=" + given
  {
    var url := base + "?" + query;
    assert '?' in url by {
      assert url[|base|] == '?';
    }
    MergedOverride(key, previous, given);
    OneEntryQuery(key, given);
    BeforeFirstQuestionMark(base, query);
  }

  lemma MergedOverride(key: string, previous: string, given: string)
    ensures Merge(map[key := previous], [(key, Scalar(given))]) == map[key := given]
  {
    MergeOne(map[key := previous], (key, Scalar(given)));
  }

  /** The canonical query of a single plain entry is `key=value`. */
  lemma OneEntryQuery(key: string, value: string)
    requires Plain(key, true) && Plain(value, false)
    ensures CanonicalQuery(map[key := value]) == key + "=" + value
  {
    var q := map[key := value];
    var ks := SortedKeys(q.Keys);
    assert ks == [key] by {
      SortedKeysElements(q.Keys);
      assert q.Keys == {key};
      assert |ks| == 1 && key in ks;
    }
    PlainPair(key, value);
    assert Pairs(ks, q) == [Pair(key, value)];
  }

  lemma {:induction false} BeforeFirstQuestionMark(base: string, rest: string)
    requires '?' !in base
    ensures Before(base + "?" + rest, '?') == base
  {
    if base != [] {
      assert (base + "?" + rest)[1..] == base[1..] + "?" + rest;
      BeforeFirstQuestionMark(base[1..], rest);
    }
  }

  lemma MergeOne(query: map<string, string>, param: Param)
    ensures Merge(query, [param]) == query + Writes(param)
  {
    assert [param][1..] == [];
  }

  /** The text of a URL with two plain pairs, regrouped. */
  lemma TwoPairText(url: string, k1: string, v1: string, k2: string, v2: string)
    ensures url + "?" + ((k1 + "=" + v1) + "&" + (k2 + "=" + v2)) == url + "?" + k1 + "=" + v1 + "&" + k2 + "=" + v2
  {
    var x := url + "?";
    Assoc(x, (k1 + "=" + v1) + "&", k2 + "=" + v2);
    Assoc(x, k1 + "=" + v1, "&");
    Assoc(x, k1 + "=", v1);
    Assoc(x, k1, "=");
    var y := x + k1 + "=" + v1 + "&";
    Assoc(y, k2 + "=", v2);
    Assoc(y, k2, "=");
  }

  lemma TwoSortedKeys(query: map<string, string>, a: string, b: string)
    requires query.Keys == {a, b} && Below(a, b)
    ensures SortedKeys(query.Keys) == [a, b]
  {
    Irreflexive(a);
    Asymmetric(a, b);
    assert Ascending([a, b]);
    var ks := SortedKeys(query.Keys);
    StrictlyAscendingIsAscending(ks);
    assert multiset([a, b]) == multiset({a, b});
    SortedUnique(ks, [a, b]);
  }
}
