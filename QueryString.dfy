/**
 * The query-string normalisation done before every request: the caller's
 * parameters are merged into the query the URL already carries (object
 * values flattened one level into `key[prop]` entries), the keys are
 * sorted, every key and value is percent-encoded (keys keep literal `[`
 * and `]`), and the pairs are joined with `&` after the URL's text before
 * its first `?`.
 *
 * The existing query is an input: the URL parser that extracts it is not
 * part of this model.
 */
module QueryString {
  import opened Wrappers
  import opened Text
  import opened UriComponent
  import opened KeyOrder

  /**
   * A parameter value as the flattening step tells them apart. Anything
   * whose `typeof` is not "object" is a `Scalar`, given by its string form.
   * Objects, arrays and `null` (whose `typeof` is also "object") are an
   * `Object` with their enumerable properties: `null` has none, an array
   * has "0", "1", ... . Property values are given by their string form.
   */
  datatype ParamValue = Scalar(text: string) | Object(props: map<string, string>)

  /**
   * One parameter: its name and value. A parameter object is a sequence of
   * these in the order `for...in` enumerates its keys.
   */
  type Param = (string, ParamValue)

  /** The composite key `key[prop]`. */
  function Bracket(key: string, prop: string): string {
    key + "[" + prop + "]"
  }

  lemma BracketInjective(key: string, p: string, q: string)
    requires Bracket(key, p) == Bracket(key, q)
    ensures p == q
  {
    var bp, bq := Bracket(key, p), Bracket(key, q);
    assert p == bp[|key| + 1 .. |bp| - 1];
    assert q == bq[|key| + 1 .. |bq| - 1];
  }

  /** The entries an object value under `key` writes: `key[prop]` for each property. */
  function Flatten(key: string, props: map<string, string>): map<string, string> {
    assert forall p, q :: Bracket(key, p) == Bracket(key, q) ==> p == q by {
      forall p, q | Bracket(key, p) == Bracket(key, q) ensures p == q {
        BracketInjective(key, p, q);
      }
    }
    map p | p in props :: Bracket(key, p) := props[p]
  }

  /** The entries one parameter writes into the query. */
  function Writes(param: Param): map<string, string> {
    match param.1
    case Scalar(v) => map[param.0 := v]
    case Object(props) => Flatten(param.0, props)
  }

  /** The query after every parameter, in order, has written its entries over it. */
  function Merge(query: map<string, string>, params: seq<Param>): map<string, string>
    decreases |params|
  {
    if params == [] then query else Merge(query + Writes(params[0]), params[1..])
  }

  lemma FlattenAt(key: string, props: map<string, string>, p: string)
    requires p in props
    ensures Bracket(key, p) in Flatten(key, props) && Flatten(key, props)[Bracket(key, p)] == props[p]
  {
    var f := Flatten(key, props);
    assert Bracket(key, p) in f.Keys;
    var k := Bracket(key, p);
    assert forall q :: q in props && Bracket(key, q) == k ==> q == p by {
      forall q | q in props && Bracket(key, q) == k ensures q == p {
        BracketInjective(key, p, q);
      }
    }
  }

  /**
   * An object value writes exactly its bracketed properties: never the bare
   * key, and nothing at all when it has no properties (`{}` or `null`).
   */
  lemma FlattenEntries(key: string, props: map<string, string>)
    ensures forall p :: p in props ==> Bracket(key, p) in Flatten(key, props) && Flatten(key, props)[Bracket(key, p)] == props[p]
    ensures forall k :: k in Flatten(key, props) ==> exists p :: p in props && k == Bracket(key, p)
    ensures key !in Flatten(key, props)
    ensures |Flatten(key, props)| == |props|
    ensures props == map[] ==> Flatten(key, props) == map[]
  {
    var f := Flatten(key, props);
    forall p | p in props
      ensures Bracket(key, p) in f && f[Bracket(key, p)] == props[p]
    {
      FlattenAt(key, props, p);
    }
    forall p | p in props ensures Bracket(key, p) != key {
      assert |Bracket(key, p)| > |key|;
    }
    BracketImage(key, props);
  }

  lemma BracketImage(key: string, props: map<string, string>)
    ensures |Flatten(key, props).Keys| == |props.Keys|
    decreases |props|
  {
    if props != map[] {
      var p :| p in props;
      var smaller := props - {p};
      BracketImage(key, smaller);
      assert props == smaller[p := props[p]];
      FlattenInsert(key, smaller, p, props[p]);
      assert Bracket(key, p) !in Flatten(key, smaller) by {
        if Bracket(key, p) in Flatten(key, smaller) {
          var q :| q in smaller && Bracket(key, p) == Bracket(key, q);
          BracketInjective(key, p, q);
        }
      }
    } else {
      assert Flatten(key, props).Keys == {};
    }
  }

  /** The value the last parameter that writes `k` gives it is the one the merged query holds. */
  lemma {:induction false} LastWriteWins(query: map<string, string>, params: seq<Param>, i: nat, k: string)
    requires i < |params| && k in Writes(params[i])
    requires forall j :: i < j < |params| ==> k !in Writes(params[j])
    ensures k in Merge(query, params) && Merge(query, params)[k] == Writes(params[i])[k]
    decreases |params|
  {
    if i == 0 {
      NotWritten(query + Writes(params[0]), params[1..], k);
    } else {
      LastWriteWins(query + Writes(params[0]), params[1..], i - 1, k);
    }
  }

  /** A key no parameter writes keeps its presence and value in the existing query. */
  lemma {:induction false} NotWritten(query: map<string, string>, params: seq<Param>, k: string)
    requires forall j :: 0 <= j < |params| ==> k !in Writes(params[j])
    ensures k in Merge(query, params) <==> k in query
    ensures k in query ==> Merge(query, params)[k] == query[k]
    decreases |params|
  {
    if params != [] {
      NotWritten(query + Writes(params[0]), params[1..], k);
    }
  }

  /** Every merged key comes from the existing query or from some parameter's writes. */
  lemma {:induction false} MergedKeys(query: map<string, string>, params: seq<Param>, k: string)
    ensures k in Merge(query, params) <==> k in query || exists j :: 0 <= j < |params| && k in Writes(params[j])
    decreases |params|
  {
    if params != [] {
      MergedKeys(query + Writes(params[0]), params[1..], k);
      if exists j :: 0 <= j < |params[1..]| && k in Writes(params[1..][j]) {
        var j :| 0 <= j < |params[1..]| && k in Writes(params[1..][j]);
        assert k in Writes(params[j + 1]);
      }
      if exists j :: 0 <= j < |params| && k in Writes(params[j]) {
        var j :| 0 <= j < |params| && k in Writes(params[j]);
        if j > 0 {
          assert k in Writes(params[1..][j - 1]);
        }
      }
    }
  }

  /**
   * A scalar parameter that no later parameter overwrites replaces whatever
   * the existing query held under its name.
   */
  lemma ScalarParamWins(query: map<string, string>, params: seq<Param>, i: nat)
    requires i < |params| && params[i].1.Scalar?
    requires forall j :: i < j < |params| ==> params[i].0 !in Writes(params[j])
    ensures params[i].0 in Merge(query, params)
    ensures Merge(query, params)[params[i].0] == params[i].1.text
  {
    LastWriteWins(query, params, i, params[i].0);
  }

  /**
   * An object parameter under `key` adds `key[prop]` with the property's value
   * for each property no later parameter overwrites.
   */
  lemma ObjectParamFlattens(query: map<string, string>, params: seq<Param>, i: nat, prop: string)
    requires i < |params| && params[i].1.Object? && prop in params[i].1.props
    requires forall j :: i < j < |params| ==> Bracket(params[i].0, prop) !in Writes(params[j])
    ensures Bracket(params[i].0, prop) in Merge(query, params)
    ensures Merge(query, params)[Bracket(params[i].0, prop)] == params[i].1.props[prop]
  {
    FlattenEntries(params[i].0, params[i].1.props);
    LastWriteWins(query, params, i, Bracket(params[i].0, prop));
  }

  /**
   * `_parseParamsObject(params, query)`: writes each parameter into the
   * query, an object value one property at a time.
   */
  method ParseParamsObject(params: seq<Param>, query: map<string, string>) returns (q: map<string, string>)
    ensures q == Merge(query, params)
  {
    q := query;
    for i := 0 to |params|
      invariant Merge(query, params) == Merge(q, params[i..])
    {
      var key, value := params[i].0, params[i].1;
      assert params[i..][1..] == params[i + 1..];
      ghost var earlier := q;
      match value {
        case Object(props) =>
          q := WriteProperties(key, props, q);
        case Scalar(v) =>
          q := q[key := v];
          assert q == earlier + map[key := v];
      }
      assert q == earlier + Writes(params[i]);
    }
  }

  /** The inner loop of `_parseParamsObject`: `query[key + "[" + prop + "]"] = value[prop]` for each property. */
  method WriteProperties(key: string, props: map<string, string>, query: map<string, string>) returns (q: map<string, string>)
    ensures q == query + Flatten(key, props)
  {
    q := query;
    var rest := props.Keys;
    while rest != {}
      invariant rest <= props.Keys
      invariant q == query + Flatten(key, props - rest)
      decreases rest
    {
      var prop :| prop in rest;
      ghost var done := Flatten(key, props - rest);
      q := q[Bracket(key, prop) := props[prop]];
      FlattenOneMore(key, props, rest, prop);
      UpdateUnion(query, done, Bracket(key, prop), props[prop]);
      rest := rest - {prop};
    }
    assert props - {} == props;
  }

  lemma UpdateUnion(a: map<string, string>, b: map<string, string>, k: string, v: string)
    ensures (a + b)[k := v] == a + b[k := v]
  {
  }

  lemma FlattenOneMore(key: string, props: map<string, string>, rest: set<string>, prop: string)
    requires prop in rest && rest <= props.Keys
    ensures Flatten(key, props - (rest - {prop})) == Flatten(key, props - rest)[Bracket(key, prop) := props[prop]]
  {
    var done := props - rest;
    assert props - (rest - {prop}) == done[prop := props[prop]];
    FlattenInsert(key, done, prop, props[prop]);
  }

  lemma FlattenInsert(key: string, m: map<string, string>, p: string, v: string)
    ensures Flatten(key, m[p := v]) == Flatten(key, m)[Bracket(key, p) := v]
  {
    var bigger, target := Flatten(key, m[p := v]), Flatten(key, m)[Bracket(key, p) := v];
    forall k | k in bigger ensures k in target && bigger[k] == target[k] {
      var q :| q in m[p := v] && k == Bracket(key, q);
      FlattenAt(key, m[p := v], q);
      if q != p {
        FlattenAt(key, m, q);
        if k == Bracket(key, p) {
          BracketInjective(key, p, q);
        }
      }
    }
    forall k | k in target ensures k in bigger {
      if k != Bracket(key, p) {
        var q :| q in m && k == Bracket(key, q);
        FlattenAt(key, m[p := v], q);
      } else {
        FlattenAt(key, m[p := v], p);
      }
    }
  }

  // ---------------------------------------------------------------------
  // Encoding the pairs.

  /**
   * The key as written into the query: `encodeURIComponent(key)` with every
   * `%5B` turned back into `[` and every `%5D` into `]`. The result is the
   * key encoded with exactly the two brackets kept literal.
   */
  function EncodeKey(key: string): (r: string)
    ensures r == EncodeExcept(key, {'[', ']'})
  {
    assert Escape('[' as int) == "%5B" && Escape(']' as int) == "%5D";
    RestoreLiteral(key, {}, '[');
    RestoreLiteral(key, {'['}, ']');
    assert {} + {'['} == {'['} && {'['} + {']'} == {'[', ']'};
    ReplaceAll(ReplaceAll(EncodeUriComponent(key), "%5B", "["), "%5D", "]")
  }

  /** `key=value`, both encoded. */
  function Pair(key: string, value: string): string {
    EncodeKey(key) + "=" + EncodeUriComponent(value)
  }

  /** The encoded pairs of the given keys, in the order given. */
  function Pairs(keys: seq<string>, query: map<string, string>): (r: seq<string>)
    requires forall k :: k in keys ==> k in query
    ensures |r| == |keys|
  {
    seq(|keys|, i requires 0 <= i < |keys| => Pair(keys[i], query[keys[i]]))
  }

  /** The canonical query string of a query: its pairs by ascending key, joined with `&`. */
  ghost function CanonicalQuery(query: map<string, string>): string {
    SortedKeysElements(query.Keys);
    Join(Pairs(SortedKeys(query.Keys), query), '&')
  }

  /**
   * What `_normalizeQueryString(url, params)` returns when the URL's own
   * query parses to `parsed`: the URL itself when it has no `?` and there
   * are no parameters, and otherwise its text before the first `?`, a `?`,
   * and the canonical query of the merged entries (the `?` even when that
   * query is empty).
   */
  ghost function Normalized(url: string, parsed: map<string, string>, params: seq<Param>): string {
    if '?' !in url && params == [] then url
    else Before(url, '?') + "?" + CanonicalQuery(Merge(parsed, params))
  }

  /** `_normalizeQueryString`, with the URL's parsed query given. */
  method NormalizeQueryString(url: string, parsed: map<string, string>, params: seq<Param>) returns (r: string)
    ensures r == Normalized(url, parsed, params)
  {
    if '?' !in url && |params| == 0 {
      return url;
    }
    var query := ParseParamsObject(params, parsed);

    var pushed := KeysOf(query);
    var values := new string[|pushed|](i requires 0 <= i < |pushed| => pushed[i]);
    assert values[..] == pushed;
    Sort(values);
    var queryString := JoinPairs(values, query);
    ghost var sorted := SortedKeys(query.Keys);
    StrictlyAscendingIsAscending(sorted);
    SortedUnique(values[..], sorted);
    r := Before(url, '?') + "?" + queryString;
  }

  /** `for (const key in query) values.push(key)`: every key once, in some order. */
  method KeysOf(query: map<string, string>) returns (keys: seq<string>)
    ensures multiset(keys) == multiset(query.Keys)
  {
    keys := [];
    var left := query.Keys;
    while left != {}
      invariant left <= query.Keys
      invariant multiset(keys) + multiset(left) == multiset(query.Keys)
      decreases left
    {
      var key :| key in left;
      assert multiset(left) == multiset(left - {key}) + multiset{key};
      keys := keys + [key];
      left := left - {key};
    }
  }

  /** The loop that appends `key=value` for each sorted key, with `&` between pairs. */
  method JoinPairs(values: array<string>, query: map<string, string>) returns (queryString: string)
    requires multiset(values[..]) == multiset(query.Keys)
    ensures forall k :: k in values[..] ==> k in query
    ensures queryString == Join(Pairs(values[..], query), '&')
  {
    assert forall i :: 0 <= i < values.Length ==> values[i] in query by {
      forall i | 0 <= i < values.Length ensures values[i] in query {
        assert values[..][i] in multiset(values[..]);
        assert values[i] in multiset(query.Keys);
      }
    }
    queryString := "";
    for i := 0 to values.Length
      invariant queryString == Join(Pairs(values[..i], query), '&')
      invariant |queryString| > 0 <==> i > 0
    {
      var key := values[i];
      PairsSnoc(values[..i], key, query);
      assert values[..i + 1] == values[..i] + [key];
      if |queryString| > 0 {
        queryString := queryString + "&";
      }
      ghost var before := queryString;
      queryString := queryString + EncodeKey(key);
      queryString := queryString + "=";
      queryString := queryString + EncodeUriComponent(query[key]);
      Assoc(before, EncodeKey(key) + "=", EncodeUriComponent(query[key]));
      Assoc(before, EncodeKey(key), "=");
    }
    assert values[..values.Length] == values[..];
  }

  lemma PairsSnoc(keys: seq<string>, key: string, query: map<string, string>)
    requires forall k :: k in keys ==> k in query
    requires key in query
    ensures var ps := Pairs(keys, query);
      Join(Pairs(keys + [key], query), '&') ==
        (if ps == [] then "" else Join(ps, '&') + "&") + Pair(key, query[key])
  {
    var ps := Pairs(keys, query);
    var ext := Pairs(keys + [key], query);
    assert ext == ps + [Pair(key, query[key])];
    assert ext[..|ext| - 1] == ps;
  }
}
