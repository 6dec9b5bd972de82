# NetGsm client: URL and query-string builder, in Dafny

This project models the part of the NetGsm REST API JavaScript client
(`index.js`) that decides where each HTTP request goes:

- the constructor, which checks the credentials and fills in defaults;
- `_getUrl`, which joins the base URL and an endpoint;
- `_normalizeQueryString`, which turns a URL and a parameter object into a
  canonical URL;
- `_parseParamsObject`, which merges the parameters into the query of the
  URL.

Modules:

- `Wrappers`: `Option` and `Result`.
- `Text`: string helpers. `ReplaceAll` models a global `replace`, `Before`
  models `url.split("?")[0]`, and `Join`/`Split` work over a separator.
- `UriComponent`: `encodeURIComponent` as in the "URI Handling Functions"
  clause of ECMA-262.
  - Letters, digits and `-_.~!*'()` are kept. Every other character is
    escaped as its UTF-8 bytes, each as `%XY` with upper-case hex digits.
  - Its partner is `decodeURIComponent`. The two are proved to round-trip.
- `KeyOrder`: the default `Array.prototype.sort` order, which compares
  strings by UTF-16 code units (`BelowIsCodeUnitOrder`).
  - Insertion sort on an `array<string>` stands in for `values.sort()`.
  - The sort is proved against a specification (`SortedKeys`). It is proved
    unique, so the sorted array is exactly that specification.
- `QueryString`: the parameter merge, the key encoding, and
  `_normalizeQueryString` as a method.
  - The method fills an array with the keys, sorts it in place and builds
    the query string in a loop.
  - It is proved equal to a specification function, `Normalized`.
- `QueryStringLaws`: the properties of `Normalized`.
  - A reference query parser: split at `&`, then at the first `=`, then
    decode. The canonical query string parses back to exactly the merged
    entries, in ascending key order.
  - The layout of the result and the fast path.
  - Worked examples: sorting, flattening, and a parameter that overrides the
    query.
- `NetGsmClient`: the constructor options, the `Client` class with the
  fields `_setDefaultsOptions` assigns, `_getUrl`, and the constructor bug
  described under "## Findings".

Some things are given as inputs rather than computed:

- **The URL's query.** `new Url(url, null, true).query` comes from the
  `url-parse` library. Methods that need it take it as a map (`parsed`).
- **The parameter object.** It is a sequence of `(key, value)` pairs in
  `for…in` enumeration order. A value is `Scalar(text)` or `Object(props)`.
  - `null` is `Object(map[])`: `typeof null` is `"object"` and it has no
    properties.
  - An array is an `Object` whose keys are `"0"`, `"1"`, ….
  - Order matters only when two writes hit the same key, for example a
    scalar `"a[b]"` and the object `a: {b: …}`. The later write wins.

Points of detail the model takes from the code:

- **Key order.** Keys are ordered by UTF-16 code units, as `values.sort()`
  does without a comparator (index.js:128). `BelowIsCodeUnitOrder` proves
  that `Below` is exactly that order.
- **Slash handling.** The endpoint URL gets a `/` only when the base URL
  does not already end with one (index.js:102).
- **Constructor error.** The constructor fails with "Missing or invalid
  options", also when the options object itself is absent (index.js:19-21).
- **Grant type.** The grant type comes from the option `grant_type`
  (index.js:93). It is the field `grantType` here.
- **Base URL.** The constructor is modelled in its corrected form: it keeps
  the base URL that `_setDefaultsOptions` computes, where index.js:24
  overwrites it with the raw option. The code as written is modelled beside
  it; see "## Findings".

## Model

| member | source | states |
|---|---|---|
| QueryString.NormalizeQueryString | index.js:108-143 | The result equals `Normalized`: the URL unchanged when it has no `?` and there are no parameters; otherwise the URL before its first `?`, a `?`, and the canonical query of the merged entries |
| QueryString.KeysOf | index.js:125-127 | The collected keys are exactly the query's keys, each once (as a multiset) |
| QueryString.JoinPairs | index.js:130-140 | The loop's string is the encoded `key=value` pairs of the sorted keys, in that order, joined by single `&` with no leading or trailing separator |
| QueryString.EncodeKey | index.js:135-137 | Turning `%5B`/`%5D` back into brackets after `encodeURIComponent` is the same as encoding the key with exactly `[` and `]` kept literal |
| QueryString.ParseParamsObject | index.js:189-207 | The query after the loop is the existing query with each parameter's writes applied in order (`Merge`) |
| QueryString.WriteProperties | index.js:196-200 | The inner loop adds `key[prop] = value[prop]` for every property of an object value and changes nothing else |
| QueryString.FlattenEntries | index.js:196-200 | An object value writes `key[p]` with `props[p]` for each property `p` and nothing else; it never writes the bare key; it writes as many entries as it has properties; `{}` and `null` write nothing |
| QueryString.LastWriteWins | index.js:193-204 | A key takes the value from the last parameter that writes it |
| QueryString.NotWritten | index.js:117-123 | A key that no parameter writes keeps its presence and value from the URL's query |
| QueryString.MergedKeys | index.js:117-123 | A key is in the merged query if and only if it was in the URL's query or some parameter writes it |
| QueryString.ScalarParamWins | index.js:201-203 | A scalar parameter that no later parameter overwrites replaces the URL query's value under its name |
| QueryString.ObjectParamFlattens | index.js:196-200 | An object parameter `k` leaves `k[p]` holding `value[p]` for each property not overwritten later |
| QueryStringLaws.CanonicalQueryRoundTrip | index.js:125-140 | The query string, split at `&` and `=` and decoded, gives back exactly the merged entries by ascending key: every key once, with its value |
| QueryStringLaws.EntriesAscending | index.js:125-128 | Those entries are in strictly ascending key order, as many as the query has keys, each with the query's value |
| QueryStringLaws.EntriesComplete | index.js:125-127 | Every key of the merged query appears among those entries |
| QueryStringLaws.NormalizedLayout | index.js:142 | Outside the fast path the result is the URL's text before its first `?`, then the result's only `?`, then a query string that parses back to the merged entries |
| QueryStringLaws.FastPath | index.js:113-115 | A URL without `?` and without parameters is returned unchanged |
| QueryStringLaws.EmptyObjectLeavesBareQuestionMark | index.js:113-142 | A URL without `?` whose only parameter is `null` or `{}` comes back with a bare trailing `?` |
| QueryStringLaws.KeyAlphabet | index.js:135-137 | An emitted key holds only unreserved characters, `%`, `[` and `]`, so never `&`, `=` or `?` |
| QueryStringLaws.ValueAlphabet | index.js:139 | An emitted value never holds a literal `&`, `=`, `[`, `]` or `?` |
| QueryStringLaws.DecodeKey | index.js:135-137 | A key with its brackets restored still decodes back to the original key |
| QueryStringLaws.SortsKeys | index.js:125-140 | Two plain scalar parameters come out in ascending key order whatever order they were given in |
| QueryStringLaws.FlattensNestedObject | index.js:196-200 | A one-level object `{k: {p1: v1, p2: v2}}` comes out as `k[p1]=v1&k[p2]=v2` with literal brackets |
| QueryStringLaws.ParamOverridesUrlQuery | index.js:117-123 | A parameter named like a key of the URL's query replaces it, and the URL's old query text is dropped |
| UriComponent.EncodeUriComponent | index.js:135 | An encoded string holds only unreserved characters and `%` |
| UriComponent.DecodeEncode | index.js:135-139 | `decodeURIComponent(encodeURIComponent(s)) == s` for every string |
| UriComponent.RestoreLiteral | index.js:136-137 | Replacing every escape of a reserved ASCII character with the character is the same as encoding with that character kept literal |
| KeyOrder.Sort | index.js:128 | The array ends up in ascending code-unit order and holds the same keys as before (a permutation) |
| KeyOrder.RankMatchesCodeUnits | index.js:128 | Comparing characters by rank agrees with comparing their UTF-16 code-unit sequences |
| KeyOrder.BelowIsCodeUnitOrder | index.js:128 | One string sorts before another if and only if its UTF-16 code units are lexicographically below the other's, a proper prefix first |
| KeyOrder.Total | index.js:128 | Any two distinct strings are ordered one way or the other |
| KeyOrder.Transitive | index.js:128 | The code-unit order on strings is transitive |
| KeyOrder.SortedUnique | index.js:128 | Two ascending sequences with the same elements are equal, so the sorted order is fully determined |
| KeyOrder.SortedKeys | index.js:125-128 | The sorted keys of a set are strictly ascending and hold each key exactly once |
| NetGsmClient.NewClient | index.js:17-25 | Construction fails if and only if the options are missing or their user code or password is missing or falsy; otherwise the new client holds the defaulted settings. This is the corrected constructor of the index.js:24 finding: the base URL keeps its default instead of being overwritten with the raw option |
| NetGsmClient.Client.constructor | index.js:22-24 | The corrected constructor of the index.js:24 finding: a client built from options with credentials holds `Defaults(options)`, the defaulted base URL included, where the code as written stores the raw `options.baseUrl` |
| NetGsmClient.Client.SetDefaultsOptions | index.js:88-98 | Every setting is assigned: the option when truthy, otherwise its default |
| NetGsmClient.Defaults | index.js:88-98 | An absent or falsy option takes its default: base URL `https://api.netgsm.com.tr`, encoding `utf8`, grant type `password`, message header `""`, timeout 60000, `queryStringAuth` false; `isHttps` holds exactly when the base URL starts with `https`, ignoring case; credentials given are kept |
| NetGsmClient.DefaultsIdempotent | index.js:88-98 | Applying the defaults to already-defaulted settings changes nothing |
| NetGsmClient.DefaultsKeepGivenOptions | index.js:89-97 | A truthy base URL, encoding or timeout given as an option is kept as given |
| NetGsmClient.Client.GetUrl | index.js:101-106 | The URL is the base URL, a `/` unless the base URL already ends with one, then `api/`, the endpoint, then normalization with the parameters |
| NetGsmClient.EndpointUrl | index.js:102-103 | `baseUrl + "api/" + endpoint` when the base URL ends with `/`, and `baseUrl + "/api/" + endpoint` otherwise |
| NetGsmClient.TrailingSlashIrrelevant | index.js:102-103 | A base URL with or without a trailing `/` gives the same endpoint URL |
| NetGsmClient.DefaultBaseUrlUsed | index.js:89 | A client built without a base URL addresses `https://api.netgsm.com.tr/api/<endpoint>` |
| NetGsmClient.ConstructedBaseUrlAsWritten | index.js:24 | As written, the constructor leaves the base URL field holding the raw option, `undefined` when absent |
| NetGsmClient.EndpointUrlAsWritten | index.js:102 | As written, `_getUrl` throws a TypeError exactly when the base URL field is `undefined` |
| NetGsmClient.DefaultBaseUrlLostAsWritten | index.js:22-24 | As written, with no `baseUrl` option the default is computed and then lost, and every endpoint URL fails with a TypeError |

## Left out

- `request` (index.js:145-181) is left out: the headers, the Node detection through `process`, `JSON.stringify` of the body, the `axiosConfig` merge and the `axios` call are I/O and a foreign library.
- `get`, `post`, `put` and `delete` (index.js:34-81) are left out: they only forward to `request`.
- The call without `new` (index.js:18) is left out: it only re-enters the constructor.
- How `url-parse` reads the query already in the URL (index.js:117) is an input (`parsed`). Its handling of duplicate keys and of malformed escapes is not part of this model.
- Re-normalizing an already-normalized URL is not stated: its result depends on how `url-parse` reads the query.
- Parameter values are strings, and object values have one level of string properties. Numbers and booleans, which JavaScript stringifies, deeper nesting, and `undefined` or `null` property values are not part of this model.
- `axiosConfig` (index.js:98) is not kept: nothing in this model reads it.
- Defaults: a `NaN` timeout, and options that are not strings where strings are expected (for example a numeric `baseUrl`), are not modelled.
- Inherited keys and `__proto__` as a parameter or query key are not modelled: the merged query is a plain map.
- `encodeURIComponent` throwing a `URIError` on a lone surrogate cannot arise: a Dafny `char` is a Unicode scalar value, so a string never holds one.
- A `null` parameter object is not modelled: the parameters are a sequence, which cannot be `null`. `get(endpoint, null)` reaches `_normalizeQueryString` with `null`, because the default `params = {}` (index.js:34, 149) applies only to `undefined`. For a URL without `?`, `Object.keys(null)` then throws a TypeError (index.js:113). For a URL with `?`, `for…in` over `null` does nothing (index.js:193) and the URL is normalized with no parameters.
- The `for…in` order of the parameter object, including JavaScript's rule that integer-like keys come first, is taken as the given sequence order.

## Findings

| source | as written | input that shows it | evidently intended | confidence | as-written member | corrected member |
|---|---|---|---|---|---|---|
| index.js:24 | After `_setDefaultsOptions` stores the option or, when it is falsy, the default `https://api.netgsm.com.tr`, the constructor stores `options.baseUrl` over it. Without a `baseUrl` option the field is `undefined`, and `_getUrl` throws a TypeError on `this.baseUrl.slice(-1)`. An empty `baseUrl` becomes `""`, giving `/api/<endpoint>`. | `new NetGsm({usercode: "u", password: "p"})` followed by any request | The default `https://api.netgsm.com.tr` is kept, as the constructor's documentation says | not executed | NetGsmClient.DefaultBaseUrlLostAsWritten | NetGsmClient.DefaultBaseUrlUsed, NetGsmClient.Client.constructor, NetGsmClient.NewClient |
