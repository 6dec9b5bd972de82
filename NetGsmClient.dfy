/**
 * The NetGsm client object: the credentials check and option defaults of
 * its constructor, and the endpoint URL every request is sent to. The HTTP
 * request itself is not part of this model.
 */
module NetGsmClient {
  import opened Wrappers
  import opened Text
  import opened QueryString

  const DefaultBaseUrl: string := "https://api.netgsm.com.tr"
  const DefaultEncoding: string := "utf8"
  const DefaultGrantType: string := "password"
  const DefaultTimeout: int := 60000

  datatype ClientError =
    | MissingOrInvalidOptions  // thrown by the constructor
    | TypeError                // `undefined.slice(-1)` in `_getUrl`

  /**
   * The options object given to the constructor; `None` is an option that
   * is absent (`undefined`). `axiosConfig` is not part of this model.
   */
  datatype Options = Options(
    baseUrl: Option<string>,
    usercode: Option<string>,
    password: Option<string>,
    msgheader: Option<string>,
    encoding: Option<string>,
    grantType: Option<string>,
    queryStringAuth: Option<bool>,
    timeout: Option<int>)

  /** JavaScript truthiness of a string option: absent and `""` are falsy. */
  predicate Truthy(o: Option<string>) {
    o.Some? && o.value != ""
  }

  /** `opt.x || fallback` for a string option. */
  function TextOr(o: Option<string>, fallback: string): string {
    if Truthy(o) then o.value else fallback
  }

  /** `opt.x || fallback` for a number option: absent and `0` are falsy. */
  function NumberOr(o: Option<int>, fallback: int): int {
    if o.Some? && o.value != 0 then o.value else fallback
  }

  /** `opt.x || false` for a boolean option. */
  function FlagOr(o: Option<bool>): bool {
    o == Some(true)
  }

  /** `!options || !options.usercode || !options.password` is false: the constructor goes on. */
  predicate HasCredentials(options: Option<Options>) {
    options.Some? && Truthy(options.value.usercode) && Truthy(options.value.password)
  }

  function LowerAscii(c: char): char {
    if 'A' <= c <= 'Z' then (c as int - 'A' as int + 'a' as int) as char else c
  }

  /**
   * `/^https/i.test(s)`: the string starts with `https` in any mix of
   * cases. Case-insensitive matching of a non-unicode pattern only folds
   * ASCII letters onto these five.
   */
  predicate StartsWithHttps(s: string) {
    |s| >= 5 && forall i :: 0 <= i < 5 ==> LowerAscii(s[i]) == "https"[i]
  }

  /** The fields `_setDefaultsOptions` assigns. */
  datatype Settings = Settings(
    baseUrl: string,
    isHttps: bool,
    msgheader: string,
    encoding: string,
    grantType: string,
    usercode: string,
    password: string,
    queryStringAuth: bool,
    timeout: int)

  /** The settings `_setDefaultsOptions(opt)` leaves behind. */
  function Defaults(opt: Options): (s: Settings)
    ensures s.baseUrl != "" && s.encoding != "" && s.grantType != "" && s.timeout != 0
    ensures s.isHttps <==> StartsWithHttps(s.baseUrl)
    ensures !Truthy(opt.baseUrl) ==> s.baseUrl == DefaultBaseUrl && s.isHttps
    ensures !Truthy(opt.encoding) ==> s.encoding == DefaultEncoding
    ensures !Truthy(opt.grantType) ==> s.grantType == DefaultGrantType
    ensures !Truthy(opt.msgheader) ==> s.msgheader == ""
    ensures (opt.timeout.None? || opt.timeout.value == 0) ==> s.timeout == DefaultTimeout
    ensures opt.queryStringAuth != Some(true) ==> !s.queryStringAuth
    ensures Truthy(opt.usercode) ==> s.usercode == opt.usercode.value
    ensures Truthy(opt.password) ==> s.password == opt.password.value
  {
    var base := TextOr(opt.baseUrl, DefaultBaseUrl);
    Settings(
      baseUrl := base,
      isHttps := StartsWithHttps(base),
      msgheader := TextOr(opt.msgheader, ""),
      encoding := TextOr(opt.encoding, DefaultEncoding),
      grantType := TextOr(opt.grantType, DefaultGrantType),
      usercode := TextOr(opt.usercode, ""),
      password := TextOr(opt.password, ""),
      queryStringAuth := FlagOr(opt.queryStringAuth),
      timeout := NumberOr(opt.timeout, DefaultTimeout))
  }

  /** Options that spell out every field of some settings. */
  function AsOptions(s: Settings): Options {
    Options(Some(s.baseUrl), Some(s.usercode), Some(s.password), Some(s.msgheader),
      Some(s.encoding), Some(s.grantType), Some(s.queryStringAuth), Some(s.timeout))
  }

  /** Defaulting is a fixpoint: feeding the defaulted settings back in changes nothing. */
  lemma DefaultsIdempotent(opt: Options)
    ensures Defaults(AsOptions(Defaults(opt))) == Defaults(opt)
  {
  }

  /** Explicit options that are truthy are kept as given. */
  lemma DefaultsKeepGivenOptions(opt: Options)
    requires Truthy(opt.baseUrl) && Truthy(opt.encoding)
    requires opt.timeout.Some? && opt.timeout.value != 0
    ensures Defaults(opt).baseUrl == opt.baseUrl.value
    ensures Defaults(opt).encoding == opt.encoding.value
    ensures Defaults(opt).timeout == opt.timeout.value
  {
  }

  /**
   * `baseUrl` followed by `api/` and the endpoint, with a `/` between them
   * only when `baseUrl` does not already end with one.
   */
  function EndpointUrl(baseUrl: string, endpoint: string): (url: string)
    ensures |baseUrl| > 0 && baseUrl[|baseUrl| - 1] == '/' ==> url == baseUrl + "api/" + endpoint
    ensures !(|baseUrl| > 0 && baseUrl[|baseUrl| - 1] == '/') ==> url == baseUrl + "/api/" + endpoint
  {
    var dir := if |baseUrl| > 0 && baseUrl[|baseUrl| - 1] == '/' then baseUrl else baseUrl + "/";
    dir + "api/" + endpoint
  }

  /** A trailing `/` on the configured base URL makes no difference to the endpoint URL. */
  lemma TrailingSlashIrrelevant(baseUrl: string, endpoint: string)
    requires !(|baseUrl| > 0 && baseUrl[|baseUrl| - 1] == '/')
    ensures EndpointUrl(baseUrl + "/", endpoint) == EndpointUrl(baseUrl, endpoint)
  {
  }

  /** The NetGsm client: the settings the constructor stores on the object. */
  class Client {
    var baseUrl: string
    var isHttps: bool
    var msgheader: string
    var encoding: string
    var grantType: string
    var usercode: string
    var password: string
    var queryStringAuth: bool
    var timeout: int

    function Current(): Settings
      reads this
    {
      Settings(baseUrl, isHttps, msgheader, encoding, grantType, usercode, password, queryStringAuth, timeout)
    }

    /** `new NetGsm(options)` once the credentials check has passed, keeping the defaulted base URL. */
    constructor (opt: Options)
      requires HasCredentials(Some(opt))
      ensures Current() == Defaults(opt)
    {
      new;
      SetDefaultsOptions(opt);
    }

    /** `_setDefaultsOptions(opt)`: assigns every setting, an absent or falsy option replaced by its default. */
    method SetDefaultsOptions(opt: Options)
      modifies this
      ensures Current() == Defaults(opt)
    {
      baseUrl := TextOr(opt.baseUrl, DefaultBaseUrl);
      isHttps := StartsWithHttps(baseUrl);
      msgheader := TextOr(opt.msgheader, "");
      encoding := TextOr(opt.encoding, DefaultEncoding);
      grantType := TextOr(opt.grantType, DefaultGrantType);
      usercode := TextOr(opt.usercode, "");
      password := TextOr(opt.password, "");
      queryStringAuth := FlagOr(opt.queryStringAuth);
      timeout := NumberOr(opt.timeout, DefaultTimeout);
    }

    /**
     * `_getUrl(endpoint, params)`: the endpoint URL under the base URL,
     * normalised with the parameters; `parsed` is the query the URL parser
     * finds in it.
     */
    method GetUrl(endpoint: string, parsed: map<string, string>, params: seq<Param>) returns (url: string)
      ensures url == Normalized(EndpointUrl(baseUrl, endpoint), parsed, params)
    {
      var u := if |baseUrl| > 0 && baseUrl[|baseUrl| - 1] == '/' then baseUrl else baseUrl + "/";
      u := u + "api/" + endpoint;
      url := NormalizeQueryString(u, parsed, params);
    }
  }

  /** `new NetGsm(options)`: fails unless the options carry a user code and a password. */
  method NewClient(options: Option<Options>) returns (r: Result<Client, ClientError>)
    ensures r.Failure? <==> !HasCredentials(options)
    ensures r.Failure? ==> r.error == MissingOrInvalidOptions
    ensures r.Success? ==> fresh(r.value) && r.value.Current() == Defaults(options.value)
  {
    if !HasCredentials(options) {
      return Failure(MissingOrInvalidOptions);
    }
    var client := new Client(options.value);
    r := Success(client);
  }

  /** A client built without a base URL sends its requests under the default host. */
  lemma DefaultBaseUrlUsed(opt: Options, endpoint: string)
    requires !Truthy(opt.baseUrl)
    ensures EndpointUrl(Defaults(opt).baseUrl, endpoint) == DefaultBaseUrl + "/api/" + endpoint
  {
  }

  // ---------------------------------------------------------------------
  // The constructor as written: after `_setDefaultsOptions`, the line
  // `this.baseUrl = options.baseUrl` stores the raw option over the default.

  /** The base URL field the constructor as written leaves: the raw option, `undefined` when absent. */
  function ConstructedBaseUrlAsWritten(opt: Options): (r: Option<string>)
    ensures r.None? <==> opt.baseUrl.None?
    ensures r.Some? ==> r.value == opt.baseUrl.value
  {
    opt.baseUrl
  }

  /** `_getUrl` on a base URL field that may be `undefined`, where `slice` throws. */
  function EndpointUrlAsWritten(baseUrl: Option<string>, endpoint: string): (r: Result<string, ClientError>)
    ensures r.Failure? <==> baseUrl.None?
    ensures r.Success? ==> r.value == EndpointUrl(baseUrl.value, endpoint)
  {
    match baseUrl
    case None => Failure(TypeError)
    case Some(b) => Success(EndpointUrl(b, endpoint))
  }

  /**
   * Without a `baseUrl` option the documented default is lost: the default
   * `_setDefaultsOptions` stores is overwritten with `undefined`, and every
   * request then fails in `_getUrl`.
   */
  lemma DefaultBaseUrlLostAsWritten(opt: Options, endpoint: string)
    requires HasCredentials(Some(opt)) && opt.baseUrl.None?
    ensures Defaults(opt).baseUrl == DefaultBaseUrl
    ensures EndpointUrlAsWritten(ConstructedBaseUrlAsWritten(opt), endpoint) == Failure(TypeError)
  {
  }
}
