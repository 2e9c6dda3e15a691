/**
 * The environment flags and server URLs the web front end derives once,
 * at start-up, from its environment variables. The variables are
 * parameters here; an absent variable is None.
 */
module Config {
  import opened Wrappers

  /** The environment variables the derivation reads. */
  datatype ProcessEnv = ProcessEnv(
    nodeEnv: Option<string>,
    cwaServerHost: Option<string>,
    cwaServerPort: Option<string>,
    publicCwaServerUrl: Option<string>)

  datatype EnvFlags = EnvFlags(dev: bool, local: bool, devOrLocal: bool, prod: bool)

  /** `process.env.NODE_ENV || "development"`: the variable when set and non-empty, otherwise "development". */
  function Environment(nodeEnv: Option<string>): (environment: string)
    ensures nodeEnv.Some? && nodeEnv.value != "" ==> environment == nodeEnv.value
    ensures nodeEnv.None? || nodeEnv.value == "" ==> environment == "development"
    ensures environment != ""
  {
    OrDefault(nodeEnv, "development")
  }

  /**
   * The flags as constants.ts derives them (`dev` is `!prod || env ===
   * "development"`, `local` is `!prod && !dev`): `prod` for "production"
   * or "prod", `dev` exactly when not `prod`, `local` never, and
   * `devOrLocal` the same as `dev`.
   */
  function Flags(environment: string): (f: EnvFlags)
    ensures f.prod <==> environment == "production" || environment == "prod"
    ensures f.dev == !f.prod
    ensures !f.local
    ensures f.devOrLocal == f.dev
  {
    var prod := environment in ["production", "prod"];
    var dev := !prod || environment == "development";
    var local := !prod && !dev;
    EnvFlags(dev, local, dev || local, prod)
  }

  /** An absent or empty NODE_ENV counts as "development": a development build, not production. */
  lemma DefaultEnvironmentIsDevelopment(nodeEnv: Option<string>)
    requires nodeEnv.None? || nodeEnv.value == ""
    ensures Environment(nodeEnv) == "development"
    ensures Flags(Environment(nodeEnv)).dev && !Flags(Environment(nodeEnv)).prod
  {
  }

  /** `process.env.CWA_SERVER_HOST || "http://localhost"`: never empty. */
  function CwaServerHost(env: ProcessEnv): (host: string)
    ensures env.cwaServerHost.Some? && env.cwaServerHost.value != "" ==> host == env.cwaServerHost.value
    ensures env.cwaServerHost.None? || env.cwaServerHost.value == "" ==> host == "http://localhost"
    ensures host != ""
  {
    OrDefault(env.cwaServerHost, "http://localhost")
  }

  /**
   * `process.env.CWA_SERVER_PORT || 3000`, as the template literal of the
   * server URL renders it: never empty. When the variable is unset the
   * program's `constants.cwa.port` is the number 3000, not a string; the
   * model keeps the text "3000" that the URL is built from.
   */
  function CwaServerPort(env: ProcessEnv): (port: string)
    ensures env.cwaServerPort.Some? && env.cwaServerPort.value != "" ==> port == env.cwaServerPort.value
    ensures env.cwaServerPort.None? || env.cwaServerPort.value == "" ==> port == "3000"
    ensures port != ""
  {
    OrDefault(env.cwaServerPort, "3000")
  }

  /**
   * `process.env.NEXT_PUBLIC_CWA_SERVER_URL || `${host}:${port}``: the
   * public URL when it is set, otherwise host and port joined by ':'; never
   * empty.
   */
  function CwaServerUrl(env: ProcessEnv): (url: string)
    ensures env.publicCwaServerUrl.Some? && env.publicCwaServerUrl.value != "" ==> url == env.publicCwaServerUrl.value
    ensures env.publicCwaServerUrl.None? || env.publicCwaServerUrl.value == "" ==>
      url == CwaServerHost(env) + ":" + CwaServerPort(env)
    ensures url != ""
  {
    OrDefault(env.publicCwaServerUrl, CwaServerHost(env) + ":" + CwaServerPort(env))
  }

  /** With none of the three URL variables set, the server is http://localhost:3000. */
  lemma DefaultServerUrl(env: ProcessEnv)
    requires env.publicCwaServerUrl.None? || env.publicCwaServerUrl.value == ""
    requires env.cwaServerHost.None? || env.cwaServerHost.value == ""
    requires env.cwaServerPort.None? || env.cwaServerPort.value == ""
    ensures CwaServerUrl(env) == "http://localhost:3000"
    ensures ApiBase(CwaServerUrl(env)) == "http://localhost:3000/api/"
  {
  }

  /** `s.charAt(i)`: the character at i as a string, or "" outside the string. */
  function CharAt(s: string, i: int): (r: string)
    ensures 0 <= i < |s| ==> r == [s[i]]
    ensures !(0 <= i < |s|) ==> r == ""
  {
    if 0 <= i < |s| then [s[i]] else ""
  }

  /**
   * `routes.api.base`: the URL, a '/' unless the URL already ends in one,
   * then "api/". It always ends in "/api/", keeps the URL as its prefix, and
   * adds exactly one character more than "api/" when the URL does not end
   * in '/'.
   */
  function ApiBase(url: string): (base: string)
    ensures |base| >= 5 && base[|base| - 5..] == "/api/"
    ensures |base| >= |url| && base[..|url|] == url
    ensures |url| > 0 && url[|url| - 1] == '/' ==> |base| == |url| + 4
    ensures !(|url| > 0 && url[|url| - 1] == '/') ==> |base| == |url| + 5 && base[|url|] == '/'
  {
    var base := url + (if CharAt(url, |url| - 1) != "/" then "/" else "") + "api/";
    assert base[..|url|] == url;
    base
  }

  /** An empty URL gives "/api/". */
  lemma ApiBaseOfEmpty()
    ensures ApiBase("") == "/api/"
  {
  }

  /**
   * The frozen `constants` object, as far as it is derived from the
   * environment. `cwaPort` holds the port as text (see `CwaServerPort`).
   */
  datatype Constants = Constants(env: EnvFlags, cwaHost: string, cwaPort: string, cwaUrl: string, apiBase: string, addProperty: string)

  function ConstantsOf(env: ProcessEnv): (c: Constants)
    ensures c.env.prod <==> Environment(env.nodeEnv) == "production" || Environment(env.nodeEnv) == "prod"
    ensures c.env.dev == !c.env.prod && !c.env.local && c.env.devOrLocal == c.env.dev
    ensures c.cwaUrl != "" && |c.apiBase| >= |c.cwaUrl| && c.apiBase[..|c.cwaUrl|] == c.cwaUrl
    ensures |c.apiBase| >= 5 && c.apiBase[|c.apiBase| - 5..] == "/api/"
    ensures c.cwaHost == CwaServerHost(env) && c.cwaPort == CwaServerPort(env) && c.cwaUrl == CwaServerUrl(env)
    ensures c.apiBase == ApiBase(c.cwaUrl)
  {
    var url := CwaServerUrl(env);
    Constants(Flags(Environment(env.nodeEnv)), CwaServerHost(env), CwaServerPort(env), url, ApiBase(url), "add-property")
  }
}
