/** src/config/environment.ts: the validated configuration the server reads
    at start-up, the NODE_ENV predicates and the CORS origin setting.
    Validation is stated as the constraints the schema imposes; a numeric
    variable arrives as the number JavaScript's `Number` made of its text. */
module Environment {
  import opened Wrappers
  import Text

  datatype NodeEnv = Development | Production | Test

  datatype LogLevel = Error | Warn | Info | Debug

  /** What `Number(text)` gives for a variable's text: an integer, or NaN
      for text that is not a number. */
  datatype Number = NaN | Int(value: int)

  /** The process environment as far as the schema reads it; `None` is an
      unset variable. */
  datatype RawEnv = RawEnv(
    nodeEnv: Option<string>,
    port: Option<Number>,
    host: Option<string>,
    databaseUrl: Option<string>,
    jwtSecret: Option<string>,
    redisUrl: Option<string>,
    redisPassword: Option<string>,
    corsOrigins: Option<string>,
    apiRateLimit: Option<Number>,
    apiRateWindow: Option<Number>,
    logLevel: Option<string>,
    sentryDsn: Option<string>,
    healthCheckTimeout: Option<Number>,
    shutdownTimeout: Option<Number>)

  /** The validated configuration. */
  datatype Env = Env(
    nodeEnv: NodeEnv,
    port: int,
    host: string,
    databaseUrl: string,
    jwtSecret: string,
    redisUrl: Option<string>,
    redisPassword: Option<string>,
    corsOrigins: Option<string>,
    apiRateLimit: int,
    apiRateWindow: int,
    logLevel: LogLevel,
    sentryDsn: Option<string>,
    healthCheckTimeout: int,
    shutdownTimeout: int)

  /** The constraints every configuration the schema accepts satisfies. */
  predicate Valid(e: Env) {
    && 1 <= e.port <= 65535
    && Text.Utf16Length(e.databaseUrl) >= 1
    && Text.Utf16Length(e.jwtSecret) >= 32
    && e.apiRateLimit > 0
    && e.apiRateWindow > 0
    && e.healthCheckTimeout > 0
    && e.shutdownTimeout > 0
  }

  function NodeEnvName(n: NodeEnv): string {
    match n
    case Development => "development"
    case Production => "production"
    case Test => "test"
  }

  function LogLevelName(l: LogLevel): string {
    match l
    case Error => "error"
    case Warn => "warn"
    case Info => "info"
    case Debug => "debug"
  }

  /** `z.enum(['development', 'production', 'test']).default('development')`. */
  function ParseNodeEnv(v: Option<string>): (r: Option<NodeEnv>)
    ensures v.None? ==> r == Some(Development)
    ensures v.Some? ==> (r.Some? <==> v.value in {"development", "production", "test"})
    ensures v.Some? && r.Some? ==> NodeEnvName(r.value) == v.value
  {
    match v
    case None => Some(Development)
    case Some(s) =>
      if s == "development" then Some(Development)
      else if s == "production" then Some(Production)
      else if s == "test" then Some(Test)
      else None
  }

  /** `z.enum(['error', 'warn', 'info', 'debug']).default('info')`. */
  function ParseLogLevel(v: Option<string>): (r: Option<LogLevel>)
    ensures v.None? ==> r == Some(Info)
    ensures v.Some? ==> (r.Some? <==> v.value in {"error", "warn", "info", "debug"})
    ensures v.Some? && r.Some? ==> LogLevelName(r.value) == v.value
  {
    match v
    case None => Some(Info)
    case Some(s) =>
      if s == "error" then Some(Error)
      else if s == "warn" then Some(Warn)
      else if s == "info" then Some(Info)
      else if s == "debug" then Some(Debug)
      else None
  }

  /** A numeric variable with a default and a lower and optional upper
      bound: NaN fails `z.number()`, and the value must lie in range. */
  function ParseNumber(v: Option<Number>, default: int, min: int, max: Option<int>): (r: Option<int>)
    ensures v.None? ==> r == Some(default)
    ensures v.Some? ==> (r.Some? <==> v.value.Int? && min <= v.value.value && (max.None? || v.value.value <= max.value))
    ensures v.Some? && r.Some? ==> r.value == v.value.value
  {
    match v
    case None => Some(default)
    case Some(NaN) => None
    case Some(Int(n)) => if min <= n && (max.None? || n <= max.value) then Some(n) else None
  }

  /** A required string with a minimum length, counted as JavaScript
      counts it: in UTF-16 code units. */
  function ParseString(v: Option<string>, minLength: nat): (r: Option<string>)
    ensures r.Some? <==> v.Some? && Text.Utf16Length(v.value) >= minLength
    ensures r.Some? ==> r == v
  {
    if v.Some? && Text.Utf16Length(v.value) >= minLength then v else None
  }

  /** `envSchema.parse(process.env)`: the configuration, or the names of
      the variables that fail validation, in schema order. PORT must lie in
      1..65535; the rate limit, window and timeouts are positive. */
  function ParseEnv(raw: RawEnv): (r: Result<Env, seq<string>>)
    ensures r.Success? ==> Valid(r.value)
    ensures r.Failure? ==> |r.error| > 0
  {
    var nodeEnv := ParseNodeEnv(raw.nodeEnv);
    var port := ParseNumber(raw.port, 3001, 1, Some(65535));
    var db := ParseString(raw.databaseUrl, 1);
    var jwt := ParseString(raw.jwtSecret, 32);
    var limit := ParseNumber(raw.apiRateLimit, 100, 1, None);
    var window := ParseNumber(raw.apiRateWindow, 15, 1, None);
    var logLevel := ParseLogLevel(raw.logLevel);
    var health := ParseNumber(raw.healthCheckTimeout, 5000, 1, None);
    var shutdown := ParseNumber(raw.shutdownTimeout, 30000, 1, None);
    var issues :=
      (if nodeEnv.None? then ["NODE_ENV"] else [])
      + (if port.None? then ["PORT"] else [])
      + (if db.None? then ["DATABASE_URL"] else [])
      + (if jwt.None? then ["JWT_SECRET"] else [])
      + (if limit.None? then ["API_RATE_LIMIT"] else [])
      + (if window.None? then ["API_RATE_WINDOW"] else [])
      + (if logLevel.None? then ["LOG_LEVEL"] else [])
      + (if health.None? then ["HEALTH_CHECK_TIMEOUT"] else [])
      + (if shutdown.None? then ["SHUTDOWN_TIMEOUT"] else []);
    if |issues| > 0 then Failure(issues)
    else
      Success(Env(nodeEnv.value, port.value, raw.host.GetOr("0.0.0.0"), db.value, jwt.value,
                  raw.redisUrl, raw.redisPassword, raw.corsOrigins, limit.value, window.value,
                  logLevel.value, raw.sentryDsn, health.value, shutdown.value))
  }

  /** With only the two required variables set, every other setting takes
      its default. */
  lemma {:induction false} Defaults(db: string, jwt: string)
    requires Text.Utf16Length(db) >= 1 && Text.Utf16Length(jwt) >= 32
    ensures var r := ParseEnv(RawEnv(None, None, None, Some(db), Some(jwt), None, None, None, None, None, None, None, None, None));
      && r.Success?
      && r.value == Env(Development, 3001, "0.0.0.0", db, jwt, None, None, None, 100, 15, Info, None, 5000, 30000)
  {
  }

  /** The environment a configuration is read from: each setting written
      back as its variable. */
  function Unparse(e: Env): RawEnv {
    RawEnv(Some(NodeEnvName(e.nodeEnv)), Some(Int(e.port)), Some(e.host), Some(e.databaseUrl), Some(e.jwtSecret),
           e.redisUrl, e.redisPassword, e.corsOrigins, Some(Int(e.apiRateLimit)), Some(Int(e.apiRateWindow)),
           Some(LogLevelName(e.logLevel)), e.sentryDsn, Some(Int(e.healthCheckTimeout)), Some(Int(e.shutdownTimeout)))
  }

  /** The schema accepts exactly the valid configurations: writing a valid
      one out and parsing it gives it back, and parsing never gives an
      invalid one. */
  lemma ParseUnparse(e: Env)
    requires Valid(e)
    ensures ParseEnv(Unparse(e)) == Success(e)
  {
    assert ParseNodeEnv(Some(NodeEnvName(e.nodeEnv))) == Some(e.nodeEnv) by {
      match e.nodeEnv
      case Development =>
      case Production =>
      case Test =>
    }
    assert ParseLogLevel(Some(LogLevelName(e.logLevel))) == Some(e.logLevel) by {
      match e.logLevel
      case Error =>
      case Warn =>
      case Info =>
      case Debug =>
    }
  }

  /** A PORT outside 1..65535, or a rate limit or window that is not
      positive, makes validation fail. */
  lemma RejectsOutOfRange(raw: RawEnv)
    requires || (raw.port.Some? && raw.port.value.Int? && !(1 <= raw.port.value.value <= 65535))
             || (raw.apiRateLimit.Some? && raw.apiRateLimit.value.Int? && raw.apiRateLimit.value.value <= 0)
             || (raw.apiRateWindow.Some? && raw.apiRateWindow.value.Int? && raw.apiRateWindow.value.value <= 0)
    ensures ParseEnv(raw).Failure?
  {
  }

  predicate IsDevelopment(e: Env) { e.nodeEnv == Development }

  predicate IsProduction(e: Env) { e.nodeEnv == Production }

  predicate IsTest(e: Env) { e.nodeEnv == Test }

  /** Exactly one of the three NODE_ENV predicates holds. */
  lemma ExactlyOneMode(e: Env)
    ensures IsDevelopment(e) || IsProduction(e) || IsTest(e)
    ensures !(IsDevelopment(e) && IsProduction(e))
    ensures !(IsDevelopment(e) && IsTest(e))
    ensures !(IsProduction(e) && IsTest(e))
  {
  }

  /** The `origin` option handed to the CORS plugin: a flag that allows
      every origin or none, or a list of allowed origins. */
  datatype CorsSetting = AllowAll(allow: bool) | Origins(list: seq<string>)

  /** `getCorsOrigins`: unset or empty CORS_ORIGINS allows every origin in
      development and none otherwise; else the comma-separated segments,
      each trimmed, empty ones kept, in order. */
  function CorsOrigins(e: Env): (c: CorsSetting)
    ensures e.corsOrigins.None? || e.corsOrigins.value == "" <==> c.AllowAll?
    ensures c.AllowAll? ==> c.allow == IsDevelopment(e)
    ensures c.Origins? ==>
              && |c.list| == Text.Occurrences(e.corsOrigins.value, ',') + 1
              && (forall i :: 0 <= i < |c.list| ==>
                    && ',' !in c.list[i]
                    && (|c.list[i]| > 0 ==> !Text.IsWhitespace(c.list[i][0]) && !Text.IsWhitespace(c.list[i][|c.list[i]| - 1])))
    ensures c.Origins? ==>
              exists parts: seq<string> ::
                && |parts| == |c.list|
                && Text.Join(parts, ',') == e.corsOrigins.value
                && (forall i :: 0 <= i < |parts| ==> ',' !in parts[i] && c.list[i] == Text.Trim(parts[i]))
  {
    match e.corsOrigins
    case None => AllowAll(IsDevelopment(e))
    case Some(s) =>
      if s == "" then AllowAll(IsDevelopment(e))
      else
        var parts := Text.Split(s, ',');
        var list := TrimAll(parts);
        assert |parts| == |list| && Text.Join(parts, ',') == s
               && (forall i :: 0 <= i < |parts| ==> ',' !in parts[i] && list[i] == Text.Trim(parts[i]));
        Origins(list)
  }

  /** Each segment with its surrounding whitespace removed; a trimmed
      segment holds no comma when the segment held none. */
  function TrimAll(parts: seq<string>): (r: seq<string>)
    ensures |r| == |parts|
    ensures forall i :: 0 <= i < |parts| ==> r[i] == Text.Trim(parts[i])
    ensures forall i :: 0 <= i < |parts| && ',' !in parts[i] ==> ',' !in r[i]
  {
    if |parts| == 0 then []
    else
      [Text.Trim(parts[0])] + TrimAll(parts[1..])
  }

  /** Segments without whitespace at their ends come through unchanged. */
  lemma {:induction false} TrimAllKeeps(parts: seq<string>)
    requires forall i :: 0 <= i < |parts| ==>
               |parts[i]| > 0 ==> !Text.IsWhitespace(parts[i][0]) && !Text.IsWhitespace(parts[i][|parts[i]| - 1])
    ensures TrimAll(parts) == parts
  {
    forall i | 0 <= i < |parts| ensures TrimAll(parts)[i] == parts[i] {
      Text.TrimKeeps(parts[i]);
    }
  }

  /** Comma-free segments written comma-separated, whitespace and empty
      segments included, come back as those segments trimmed, in order:
      "https://a.com, https://b.com" gives "https://a.com" and
      "https://b.com". */
  lemma {:induction false} CorsTrimsSegments(e: Env, parts: seq<string>)
    requires |parts| > 0
    requires forall i :: 0 <= i < |parts| ==> ',' !in parts[i]
    requires e.corsOrigins == Some(Text.Join(parts, ','))
    requires Text.Join(parts, ',') != ""
    ensures CorsOrigins(e) == Origins(TrimAll(parts))
  {
    Text.SplitJoin(parts, ',');
  }

  /** Writing a list of origins comma-separated, with no whitespace at their
      ends and no commas inside, gives back the same list. */
  lemma {:induction false} CorsRoundTrip(e: Env, origins: seq<string>)
    requires |origins| > 0
    requires forall i :: 0 <= i < |origins| ==> ',' !in origins[i]
    requires forall i :: 0 <= i < |origins| ==>
               |origins[i]| > 0 ==> !Text.IsWhitespace(origins[i][0]) && !Text.IsWhitespace(origins[i][|origins[i]| - 1])
    requires e.corsOrigins == Some(Text.Join(origins, ','))
    requires Text.Join(origins, ',') != ""
    ensures CorsOrigins(e) == Origins(origins)
  {
    CorsTrimsSegments(e, origins);
    TrimAllKeeps(origins);
  }
}
