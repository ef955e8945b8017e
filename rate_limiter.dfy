/** The per-client request limiter of `src/middleware/rateLimiter.ts`. A
    counter per client address lives in the key-value store under
    "ratelimit:" + address; a request is refused once the counter has
    reached the configured maximum, otherwise the counter is raised and the
    request goes on. A client that is not connected lets every request
    through. The module builds its own client and nothing in the program
    connects it, so as shipped the limiter never limits
    (`FreshClientNeverLimits`). */
module RateLimiter {
  import opened Wrappers
  import opened JsText
  import opened JsNumber
  import opened Redis

  /** The effective configuration. Windows are whole milliseconds. */
  datatype Config = Config(windowMs: nat, max: int, message: string, statusCode: int)

  /** The caller's `Partial<RateLimitConfig>`: absent fields keep their default. */
  datatype PartialConfig = PartialConfig(
    windowMs: Option<nat>, max: Option<int>, message: Option<string>, statusCode: Option<int>)

  const DefaultConfig: Config := Config(15 * 60 * 1000, 100, "Too many requests, please try again later.", 429)

  function OrElse<T>(o: Option<T>, d: T): T {
    if o.Some? then o.value else d
  }

  /** `{ ...defaultConfig, ...config }`: field by field, the caller's value
      when given, else the default. */
  function Merge(p: PartialConfig): (c: Config)
    ensures p.windowMs.None? ==> c.windowMs == DefaultConfig.windowMs
    ensures p.windowMs.Some? ==> c.windowMs == p.windowMs.value
    ensures p.max.None? ==> c.max == DefaultConfig.max
    ensures p.max.Some? ==> c.max == p.max.value
    ensures p.message.None? ==> c.message == DefaultConfig.message
    ensures p.message.Some? ==> c.message == p.message.value
    ensures p.statusCode.None? ==> c.statusCode == DefaultConfig.statusCode
    ensures p.statusCode.Some? ==> c.statusCode == p.statusCode.value
  {
    Config(OrElse(p.windowMs, DefaultConfig.windowMs), OrElse(p.max, DefaultConfig.max),
           OrElse(p.message, DefaultConfig.message), OrElse(p.statusCode, DefaultConfig.statusCode))
  }

  function Full(c: Config): PartialConfig {
    PartialConfig(Some(c.windowMs), Some(c.max), Some(c.message), Some(c.statusCode))
  }

  /** An empty override gives the defaults; a full one gives itself. */
  lemma MergeExtremes(c: Config)
    ensures Merge(PartialConfig(None, None, None, None)) == DefaultConfig
    ensures Merge(Full(c)) == c
  {
  }

  /** `authRateLimiter` and `apiRateLimiter` keep the default status 429. */
  const AuthConfig: Config := Merge(PartialConfig(Some(60 * 60 * 1000), Some(5), Some("Too many login attempts, please try again later."), None))
  const ApiConfig: Config := Merge(PartialConfig(Some(60 * 1000), Some(60), Some("API rate limit exceeded, please try again later."), None))

  lemma PresetValues()
    ensures AuthConfig == Config(3600000, 5, "Too many login attempts, please try again later.", 429)
    ensures ApiConfig == Config(60000, 60, "API rate limit exceeded, please try again later.", 429)
  {
  }

  /** The parts of a request the limiter reads. */
  datatype Request = Request(ip: Option<string>, remoteAddress: Option<string>)

  /** `req.ip || req.socket.remoteAddress || 'unknown'`. */
  function ClientIp(req: Request): (ip: string)
    ensures ip != ""
    ensures req.ip.Some? && req.ip.value != "" ==> ip == req.ip.value
    ensures !(req.ip.Some? && req.ip.value != "") && req.remoteAddress.Some? && req.remoteAddress.value != "" ==>
            ip == req.remoteAddress.value
    ensures !(req.ip.Some? && req.ip.value != "") && !(req.remoteAddress.Some? && req.remoteAddress.value != "") ==>
            ip == "unknown"
  {
    if req.ip.Some? && req.ip.value != "" then req.ip.value
    else if req.remoteAddress.Some? && req.remoteAddress.value != "" then req.remoteAddress.value
    else "unknown"
  }

  const KeyPrefix: string := "ratelimit:"

  function CounterKey(req: Request): string {
    KeyPrefix + ClientIp(req)
  }

  /** `current ? parseInt(current) : 0`: a missing or empty counter is 0;
      `None` stands for NaN. */
  function CountOf(current: Option<string>): (count: Option<int>)
    ensures current.None? || current.value == "" ==> count == Some(0)
  {
    if current.None? || current.value == "" then Some(0) else ParseInt(current.value)
  }

  /** `(count + 1).toString()`, NaN + 1 being NaN. */
  function NextValue(count: Option<int>): (s: string)
    ensures s != ""
  {
    if count.Some? then DecimalString(count.value + 1) else "NaN"
  }

  /** `Math.ceil(windowMs / 1000)`. */
  function TtlSeconds(windowMs: nat): (t: nat)
    ensures t * 1000 >= windowMs && (t == 0 || (t - 1) * 1000 < windowMs)
  {
    (windowMs + 999) / 1000
  }

  /** The three headers; NaN again as `None`. */
  datatype Headers = Headers(limit: int, remaining: Option<int>, reset: int)

  /** What the middleware does with the request. */
  datatype Response =
    | Refused(status: int, message: string)
    | Passed(headers: Option<Headers>)

  function MaxInt(a: int, b: int): int { if a < b then b else a }

  /** `X-RateLimit-Remaining`: `Math.max(0, max - count - 1)`. */
  function Remaining(max: int, count: Option<int>): Option<int> {
    if count.Some? then Some(MaxInt(0, max - count.value - 1)) else None
  }

  /** `X-RateLimit-Reset`: the end of the window in whole seconds, rounded up. */
  function ResetAt(now: nat, windowMs: nat): int {
    (now + windowMs + 999) / 1000
  }

  datatype Outcome = Outcome(response: Response, store: map<string, Stored>)

  /** One request, given the client's connection flag and the store. */
  function HandleSpec(cfg: Config, connected: bool, store: map<string, Stored>, req: Request, now: nat): Outcome {
    if !connected then Outcome(Passed(None), store)
    else
      var key := CounterKey(req);
      var count := CountOf(if key in store then Some(store[key].value) else None);
      if count.Some? && count.value >= cfg.max then Outcome(Refused(cfg.statusCode, cfg.message), store)
      else
        var ttl := TtlSeconds(cfg.windowMs);
        var written := store[key := Stored(NextValue(count), if ttl != 0 then Some(ttl) else None)];
        Outcome(Passed(Some(Headers(cfg.max, Remaining(cfg.max, count), ResetAt(now, cfg.windowMs)))), written)
  }

  /** The middleware returned by `rateLimiter(config)`, on the shared client. */
  method Handle(cfg: Config, service: RedisService, req: Request, now: nat) returns (response: Response)
    modifies service
    ensures Outcome(response, service.store) == HandleSpec(cfg, old(service.connected), old(service.store), req, now)
    ensures service.connected == old(service.connected)
  {
    var key := KeyPrefix + ClientIp(req);
    var current := service.Get(key);
    if current.Err? {
      return Passed(None);
    }
    var count := CountOf(current.value);
    if count.Some? && count.value >= cfg.max {
      return Refused(cfg.statusCode, cfg.message);
    }
    var ttl := TtlSeconds(cfg.windowMs);
    var written := service.Set(key, NextValue(count), Some(ttl));
    if written.Err? {
      return Passed(None);
    }
    response := Passed(Some(Headers(cfg.max, Remaining(cfg.max, count), ResetAt(now, cfg.windowMs))));
  }

  // ------------------------------------------------------------ properties

  /** The counter as the next request will read it. */
  function Counter(store: map<string, Stored>, key: string): Option<int> {
    CountOf(if key in store then Some(store[key].value) else None)
  }

  /** On a disconnected client `get` throws, and the catch lets the request
      through with no headers and writes nothing. */
  lemma FailOpen(cfg: Config, store: map<string, Stored>, req: Request, now: nat)
    ensures HandleSpec(cfg, false, store, req, now) == Outcome(Passed(None), store)
  {
  }

  /** The limiter on the client the module builds for itself, which starts
      disconnected and which nothing connects: every request passes, with no
      headers, and the store is left as the server had it. */
  method FreshClientNeverLimits(cfg: Config, options: ClientOptions, server: map<string, Stored>,
                                req: Request, now: nat) returns (response: Response, store: map<string, Stored>)
    ensures response == Passed(None)
    ensures store == server
  {
    var service := new RedisService(options, server);
    response := Handle(cfg, service, req, now);
    store := service.store;
  }

  /** A refused request writes nothing; an admitted one raises this client's
      counter by one and touches no other key. */
  lemma AdmitRaisesCounter(cfg: Config, store: map<string, Stored>, req: Request, now: nat)
    requires Counter(store, CounterKey(req)).Some?
    ensures var o := HandleSpec(cfg, true, store, req, now);
            var key := CounterKey(req);
            var c := Counter(store, key).value;
            (o.response.Refused? <==> c >= cfg.max) &&
            (o.response.Refused? ==> o.store == store && o.response == Refused(cfg.statusCode, cfg.message)) &&
            (o.response.Passed? ==> Counter(o.store, key) == Some(c + 1) &&
                                    (forall k :: k != key ==> (k in o.store <==> k in store)) &&
                                    (forall k :: k != key && k in store ==> o.store[k] == store[k]) &&
                                    o.response.headers == Some(Headers(cfg.max, Some(MaxInt(0, cfg.max - c - 1)), ResetAt(now, cfg.windowMs))))
  {
    var key := CounterKey(req);
    var c := Counter(store, key).value;
    if c < cfg.max {
      var ttl := TtlSeconds(cfg.windowMs);
      var written := Stored(NextValue(Some(c)), if ttl != 0 then Some(ttl) else None);
      assert HandleSpec(cfg, true, store, req, now) ==
             Outcome(Passed(Some(Headers(cfg.max, Some(MaxInt(0, cfg.max - c - 1)), ResetAt(now, cfg.windowMs)))),
                     store[key := written]);
      CounterAfterWrite(store, key, c, written.ttl);
    }
  }

  /** The counter written for count `c` reads back as `c + 1`. */
  lemma CounterAfterWrite(store: map<string, Stored>, key: string, c: int, ttl: Option<int>)
    ensures Counter(store[key := Stored(NextValue(Some(c)), ttl)], key) == Some(c + 1)
  {
    DecimalRoundTrip(c + 1);
  }

  /** Starting from a counter no greater than the maximum, the stored counter
      stays no greater than the maximum. */
  lemma CounterStaysWithinMax(cfg: Config, store: map<string, Stored>, req: Request, now: nat)
    requires var c := Counter(store, CounterKey(req)); c.Some? && c.value <= cfg.max
    ensures var c := Counter(HandleSpec(cfg, true, store, req, now).store, CounterKey(req));
            c.Some? && c.value <= cfg.max
  {
    AdmitRaisesCounter(cfg, store, req, now);
  }

  /** `n` requests in a row from one client; the number admitted. */
  function Burst(cfg: Config, store: map<string, Stored>, req: Request, now: nat, n: nat): (admitted: nat)
    decreases n
  {
    if n == 0 then 0
    else
      var o := HandleSpec(cfg, true, store, req, now);
      (if o.response.Passed? then 1 else 0) + Burst(cfg, o.store, req, now, n - 1)
  }

  /** From a counter `c` with `0 <= c <= max`, a burst of `n` requests
      admits exactly `min(n, max - c)` of them: never more than `max`. */
  lemma {:induction false} BurstAdmitsUpToMax(cfg: Config, store: map<string, Stored>, req: Request, now: nat, n: nat)
    requires var c := Counter(store, CounterKey(req)); c.Some? && 0 <= c.value <= cfg.max
    ensures var c := Counter(store, CounterKey(req)).value;
            Burst(cfg, store, req, now, n) == if n < cfg.max - c then n else cfg.max - c
    decreases n
  {
    if n > 0 {
      AdmitRaisesCounter(cfg, store, req, now);
      var o := HandleSpec(cfg, true, store, req, now);
      BurstAdmitsUpToMax(cfg, o.store, req, now, n - 1);
    }
  }

  /** A counter that does not read as a number is never refused, and is
      written back as "NaN": that client is no longer limited. */
  lemma NotANumberNeverRefused(cfg: Config, store: map<string, Stored>, req: Request, now: nat)
    requires Counter(store, CounterKey(req)).None?
    ensures var o := HandleSpec(cfg, true, store, req, now);
            o.response.Passed? && o.response.headers.value.remaining.None? &&
            Counter(o.store, CounterKey(req)).None?
  {
    assert ParseInt("NaN").None? by {
      assert LeadingWhitespace("NaN") == 0;
      assert DigitValue('N', 10).None?;
    }
  }

  /** A zero window makes the counter permanent: it is written without an
      expiry, so the limit holds for ever rather than per window. */
  lemma ZeroWindowNeverExpires(cfg: Config, store: map<string, Stored>, req: Request, now: nat)
    requires cfg.windowMs == 0
    requires HandleSpec(cfg, true, store, req, now).response.Passed?
    ensures HandleSpec(cfg, true, store, req, now).store[CounterKey(req)].ttl == None
  {
  }
}
