/** The memoised analysis gateway of `src/services/aiAnalysisService.ts`.
    Each analysis method builds a cache key from a fixed prefix and a 32-bit
    rolling hash of its input, returns a truthy cached value without calling
    the model, and otherwise asks the model, cuts the JSON span out of the
    reply, parses it, checks it and stores it for an hour. The model's reply
    and `JSON.parse` are oracles passed in as parameters. */
module AiAnalysis {
  import opened Wrappers
  import opened Json
  import opened JsText
  import opened JsNumber
  import opened CacheManager

  /** `CACHE_CONFIG.ttl` of `src/config/agentConfig.ts`, in seconds. */
  const CacheTtlSeconds: int := 3600

  const Modulus: int := 0x1_0000_0000

  // ---------------------------------------------------------------- hash

  /** One step of the loop: `hash = ((hash << 5) - hash) + char; hash = hash & hash`.
      `<<` and `&` truncate their operands and result to signed 32 bits;
      `-` and `+` are exact here, the values staying far below 2^53. */
  function HashStep(h: int, c: char): int {
    ToInt32(ToInt32(ToInt32(h) * 32) - h + c as int)
  }

  /** The hash after the loop has consumed all of `s`. */
  function HashFold(s: string): (h: int)
    ensures -TwoTo31 <= h < TwoTo31
  {
    if s == [] then 0 else HashStep(HashFold(s[..|s| - 1]), s[|s| - 1])
  }

  /** The unwrapped polynomial hash: sum of code(s[i]) * 31^(n-1-i). */
  function Polynomial(s: string): int {
    if s == [] then 0 else 31 * Polynomial(s[..|s| - 1]) + s[|s| - 1] as int
  }

  lemma ToInt32Congruent(x: int, y: int)
    requires (x - y) % Modulus == 0
    ensures ToInt32(x) == ToInt32(y)
  {
    var q := (x - y) / Modulus;
    assert x == y + Modulus * q;
    assert x % Modulus == y % Modulus;
  }

  lemma MultipleTimes(d: int, k: int)
    requires d % Modulus == 0
    ensures (k * d) % Modulus == 0
  {
    var q := d / Modulus;
    assert d == Modulus * q;
    assert k * d == Modulus * (k * q);
  }

  /** Each step is `h := (31 * h + code) mod 2^32`, read as a signed 32-bit value. */
  lemma HashStepIsTimes31(h: int, c: char)
    requires -TwoTo31 <= h < TwoTo31
    ensures HashStep(h, c) == ToInt32(31 * h + c as int)
  {
    var shifted := ToInt32(h * 32);
    assert ToInt32(h) == h;
    assert (shifted - h + c as int) - (31 * h + c as int) == shifted - h * 32;
    ToInt32Congruent(shifted - h + c as int, 31 * h + c as int);
  }

  /** The hash of a string is its polynomial hash wrapped into signed 32 bits. */
  lemma {:induction false} HashIsWrappedPolynomial(s: string)
    ensures HashFold(s) == ToInt32(Polynomial(s))
  {
    if s != [] {
      var init := s[..|s| - 1];
      var c := s[|s| - 1];
      HashIsWrappedPolynomial(init);
      HashStepIsTimes31(HashFold(init), c);
      var p := Polynomial(init);
      MultipleTimes(ToInt32(p) - p, 31);
      assert (31 * ToInt32(p) + c as int) - (31 * p + c as int) == 31 * (ToInt32(p) - p);
      ToInt32Congruent(31 * ToInt32(p) + c as int, 31 * p + c as int);
    }
  }

  /** `hashContent`: the loop over the input's characters, then `toString(36)`. */
  method HashContent(content: string) returns (digest: string)
    ensures digest == RadixString(HashFold(content), 36)
    ensures ParseRadixString(digest, 36) == Some(HashFold(content))
  {
    var hash := 0;
    var i := 0;
    while i < |content|
      invariant i <= |content|
      invariant hash == HashFold(content[..i])
    {
      assert content[..i + 1][..i] == content[..i];
      hash := HashStep(hash, content[i]);
      i := i + 1;
    }
    assert content[..i] == content;
    digest := RadixString(hash, 36);
    RadixRoundTrip(hash, 36);
  }

  lemma EmptyHash()
    ensures HashFold("") == 0 && RadixString(HashFold(""), 36) == "0"
  {
  }

  // ---------------------------------------------------------- cache keys

  /** The four analyses; each has its own key prefix. */
  datatype Kind = ErrorFix | Priority | ProductionImpact | SimilarIssues

  function Prefix(k: Kind): string {
    match k
    case ErrorFix => "error_fix_"
    case Priority => "error_priority_"
    case ProductionImpact => "production_impact_"
    case SimilarIssues => "similar_issues_"
  }

  /** The cache key of an analysis of `input`. */
  function CacheKey(k: Kind, input: string): string {
    Prefix(k) + RadixString(HashFold(input), 36)
  }

  /** Keys of different analyses never collide, whatever their inputs:
      the prefixes already differ within their first seven characters. */
  lemma KindsNeverShareKeys(k1: Kind, k2: Kind, a: string, b: string)
    requires k1 != k2
    ensures CacheKey(k1, a) != CacheKey(k2, b)
  {
    var i := if (k1 == ErrorFix && k2 == Priority) || (k1 == Priority && k2 == ErrorFix) then 6 else 0;
    PrefixesDiffer(k1, k2, i);
    PrefixCharInKey(k1, a, i);
    PrefixCharInKey(k2, b, i);
  }

  /** The chosen position tells two different prefixes apart. */
  lemma PrefixesDiffer(k1: Kind, k2: Kind, i: nat)
    requires k1 != k2
    requires i == if (k1 == ErrorFix && k2 == Priority) || (k1 == Priority && k2 == ErrorFix) then 6 else 0
    ensures i < |Prefix(k1)| && i < |Prefix(k2)| && Prefix(k1)[i] != Prefix(k2)[i]
  {
  }

  /** A key starts with its analysis' prefix. */
  lemma PrefixCharInKey(k: Kind, input: string, i: nat)
    requires i < |Prefix(k)|
    ensures i < |CacheKey(k, input)| && CacheKey(k, input)[i] == Prefix(k)[i]
  {
    var digest := RadixString(HashFold(input), 36);
    assert CacheKey(k, input) == Prefix(k) + digest;
  }

  /** Within one analysis, inputs with different hashes get different keys. */
  lemma KeyDeterminesHash(k: Kind, a: string, b: string)
    requires CacheKey(k, a) == CacheKey(k, b)
    ensures HashFold(a) == HashFold(b)
  {
    var n := |Prefix(k)|;
    assert CacheKey(k, a)[n..] == RadixString(HashFold(a), 36);
    assert CacheKey(k, b)[n..] == RadixString(HashFold(b), 36);
    RadixRoundTrip(HashFold(a), 36);
    RadixRoundTrip(HashFold(b), 36);
  }

  /** `prioritizeErrors` hashes `logs.join('')`. */
  function PriorityInput(logs: seq<string>): string {
    Join(logs, "")
  }

  /** Joining with "" puts the first part in front of the join of the rest. */
  lemma JoinCons(a: string, rest: seq<string>)
    ensures Join([a] + rest, "") == a + Join(rest, "")
  {
    if |rest| > 0 {
      assert ([a] + rest)[1..] == rest;
    }
  }

  /** Moving the boundary between two neighbouring entries, anywhere in
      the list, leaves the joined text unchanged. */
  lemma {:induction false} JoinMovesBoundary(pre: seq<string>, x: string, y: string, z: string, post: seq<string>)
    ensures Join(pre + [x + y, z] + post, "") == Join(pre + [x, y + z] + post, "")
    decreases |pre|
  {
    if pre == [] {
      assert [x + y, z] + post == [x + y] + ([z] + post);
      assert [x, y + z] + post == [x] + ([y + z] + post);
      JoinCons(x + y, [z] + post);
      JoinCons(z, post);
      JoinCons(x, [y + z] + post);
      JoinCons(y + z, post);
    } else {
      JoinMovesBoundary(pre[1..], x, y, z, post);
      assert pre + [x + y, z] + post == [pre[0]] + (pre[1..] + [x + y, z] + post);
      assert pre + [x, y + z] + post == [pre[0]] + (pre[1..] + [x, y + z] + post);
      JoinCons(pre[0], pre[1..] + [x + y, z] + post);
      JoinCons(pre[0], pre[1..] + [x, y + z] + post);
    }
  }

  /** `logs.join('')` forgets where one log ends and the next begins, so
      two lists that differ only there share one cache entry. */
  lemma PriorityKeyIgnoresBoundaries(pre: seq<string>, x: string, y: string, z: string, post: seq<string>)
    ensures CacheKey(Priority, PriorityInput(pre + [x + y, z] + post)) ==
            CacheKey(Priority, PriorityInput(pre + [x, y + z] + post))
  {
    JoinMovesBoundary(pre, x, y, z, post);
  }

  // ------------------------------------------------------ reply handling

  /** The delimiters of the expected JSON: an array for `prioritizeErrors`,
      an object otherwise. */
  function Open(k: Kind): char { if k == Priority then '[' else '{' }
  function Close(k: Kind): char { if k == Priority then ']' else '}' }

  predicate SpanAt(text: string, i: nat, span: string) {
    i + |span| <= |text| && text[i..i + |span|] == span
  }

  /** The match of `/\{[\s\S]*\}/` (or its bracket form): from the first
      opening delimiter to the last closing one, when that one comes later. */
  function JsonSpan(text: string, open: char, close: char): (r: Option<string>)
    ensures r.None? <==> forall i, j :: 0 <= i < j < |text| && text[i] == open ==> text[j] != close
    ensures r.Some? ==> |r.value| >= 2 && r.value[0] == open && r.value[|r.value| - 1] == close
    ensures r.Some? ==> exists i: nat :: SpanAt(text, i, r.value) && open !in text[..i] &&
                                   close !in text[i + |r.value|..]
  {
    match IndexOfChar(text, open)
    case None => None
    case Some(i) =>
      match LastIndexOfChar(text, close)
      case None => None
      case Some(j) =>
        if j > i then
          var span := text[i..j + 1];
          assert SpanAt(text, i, span);
          Some(span)
        else
          assert forall a, b :: 0 <= a < b < |text| && text[a] == open ==> text[b] != close by {
            forall a, b | 0 <= a < b < |text| && text[a] == open ensures text[b] != close {
              if b > j { assert text[j + 1..][b - j - 1] == text[b]; }
            }
          }
          None
  }

  /** The fields `suggestErrorFix` insists on. */
  const RequiredFields: seq<string> := ["errorType", "confidence", "suggestedFix", "impact"]

  /** `!parsed.errorType || !parsed.confidence || ...` fails exactly when some
      required field is absent or falsy, so a confidence of 0 is rejected. */
  predicate HasRequiredFields(v: Json) {
    forall i :: 0 <= i < |RequiredFields| ==> TruthyProperty(v, RequiredFields[i])
  }

  lemma ZeroConfidenceRejected(fields: map<string, Json>)
    requires "confidence" in fields && fields["confidence"] == JNum(0.0)
    ensures !HasRequiredFields(JObj(fields))
  {
    assert RequiredFields[1] == "confidence";
  }

  const ErrorPrefix: string := "Falha ao processar resposta da IA: "
  const NoJsonMessage: string := "Resposta não contém JSON válido: "
  const MissingFieldsMessage: string := "JSON não contém todos os campos necessários"

  /** Every failure inside the `try` is rethrown with the fixed prefix. */
  function Wrap(message: string): string {
    ErrorPrefix + message
  }

  /** The part of an analysis method after a cache miss: what the reply
      yields, before anything is written. */
  function Interpret(k: Kind, reply: Result<string>, parse: string -> Result<Json>): (r: Result<Json>)
    ensures r.Err? ==> StartsWith(r.message, ErrorPrefix)
    ensures r.Ok? ==> reply.Ok? && JsonSpan(Trim(reply.value), Open(k), Close(k)).Some? &&
                      parse(JsonSpan(Trim(reply.value), Open(k), Close(k)).value) == Ok(r.value)
    ensures r.Ok? && k == ErrorFix ==> HasRequiredFields(r.value)
  {
    match reply
    case Err(m) => Err(Wrap(m))
    case Ok(raw) =>
      var text := Trim(raw);
      match JsonSpan(text, Open(k), Close(k))
      case None => Err(Wrap(NoJsonMessage + text))
      case Some(span) =>
        match parse(span)
        case Err(m) => Err(Wrap(m))
        case Ok(v) =>
          if k == ErrorFix && !HasRequiredFields(v) then Err(Wrap(MissingFieldsMessage))
          else Ok(v)
  }

  /** The outcome of one analysis call: its result, whether the model was
      called, and the cache tiers afterwards. */
  datatype Outcome = Outcome(result: Result<Json>, modelCalled: bool, tiers: Tiers)

  /** One analysis call on cache tiers `t`: the lookup at `now`, and on a
      miss the model's `reply`, interpreted, and a write at `doneAt` on success. */
  function AnalyzeSpec(t: Tiers, k: Kind, input: string, now: int, doneAt: int,
                       reply: Result<string>, parse: string -> Result<Json>,
                       unlinkOk: bool, writeOk: bool): Outcome
  {
    var key := CacheKey(k, input);
    var (hit, t1) := GetSpec(t, key, now, unlinkOk);
    if hit.Some? && Truthy(hit.value) then Outcome(Ok(hit.value), false, t1)
    else
      var r := Interpret(k, reply, parse);
      if r.Ok? then Outcome(r, true, SetSpec(t1, key, r.value, CacheTtlSeconds, doneAt, writeOk))
      else Outcome(r, true, t1)
  }

  /** The shared body of the four analysis methods, on the process-wide cache. */
  method Analyze(cache: Cache, k: Kind, input: string, now: int, doneAt: int,
                 reply: Result<string>, parse: string -> Result<Json>,
                 unlinkOk: bool, writeOk: bool)
    returns (result: Result<Json>, modelCalled: bool)
    modifies cache
    ensures Outcome(result, modelCalled, cache.State()) ==
            AnalyzeSpec(old(cache.State()), k, input, now, doneAt, reply, parse, unlinkOk, writeOk)
  {
    var digest := HashContent(input);
    var key := Prefix(k) + digest;
    var cached := cache.Get(key, now, unlinkOk);
    if cached.Some? && Truthy(cached.value) {
      return Ok(cached.value), false;
    }
    modelCalled := true;
    result := Interpret(k, reply, parse);
    if result.Ok? {
      cache.Set(key, result.value, CacheTtlSeconds, doneAt, writeOk);
    }
  }

  method SuggestErrorFix(cache: Cache, logContent: string, now: int, doneAt: int,
                         reply: Result<string>, parse: string -> Result<Json>,
                         unlinkOk: bool, writeOk: bool)
    returns (result: Result<Json>, modelCalled: bool)
    modifies cache
    ensures Outcome(result, modelCalled, cache.State()) ==
            AnalyzeSpec(old(cache.State()), ErrorFix, logContent, now, doneAt, reply, parse, unlinkOk, writeOk)
  {
    result, modelCalled := Analyze(cache, ErrorFix, logContent, now, doneAt, reply, parse, unlinkOk, writeOk);
  }

  method PrioritizeErrors(cache: Cache, logs: seq<string>, now: int, doneAt: int,
                          reply: Result<string>, parse: string -> Result<Json>,
                          unlinkOk: bool, writeOk: bool)
    returns (result: Result<Json>, modelCalled: bool)
    modifies cache
    ensures Outcome(result, modelCalled, cache.State()) ==
            AnalyzeSpec(old(cache.State()), Priority, PriorityInput(logs), now, doneAt, reply, parse, unlinkOk, writeOk)
  {
    result, modelCalled := Analyze(cache, Priority, PriorityInput(logs), now, doneAt, reply, parse, unlinkOk, writeOk);
  }

  method AnalyzeProductionImpact(cache: Cache, logContent: string, now: int, doneAt: int,
                                 reply: Result<string>, parse: string -> Result<Json>,
                                 unlinkOk: bool, writeOk: bool)
    returns (result: Result<Json>, modelCalled: bool)
    modifies cache
    ensures Outcome(result, modelCalled, cache.State()) ==
            AnalyzeSpec(old(cache.State()), ProductionImpact, logContent, now, doneAt, reply, parse, unlinkOk, writeOk)
  {
    result, modelCalled := Analyze(cache, ProductionImpact, logContent, now, doneAt, reply, parse, unlinkOk, writeOk);
  }

  method PredictSimilarIssues(cache: Cache, logContent: string, now: int, doneAt: int,
                              reply: Result<string>, parse: string -> Result<Json>,
                              unlinkOk: bool, writeOk: bool)
    returns (result: Result<Json>, modelCalled: bool)
    modifies cache
    ensures Outcome(result, modelCalled, cache.State()) ==
            AnalyzeSpec(old(cache.State()), SimilarIssues, logContent, now, doneAt, reply, parse, unlinkOk, writeOk)
  {
    result, modelCalled := Analyze(cache, SimilarIssues, logContent, now, doneAt, reply, parse, unlinkOk, writeOk);
  }

  // ------------------------------------------------------------ properties

  /** A truthy cache hit is returned as is: the model is not called and
      nothing is written beyond what the lookup itself did. */
  lemma HitSkipsModel(t: Tiers, k: Kind, input: string, now: int, doneAt: int,
                      reply: Result<string>, parse: string -> Result<Json>, unlinkOk: bool, writeOk: bool)
    requires var hit := GetSpec(t, CacheKey(k, input), now, unlinkOk).0; hit.Some? && Truthy(hit.value)
    ensures var o := AnalyzeSpec(t, k, input, now, doneAt, reply, parse, unlinkOk, writeOk);
            var g := GetSpec(t, CacheKey(k, input), now, unlinkOk);
            !o.modelCalled && o.result == Ok(g.0.value) && o.tiers == g.1
  {
  }

  /** On a miss the model is called; the cache is written, with the
      one-hour time to live, exactly when the call succeeds. */
  lemma MissCallsModelAndStoresOnlySuccess(t: Tiers, k: Kind, input: string, now: int, doneAt: int,
                                           reply: Result<string>, parse: string -> Result<Json>,
                                           unlinkOk: bool, writeOk: bool)
    requires var hit := GetSpec(t, CacheKey(k, input), now, unlinkOk).0; !(hit.Some? && Truthy(hit.value))
    ensures var o := AnalyzeSpec(t, k, input, now, doneAt, reply, parse, unlinkOk, writeOk);
            var key := CacheKey(k, input);
            var g := GetSpec(t, key, now, unlinkOk);
            o.modelCalled &&
            (o.result.Err? ==> o.tiers == g.1 && StartsWith(o.result.message, ErrorPrefix)) &&
            (o.result.Ok? ==> key in o.tiers.mem &&
                              o.tiers.mem[key] == Entry(o.result.value, doneAt + CacheTtlSeconds * 1000))
  {
  }

  /** The same input analysed again within the hour is served from the
      cache: no second model call and the same value, whatever the model
      would now reply. */
  lemma RepeatWithinTtlServedFromCache(t: Tiers, k: Kind, input: string, now: int, doneAt: int,
                                       reply: Result<string>, parse: string -> Result<Json>,
                                       unlinkOk: bool, writeOk: bool,
                                       now2: int, doneAt2: int, reply2: Result<string>,
                                       parse2: string -> Result<Json>, unlinkOk2: bool, writeOk2: bool)
    requires now2 < doneAt + CacheTtlSeconds * 1000
    requires var o := AnalyzeSpec(t, k, input, now, doneAt, reply, parse, unlinkOk, writeOk);
             o.result.Ok? && o.modelCalled && Truthy(o.result.value)
    ensures var o := AnalyzeSpec(t, k, input, now, doneAt, reply, parse, unlinkOk, writeOk);
            var o2 := AnalyzeSpec(o.tiers, k, input, now2, doneAt2, reply2, parse2, unlinkOk2, writeOk2);
            !o2.modelCalled && o2.result == o.result
  {
    var o := AnalyzeSpec(t, k, input, now, doneAt, reply, parse, unlinkOk, writeOk);
    var key := CacheKey(k, input);
    assert key in o.tiers.mem && o.tiers.mem[key].expiry > now2;
  }

  /** A successful `suggestErrorFix` result is an object, hence truthy, so
      the repeat property above always applies to it. */
  lemma ErrorFixResultIsTruthy(reply: Result<string>, parse: string -> Result<Json>)
    requires Interpret(ErrorFix, reply, parse).Ok?
    ensures Truthy(Interpret(ErrorFix, reply, parse).value)
  {
    var v := Interpret(ErrorFix, reply, parse).value;
    assert TruthyProperty(v, RequiredFields[0]);
  }
}
