/**
 Classification of service failures (llmprovider/api_error.go) and the retry decision taken on
 them (llmprovider/provider.go): which failures may be retried, and which sentinels each matches.
 */
module ApiErrors {
  import opened Options

  /** time.Duration in nanoseconds. */
  const SECOND := 1_000_000_000
  const RETRY_BACKOFF_CAP := 30 * SECOND

  datatype Sentinel = RateLimited | ProviderUnavailable | AuthFailure | InvalidRequest | QuotaExhausted | NotPermitted

  /** errors.Is between sentinels: an exhausted quota is also a rate limit. */
  predicate SentinelIs(s: Sentinel, target: Sentinel) {
    s == target || (s == QuotaExhausted && target == RateLimited)
  }

  /**
   What errors.As finds in a failed attempt: an APIError, a RateLimitError, or an error wrapping some sentinels
   only.
   */
  datatype Failure =
    | ApiError(status: int, sentinel: Sentinel, retryAfter: int, terminal: bool)
    | RateLimit(rateStatus: int, retryAfter: int)
    | Plain(sentinels: set<Sentinel>)
  {
    /** APIError.Unwrap: the classified sentinel, and the status sentinel when that adds something. */
    function Unwrap(): seq<Sentinel>
      requires ApiError?
    {
      if status != 0 && !SentinelIs(sentinel, StatusSentinel(status)) then [sentinel, StatusSentinel(status)]
          else [sentinel]
    }

    /** errors.Is. */
    predicate Is(target: Sentinel) {
      match this
      case ApiError(_, _, _, _) => exists k :: 0 <= k < |Unwrap()| && SentinelIs(Unwrap()[k], target)
      case RateLimit(_, _) => target == RateLimited
      case Plain(sentinels) => exists s :: s in sentinels && SentinelIs(s, target)
    }
  }

  function StatusSentinel(status: int): Sentinel {
    if status == 429 then RateLimited
    else if status == 401 || status == 403 then AuthFailure
    else if status >= 500 then ProviderUnavailable
    else InvalidRequest
  }

  predicate RetryStops(err: Failure) {
    match err
    case ApiError(_, _, retryAfter, terminal) => terminal || retryAfter > RETRY_BACKOFF_CAP
    case RateLimit(_, retryAfter) => retryAfter > RETRY_BACKOFF_CAP || err.Is(AuthFailure) || err.Is(InvalidRequest)
    case Plain(_) => err.Is(AuthFailure) || err.Is(InvalidRequest)
  }

  function ServerRetryAfter(err: Failure): int {
    match err
    case ApiError(_, _, retryAfter, _) => retryAfter
    case RateLimit(_, retryAfter) => retryAfter
    case Plain(_) => 0
  }

  // ----- Classification -----

  /** The service whose error vocabulary applies. */
  datatype Service = Opencode | Kilo | OpenAI | OtherService

  /** The parsed body: its candidate types, and whether the raw body names FreeUsageLimitError anywhere. */
  datatype Envelope = Envelope(types: seq<string>, bodyNamesFreeLimit: bool)

  const OPENCODE_QUOTA := {"FreeUsageLimitError", "GoUsageLimitError", "BlackUsageLimitError", "CreditsError",
                           "MonthlyLimitError", "UserLimitError"}
  const OPENCODE_FORBIDDEN := {"RegionError", "DataPolicyError", "FreeTierError"}
  const OPENAI_QUOTA := {"usage_limit_reached", "insufficient_quota"}

  predicate Has(env: Envelope, names: set<string>) {
    exists t :: t in env.types && t in names
  }

  predicate QuotaRow(service: Service, status: int, env: Envelope) {
    || (service == Opencode && Has(env, OPENCODE_QUOTA))
    || (service == Kilo && (Has(env, {"PROMOTION_MODEL_LIMIT_REACHED"}) || env.bodyNamesFreeLimit))
    || (service == OpenAI && Has(env, OPENAI_QUOTA))
    || status == 402
  }

  predicate ForbiddenRow(service: Service, status: int, env: Envelope) {
    || (service == Opencode && Has(env, OPENCODE_FORBIDDEN))
    || (service == OpenAI && Has(env, {"usage_not_included"}))
    || (service == Kilo && (status == 403 || Has(env, {"data_collection_required"})))
  }

  predicate InvalidRow(service: Service, env: Envelope) {
    || (service == Opencode && Has(env, {"ModelError"}))
    || (service == Kilo && Has(env, {"PAID_MODEL_AUTH_REQUIRED"}))
  }

  /** classifyAPIError: whether a retry is pointless, and the sentinel. */
  function Classify(service: Service, status: int, env: Envelope): (bool, Sentinel) {
    if QuotaRow(service, status, env) then (true, QuotaExhausted)
    else if ForbiddenRow(service, status, env) then (true, NotPermitted)
    else if InvalidRow(service, env) then (true, InvalidRequest)
    else if status == 429 then (false, RateLimited)
    else if status == 408 then (false, ProviderUnavailable)
    else if status == 525 || status == 526 then (true, ProviderUnavailable)
    else if status >= 500 then (false, ProviderUnavailable)
    else (true, StatusSentinel(status))
  }

  /**
   The header values and body clock the classification reads: Retry-After, the quota reset, and X-Should-Retry:
   false.
   */
  datatype Hints = Hints(retryAfter: int, resetIn: int, shouldRetryFalse: bool)

  function Delay(hints: Hints): int {
    if hints.retryAfter == 0 && hints.resetIn > 0 then hints.resetIn else hints.retryAfter
  }

  /** classifyHTTPError. */
  function ClassifyHttp(service: Service, status: int, env: Envelope, hints: Hints): Option<Failure> {
    if status == 200 then None
    else
      var (byTable, sentinel) := Classify(service, status, env);
      var terminal := byTable || hints.shouldRetryFalse;
      if SentinelIs(sentinel, RateLimited) && !terminal
      then Some(RateLimit(status, Delay(hints)))
      else Some(ApiError(status, sentinel, Delay(hints), terminal))
  }

  /** streamFailure: a response.failed event inside a 200 stream. */
  function StreamFailure(service: Service, env: Envelope): Failure {
    if Has(env, {"rate_limit_exceeded", "slow_down"}) then RateLimit(0, 0)
    else if Has(env, {"context_length_exceeded", "invalid_prompt"}) then ApiError(0, InvalidRequest, 0, true)
    else
      var (terminal, sentinel) := Classify(service, 500, Envelope(env.types, false));
      ApiError(0, sentinel, 0, terminal)
  }

  // ----- Properties -----

  /** The statuses worth another attempt when no service-specific row says otherwise. */
  predicate TransientStatus(status: int) {
    status == 408 || status == 429 || (status >= 500 && status != 525 && status != 526)
  }

  predicate ServiceRow(service: Service, status: int, env: Envelope) {
    QuotaRow(service, status, env) || ForbiddenRow(service, status, env) || InvalidRow(service, env)
  }

  /**
   An HTTP failure is retried exactly when its status is transient, no service row makes it final,
   the service did not forbid it, and the delay it asks for is within the cap.
   */
  lemma RetriedExactlyWhenTransient(service: Service, status: int, env: Envelope, hints: Hints)
    requires status != 200
    ensures ClassifyHttp(service, status, env, hints).Some?
    ensures !RetryStops(ClassifyHttp(service, status, env, hints).value)
       <==> && TransientStatus(status)
            && !ServiceRow(service, status, env)
            && !hints.shouldRetryFalse
            && Delay(hints) <= 30_000_000_000
  {
    var f := ClassifyHttp(service, status, env, hints).value;
    if f.RateLimit? {
      assert !f.Is(AuthFailure) && !f.Is(InvalidRequest);
    }
  }

  /**
   Every classified failure still matches the sentinel its status alone mapped to, and the sentinel
   the table gives it, so a finer class never breaks an existing check.
   */
  lemma LegacyChecksStillMatch(service: Service, status: int, env: Envelope, hints: Hints)
    requires status != 200 && status != 0
    ensures var f := ClassifyHttp(service, status, env, hints);
            f.Some? && f.value.Is(StatusSentinel(status)) && f.value.Is(Classify(service, status, env).1)
  {
    var f := ClassifyHttp(service, status, env, hints).value;
    if f.ApiError? {
      assert f.Unwrap()[0] == f.sentinel;
      if !SentinelIs(f.sentinel, StatusSentinel(status)) {
        assert f.Unwrap()[1] == StatusSentinel(status);
      }
    }
  }

  /** A failed stream event is retried unless it names an invalid prompt or a row of its service. */
  lemma StreamRetriedExactlyWhen(service: Service, env: Envelope)
    ensures var f := StreamFailure(service, env);
            !RetryStops(f) <==>
              || Has(env, {"rate_limit_exceeded", "slow_down"})
              || (!Has(env, {"context_length_exceeded", "invalid_prompt"})
                   && !ServiceRow(service, 500, Envelope(env.types, false)))
  {
    var f := StreamFailure(service, env);
    if f.RateLimit? {
      assert !f.Is(AuthFailure) && !f.Is(InvalidRequest);
    }
  }

  // ----- The table in full -----

  /** The error names and statuses behind each row; a service's names count for that service only. */
  lemma RowsAre(service: Service, status: int, env: Envelope)
    ensures QuotaRow(service, status, env)
       <==> || status == 402
            || (service == Opencode
                 && Has(env, {"FreeUsageLimitError", "GoUsageLimitError", "BlackUsageLimitError", "CreditsError",
                              "MonthlyLimitError", "UserLimitError"}))
            || (service == Kilo && ("PROMOTION_MODEL_LIMIT_REACHED" in env.types || env.bodyNamesFreeLimit))
            || (service == OpenAI && ("usage_limit_reached" in env.types || "insufficient_quota" in env.types))
    ensures ForbiddenRow(service, status, env)
       <==> || (service == Opencode && Has(env, {"RegionError", "DataPolicyError", "FreeTierError"}))
            || (service == OpenAI && "usage_not_included" in env.types)
            || (service == Kilo && (status == 403 || "data_collection_required" in env.types))
    ensures InvalidRow(service, env)
       <==> || (service == Opencode && "ModelError" in env.types)
            || (service == Kilo && "PAID_MODEL_AUTH_REQUIRED" in env.types)
  {
    assert forall name: string :: Has(env, {name}) <==> name in env.types;
    HasEither(env, "usage_limit_reached", "insufficient_quota");
  }

  /**
   What a failed response matches: the row of its service that comes first (quota, then permission, then
   request), and what its status means on its own.
   */
  lemma MatchesExactlyWhen(service: Service, status: int, env: Envelope, hints: Hints)
    requires status != 200 && status != 0
    ensures var f := ClassifyHttp(service, status, env, hints);
            var quota, forbidden := QuotaRow(service, status, env), ForbiddenRow(service, status, env);
            var named := quota || forbidden || InvalidRow(service, env);
            && f.Some?
            && (f.value.Is(QuotaExhausted) <==> quota)
            && (f.value.Is(NotPermitted) <==> forbidden && !quota)
            && (f.value.Is(RateLimited) <==> quota || status == 429)
            && (f.value.Is(AuthFailure) <==> status == 401 || status == 403)
            && (f.value.Is(ProviderUnavailable) <==> status >= 500 || (status == 408 && !named))
            && (f.value.Is(InvalidRequest) <==>
                 || (InvalidRow(service, env) && !quota && !forbidden)
                 || (status < 500 && status != 429 && status != 401 && status != 403))
  {
    hide QuotaRow, ForbiddenRow, InvalidRow;
    var f := ClassifyHttp(service, status, env, hints).value;
    if f.ApiError? {
      ApiErrorMatches(f);
    }
  }

  /** An API error matches its own sentinel, and its status's when it has one. */
  lemma ApiErrorMatches(f: Failure)
    requires f.ApiError?
    ensures forall target :: f.Is(target) <==>
              SentinelIs(f.sentinel, target) || (f.status != 0 && SentinelIs(StatusSentinel(f.status), target))
  {
    var u := f.Unwrap();
    assert u[0] == f.sentinel;
    forall target
      ensures f.Is(target) <==>
              SentinelIs(f.sentinel, target) || (f.status != 0 && SentinelIs(StatusSentinel(f.status), target))
    {
      if |u| == 2 {
        assert f.Is(target) <==> SentinelIs(u[0], target) || SentinelIs(u[1], target);
      } else {
        assert f.Is(target) <==> SentinelIs(u[0], target);
      }
    }
  }

  /**
   A response carries the delay of its Retry-After header, or without one the time to its quota reset, and
   is a plain rate limit exactly for status 429 with nothing that makes it final.
   */
  lemma DelayIsCarried(service: Service, status: int, env: Envelope, hints: Hints)
    requires status != 200
    ensures var f := ClassifyHttp(service, status, env, hints);
            && f.Some?
            && ServerRetryAfter(f.value)
               == (if hints.retryAfter != 0 then hints.retryAfter else if hints.resetIn > 0 then hints.resetIn else 0)
            && (f.value.RateLimit? <==> status == 429 && !ServiceRow(service, status, env) && !hints.shouldRetryFalse)
  {
    hide QuotaRow, ForbiddenRow, InvalidRow;
  }

  /**
   An error that only wraps sentinels stops the retries exactly when it wraps one of these two, and asks
   for no delay.
   */
  lemma WrappedErrorStopsExactlyWhen(sentinels: set<Sentinel>)
    ensures RetryStops(Plain(sentinels)) <==> AuthFailure in sentinels || InvalidRequest in sentinels
    ensures ServerRetryAfter(Plain(sentinels)) == 0
  {
    var f := Plain(sentinels);
    assert AuthFailure in sentinels ==> SentinelIs(AuthFailure, AuthFailure);
    assert InvalidRequest in sentinels ==> SentinelIs(InvalidRequest, InvalidRequest);
  }

  /** What a failed stream event matches. */
  lemma StreamMatchesExactlyWhen(service: Service, env: Envelope)
    ensures var f, row := StreamFailure(service, env), Envelope(env.types, false);
            var limited := "rate_limit_exceeded" in env.types || "slow_down" in env.types;
            var invalid := !limited && ("context_length_exceeded" in env.types || "invalid_prompt" in env.types);
            var quota := !limited && !invalid && QuotaRow(service, 500, row);
            var forbidden := !limited && !invalid && !quota && ForbiddenRow(service, 500, row);
            var request := !limited && !invalid && !quota && !forbidden && InvalidRow(service, row);
            && (f.RateLimit? <==> limited) && ServerRetryAfter(f) == 0
            && (f.Is(RateLimited) <==> limited || quota)
            && (f.Is(QuotaExhausted) <==> quota)
            && (f.Is(NotPermitted) <==> forbidden)
            && (f.Is(InvalidRequest) <==> invalid || request)
            && (f.Is(ProviderUnavailable) <==> !limited && !invalid && !quota && !forbidden && !request)
            && !f.Is(AuthFailure)
  {
    hide QuotaRow, ForbiddenRow, InvalidRow;
    HasEither(env, "rate_limit_exceeded", "slow_down");
    HasEither(env, "context_length_exceeded", "invalid_prompt");
    var f := StreamFailure(service, env);
    if f.ApiError? {
      ApiErrorMatches(f);
    }
  }

  lemma HasEither(env: Envelope, a: string, b: string)
    ensures Has(env, {a, b}) <==> a in env.types || b in env.types
  {
    assert a in {a, b} && b in {a, b};
  }
}
