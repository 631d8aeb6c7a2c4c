/** `ExternalClinicApiClient.fetchClinics`: the paginated fetch of the
    external clinic directory, with bounded retries and exponential backoff
    per page, batch time-stamping, one `saveAll` per page and an all-or-nothing
    result.

    The outside world is a script: `net(i)` is what happens during the i-th
    attempt of the run (counting from 0 over all pages) and `clock(i)` is what
    `Instant.now()` returns during it. What the client does to the world
    (sleeps, requests, saves) is recorded as a trace of events. */
module FetchClinics {
  import opened Wrappers
  import ClinicApiUrl
  import Text

  /** A clinic produced by the response mapper. `data` stands for the mapped
      directory fields, which this model does not interpret. */
  datatype ExternalClinic = ExternalClinic(data: string, createdAt: Option<Instant>)

  /** The client's constants (and injected token) as one value. */
  datatype Config = Config(
    maxRetries: nat,
    initialDelayMs: nat,
    maxDelayMs: nat,
    batchSize: nat,
    exactRecords: nat,
    authToken: string)

  /** The values hard-coded in the client. */
  function SourceConfig(authToken: string): Config {
    Config(3, 2000, 10000, 1000, 100, authToken)
  }

  /** What the constants satisfy: a positive page size, and an initial delay
      no larger than the cap. */
  predicate ValidConfig(cfg: Config) {
    cfg.batchSize > 0 && cfg.initialDelayMs <= cfg.maxDelayMs
  }

  /** The first JSON token of a 200 body decides between an array of clinic
      records (already decoded and mapped) and anything else. */
  datatype Body = NotArray | Array(records: seq<ExternalClinic>)

  /** Everything the outside world decides during one attempt: the transport
      throws, or a status code arrives with a body; for a 200 with an array,
      `saveFails` says whether `repository.saveAll` throws. */
  datatype Attempt = Throws | Response(code: int, body: Body, saveFails: bool)

  /** The only attempt that ends a page successfully. */
  predicate Succeeds(a: Attempt) {
    a.Response? && a.code == 200 && a.body.Array? && !a.saveFails
  }

  /** HTTP 429 or 503: retried without going through the exception handler. */
  predicate RateLimited(a: Attempt) {
    a.Response? && (a.code == 429 || a.code == 503)
  }

  /** Why an attempt threw; every one of these reaches the generic handler. */
  datatype Cause = TransportError | NotAnArray | BadStatus(code: int) | SaveError

  function CauseOf(a: Attempt): Cause
    requires !Succeeds(a) && !RateLimited(a)
  {
    match a
    case Throws => TransportError
    case Response(code, body, _) =>
      if code != 200 then BadStatus(code)
      else if body.NotArray? then NotAnArray
      else SaveError
  }

  /** `AttemptFailed`: the exception on the last allowed attempt is rethrown
      for the page; `RetriesExhausted`: the retry loop ran out after a 429/503
      and the page is reported as not fetched. */
  datatype FetchError = AttemptFailed(page: int, cause: Cause) | RetriesExhausted(page: int)

  /** Observable effects. `Request(page, pageSize)` is a GET of
      `BuildUrl(authToken, page, pageSize)`; `Saved` is a `saveAll` call that
      returned, `SaveRejected` one that threw. */
  datatype Event =
    | Sleep(ms: nat)
    | Request(page: int, pageSize: nat)
    | Saved(batch: seq<ExternalClinic>)
    | SaveRejected(batch: seq<ExternalClinic>)

  function Min(a: nat, b: nat): nat {
    if a <= b then a else b
  }

  function Pow2(k: nat): nat {
    if k == 0 then 1 else 2 * Pow2(k - 1)
  }

  /** The delay the retry loop holds after `k` failed attempts of a page:
      `min(INITIAL_DELAY_MS * 2^k, MAX_DELAY_MS)`. */
  function Backoff(cfg: Config, k: nat): nat {
    Min(cfg.initialDelayMs * Pow2(k), cfg.maxDelayMs)
  }

  /** `delay = Math.min(delay * 2, MAX_DELAY_MS)` moves from one step of the
      closed form to the next. */
  lemma BackoffStep(cfg: Config, k: nat)
    ensures Min(Backoff(cfg, k) * 2, cfg.maxDelayMs) == Backoff(cfg, k + 1)
  {
    var a := cfg.initialDelayMs * Pow2(k);
    assert cfg.initialDelayMs * Pow2(k + 1) == 2 * a;
  }

  lemma {:induction false} Pow2Monotone(j: nat, k: nat)
    requires j <= k
    ensures Pow2(j) <= Pow2(k)
  {
    if j < k {
      Pow2Monotone(j, k - 1);
    }
  }

  /** The delay never decreases and never exceeds `MAX_DELAY_MS`. */
  lemma BackoffMonotone(cfg: Config, j: nat, k: nat)
    requires j <= k
    ensures Backoff(cfg, j) <= Backoff(cfg, k) <= cfg.maxDelayMs
  {
    Pow2Monotone(j, k);
    MulMonotone(cfg.initialDelayMs, Pow2(j), Pow2(k));
  }

  lemma MulMonotone(c: nat, x: nat, y: nat)
    requires x <= y
    ensures c * x <= c * y
  {
    assert c * y == c * x + c * (y - x);
  }

  /** Every clinic of `records` with `createdAt` set to `now`. */
  function Stamp(records: seq<ExternalClinic>, now: Instant): (r: seq<ExternalClinic>)
    ensures |r| == |records|
    // each record keeps its place and every field but `createdAt`
    ensures forall i :: 0 <= i < |r| ==> r[i].(createdAt := records[i].createdAt) == records[i]
    ensures forall i :: 0 <= i < |r| ==> r[i].createdAt == Some(now)
  {
    seq(|records|, i requires 0 <= i < |records| => records[i].(createdAt := Some(now)))
  }

  /** Every clinic of `b` carries a creation instant, and it is the same one. */
  predicate UniformlyStamped(b: seq<ExternalClinic>) {
    forall i :: 0 <= i < |b| ==> b[i].createdAt.Some? && b[i].createdAt == b[0].createdAt
  }

  datatype PageOutcome = PageOk(batch: seq<ExternalClinic>) | PageFailed(error: FetchError)

  /** A page's outcome, the events it caused, and the index of the first
      attempt after it. */
  datatype PageRun = PageRun(outcome: PageOutcome, trace: seq<Event>, next: nat)

  /** The URL the client fetches for a `Request` event. */
  function RequestUrl(cfg: Config, e: Event): string
    requires e.Request?
  {
    ClinicApiUrl.BuildUrl(cfg.authToken, e.page, e.pageSize)
  }

  /** The URL of a request names the page and page size the event records,
      and carries the configured token, so the server sees what was asked. */
  lemma RequestUrlCarriesRequest(cfg: Config, e: Event)
    requires e.Request? && '/' !in cfg.authToken
    ensures ClinicApiUrl.CarriesRequest(
      Text.Split(RequestUrl(cfg, e)[|ClinicApiUrl.BaseApiUrl| + 1..], '/'),
      ClinicApiUrl.ActivityDescription, cfg.authToken, e.page, e.pageSize)
  {
    ClinicApiUrl.BuildUrlRoundTrip(cfg.authToken, e.page, e.pageSize);
  }

  /** The inner `while (retryCount < MAX_RETRIES && !success)` loop for one
      page, from the state `retryCount`/`delay` with attempt `n` next. */
  function FetchPage(cfg: Config, net: nat -> Attempt, clock: nat -> Instant,
                     page: int, retryCount: nat, delay: nat, n: nat): (r: PageRun)
    requires retryCount <= cfg.maxRetries
    requires delay == Backoff(cfg, retryCount)
    // a page makes at least one and at most MAX_RETRIES attempts
    ensures retryCount == cfg.maxRetries ==> r.next == n && r.outcome == PageFailed(RetriesExhausted(page))
    ensures retryCount < cfg.maxRetries ==> n < r.next <= n + (cfg.maxRetries - retryCount)
    // a page that fails has used up every attempt it had
    ensures r.outcome.PageFailed? ==> r.next == n + (cfg.maxRetries - retryCount)
    ensures r.outcome.PageFailed? ==> r.outcome.error.page == page
    // it stops at the first successful attempt, and only there
    ensures forall i :: n <= i < r.next - 1 ==> !Succeeds(net(i))
    ensures r.outcome.PageOk? <==> r.next > n && Succeeds(net(r.next - 1))
    // the batch is the records of that attempt, all stamped with one instant
    ensures r.outcome.PageOk? ==>
      r.outcome.batch == Stamp(net(r.next - 1).body.records, clock(r.next - 1))
    ensures r.outcome.PageOk? ==> UniformlyStamped(r.outcome.batch)
    decreases cfg.maxRetries - retryCount
  {
    if retryCount == cfg.maxRetries then PageRun(PageFailed(RetriesExhausted(page)), [], n)
    else
      var before := AttemptPrefix(cfg, page, retryCount, delay);
      var attempt := net(n);
      if Succeeds(attempt) then
        var batch := Stamp(attempt.body.records, clock(n));
        PageRun(PageOk(batch), before + [Saved(batch)], n + 1)
      else
        var during := AttemptFailure(attempt, clock(n));
        if RateLimited(attempt) || retryCount < cfg.maxRetries - 1 then
          BackoffStep(cfg, retryCount);
          var rest := FetchPage(cfg, net, clock, page, retryCount + 1, Min(delay * 2, cfg.maxDelayMs), n + 1);
          PageRun(rest.outcome, before + during + rest.trace, rest.next)
        else
          PageRun(PageFailed(AttemptFailed(page, CauseOf(attempt))), before + during, n + 1)
  }

  // ----- projections of a trace -----

  /** What a trace shows when read one kind of event at a time. */
  datatype Summary = Summary(
    requests: seq<int>,                  // page of each request
    sizes: seq<nat>,                     // page size of each request
    sleeps: seq<nat>,                    // each sleep, in milliseconds
    saves: seq<seq<ExternalClinic>>)     // each batch a returning saveAll stored
  {
    function Plus(o: Summary): Summary {
      Summary(requests + o.requests, sizes + o.sizes, sleeps + o.sleeps, saves + o.saves)
    }
  }

  function EventSummary(e: Event): Summary {
    match e
    case Sleep(ms) => Summary([], [], [ms], [])
    case Request(page, size) => Summary([page], [size], [], [])
    case Saved(b) => Summary([], [], [], [b])
    case SaveRejected(_) => Summary([], [], [], [])
  }

  function Summarize(t: seq<Event>): Summary {
    if |t| == 0 then Summary([], [], [], []) else EventSummary(t[0]).Plus(Summarize(t[1..]))
  }

  lemma PlusAssociative(x: Summary, y: Summary, z: Summary)
    ensures x.Plus(y.Plus(z)) == x.Plus(y).Plus(z)
  {
    assert x.requests + (y.requests + z.requests) == (x.requests + y.requests) + z.requests;
    assert x.sizes + (y.sizes + z.sizes) == (x.sizes + y.sizes) + z.sizes;
    assert x.sleeps + (y.sleeps + z.sleeps) == (x.sleeps + y.sleeps) + z.sleeps;
    assert x.saves + (y.saves + z.saves) == (x.saves + y.saves) + z.saves;
  }

  lemma PlusEmpty(x: Summary)
    ensures Summary([], [], [], []).Plus(x) == x
  {
    assert [] + x.requests == x.requests;
    assert [] + x.sizes == x.sizes;
    assert [] + x.sleeps == x.sleeps;
    assert [] + x.saves == x.saves;
  }

  lemma {:induction false} SummarizeAppend(a: seq<Event>, b: seq<Event>)
    ensures Summarize(a + b) == Summarize(a).Plus(Summarize(b))
  {
    if |a| == 0 {
      assert a + b == b;
      PlusEmpty(Summarize(b));
    } else {
      assert (a + b)[1..] == a[1..] + b;
      SummarizeAppend(a[1..], b);
      PlusAssociative(EventSummary(a[0]), Summarize(a[1..]), Summarize(b));
    }
  }

  lemma SummarizeSingle(e: Event)
    ensures Summarize([e]) == EventSummary(e)
  {
    assert [e][1..] == [];
  }

  function Requests(t: seq<Event>): seq<int> {
    Summarize(t).requests
  }

  function Sleeps(t: seq<Event>): seq<nat> {
    Summarize(t).sleeps
  }

  function Saves(t: seq<Event>): seq<seq<ExternalClinic>> {
    Summarize(t).saves
  }

  /** The sleeps before attempts `lo .. hi-1` of a page. */
  function BackoffRange(cfg: Config, lo: nat, hi: nat): seq<nat>
    decreases hi - lo
  {
    if lo >= hi then [] else [Backoff(cfg, lo)] + BackoffRange(cfg, lo + 1, hi)
  }

  /** The events one attempt adds before the rest of the page: the backoff
      sleep (not on the first attempt) and the request. */
  function AttemptPrefix(cfg: Config, page: int, retryCount: nat, delay: nat): seq<Event> {
    (if retryCount > 0 then [Sleep(delay)] else []) + [Request(page, cfg.batchSize)]
  }

  /** The events of a failed attempt after the request: the `saveAll` call
      that threw, if it got that far. */
  function AttemptFailure(a: Attempt, now: Instant): seq<Event> {
    if a.Response? && a.code == 200 && a.body.Array?
    then [SaveRejected(Stamp(a.body.records, now))] else []
  }

  lemma PrefixSummary(cfg: Config, page: int, retryCount: nat, delay: nat)
    ensures Summarize(AttemptPrefix(cfg, page, retryCount, delay))
         == Summary([page], [cfg.batchSize], if retryCount > 0 then [delay] else [], [])
  {
    var sleep: seq<Event> := if retryCount > 0 then [Sleep(delay)] else [];
    SummarizeAppend(sleep, [Request(page, cfg.batchSize)]);
    SummarizeSingle(Request(page, cfg.batchSize));
    if retryCount > 0 {
      SummarizeSingle(Sleep(delay));
    }
  }

  lemma FailureSummary(a: Attempt, now: Instant)
    ensures Summarize(AttemptFailure(a, now)) == Summary([], [], [], [])
  {
    if AttemptFailure(a, now) != [] {
      SummarizeSingle(AttemptFailure(a, now)[0]);
    }
  }

  /** What a page run from `retryCount` that made `r.next - n` attempts
      must show. */
  function ExpectedPageSummary(cfg: Config, page: int, retryCount: nat, r: PageRun, n: nat): Summary
    requires r.next >= n
  {
    var a := r.next - n;
    Summary(
      Repeat(page, a),
      Repeat(cfg.batchSize, a),
      BackoffRange(cfg, if retryCount == 0 then 1 else retryCount, retryCount + a),
      if r.outcome.PageOk? then [r.outcome.batch] else [])
  }

  /** One more attempt in front of a page run adds one request, and a sleep
      of the current delay unless it is the first attempt. */
  lemma ExpectedStep(cfg: Config, page: int, retryCount: nat, delay: nat, r: PageRun, rest: PageRun, n: nat)
    requires delay == Backoff(cfg, retryCount)
    requires rest.next >= n + 1 && r.next == rest.next && r.outcome == rest.outcome
    ensures ExpectedPageSummary(cfg, page, retryCount, r, n)
         == Summary([page], [cfg.batchSize], if retryCount > 0 then [delay] else [], [])
              .Plus(ExpectedPageSummary(cfg, page, retryCount + 1, rest, n + 1))
  {
    var k := rest.next - (n + 1);
    assert Repeat(page, k + 1) == [page] + Repeat(page, k);
    assert Repeat(cfg.batchSize, k + 1) == [cfg.batchSize] + Repeat(cfg.batchSize, k);
    if retryCount > 0 {
      assert BackoffRange(cfg, retryCount, retryCount + k + 1)
          == [delay] + BackoffRange(cfg, retryCount + 1, retryCount + 1 + k);
    } else {
      assert [] + BackoffRange(cfg, 1, 1 + k) == BackoffRange(cfg, 1, 1 + k);
    }
  }

  /** A page run that ends after the attempt it starts with. */
  lemma ExpectedLast(cfg: Config, page: int, retryCount: nat, delay: nat, r: PageRun, n: nat)
    requires delay == Backoff(cfg, retryCount)
    requires r.next == n + 1
    ensures ExpectedPageSummary(cfg, page, retryCount, r, n)
         == Summary([page], [cfg.batchSize], if retryCount > 0 then [delay] else [],
                    if r.outcome.PageOk? then [r.outcome.batch] else [])
  {
    assert Repeat(page, 1) == [page];
    assert Repeat(cfg.batchSize, 1) == [cfg.batchSize];
    if retryCount > 0 {
      assert BackoffRange(cfg, retryCount, retryCount + 1) == [delay];
    } else {
      assert BackoffRange(cfg, 1, 1) == [];
    }
  }

  /** The page-trace shape for an attempt that ends the page. */
  lemma PageTraceLast(cfg: Config, net: nat -> Attempt, clock: nat -> Instant,
                      page: int, retryCount: nat, delay: nat, n: nat)
    requires retryCount < cfg.maxRetries
    requires delay == Backoff(cfg, retryCount)
    requires Succeeds(net(n)) || (!RateLimited(net(n)) && retryCount == cfg.maxRetries - 1)
    ensures var r := FetchPage(cfg, net, clock, page, retryCount, delay, n);
      Summarize(r.trace) == ExpectedPageSummary(cfg, page, retryCount, r, n)
  {
    var r := FetchPage(cfg, net, clock, page, retryCount, delay, n);
    var before := AttemptPrefix(cfg, page, retryCount, delay);
    PrefixSummary(cfg, page, retryCount, delay);
    var attempt := net(n);
    if Succeeds(attempt) {
      var batch := Stamp(attempt.body.records, clock(n));
      SummarizeAppend(before, [Saved(batch)]);
      SummarizeSingle(Saved(batch));
      assert r.trace == before + [Saved(batch)] && r.next == n + 1;
    } else {
      var during := AttemptFailure(attempt, clock(n));
      FailureSummary(attempt, clock(n));
      SummarizeAppend(before, during);
      assert r.trace == before + during && r.next == n + 1;
    }
    ExpectedLast(cfg, page, retryCount, delay, r, n);
  }

  /** How the page run from an attempt that is retried is made of that
      attempt's events and the rest of the page. */
  lemma RetryShape(cfg: Config, net: nat -> Attempt, clock: nat -> Instant,
                   page: int, retryCount: nat, delay: nat, n: nat)
    requires retryCount < cfg.maxRetries
    requires delay == Backoff(cfg, retryCount)
    requires !Succeeds(net(n)) && (RateLimited(net(n)) || retryCount < cfg.maxRetries - 1)
    requires Min(delay * 2, cfg.maxDelayMs) == Backoff(cfg, retryCount + 1)
    ensures var r := FetchPage(cfg, net, clock, page, retryCount, delay, n);
      var rest := FetchPage(cfg, net, clock, page, retryCount + 1, Min(delay * 2, cfg.maxDelayMs), n + 1);
      && r.trace == AttemptPrefix(cfg, page, retryCount, delay) + AttemptFailure(net(n), clock(n)) + rest.trace
      && r.next == rest.next && r.outcome == rest.outcome
  {
  }

  /** The page-trace shape for an attempt that is retried, given the shape of
      the rest of the page. */
  lemma PageTraceRetry(cfg: Config, net: nat -> Attempt, clock: nat -> Instant,
                       page: int, retryCount: nat, delay: nat, n: nat)
    requires retryCount < cfg.maxRetries
    requires delay == Backoff(cfg, retryCount)
    requires !Succeeds(net(n)) && (RateLimited(net(n)) || retryCount < cfg.maxRetries - 1)
    requires Min(delay * 2, cfg.maxDelayMs) == Backoff(cfg, retryCount + 1)
    requires var rest := FetchPage(cfg, net, clock, page, retryCount + 1, Min(delay * 2, cfg.maxDelayMs), n + 1);
      Summarize(rest.trace) == ExpectedPageSummary(cfg, page, retryCount + 1, rest, n + 1)
    ensures var r := FetchPage(cfg, net, clock, page, retryCount, delay, n);
      Summarize(r.trace) == ExpectedPageSummary(cfg, page, retryCount, r, n)
  {
    var r := FetchPage(cfg, net, clock, page, retryCount, delay, n);
    var before := AttemptPrefix(cfg, page, retryCount, delay);
    var during := AttemptFailure(net(n), clock(n));
    AttemptHeadSummary(cfg, page, retryCount, delay, net(n), clock(n));
    var rest := FetchPage(cfg, net, clock, page, retryCount + 1, Min(delay * 2, cfg.maxDelayMs), n + 1);
    RetryShape(cfg, net, clock, page, retryCount, delay, n);
    SummarizeAppend(before + during, rest.trace);
    ExpectedStep(cfg, page, retryCount, delay, r, rest, n);
  }

  /** The events of one failed attempt sum up to its request and, on a
      retry, its sleep. */
  lemma AttemptHeadSummary(cfg: Config, page: int, retryCount: nat, delay: nat, a: Attempt, now: Instant)
    ensures Summarize(AttemptPrefix(cfg, page, retryCount, delay) + AttemptFailure(a, now))
         == Summary([page], [cfg.batchSize], if retryCount > 0 then [delay] else [], [])
  {
    PrefixSummary(cfg, page, retryCount, delay);
    FailureSummary(a, now);
    SummarizeAppend(AttemptPrefix(cfg, page, retryCount, delay), AttemptFailure(a, now));
  }

  /** Within one page: every attempt requests that page with `BATCH_SIZE`
      records; a sleep of `Backoff(k)` precedes exactly the attempts with
      `retryCount = k > 0`; and `saveAll` returns at most once, with the
      page's batch, exactly when the page succeeds. */
  lemma {:induction false} PageTrace(cfg: Config, net: nat -> Attempt, clock: nat -> Instant,
                                     page: int, retryCount: nat, delay: nat, n: nat)
    requires retryCount <= cfg.maxRetries
    requires delay == Backoff(cfg, retryCount)
    ensures var r := FetchPage(cfg, net, clock, page, retryCount, delay, n);
      Summarize(r.trace) == ExpectedPageSummary(cfg, page, retryCount, r, n)
    decreases cfg.maxRetries - retryCount
  {
    if retryCount == cfg.maxRetries {
      assert FetchPage(cfg, net, clock, page, retryCount, delay, n).trace == [];
    } else if Succeeds(net(n)) || (!RateLimited(net(n)) && retryCount == cfg.maxRetries - 1) {
      PageTraceLast(cfg, net, clock, page, retryCount, delay, n);
    } else {
      BackoffStep(cfg, retryCount);
      PageTrace(cfg, net, clock, page, retryCount + 1, Min(delay * 2, cfg.maxDelayMs), n + 1);
      PageTraceRetry(cfg, net, clock, page, retryCount, delay, n);
    }
  }

  /** Corollaries of `PageTrace`, one projection each, for a page started
      afresh (`retryCount = 0`, `delay = INITIAL_DELAY_MS`). */
  lemma PageSaves(cfg: Config, net: nat -> Attempt, clock: nat -> Instant, page: int, n: nat)
    requires ValidConfig(cfg)
    ensures cfg.initialDelayMs == Backoff(cfg, 0)
    ensures var p := FetchPage(cfg, net, clock, page, 0, cfg.initialDelayMs, n);
      Saves(p.trace) == if p.outcome.PageOk? then [p.outcome.batch] else []
  {
    BackoffZero(cfg);
    PageTrace(cfg, net, clock, page, 0, cfg.initialDelayMs, n);
  }

  lemma PageRequests(cfg: Config, net: nat -> Attempt, clock: nat -> Instant, page: int, n: nat)
    requires ValidConfig(cfg)
    ensures cfg.initialDelayMs == Backoff(cfg, 0)
    ensures var p := FetchPage(cfg, net, clock, page, 0, cfg.initialDelayMs, n);
      Requests(p.trace) == Repeat(page, p.next - n)
  {
    BackoffZero(cfg);
    PageTrace(cfg, net, clock, page, 0, cfg.initialDelayMs, n);
  }

  lemma PageSleeps(cfg: Config, net: nat -> Attempt, clock: nat -> Instant, page: int, n: nat)
    requires ValidConfig(cfg)
    ensures cfg.initialDelayMs == Backoff(cfg, 0)
    ensures var p := FetchPage(cfg, net, clock, page, 0, cfg.initialDelayMs, n);
      Sleeps(p.trace) == BackoffRange(cfg, 1, p.next - n)
  {
    BackoffZero(cfg);
    PageTrace(cfg, net, clock, page, 0, cfg.initialDelayMs, n);
  }

  /** Every sleep is immediately followed by a request. */
  predicate SleepThenRequest(t: seq<Event>) {
    forall i :: 0 <= i < |t| && t[i].Sleep? ==> i + 1 < |t| && t[i + 1].Request?
  }

  /** Every request but one at the very start immediately follows a sleep. */
  predicate RequestAfterSleep(t: seq<Event>) {
    forall i :: 0 < i < |t| && t[i].Request? ==> t[i - 1].Sleep?
  }

  /** Sleeps and requests are paired: the backoff comes right before the
      retry it delays, and nowhere else. */
  predicate Paced(t: seq<Event>) {
    SleepThenRequest(t) && RequestAfterSleep(t)
  }

  /** The event a page run starts with: the backoff sleep on a retry, the
      request itself on the first attempt. */
  function FirstEvent(cfg: Config, page: int, retryCount: nat, delay: nat): Event {
    if retryCount > 0 then Sleep(delay) else Request(page, cfg.batchSize)
  }

  /** Gluing two paced traces keeps them paced when the first does not end
      in a sleep and the second, after a non-empty first, does not start
      with a request. */
  lemma ConcatPaced(a: seq<Event>, b: seq<Event>)
    requires Paced(a) && Paced(b)
    requires |a| > 0 ==> !a[|a| - 1].Sleep?
    requires |a| > 0 && |b| > 0 ==> !b[0].Request?
    ensures Paced(a + b)
  {
    var t := a + b;
    forall i | 0 <= i < |t| && t[i].Sleep?
      ensures i + 1 < |t| && t[i + 1].Request?
    {
      if i < |a| {
        assert a[i].Sleep?;
      } else {
        assert b[i - |a|].Sleep?;
      }
    }
    forall i | 0 < i < |t| && t[i].Request?
      ensures t[i - 1].Sleep?
    {
      if i < |a| {
        assert a[i].Request?;
      } else {
        assert b[i - |a|].Request?;
      }
    }
  }

  /** One attempt's own events are paced and end in its request or in the
      `saveAll` call that followed it. */
  lemma AttemptPaced(cfg: Config, page: int, retryCount: nat, delay: nat, tail: seq<Event>)
    requires tail == [] || (|tail| == 1 && (tail[0].Saved? || tail[0].SaveRejected?))
    ensures var t := AttemptPrefix(cfg, page, retryCount, delay) + tail;
      && Paced(t) && |t| > 0 && !t[|t| - 1].Sleep?
      && t[0] == FirstEvent(cfg, page, retryCount, delay)
  {
    var t := AttemptPrefix(cfg, page, retryCount, delay) + tail;
    if retryCount > 0 {
      assert t == [Sleep(delay), Request(page, cfg.batchSize)] + tail;
    } else {
      assert t == [Request(page, cfg.batchSize)] + tail;
    }
  }

  /** `t` is paced and, when not empty, starts with `first`. */
  predicate OrderedFrom(t: seq<Event>, first: Event) {
    Paced(t) && (|t| > 0 ==> t[0] == first)
  }

  /** The event order for an attempt that ends the page. */
  lemma PageOrderLast(cfg: Config, net: nat -> Attempt, clock: nat -> Instant,
                      page: int, retryCount: nat, delay: nat, n: nat)
    requires retryCount < cfg.maxRetries
    requires delay == Backoff(cfg, retryCount)
    requires Succeeds(net(n)) || (!RateLimited(net(n)) && retryCount == cfg.maxRetries - 1)
    ensures OrderedFrom(FetchPage(cfg, net, clock, page, retryCount, delay, n).trace,
                        FirstEvent(cfg, page, retryCount, delay))
  {
    var r := FetchPage(cfg, net, clock, page, retryCount, delay, n);
    var before := AttemptPrefix(cfg, page, retryCount, delay);
    var attempt := net(n);
    var tail := if Succeeds(attempt) then [Saved(Stamp(attempt.body.records, clock(n)))]
                else AttemptFailure(attempt, clock(n));
    assert r.trace == before + tail;
    AttemptPaced(cfg, page, retryCount, delay, tail);
  }

  /** The event order for an attempt that is retried, given the order of
      the rest of the page. */
  lemma PageOrderRetry(cfg: Config, net: nat -> Attempt, clock: nat -> Instant,
                       page: int, retryCount: nat, delay: nat, n: nat)
    requires retryCount < cfg.maxRetries
    requires delay == Backoff(cfg, retryCount)
    requires !Succeeds(net(n)) && (RateLimited(net(n)) || retryCount < cfg.maxRetries - 1)
    requires Min(delay * 2, cfg.maxDelayMs) == Backoff(cfg, retryCount + 1)
    requires OrderedFrom(
      FetchPage(cfg, net, clock, page, retryCount + 1, Min(delay * 2, cfg.maxDelayMs), n + 1).trace,
      Sleep(Min(delay * 2, cfg.maxDelayMs)))
    ensures OrderedFrom(FetchPage(cfg, net, clock, page, retryCount, delay, n).trace,
                        FirstEvent(cfg, page, retryCount, delay))
  {
    var before := AttemptPrefix(cfg, page, retryCount, delay);
    var tail := AttemptFailure(net(n), clock(n));
    var rest := FetchPage(cfg, net, clock, page, retryCount + 1, Min(delay * 2, cfg.maxDelayMs), n + 1);
    RetryShape(cfg, net, clock, page, retryCount, delay, n);
    AttemptPaced(cfg, page, retryCount, delay, tail);
    ConcatPaced(before + tail, rest.trace);
  }

  /** The order of a page's events: the backoff sleep comes right before
      the retry it delays, every retry has one, and the first attempt of a
      fresh page has none. */
  lemma {:induction false} PageTraceOrder(cfg: Config, net: nat -> Attempt, clock: nat -> Instant,
                                          page: int, retryCount: nat, delay: nat, n: nat)
    requires retryCount <= cfg.maxRetries
    requires delay == Backoff(cfg, retryCount)
    ensures OrderedFrom(FetchPage(cfg, net, clock, page, retryCount, delay, n).trace,
                        FirstEvent(cfg, page, retryCount, delay))
    decreases cfg.maxRetries - retryCount
  {
    if retryCount == cfg.maxRetries {
      assert FetchPage(cfg, net, clock, page, retryCount, delay, n).trace == [];
    } else if Succeeds(net(n)) || (!RateLimited(net(n)) && retryCount == cfg.maxRetries - 1) {
      PageOrderLast(cfg, net, clock, page, retryCount, delay, n);
    } else {
      BackoffStep(cfg, retryCount);
      PageTraceOrder(cfg, net, clock, page, retryCount + 1, Min(delay * 2, cfg.maxDelayMs), n + 1);
      PageOrderRetry(cfg, net, clock, page, retryCount, delay, n);
    }
  }

  /** A fresh page starts with its request, and every sleep sits right
      before the retry it delays. */
  lemma PageOrder(cfg: Config, net: nat -> Attempt, clock: nat -> Instant, page: int, n: nat)
    requires ValidConfig(cfg)
    ensures cfg.initialDelayMs == Backoff(cfg, 0)
    ensures OrderedFrom(FetchPage(cfg, net, clock, page, 0, cfg.initialDelayMs, n).trace,
                        Request(page, cfg.batchSize))
  {
    BackoffZero(cfg);
    PageTraceOrder(cfg, net, clock, page, 0, cfg.initialDelayMs, n);
  }

  // ----- the page loop -----

  /** What `fetchClinics` returns or throws, what it did, and how many
      attempts it made. */
  datatype Run = Run(result: Result<seq<ExternalClinic>, FetchError>, trace: seq<Event>, next: nat)

  function PageCount(page: int, lastPage: int): nat {
    if page <= lastPage then lastPage - page + 1 else 0
  }

  /** `(int) Math.ceil((double) EXACT_RECORDS / BATCH_SIZE)`. */
  function TotalPages(cfg: Config): nat
    requires cfg.batchSize > 0
  {
    (cfg.exactRecords + cfg.batchSize - 1) / cfg.batchSize
  }

  /** The outer `while (currentPage <= totalPages)` loop from `page` on,
      with attempt `n` next. */
  function FetchPages(cfg: Config, net: nat -> Attempt, clock: nat -> Instant,
                      page: int, lastPage: int, n: nat): (r: Run)
    requires ValidConfig(cfg)
    ensures n <= r.next <= n + PageCount(page, lastPage) * cfg.maxRetries
    ensures r.result.Err? ==> page <= r.result.error.page <= lastPage
    decreases PageCount(page, lastPage)
  {
    if page > lastPage then Run(Ok([]), [], n)
    else
      BackoffZero(cfg);
      var p := FetchPage(cfg, net, clock, page, 0, cfg.initialDelayMs, n);
      match p.outcome
      case PageFailed(e) => Run(Err(e), p.trace, p.next)
      case PageOk(batch) =>
        var rest := FetchPages(cfg, net, clock, page + 1, lastPage, p.next);
        AttemptBudget(PageCount(page, lastPage), cfg.maxRetries);
        Run(if rest.result.Ok? then Ok(batch + rest.result.value) else rest.result,
            p.trace + rest.trace, rest.next)
  }

  /** `fetchClinics()`: pages `1 .. TotalPages`, attempts counted from 0.
      All or nothing: it returns every page's saved batch, in page order, or
      throws for a page after saving exactly the pages before it. */
  function FetchClinics(cfg: Config, net: nat -> Attempt, clock: nat -> Instant): (r: Run)
    requires ValidConfig(cfg)
    ensures r.next <= TotalPages(cfg) * cfg.maxRetries
    ensures r.result.Ok? ==> r.result.value == Flatten(Saves(r.trace))
                             && |Saves(r.trace)| == TotalPages(cfg)
    ensures r.result.Err? ==> 1 <= r.result.error.page <= TotalPages(cfg)
                              && |Saves(r.trace)| == r.result.error.page - 1
  {
    RunSaves(cfg, net, clock, 1, TotalPages(cfg), 0);
    FetchPages(cfg, net, clock, 1, TotalPages(cfg), 0)
  }

  // ----- properties of a run -----

  /** The number of pages is the ceiling of `EXACT_RECORDS / BATCH_SIZE`:
      enough pages of `BATCH_SIZE` to cover the target, and no page more. */
  lemma TotalPagesIsCeiling(cfg: Config)
    requires cfg.batchSize > 0
    ensures TotalPages(cfg) * cfg.batchSize >= cfg.exactRecords
    ensures TotalPages(cfg) > 0 ==> (TotalPages(cfg) - 1) * cfg.batchSize < cfg.exactRecords
  {
    var b := cfg.batchSize;
    var q := TotalPages(cfg);
    var m := cfg.exactRecords + b - 1;
    assert m == q * b + m % b;
  }

  /** With the client's constants the run is a single page. */
  lemma SourceIsOnePage(token: string)
    ensures ValidConfig(SourceConfig(token)) && TotalPages(SourceConfig(token)) == 1
  {
  }

  function Flatten<T>(ss: seq<seq<T>>): seq<T> {
    if |ss| == 0 then [] else ss[0] + Flatten(ss[1..])
  }

  /** The first page of a run: its trace is the page's trace, then the rest. */
  lemma RunShape(cfg: Config, net: nat -> Attempt, clock: nat -> Instant, page: int, lastPage: int, n: nat)
    requires ValidConfig(cfg)
    requires page <= lastPage
    ensures var r := FetchPages(cfg, net, clock, page, lastPage, n);
      var p := FetchPage(cfg, net, clock, page, 0, cfg.initialDelayMs, n);
      var rest := FetchPages(cfg, net, clock, page + 1, lastPage, p.next);
      && (p.outcome.PageFailed? ==> r == Run(Err(p.outcome.error), p.trace, p.next))
      && (p.outcome.PageOk? ==>
            && r.trace == p.trace + rest.trace
            && r.next == rest.next
            && r.result == (if rest.result.Ok? then Ok(p.outcome.batch + rest.result.value) else rest.result))
  {
  }

  /** The list returned is the concatenation, in page order, of the batches
      `saveAll` stored, one per page; when a page fails, exactly the pages
      before it were saved and nothing is returned. */
  lemma {:induction false} RunSaves(cfg: Config, net: nat -> Attempt, clock: nat -> Instant,
                                    page: int, lastPage: int, n: nat)
    requires ValidConfig(cfg)
    ensures var r := FetchPages(cfg, net, clock, page, lastPage, n);
      && (r.result.Ok? ==> r.result.value == Flatten(Saves(r.trace))
                           && |Saves(r.trace)| == PageCount(page, lastPage))
      && (r.result.Err? ==> |Saves(r.trace)| == r.result.error.page - page)
    decreases PageCount(page, lastPage)
  {
    var r := FetchPages(cfg, net, clock, page, lastPage, n);
    if page > lastPage {
      assert r.trace == [];
    } else {
      PageSaves(cfg, net, clock, page, n);
      var p := FetchPage(cfg, net, clock, page, 0, cfg.initialDelayMs, n);
      RunShape(cfg, net, clock, page, lastPage, n);
      if p.outcome.PageOk? {
        var rest := FetchPages(cfg, net, clock, page + 1, lastPage, p.next);
        RunSaves(cfg, net, clock, page + 1, lastPage, p.next);
        SummarizeAppend(p.trace, rest.trace);
        assert Saves(r.trace) == [p.outcome.batch] + Saves(rest.trace);
        if rest.result.Ok? {
          assert Flatten(Saves(r.trace)) == p.outcome.batch + Flatten(Saves(rest.trace)) by {
            assert Saves(r.trace)[1..] == Saves(rest.trace);
          }
        }
      }
    }
  }

  lemma AttemptBudget(pages: nat, maxRetries: nat)
    requires pages >= 1
    ensures (pages - 1) * maxRetries + maxRetries == pages * maxRetries
  {
  }

  lemma BackoffZero(cfg: Config)
    requires ValidConfig(cfg)
    ensures cfg.initialDelayMs == Backoff(cfg, 0)
  {
  }

  /** Every batch `saveAll` stored carries one creation instant throughout. */
  lemma {:induction false} RunStamps(cfg: Config, net: nat -> Attempt, clock: nat -> Instant,
                                     page: int, lastPage: int, n: nat)
    requires ValidConfig(cfg)
    ensures var r := FetchPages(cfg, net, clock, page, lastPage, n);
      forall k :: 0 <= k < |Saves(r.trace)| ==> UniformlyStamped(Saves(r.trace)[k])
    decreases PageCount(page, lastPage)
  {
    var r := FetchPages(cfg, net, clock, page, lastPage, n);
    if page > lastPage {
      assert r.trace == [];
    } else {
      PageSaves(cfg, net, clock, page, n);
      var p := FetchPage(cfg, net, clock, page, 0, cfg.initialDelayMs, n);
      RunShape(cfg, net, clock, page, lastPage, n);
      if p.outcome.PageOk? {
        var rest := FetchPages(cfg, net, clock, page + 1, lastPage, p.next);
        RunStamps(cfg, net, clock, page + 1, lastPage, p.next);
        SummarizeAppend(p.trace, rest.trace);
        var ss := Saves(r.trace);
        assert ss == [p.outcome.batch] + Saves(rest.trace);
        forall k | 0 <= k < |ss|
          ensures UniformlyStamped(ss[k])
        {
          if k > 0 {
            assert ss[k] == Saves(rest.trace)[k - 1];
          }
        }
      }
    }
  }

  /** Requesting `page` `a` times puts `a` copies of it, and nothing else,
      in the request log. */
  lemma {:induction false} RepeatCount(x: int, a: nat, q: int)
    ensures multiset(Repeat(x, a))[q] == if q == x then a else 0
  {
    if a > 0 {
      RepeatCount(x, a - 1, q);
      assert Repeat(x, a) == [x] + Repeat(x, a - 1);
    }
  }

  predicate NonDecreasing(s: seq<int>) {
    forall i, j :: 0 <= i <= j < |s| ==> s[i] <= s[j]
  }

  predicate Within(s: seq<int>, lo: int, hi: int) {
    forall i :: 0 <= i < |s| ==> lo <= s[i] <= hi
  }

  /** Pages `lo .. hi` are each requested at least once (when any attempt
      is allowed) and at most `MAX_RETRIES` times. */
  predicate CountsWithin(cfg: Config, reqs: seq<int>, lo: int, hi: int) {
    forall q :: lo <= q <= hi ==>
      multiset(reqs)[q] <= cfg.maxRetries && (cfg.maxRetries > 0 ==> 1 <= multiset(reqs)[q])
  }

  /** The requests of a run: in non-decreasing page order, only for pages
      from `page` up to the last one reached; every such page requested at
      least once (when any attempt is allowed) and at most `MAX_RETRIES`
      times; a page that fails requested exactly `MAX_RETRIES` times; one
      request per attempt. */
  predicate RequestLog(cfg: Config, page: int, lastPage: int, n: nat, r: Run) {
    var reached := if r.result.Err? then r.result.error.page else lastPage;
    LogShape(cfg, Requests(r.trace), page, reached, r.next - n, r.result.Err?)
  }

  /** `reqs` has `count` entries in non-decreasing order, all within
      `lo .. hi`, each page of that range at least once and at most
      `MAX_RETRIES` times, and exactly `MAX_RETRIES` times for `hi` when the
      run failed there. */
  predicate LogShape(cfg: Config, reqs: seq<int>, lo: int, hi: int, count: int, failed: bool) {
    && |reqs| == count
    && NonDecreasing(reqs)
    && Within(reqs, lo, hi)
    && CountsWithin(cfg, reqs, lo, hi)
    && (failed ==> multiset(reqs)[hi] == cfg.maxRetries)
  }

  /** Putting `a` requests for `x` in front of a log of later pages keeps it
      ordered and adds `a` to the count of `x` alone. */
  lemma RepeatInFront(x: int, a: nat, s: seq<int>, hi: int)
    requires x <= hi
    requires NonDecreasing(s) && Within(s, x + 1, hi)
    ensures NonDecreasing(Repeat(x, a) + s)
    ensures Within(Repeat(x, a) + s, x, hi)
    ensures forall q :: multiset(Repeat(x, a) + s)[q] == (if q == x then a else multiset(s)[q])
  {
    RepeatInFrontOrder(x, a, s, hi);
    RepeatInFrontCounts(x, a, s, hi);
  }

  lemma RepeatInFrontOrder(x: int, a: nat, s: seq<int>, hi: int)
    requires x <= hi
    requires NonDecreasing(s) && Within(s, x + 1, hi)
    ensures NonDecreasing(Repeat(x, a) + s)
    ensures Within(Repeat(x, a) + s, x, hi)
  {
    var t := Repeat(x, a) + s;
    RepeatElements(x, a);
    assert forall i :: 0 <= i < |t| ==> t[i] == if i < a then x else s[i - a];
  }

  lemma RepeatInFrontCounts(x: int, a: nat, s: seq<int>, hi: int)
    requires Within(s, x + 1, hi)
    ensures forall q :: multiset(Repeat(x, a) + s)[q] == (if q == x then a else multiset(s)[q])
  {
    assert forall i :: 0 <= i < |s| ==> s[i] != x;
    assert x !in multiset(s);
    forall q
      ensures multiset(Repeat(x, a) + s)[q] == (if q == x then a else multiset(s)[q])
    {
      RepeatCount(x, a, q);
    }
  }

  lemma RepeatElements<T>(x: T, a: nat)
    ensures forall i :: 0 <= i < a ==> Repeat(x, a)[i] == x
  {
    if a > 0 {
      RepeatElements(x, a - 1);
      assert Repeat(x, a) == [x] + Repeat(x, a - 1);
    }
  }

  /** Every run's requests form a `RequestLog`. */
  lemma {:induction false} RunRequests(cfg: Config, net: nat -> Attempt, clock: nat -> Instant,
                                       page: int, lastPage: int, n: nat)
    requires ValidConfig(cfg)
    ensures RequestLog(cfg, page, lastPage, n, FetchPages(cfg, net, clock, page, lastPage, n))
    decreases PageCount(page, lastPage)
  {
    var r := FetchPages(cfg, net, clock, page, lastPage, n);
    if page > lastPage {
      RunRequestsEmpty(cfg, page, lastPage, n, r);
    } else {
      var ok, m := FirstPageRequests(cfg, net, clock, page, lastPage, n);
      if ok {
        RunRequests(cfg, net, clock, page + 1, lastPage, m);
        RunRequestsStep(cfg, page, lastPage, n, m, r, FetchPages(cfg, net, clock, page + 1, lastPage, m));
      } else {
        RunRequestsFailed(cfg, page, lastPage, n, r);
      }
    }
  }

  /** The requests of a run, split at its first page: `ok` tells whether
      that page succeeded and `m` is the attempt after it. */
  lemma FirstPageRequests(cfg: Config, net: nat -> Attempt, clock: nat -> Instant,
                          page: int, lastPage: int, n: nat) returns (ok: bool, m: nat)
    requires ValidConfig(cfg) && page <= lastPage
    ensures var r := FetchPages(cfg, net, clock, page, lastPage, n);
      var rest := FetchPages(cfg, net, clock, page + 1, lastPage, m);
      && (!ok ==>
            && r.result.Err? && r.result.error.page == page
            && r.next == n + cfg.maxRetries
            && Requests(r.trace) == Repeat(page, cfg.maxRetries))
      && (ok ==>
            && n < m <= n + cfg.maxRetries
            && Requests(r.trace) == Repeat(page, m - n) + Requests(rest.trace)
            && r.next == rest.next && r.result.Err? == rest.result.Err?
            && (r.result.Err? ==> r.result.error == rest.result.error))
  {
    BackoffZero(cfg);
    var p := FetchPage(cfg, net, clock, page, 0, cfg.initialDelayMs, n);
    ok, m := p.outcome.PageOk?, p.next;
    if ok {
      FirstPageOkRequests(cfg, net, clock, page, lastPage, n);
    } else {
      FirstPageFailedRequests(cfg, net, clock, page, lastPage, n);
    }
  }

  lemma FirstPageOkRequests(cfg: Config, net: nat -> Attempt, clock: nat -> Instant,
                            page: int, lastPage: int, n: nat)
    requires ValidConfig(cfg) && page <= lastPage
    requires FetchPage(cfg, net, clock, page, 0, cfg.initialDelayMs, n).outcome.PageOk?
    ensures var m := FetchPage(cfg, net, clock, page, 0, cfg.initialDelayMs, n).next;
      var r := FetchPages(cfg, net, clock, page, lastPage, n);
      var rest := FetchPages(cfg, net, clock, page + 1, lastPage, m);
      && n < m <= n + cfg.maxRetries
      && Requests(r.trace) == Repeat(page, m - n) + Requests(rest.trace)
      && r.next == rest.next && r.result.Err? == rest.result.Err?
      && (r.result.Err? ==> r.result.error == rest.result.error)
  {
    PageRequests(cfg, net, clock, page, n);
    var p := FetchPage(cfg, net, clock, page, 0, cfg.initialDelayMs, n);
    RunShape(cfg, net, clock, page, lastPage, n);
    var r := FetchPages(cfg, net, clock, page, lastPage, n);
    var rest := FetchPages(cfg, net, clock, page + 1, lastPage, p.next);
    assert r.trace == p.trace + rest.trace;
    SummarizeAppend(p.trace, rest.trace);
    assert Requests(r.trace) == Requests(p.trace) + Requests(rest.trace);
  }

  lemma FirstPageFailedRequests(cfg: Config, net: nat -> Attempt, clock: nat -> Instant,
                                page: int, lastPage: int, n: nat)
    requires ValidConfig(cfg) && page <= lastPage
    requires FetchPage(cfg, net, clock, page, 0, cfg.initialDelayMs, n).outcome.PageFailed?
    ensures var r := FetchPages(cfg, net, clock, page, lastPage, n);
      && r.result.Err? && r.result.error.page == page
      && r.next == n + cfg.maxRetries
      && Requests(r.trace) == Repeat(page, cfg.maxRetries)
  {
    PageRequests(cfg, net, clock, page, n);
    RunShape(cfg, net, clock, page, lastPage, n);
  }

  lemma RunRequestsEmpty(cfg: Config, page: int, lastPage: int, n: nat, r: Run)
    requires page > lastPage && r == Run(Ok([]), [], n)
    ensures RequestLog(cfg, page, lastPage, n, r)
  {
  }

  /** A run that fails on its first page has only that page's requests. */
  lemma RunRequestsFailed(cfg: Config, page: int, lastPage: int, n: nat, r: Run)
    requires r.result.Err? && r.result.error.page == page
    requires r.next == n + cfg.maxRetries
    requires Requests(r.trace) == Repeat(page, cfg.maxRetries)
    ensures RequestLog(cfg, page, lastPage, n, r)
  {
    RepeatInFront(page, cfg.maxRetries, [], page);
    assert Requests(r.trace) == Repeat(page, cfg.maxRetries) + [];
  }

  /** The inductive step of `RunRequests`, on the logs alone. */
  lemma RunRequestsStep(cfg: Config, page: int, lastPage: int, n: nat, m: nat, r: Run, rest: Run)
    requires page <= lastPage && n < m <= n + cfg.maxRetries
    requires RequestLog(cfg, page + 1, lastPage, m, rest)
    requires Requests(r.trace) == Repeat(page, m - n) + Requests(rest.trace)
    requires r.next == rest.next && r.result.Err? == rest.result.Err?
    requires r.result.Err? ==> r.result.error == rest.result.error
    requires rest.result.Err? ==> page + 1 <= rest.result.error.page <= lastPage
    ensures RequestLog(cfg, page, lastPage, n, r)
  {
    var reached := if r.result.Err? then r.result.error.page else lastPage;
    PrependPage(cfg, page, m - n, Requests(rest.trace), reached, rest.next - m, r.result.Err?);
  }

  /** A page requested `a` times, put in front of the log of the later
      pages, gives the log of the run from that page. */
  lemma PrependPage(cfg: Config, x: int, a: nat, s: seq<int>, hi: int, count: int, failed: bool)
    requires x <= hi && 0 < a <= cfg.maxRetries
    requires failed ==> x < hi
    requires LogShape(cfg, s, x + 1, hi, count, failed)
    ensures LogShape(cfg, Repeat(x, a) + s, x, hi, count + a, failed)
  {
    RepeatInFront(x, a, s, hi);
    CountsInFront(cfg, x, a, s, Repeat(x, a) + s, hi);
  }

  lemma CountsInFront(cfg: Config, x: int, a: nat, s: seq<int>, t: seq<int>, hi: int)
    requires 0 < a <= cfg.maxRetries
    requires CountsWithin(cfg, s, x + 1, hi)
    requires forall q :: multiset(t)[q] == (if q == x then a else multiset(s)[q])
    ensures CountsWithin(cfg, t, x, hi)
  {
    forall q | x <= q <= hi
      ensures multiset(t)[q] <= cfg.maxRetries && (cfg.maxRetries > 0 ==> 1 <= multiset(t)[q])
    {
      if q != x {
        assert x + 1 <= q;
      }
    }
  }

  /** Every sleep lies between the first backoff and `MAX_DELAY_MS`. */
  predicate SleepsBounded(cfg: Config, sl: seq<nat>) {
    forall k :: 0 <= k < |sl| ==> Backoff(cfg, 1) <= sl[k] <= cfg.maxDelayMs
  }

  lemma {:induction false} BackoffRangeBounded(cfg: Config, lo: nat, hi: nat)
    requires lo >= 1
    ensures SleepsBounded(cfg, BackoffRange(cfg, lo, hi))
    decreases hi - lo
  {
    if lo < hi {
      BackoffRangeBounded(cfg, lo + 1, hi);
      BackoffMonotone(cfg, 1, lo);
      var rest := BackoffRange(cfg, lo + 1, hi);
      assert BackoffRange(cfg, lo, hi) == [Backoff(cfg, lo)] + rest;
    }
  }

  lemma SleepsBoundedAppend(cfg: Config, a: seq<nat>, b: seq<nat>)
    requires SleepsBounded(cfg, a) && SleepsBounded(cfg, b)
    ensures SleepsBounded(cfg, a + b)
  {
    assert forall k :: 0 <= k < |a + b| ==> (a + b)[k] == if k < |a| then a[k] else b[k - |a|];
  }

  /** The sleeps of a run, split at its first page. */
  lemma FirstPageSleeps(cfg: Config, net: nat -> Attempt, clock: nat -> Instant,
                        page: int, lastPage: int, n: nat) returns (ok: bool, m: nat)
    requires ValidConfig(cfg) && page <= lastPage
    ensures var r := FetchPages(cfg, net, clock, page, lastPage, n);
      var rest := FetchPages(cfg, net, clock, page + 1, lastPage, m);
      && (!ok ==> Sleeps(r.trace) == BackoffRange(cfg, 1, cfg.maxRetries))
      && (ok ==> n < m && Sleeps(r.trace) == BackoffRange(cfg, 1, m - n) + Sleeps(rest.trace))
  {
    PageSleeps(cfg, net, clock, page, n);
    var p := FetchPage(cfg, net, clock, page, 0, cfg.initialDelayMs, n);
    RunShape(cfg, net, clock, page, lastPage, n);
    ok, m := p.outcome.PageOk?, p.next;
    if ok {
      SummarizeAppend(p.trace, FetchPages(cfg, net, clock, page + 1, lastPage, p.next).trace);
    }
  }

  /** Every sleep of a run, on any page, is at least the first backoff
      (`min(2 * INITIAL_DELAY_MS, MAX_DELAY_MS)`) and at most `MAX_DELAY_MS`. */
  lemma {:induction false} RunSleeps(cfg: Config, net: nat -> Attempt, clock: nat -> Instant,
                                     page: int, lastPage: int, n: nat)
    requires ValidConfig(cfg)
    ensures SleepsBounded(cfg, Sleeps(FetchPages(cfg, net, clock, page, lastPage, n).trace))
    decreases PageCount(page, lastPage)
  {
    var r := FetchPages(cfg, net, clock, page, lastPage, n);
    if page > lastPage {
      assert r.trace == [];
    } else {
      var ok, m := FirstPageSleeps(cfg, net, clock, page, lastPage, n);
      if ok {
        RunSleeps(cfg, net, clock, page + 1, lastPage, m);
        BackoffRangeBounded(cfg, 1, m - n);
        SleepsBoundedAppend(cfg, BackoffRange(cfg, 1, m - n),
                            Sleeps(FetchPages(cfg, net, clock, page + 1, lastPage, m).trace));
      } else {
        BackoffRangeBounded(cfg, 1, cfg.maxRetries);
      }
    }
  }

  // ----- scenarios with the client's constants -----

  /** The delays of the client's constants: 2000, 4000, 8000, then capped. */
  lemma SourceBackoffs(token: string)
    ensures var cfg := SourceConfig(token);
      && Backoff(cfg, 0) == 2000 && Backoff(cfg, 1) == 4000
      && Backoff(cfg, 2) == 8000 && Backoff(cfg, 3) == 10000
  {
    assert Pow2(1) == 2 && Pow2(2) == 4 && Pow2(3) == 8;
  }

  /** A failed attempt that is retried leaves the page's outcome to the
      next attempt. */
  lemma RetriedAttempt(cfg: Config, net: nat -> Attempt, clock: nat -> Instant,
                       page: int, retryCount: nat, delay: nat, n: nat)
    requires retryCount < cfg.maxRetries
    requires delay == Backoff(cfg, retryCount)
    requires !Succeeds(net(n)) && (RateLimited(net(n)) || retryCount < cfg.maxRetries - 1)
    ensures var p := FetchPage(cfg, net, clock, page, retryCount, delay, n);
      var q := FetchPage(cfg, net, clock, page, retryCount + 1, Backoff(cfg, retryCount + 1), n + 1);
      p.outcome == q.outcome && p.next == q.next
  {
    BackoffStep(cfg, retryCount);
  }

  /** With the client's constants a run is its single page. */
  lemma SourceRun(token: string, net: nat -> Attempt, clock: nat -> Instant)
    ensures Backoff(SourceConfig(token), 0) == 2000
    ensures var r := FetchClinics(SourceConfig(token), net, clock);
      var p := FetchPage(SourceConfig(token), net, clock, 1, 0, 2000, 0);
      && r.trace == p.trace && r.next == p.next
      && r.result == (if p.outcome.PageOk? then Ok(p.outcome.batch) else Err(p.outcome.error))
      && Summarize(r.trace) == ExpectedPageSummary(SourceConfig(token), 1, 0, p, 0)
  {
    var cfg := SourceConfig(token);
    SourceIsOnePage(token);
    SourceBackoffs(token);
    var p := FetchPage(cfg, net, clock, 1, 0, 2000, 0);
    RunShape(cfg, net, clock, 1, 1, 0);
    PageTrace(cfg, net, clock, 1, 0, 2000, 0);
    if p.outcome.PageOk? {
      var rest := FetchPages(cfg, net, clock, 2, 1, p.next);
      assert rest.trace == [] && rest.result == Ok([]);
      assert p.trace + [] == p.trace;
      assert p.outcome.batch + [] == p.outcome.batch;
    }
  }

  /** Two rate-limited answers, then a good page: the client sleeps 4000 ms
      and 8000 ms, requests page 1 three times, saves the third answer's
      records stamped with the third attempt's instant, and returns them. */
  lemma RateLimitedTwiceThenOk(token: string, net: nat -> Attempt, clock: nat -> Instant)
    requires RateLimited(net(0)) && RateLimited(net(1)) && Succeeds(net(2))
    ensures var r := FetchClinics(SourceConfig(token), net, clock);
      var batch := Stamp(net(2).body.records, clock(2));
      && r.result == Ok(batch)
      && r.next == 3
      && Requests(r.trace) == [1, 1, 1]
      && Sleeps(r.trace) == [4000, 8000]
      && Saves(r.trace) == [batch]
  {
    RateLimitedTwicePage(token, net, clock);
    SourceRun(token, net, clock);
    SourceSleeps(token);
    assert Repeat(1, 3) == [1, 1, 1];
  }

  lemma RateLimitedTwicePage(token: string, net: nat -> Attempt, clock: nat -> Instant)
    requires RateLimited(net(0)) && RateLimited(net(1)) && Succeeds(net(2))
    ensures var p := FetchPage(SourceConfig(token), net, clock, 1, 0, 2000, 0);
      p.outcome == PageOk(Stamp(net(2).body.records, clock(2))) && p.next == 3
  {
    var cfg := SourceConfig(token);
    SourceBackoffs(token);
    RetriedAttempt(cfg, net, clock, 1, 0, 2000, 0);
    RetriedAttempt(cfg, net, clock, 1, 1, 4000, 1);
  }

  /** The sleeps before the second and third attempts of a page. */
  lemma SourceSleeps(token: string)
    ensures BackoffRange(SourceConfig(token), 1, 3) == [4000, 8000]
  {
    SourceBackoffs(token);
  }

  /** Two failures that are not the last attempt are retried whatever they
      are, so the third attempt decides the page. */
  lemma ThirdAttemptDecides(token: string, net: nat -> Attempt, clock: nat -> Instant)
    requires !Succeeds(net(0)) && !Succeeds(net(1))
    ensures var p := FetchPage(SourceConfig(token), net, clock, 1, 0, 2000, 0);
      var q := FetchPage(SourceConfig(token), net, clock, 1, 2, Backoff(SourceConfig(token), 2), 2);
      p.outcome == q.outcome && p.next == q.next
  {
    var cfg := SourceConfig(token);
    SourceBackoffs(token);
    RetriedAttempt(cfg, net, clock, 1, 0, 2000, 0);
    RetriedAttempt(cfg, net, clock, 1, 1, 4000, 1);
  }

  /** Three rate-limited answers: the page is given up after its third
      attempt, nothing is saved, and the run fails for page 1. */
  lemma AlwaysRateLimited(token: string, net: nat -> Attempt, clock: nat -> Instant)
    requires RateLimited(net(0)) && RateLimited(net(1)) && RateLimited(net(2))
    ensures var r := FetchClinics(SourceConfig(token), net, clock);
      && r.result == Err(RetriesExhausted(1))
      && Sleeps(r.trace) == [4000, 8000]
      && Saves(r.trace) == []
  {
    var cfg := SourceConfig(token);
    SourceBackoffs(token);
    ThirdAttemptDecides(token, net, clock);
    RetriedAttempt(cfg, net, clock, 1, 2, 8000, 2);
    SourceRun(token, net, clock);
    SourceSleeps(token);
  }

  /** An answer that is not a JSON array is retried like a transport error;
      three in a row make the page fail with that cause. */
  lemma NotArrayIsRetried(token: string, net: nat -> Attempt, clock: nat -> Instant)
    requires net(0) == net(1) == net(2) == Response(200, NotArray, false)
    ensures var r := FetchClinics(SourceConfig(token), net, clock);
      && r.result == Err(AttemptFailed(1, NotAnArray))
      && r.next == 3
      && Saves(r.trace) == []
  {
    SourceBackoffs(token);
    ThirdAttemptDecides(token, net, clock);
    SourceRun(token, net, clock);
  }

  /** A transport error on the last allowed attempt ends the run with that
      error, even after rate-limited attempts. */
  lemma ThrowOnLastAttempt(token: string, net: nat -> Attempt, clock: nat -> Instant)
    requires RateLimited(net(0)) && RateLimited(net(1)) && net(2) == Throws
    ensures FetchClinics(SourceConfig(token), net, clock).result == Err(AttemptFailed(1, TransportError))
  {
    SourceBackoffs(token);
    ThirdAttemptDecides(token, net, clock);
    SourceRun(token, net, clock);
  }
}
