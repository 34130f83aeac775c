/**
 * Fetching one page with bounded exponential backoff.
 *
 * FetchPage says in closed form what the retry loop does with a page, from the number of
 * transient failures the page's requests meet before anything else happens;
 * FetchWithRetry is the loop itself, with the sleeps it takes recorded instead of performed.
 */
module Retry {
  import opened Api

  function Pow2(n: nat): (r: nat)
    ensures r >= 1
  {
    if n == 0 then 1 else 2 * Pow2(n - 1)
  }

  /** Seconds slept after the k-th consecutive transient failure of one page (k >= 1). */
  function Delay(k: nat): (d: nat)
    requires k >= 1
    ensures d >= RETRY_DELAY
    ensures k >= 2 ==> d == 2 * Delay(k - 1)
  {
    RETRY_DELAY * Pow2(k - 1)
  }

  /** The sleeps taken after the first n consecutive transient failures of a page. */
  function Schedule(n: nat): (s: seq<nat>)
    ensures |s| == n
    ensures forall k :: 1 <= k <= n ==> s[k - 1] == Delay(k)
  {
    if n == 0 then [] else Schedule(n - 1) + [Delay(n)]
  }

  /** The number of transient failures at the head of a page's failures. */
  function LeadingTransients(faults: seq<Fault>): nat
  {
    if faults == [] || faults[0] == Unexpected then 0 else 1 + LeadingTransients(faults[1..])
  }

  /** The transient failures counted are all at the head, and what follows them is not one. */
  lemma {:induction false} LeadingTransientsSplit(faults: seq<Fault>)
    ensures LeadingTransients(faults) <= |faults|
    ensures forall k :: 0 <= k < LeadingTransients(faults) ==> faults[k] == Transient
    ensures LeadingTransients(faults) < |faults| ==> faults[LeadingTransients(faults)] == Unexpected
  {
    if faults != [] && faults[0] == Transient {
      LeadingTransientsSplit(faults[1..]);
    }
  }

  /** The result of one page's retry loop. */
  datatype Fetch = Fetched(body: Body) | Exhausted | Aborted

  /** The result of one page's retry loop, the requests it sent and the number of sleeps it took. */
  datatype FetchLog = FetchLog(result: Fetch, attempts: nat, slept: nat)

  /**
   * What the retry loop does with a page: MAX_RETRIES transient failures in a row exhaust
   * it; otherwise the first request that does not fail transiently decides, aborting on
   * an unexpected error and delivering the page's body otherwise. One sleep follows every
   * transient failure; the sleeps themselves are Schedule(slept).
   */
  function FetchPage(env: Env, page: nat): (log: FetchLog)
    ensures 1 <= log.attempts <= MAX_RETRIES
  {
    var faults := PageFaults(env, page);
    var t := LeadingTransients(faults);
    if t >= MAX_RETRIES then FetchLog(Exhausted, MAX_RETRIES, MAX_RETRIES)
    else if t < |faults| then FetchLog(Aborted, t + 1, t)
    else FetchLog(Fetched(BodyOf(env, page)), t + 1, t)
  }

  /**
   * The retry loop of the handler: request the page until a body arrives, at most
   * MAX_RETRIES times, sleeping Delay(retries) after each transient failure; any other
   * failure aborts at once. `attempts` counts the requests sent, `sleeps` the delays taken.
   */
  method FetchWithRetry(env: Env, page: nat) returns (result: Fetch, ghost attempts: nat, ghost sleeps: seq<nat>)
    ensures result == FetchPage(env, page).result
    ensures FetchLog(result, attempts, |sleeps|) == FetchPage(env, page)
    ensures sleeps == Schedule(|sleeps|)
  {
    ghost var faults := PageFaults(env, page);
    ghost var t := LeadingTransients(faults);
    LeadingTransientsSplit(faults);
    var retries := 0;
    var success := false;
    var data := Body(None);
    sleeps := [];
    while retries < MAX_RETRIES && !success
      invariant retries <= MAX_RETRIES && retries <= t
      invariant sleeps == Schedule(retries)
      invariant success ==> retries == t == |faults| < MAX_RETRIES && data == BodyOf(env, page)
      decreases MAX_RETRIES - retries, if success then 0 else 1
    {
      match AttemptOutcome(env, page, retries)
      case Delivered(body) =>
        data := body;
        success := true;
      case TransientError =>
        retries := retries + 1;
        var delay := Delay(retries);
        sleeps := sleeps + [delay];
      case UnexpectedError =>
        return Aborted, retries + 1, sleeps;
    }
    if !success {
      return Exhausted, retries, sleeps;
    }
    return Fetched(data), retries + 1, sleeps;
  }

  /** The backoff schedule in seconds: 5, 10, 20, 40, 80. */
  lemma FullSchedule()
    ensures Schedule(MAX_RETRIES) == [5, 10, 20, 40, 80]
  {
  }

  /** The k-th sleep of a schedule lasts RETRY_DELAY * 2^(k-1) seconds, twice the one before. */
  lemma ScheduleDoubles(n: nat, k: nat)
    requires 1 <= k <= n
    ensures Schedule(n)[k - 1] == RETRY_DELAY * Pow2(k - 1)
    ensures k >= 2 ==> Schedule(n)[k - 1] == 2 * Schedule(n)[k - 2]
  {
    assert Schedule(n)[k - 1] == Delay(k);
  }

  /**
   * Every page gets between one and MAX_RETRIES requests, every request but the last one
   * failed transiently and was followed by the next sleep of the schedule, and the loop
   * gives up only after MAX_RETRIES transient failures in a row, having slept 5, 10, 20, 40
   * and 80 seconds.
   */
  lemma RetryBounds(env: Env, page: nat)
    ensures var log := FetchPage(env, page);
      && 1 <= log.attempts <= MAX_RETRIES
      && log.slept == (if log.result.Exhausted? then log.attempts else log.attempts - 1)
      && (forall k :: 0 <= k < log.slept ==> AttemptOutcome(env, page, k).TransientError?)
      && (log.result.Exhausted? <==> forall k :: 0 <= k < MAX_RETRIES ==> AttemptOutcome(env, page, k).TransientError?)
      && (log.result.Exhausted? ==> Schedule(log.slept) == [5, 10, 20, 40, 80])
  {
    var faults := PageFaults(env, page);
    var t := LeadingTransients(faults);
    LeadingTransientsSplit(faults);
    FullSchedule();
    if t < MAX_RETRIES {
      assert !AttemptOutcome(env, page, t).TransientError?;
    }
  }

  /** Two transient failures and then a body: three requests, sleeps of 5 and 10 seconds. */
  lemma TwoFailuresThenSuccess(env: Env, page: nat)
    requires PageFaults(env, page) == [Transient, Transient]
    ensures FetchPage(env, page) == FetchLog(Fetched(BodyOf(env, page)), 3, 2)
    ensures Schedule(FetchPage(env, page).slept) == [5, 10]
  {
    assert LeadingTransients([Transient, Transient]) == 2 by {
      assert [Transient, Transient][1..] == [Transient];
      assert [Transient][1..] == [];
    }
  }

  /** An unexpected error is not retried: one request, no sleep. */
  lemma UnexpectedNotRetried(env: Env, page: nat)
    requires |PageFaults(env, page)| > 0 && PageFaults(env, page)[0] == Unexpected
    ensures FetchPage(env, page) == FetchLog(Aborted, 1, 0)
  {
  }
}
