/**
 * The extraction handler: the configuration guard, the page loop with its retrying fetch,
 * and the per-page write with commit or rollback.
 *
 * Run is the specification of one invocation as a function of the configuration, the
 * collaborators' behaviour and the table's contents; Handler is the handler itself, proved
 * to compute it. The lemmas below state what Run promises: exact totals, when pagination
 * stops, which pages end up committed and which pages are asked for.
 */
module Extractor {
  import opened Api
  import opened Retry
  import opened Upsert
  import opened Pagination

  function StatusCode(o: Outcome): int
  {
    if o.Done? then 200 else 500
  }

  /** The row tuples of the listings the API delivers for a page. */
  function PageTuples(env: Env, page: nat): seq<Tuple>
  {
    Tuples(Listings(BodyOf(env, page)))
  }

  /** Writing the page would commit: connecting, every statement and the commit succeed. */
  predicate Writable(env: Env, page: nat)
  {
    WriteSucceeds(PageTuples(env, page), DbFaultAt(env, page))
  }

  /** How a page goes in this environment. */
  function StepOf(env: Env, page: nat): PageStep
  {
    var log := FetchPage(env, page);
    PageStep(log.result, log.attempts, PageTuples(env, page), Writable(env, page))
  }

  function Steps(env: Env): nat -> PageStep
  {
    (p: nat) => StepOf(env, p)
  }

  lemma StepsAt(env: Env, p: nat)
    ensures Steps(env)(p) == StepOf(env, p)
  {
  }

  /** Pages after the last delivered one are empty, so the loop never goes on after them. */
  lemma StepsBounded(env: Env)
    ensures Bounded(Steps(env), |env.bodies|)
  {
    forall p | |env.bodies| < p
      ensures !GoesOn(Steps(env)(p))
    {
      assert PageTuples(env, p) == [];
    }
  }

  /** One invocation of the handler against a table holding `table`. */
  function Run(cfg: Config, env: Env, table: map<Code, Row>): (r: Trace)
    ensures r.outcome.ConfigMissing? <==> cfg.token in {None, Some("")} || cfg.databaseUrl in {None, Some("")}
    ensures r.outcome.UrlInvalid? <==> Configured(cfg) && !env.urlParses
    ensures r.attempts == [] <==> r.outcome.ConfigMissing? || r.outcome.UrlInvalid?
    ensures r.outcome.ConfigMissing? || r.outcome.UrlInvalid? ==> r.table == table
  {
    if !Configured(cfg) then Trace(ConfigMissing, table, [])
    else if !env.urlParses then Trace(UrlInvalid, table, [])
    else
      StepsBounded(env);
      Loop(Steps(env), |env.bodies|, 1, 0, table, [])
  }

  /**
   * One round of the page loop: fetch `page` with retries and, when it holds listings,
   * write them in one transaction. `count` is the number of listings fetched; `ok` says
   * whether the write committed. The table changes only when a non-empty page commits.
   */
  method FetchAndSave(env: Env, db: Table, page: nat) returns (result: Fetch, ghost tries: nat, count: nat, ok: bool)
    modifies db
    ensures var step := StepOf(env, page);
      && result == step.fetch && tries == step.attempts
      && (result.Fetched? ==> count == |step.tuples| && (count > 0 ==> ok == step.written))
      && db.rows == StopTable(step, old(db.rows))
  {
    ghost var step := StepOf(env, page);
    ghost var sleeps;
    result, tries, sleeps := FetchWithRetry(env, page);
    count, ok := 0, false;
    if result.Fetched? {
      var inmuebles := Listings(result.body);
      count := |inmuebles|;
      if count > 0 {
        var tuples := BuildTuples(inmuebles);
        ok := SavePage(db, tuples, DbFaultAt(env, page));
        assert tuples == step.tuples;
      }
    }
  }

  /**
   * The handler. Missing configuration or an unparsable database URL end it before any
   * request. Otherwise it fetches pages 1, 2, ... with retries, writes each non-empty page
   * in its own transaction, and goes on while the last page held exactly LIMIT_PER_PAGE
   * listings. The number of requests sent for each page is recorded.
   */
  method Handler(cfg: Config, env: Env, db: Table) returns (outcome: Outcome, ghost attempts: seq<nat>)
    modifies db
    ensures Run(cfg, env, old(db.rows)) == Trace(outcome, db.rows, attempts)
  {
    attempts := [];
    if !Present(cfg.token) || !Present(cfg.databaseUrl) {
      return ConfigMissing, attempts;
    }
    if !env.urlParses {
      return UrlInvalid, attempts;
    }

    ghost var steps, bound := Steps(env), |env.bodies|;
    StepsBounded(env);
    ghost var run := Run(cfg, env, old(db.rows));
    var page := 1;
    var total := 0;
    var inmueblesEnPagina := LIMIT_PER_PAGE;
    while inmueblesEnPagina == LIMIT_PER_PAGE
      invariant page >= 1
      invariant inmueblesEnPagina == LIMIT_PER_PAGE ==>
        run == Loop(steps, bound, page, total, db.rows, attempts)
      invariant inmueblesEnPagina != LIMIT_PER_PAGE ==>
        run == Trace(Done(total, page - 1), db.rows, attempts)
      decreases if page <= bound then bound + 1 - page else 0, inmueblesEnPagina == LIMIT_PER_PAGE
    {
      ghost var step, rows, attempts0 := StepOf(env, page), db.rows, attempts;
      StepsAt(env, page);
      var result, tries, count, ok := FetchAndSave(env, db, page);
      attempts := attempts + [tries];
      if !result.Fetched? {
        LoopStopsHere(steps, bound, page, total, rows, attempts0);
        return if result.Aborted? then FetchUnexpected(page) else FetchExhausted(page), attempts;
      }
      inmueblesEnPagina := count;
      if inmueblesEnPagina > 0 {
        if !ok {
          LoopStopsHere(steps, bound, page, total, rows, attempts0);
          return DbError(page), attempts;
        }
        if inmueblesEnPagina == LIMIT_PER_PAGE {
          LoopGoesOn(steps, bound, page, total, rows, attempts0);
        } else {
          LoopStopsHere(steps, bound, page, total, rows, attempts0);
          assert StopOutcome(step, page, total) == Done(total + inmueblesEnPagina, page);
        }
        total := total + inmueblesEnPagina;
        page := page + 1;
      } else {
        LoopStopsHere(steps, bound, page, total, rows, attempts0);
        break;
      }
    }
    return Done(total, page - 1), attempts;
  }

  // ---------------------------------------------------------------------------------
  // What a run promises

  /** The page a configured run stops at: the first one after which the loop does not go on. */
  function LastPage(env: Env): (last: nat)
    ensures last >= 1
  {
    StepsBounded(env);
    StopPage(Steps(env), |env.bodies|, 1)
  }

  /** Listings on pages lo .. hi - 1. */
  function SumSizes(env: Env, lo: nat, hi: nat): nat
    decreases hi - lo
  {
    if lo >= hi then 0 else PageSize(env, lo) + SumSizes(env, lo + 1, hi)
  }

  /** Number of non-empty pages among lo .. hi - 1. */
  function NonEmptyPages(env: Env, lo: nat, hi: nat): nat
    decreases hi - lo
  {
    if lo >= hi then 0 else (if PageSize(env, lo) > 0 then 1 else 0) + NonEmptyPages(env, lo + 1, hi)
  }

  /** The table after committing pages 1 .. n - 1 of the environment in order. */
  function Committed(env: Env, table: map<Code, Row>, n: nat): map<Code, Row>
  {
    TableAfter(Steps(env), table, 1, n)
  }

  /** Full pages lo .. hi - 1 followed by page hi hold LIMIT_PER_PAGE per full page plus page hi's listings. */
  lemma {:induction false} SumAfterFullPages(env: Env, lo: nat, hi: nat)
    requires lo <= hi
    requires forall p :: lo <= p < hi ==> PageSize(env, p) == LIMIT_PER_PAGE
    ensures SumSizes(env, lo, hi + 1) == LIMIT_PER_PAGE * (hi - lo) + PageSize(env, hi)
    ensures NonEmptyPages(env, lo, hi + 1) == hi - lo + (if PageSize(env, hi) > 0 then 1 else 0)
    decreases hi - lo
  {
    if lo < hi {
      SumAfterFullPages(env, lo + 1, hi);
    }
  }

  /** Missing configuration: status 500, no request, no write. */
  lemma MissingConfigDoesNothing(cfg: Config, env: Env, table: map<Code, Row>)
    requires cfg.token in {None, Some("")} || cfg.databaseUrl in {None, Some("")}
    ensures Run(cfg, env, table) == Trace(ConfigMissing, table, [])
    ensures StatusCode(Run(cfg, env, table).outcome) == 500
  {
  }

  /**
   * A configured run asks for pages 1 .. LastPage(env), each once: the request count it
   * records for page p is that of page p's fetch, between 1 and MAX_RETRIES.
   */
  lemma RunAttempts(cfg: Config, env: Env, table: map<Code, Row>)
    requires Configured(cfg) && env.urlParses
    ensures var tr := Run(cfg, env, table);
      && |tr.attempts| == LastPage(env)
      && (forall p :: 1 <= p <= |tr.attempts| ==> tr.attempts[p - 1] == FetchPage(env, p).attempts)
      && (forall i :: 0 <= i < |tr.attempts| ==> 1 <= tr.attempts[i] <= MAX_RETRIES)
  {
    StepsBounded(env);
    LoopAttempts(Steps(env), |env.bodies|, 1, 0, table, []);
    AttemptsPerPage(env, Run(cfg, env, table).attempts);
  }

  /** The request counts of pages 1 .. LastPage(env), one per page, each between 1 and MAX_RETRIES. */
  lemma AttemptsPerPage(env: Env, a: seq<nat>)
    requires a == AttemptsFrom(Steps(env), 1, LastPage(env) + 1)
    ensures |a| == LastPage(env)
    ensures forall p :: 1 <= p <= |a| ==> a[p - 1] == FetchPage(env, p).attempts
    ensures forall i :: 0 <= i < |a| ==> 1 <= a[i] <= MAX_RETRIES
  {
    var last := LastPage(env);
    forall p | 1 <= p <= last
      ensures a[p - 1] == FetchPage(env, p).attempts
    {
      AttemptsFromAt(Steps(env), 1, last + 1, p);
      StepsAt(env, p);
    }
    forall i | 0 <= i < last
      ensures 1 <= a[i] <= MAX_RETRIES
    {
      assert a[i] == FetchPage(env, i + 1).attempts;
    }
  }

  /**
   * Pagination goes on exactly while pages come back fetched, holding LIMIT_PER_PAGE
   * listings and written: every page before the last is so and the last is not.
   */
  lemma RunFullPages(env: Env)
    ensures var last := LastPage(env);
      && (forall p :: 1 <= p < last ==>
            FetchPage(env, p).result.Fetched? && PageSize(env, p) == LIMIT_PER_PAGE && Writable(env, p))
      && !(FetchPage(env, last).result.Fetched? && PageSize(env, last) == LIMIT_PER_PAGE && Writable(env, last))
  {
    var steps := Steps(env);
    StepsBounded(env);
    var last := LastPage(env);
    StopPageBounds(steps, |env.bodies|, 1);
    forall p | 1 <= p < last
      ensures FetchPage(env, p).result.Fetched? && PageSize(env, p) == LIMIT_PER_PAGE && Writable(env, p)
    {
      assert GoesOn(steps(p));
    }
    assert !GoesOn(steps(last));
  }

  /** A configured run ends as its last page says, with every earlier page committed. */
  lemma RunEnds(cfg: Config, env: Env, table: map<Code, Row>)
    requires Configured(cfg) && env.urlParses
    ensures var tr := Run(cfg, env, table);
      var last := LastPage(env);
      && tr.outcome == StopOutcome(StepOf(env, last), last, LIMIT_PER_PAGE * (last - 1))
      && tr.table == StopTable(StepOf(env, last), Committed(env, table, last))
  {
    var steps := Steps(env);
    StepsBounded(env);
    var tr := Run(cfg, env, table);
    var last := LastPage(env);
    var s := StepOf(env, last);
    StepsAt(env, last);
    LoopOutcome(steps, |env.bodies|, 1, 0, table, []);
    assert tr.outcome == StopOutcome(steps(last), last, LIMIT_PER_PAGE * (last - 1));
    LoopTable(steps, |env.bodies|, 1, 0, table, []);
    assert tr.table == StopTable(steps(last), TableAfter(steps, table, 1, last));
  }

  /**
   * A successful run reports as total the listings on the pages it asked for and as pages
   * the number of non-empty ones; the last page was fetched and did not hold exactly
   * LIMIT_PER_PAGE listings.
   */
  lemma RunDone(cfg: Config, env: Env, table: map<Code, Row>)
    ensures var tr := Run(cfg, env, table);
      var last := |tr.attempts|;
      tr.outcome.Done? ==>
        && last == LastPage(env)
        && FetchPage(env, last).result.Fetched? && PageSize(env, last) != LIMIT_PER_PAGE
        && tr.outcome.total == SumSizes(env, 1, last + 1)
        && tr.outcome.pages == NonEmptyPages(env, 1, last + 1)
        && tr.outcome.pages == (if PageSize(env, last) > 0 then last else last - 1)
        && StatusCode(tr.outcome) == 200
  {
    var tr := Run(cfg, env, table);
    if tr.outcome.Done? {
      RunAttempts(cfg, env, table);
      RunFullPages(env);
      RunEnds(cfg, env, table);
      SumAfterFullPages(env, 1, LastPage(env));
    }
  }

  /** A successful run leaves every non-empty page committed, in page order. */
  lemma RunDoneTable(cfg: Config, env: Env, table: map<Code, Row>)
    ensures var tr := Run(cfg, env, table);
      tr.outcome.Done? ==> tr.table == Committed(env, table, tr.outcome.pages + 1)
  {
    var tr := Run(cfg, env, table);
    if tr.outcome.Done? {
      var last := LastPage(env);
      var step := StepOf(env, last);
      RunEnds(cfg, env, table);
      assert step.fetch.Fetched?;
      if |step.tuples| > 0 {
        assert step.written && tr.outcome.pages == last;
        StepsAt(env, last);
        TableAfterExtend(Steps(env), table, 1, last);
      } else {
        assert tr.outcome.pages == last - 1;
      }
    }
  }

  /**
   * A fetched page whose body has no `inmuebles` key, or an empty list under it, ends a
   * run that reaches it: the run stops there with status 200, LIMIT_PER_PAGE listings
   * counted per earlier page, the earlier pages as page count, and nothing of that page
   * written.
   */
  lemma NoListingsEndsRun(cfg: Config, env: Env, table: map<Code, Row>, p: nat)
    requires Configured(cfg) && env.urlParses
    requires 1 <= p <= LastPage(env)
    requires FetchPage(env, p).result.Fetched?
    requires FetchPage(env, p).result.body.inmuebles in {None, Some([])}
    ensures LastPage(env) == p
    ensures Run(cfg, env, table).outcome == Done(LIMIT_PER_PAGE * (p - 1), p - 1)
    ensures Run(cfg, env, table).table == Committed(env, table, p)
    ensures StatusCode(Run(cfg, env, table).outcome) == 200
  {
    assert PageSize(env, p) == 0;
    RunFullPages(env);
    RunEnds(cfg, env, table);
  }

  /**
   * A failed fetch or write ends the run at that page: no later page is asked for, the
   * pages before it stay committed and nothing of the failing page is. Giving up on
   * retries means MAX_RETRIES requests with sleeps of 5, 10, 20, 40 and 80 seconds; a
   * database error means the page held listings and could not be written.
   */
  lemma RunFails(cfg: Config, env: Env, table: map<Code, Row>)
    ensures var tr := Run(cfg, env, table);
      var o := tr.outcome;
      var p := |tr.attempts|;
      (o.FetchExhausted? || o.FetchUnexpected? || o.DbError?) ==>
        && o.page == p == LastPage(env)
        && tr.table == Committed(env, table, p)
        && StatusCode(o) == 500
        && (o.FetchExhausted? ==>
              tr.attempts[p - 1] == MAX_RETRIES && Schedule(FetchPage(env, p).slept) == [5, 10, 20, 40, 80])
        && (o.FetchUnexpected? ==> FetchPage(env, p).result.Aborted?)
        && (o.DbError? ==> PageSize(env, p) > 0 && !Writable(env, p))
  {
    var tr := Run(cfg, env, table);
    var o := tr.outcome;
    if o.FetchExhausted? || o.FetchUnexpected? || o.DbError? {
      RunAttempts(cfg, env, table);
      RunEnds(cfg, env, table);
      RetryBounds(env, LastPage(env));
    }
  }

  // ---------------------------------------------------------------------------------
  // A run where nothing fails

  /** Every request gets through, no write fails and every listing carries a code. */
  predicate Clean(env: Env)
  {
    && (forall i :: 0 <= i < |env.fetchFaults| ==> env.fetchFaults[i] == [])
    && (forall i :: 0 <= i < |env.dbFaults| ==> env.dbFaults[i] == Healthy)
    && forall p, i :: 0 <= p < |env.bodies| && 0 <= i < |Listings(env.bodies[p])| ==>
         Get(Listings(env.bodies[p])[i], "codpro").Some?
  }

  /** The number of listings on each delivered page. */
  function Sizes(env: Env): (sizes: seq<nat>)
    ensures |sizes| == |env.bodies|
    ensures forall p :: 1 <= p <= |env.bodies| ==> sizes[p - 1] == PageSize(env, p)
  {
    seq(|env.bodies|, i requires 0 <= i < |env.bodies| => |Listings(env.bodies[i])|)
  }

  /** In a clean environment a page is fetched with one request and its write commits. */
  lemma CleanStep(env: Env, page: nat)
    requires Clean(env)
    ensures StepOf(env, page).fetch.Fetched?
    ensures StepOf(env, page).attempts == 1
    ensures StepOf(env, page).written
    ensures |StepOf(env, page).tuples| == SizeAt(Sizes(env), page)
  {
    var ts := PageTuples(env, page);
    StatementsSucceedIff(ts, Healthy);
    forall i | 0 <= i < |ts|
      ensures ts[i].codpro.Some?
    {
      assert 1 <= page <= |env.bodies|;
      assert ts[i] == TupleOf(Listings(env.bodies[page - 1])[i]);
    }
  }

  /**
   * When nothing fails, a configured run succeeds with the outcome the page sizes alone
   * determine, e.g. sizes [50, 50, 37] give 137 listings on 3 pages (see PagedExamples).
   */
  lemma CleanRun(cfg: Config, env: Env, table: map<Code, Row>)
    requires Configured(cfg) && env.urlParses && Clean(env)
    ensures Run(cfg, env, table).outcome == Paged(Sizes(env), 1, 0)
    ensures Run(cfg, env, table).outcome.Done?
  {
    var steps := Steps(env);
    var sizes := Sizes(env);
    StepsBounded(env);
    forall p | 1 <= p
      ensures steps(p).fetch.Fetched? && steps(p).written && |steps(p).tuples| == SizeAt(sizes, p)
    {
      StepsAt(env, p);
      CleanStep(env, p);
    }
    PagedLoop(steps, |env.bodies|, sizes, 1, 0, table, []);
    PagedDone(sizes, 1, 0);
  }
}
