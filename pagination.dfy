/**
 * The page loop of the extraction handler, over what happens to each page.
 *
 * `steps(p)` says how page p goes: how its fetch ended, how many requests it took, the row
 * tuples of its listings and whether writing them commits. Loop is the handler's loop over
 * pages 1, 2, ...: it stops at the first page whose fetch fails, that is empty, whose write
 * fails or that holds fewer than LIMIT_PER_PAGE listings. The lemmas give the loop in
 * closed form, in terms of the page where it stops.
 */
module Pagination {
  import opened Api
  import opened Retry
  import opened Upsert

  /** How an invocation ends; every outcome but Done is reported with status 500. */
  datatype Outcome =
    | ConfigMissing
    | UrlInvalid
    | FetchExhausted(page: nat)
    | FetchUnexpected(page: nat)
    | DbError(page: nat)
    | Done(total: nat, pages: nat)

  /**
   * An invocation's outcome, the table it leaves and the number of requests it sent for
   * each page it asked for (attempts[p - 1] for page p).
   */
  datatype Trace = Trace(outcome: Outcome, table: map<Code, Row>, attempts: seq<nat>)

  /** One page as the loop sees it. */
  datatype PageStep = PageStep(fetch: Fetch, attempts: nat, tuples: seq<Tuple>, written: bool)

  /** The loop goes on after a page that was fetched, held exactly LIMIT_PER_PAGE listings and was committed. */
  predicate GoesOn(s: PageStep)
  {
    s.fetch.Fetched? && |s.tuples| == LIMIT_PER_PAGE && s.written
  }

  /** No page after `bound` lets the loop go on (the catalogue is finite). */
  ghost predicate Bounded(steps: nat -> PageStep, bound: nat)
  {
    forall p :: bound < p ==> !GoesOn(steps(p))
  }

  /**
   * The page loop from `page` on, with `total` listings saved so far, the table as
   * committed so far and the requests sent for the pages already asked for.
   */
  function Loop(steps: nat -> PageStep, bound: nat, page: nat, total: nat, table: map<Code, Row>, attempts: seq<nat>): (r: Trace)
    requires page >= 1 && Bounded(steps, bound)
    ensures |r.attempts| > |attempts|
    ensures !r.outcome.ConfigMissing? && !r.outcome.UrlInvalid?
    ensures !r.outcome.Done? ==> r.outcome.page >= page
    ensures r.outcome.Done? ==> r.outcome.total >= total && r.outcome.pages >= page - 1
    decreases if page <= bound then bound + 1 - page else 0
  {
    var s := steps(page);
    var attempts' := attempts + [s.attempts];
    match s.fetch
    case Exhausted => Trace(FetchExhausted(page), table, attempts')
    case Aborted => Trace(FetchUnexpected(page), table, attempts')
    case Fetched(_) =>
      if |s.tuples| == 0 then
        Trace(Done(total, page - 1), table, attempts')
      else if !s.written then
        Trace(DbError(page), table, attempts')
      else if |s.tuples| == LIMIT_PER_PAGE then
        Loop(steps, bound, page + 1, total + LIMIT_PER_PAGE, UpsertAll(table, s.tuples), attempts')
      else
        Trace(Done(total + |s.tuples|, page), UpsertAll(table, s.tuples), attempts')
  }

  /** How the loop ends when `page`, going as `s`, is the last page it asks for. */
  function StopOutcome(s: PageStep, page: nat, total: nat): Outcome
    requires page >= 1
  {
    match s.fetch
    case Exhausted => FetchExhausted(page)
    case Aborted => FetchUnexpected(page)
    case Fetched(_) =>
      if |s.tuples| == 0 then Done(total, page - 1)
      else if !s.written then DbError(page)
      else Done(total + |s.tuples|, page)
  }

  /** The table when the last page goes as `s`: it is committed when it was fetched, non-empty and written. */
  function StopTable(s: PageStep, table: map<Code, Row>): map<Code, Row>
  {
    if s.fetch.Fetched? && |s.tuples| > 0 && s.written then UpsertAll(table, s.tuples) else table
  }

  /** The page the loop stops at when it starts at `page`. */
  function StopPage(steps: nat -> PageStep, bound: nat, page: nat): (last: nat)
    requires page >= 1 && Bounded(steps, bound)
    ensures page <= last
    decreases if page <= bound then bound + 1 - page else 0
  {
    if GoesOn(steps(page)) then StopPage(steps, bound, page + 1) else page
  }

  /** The table after committing pages lo .. hi - 1 in order. */
  function TableAfter(steps: nat -> PageStep, table: map<Code, Row>, lo: nat, hi: nat): map<Code, Row>
    decreases hi - lo
  {
    if lo >= hi then table else TableAfter(steps, UpsertAll(table, steps(lo).tuples), lo + 1, hi)
  }

  /** The requests sent for pages lo .. hi - 1, one count per page. */
  function AttemptsFrom(steps: nat -> PageStep, lo: nat, hi: nat): (r: seq<nat>)
    ensures |r| == if lo < hi then hi - lo else 0
    decreases hi - lo
  {
    if lo >= hi then [] else [steps(lo).attempts] + AttemptsFrom(steps, lo + 1, hi)
  }

  /** After a fetched, full and committed page the loop goes on with the next one. */
  lemma LoopGoesOn(steps: nat -> PageStep, bound: nat, page: nat, total: nat, table: map<Code, Row>, attempts: seq<nat>)
    requires page >= 1 && Bounded(steps, bound) && GoesOn(steps(page))
    ensures Loop(steps, bound, page, total, table, attempts) ==
      Loop(steps, bound, page + 1, total + LIMIT_PER_PAGE, UpsertAll(table, steps(page).tuples),
           attempts + [steps(page).attempts])
    ensures StopPage(steps, bound, page) == StopPage(steps, bound, page + 1)
  {
  }

  /** Otherwise the loop stops at this page, as StopOutcome and StopTable say. */
  lemma LoopStopsHere(steps: nat -> PageStep, bound: nat, page: nat, total: nat, table: map<Code, Row>, attempts: seq<nat>)
    requires page >= 1 && Bounded(steps, bound) && !GoesOn(steps(page))
    ensures Loop(steps, bound, page, total, table, attempts) ==
      Trace(StopOutcome(steps(page), page, total), StopTable(steps(page), table), attempts + [steps(page).attempts])
    ensures StopPage(steps, bound, page) == page
  {
  }

  /** The loop goes on after every page before its stop page and not after the stop page. */
  lemma {:induction false} StopPageBounds(steps: nat -> PageStep, bound: nat, page: nat)
    requires page >= 1 && Bounded(steps, bound)
    ensures forall p :: page <= p < StopPage(steps, bound, page) ==> GoesOn(steps(p))
    ensures !GoesOn(steps(StopPage(steps, bound, page)))
    decreases if page <= bound then bound + 1 - page else 0
  {
    if GoesOn(steps(page)) {
      StopPageBounds(steps, bound, page + 1);
    }
  }

  /**
   * How the loop ends: as StopOutcome says of its stop page, with LIMIT_PER_PAGE listings
   * counted for each page before it.
   */
  lemma {:induction false} LoopOutcome(steps: nat -> PageStep, bound: nat, page: nat, total: nat, table: map<Code, Row>, attempts: seq<nat>)
    requires page >= 1 && Bounded(steps, bound)
    ensures var last := StopPage(steps, bound, page);
      Loop(steps, bound, page, total, table, attempts).outcome ==
        StopOutcome(steps(last), last, total + LIMIT_PER_PAGE * (last - page))
    decreases if page <= bound then bound + 1 - page else 0
  {
    if GoesOn(steps(page)) {
      LoopGoesOn(steps, bound, page, total, table, attempts);
      LoopOutcome(steps, bound, page + 1, total + LIMIT_PER_PAGE, UpsertAll(table, steps(page).tuples),
                  attempts + [steps(page).attempts]);
      var last := StopPage(steps, bound, page);
      assert total + LIMIT_PER_PAGE + LIMIT_PER_PAGE * (last - (page + 1)) == total + LIMIT_PER_PAGE * (last - page);
    } else {
      LoopStopsHere(steps, bound, page, total, table, attempts);
    }
  }

  /**
   * The table the loop leaves: every page before the stop page committed in order, and
   * the stop page as StopTable says.
   */
  lemma {:induction false} LoopTable(steps: nat -> PageStep, bound: nat, page: nat, total: nat, table: map<Code, Row>, attempts: seq<nat>)
    requires page >= 1 && Bounded(steps, bound)
    ensures var last := StopPage(steps, bound, page);
      Loop(steps, bound, page, total, table, attempts).table ==
        StopTable(steps(last), TableAfter(steps, table, page, last))
    decreases if page <= bound then bound + 1 - page else 0
  {
    if GoesOn(steps(page)) {
      LoopGoesOn(steps, bound, page, total, table, attempts);
      LoopTable(steps, bound, page + 1, total + LIMIT_PER_PAGE, UpsertAll(table, steps(page).tuples),
                attempts + [steps(page).attempts]);
    } else {
      LoopStopsHere(steps, bound, page, total, table, attempts);
    }
  }

  /** The loop asks for pages page .. StopPage and no other. */
  lemma {:induction false} LoopAttempts(steps: nat -> PageStep, bound: nat, page: nat, total: nat, table: map<Code, Row>, attempts: seq<nat>)
    requires page >= 1 && Bounded(steps, bound)
    ensures Loop(steps, bound, page, total, table, attempts).attempts ==
      attempts + AttemptsFrom(steps, page, StopPage(steps, bound, page) + 1)
    decreases if page <= bound then bound + 1 - page else 0
  {
    var tries := steps(page).attempts;
    if GoesOn(steps(page)) {
      LoopGoesOn(steps, bound, page, total, table, attempts);
      LoopAttempts(steps, bound, page + 1, total + LIMIT_PER_PAGE, UpsertAll(table, steps(page).tuples),
                   attempts + [tries]);
      var rest := AttemptsFrom(steps, page + 1, StopPage(steps, bound, page) + 1);
      assert attempts + [tries] + rest == attempts + ([tries] + rest);
    } else {
      LoopStopsHere(steps, bound, page, total, table, attempts);
    }
  }

  /** Committing one more page extends the committed prefix by that page. */
  lemma {:induction false} TableAfterExtend(steps: nat -> PageStep, table: map<Code, Row>, lo: nat, hi: nat)
    requires lo <= hi
    ensures TableAfter(steps, table, lo, hi + 1) == UpsertAll(TableAfter(steps, table, lo, hi), steps(hi).tuples)
    decreases hi - lo
  {
    if lo < hi {
      TableAfterExtend(steps, UpsertAll(table, steps(lo).tuples), lo + 1, hi);
    }
  }

  /** Element p - lo of AttemptsFrom(steps, lo, hi) is page p's request count. */
  lemma {:induction false} AttemptsFromAt(steps: nat -> PageStep, lo: nat, hi: nat, p: nat)
    requires lo <= p < hi
    ensures AttemptsFrom(steps, lo, hi)[p - lo] == steps(p).attempts
    decreases hi - lo
  {
    if lo < p {
      AttemptsFromAt(steps, lo + 1, hi, p);
    }
  }

  /** Listings on page p when page p - 1 of `sizes` says how many; none after the last. */
  function SizeAt(sizes: seq<nat>, p: nat): nat
  {
    if 1 <= p <= |sizes| then sizes[p - 1] else 0
  }

  /**
   * How pagination ends when nothing fails, from the page sizes alone. An empty page stops
   * without being counted, a page of LIMIT_PER_PAGE listings goes on, any other size is
   * counted and stops.
   */
  function Paged(sizes: seq<nat>, page: nat, total: nat): Outcome
    requires page >= 1
    decreases if page <= |sizes| then |sizes| + 1 - page else 0
  {
    var n := SizeAt(sizes, page);
    if n == 0 then Done(total, page - 1)
    else if n == LIMIT_PER_PAGE then Paged(sizes, page + 1, total + n)
    else Done(total + n, page)
  }

  /** Full, full, short; full then empty; empty at once; full then over-long. */
  lemma PagedExamples()
    ensures Paged([50, 50, 37], 1, 0) == Done(137, 3)
    ensures Paged([50, 0], 1, 0) == Done(50, 1)
    ensures Paged([0], 1, 0) == Done(0, 0)
    ensures Paged([50, 70, 50], 1, 0) == Done(120, 2)
  {
  }

  /** Pagination over sizes always ends in success. */
  lemma {:induction false} PagedDone(sizes: seq<nat>, page: nat, total: nat)
    requires page >= 1
    ensures Paged(sizes, page, total).Done?
    decreases if page <= |sizes| then |sizes| + 1 - page else 0
  {
    if SizeAt(sizes, page) == LIMIT_PER_PAGE {
      PagedDone(sizes, page + 1, total + LIMIT_PER_PAGE);
    }
  }

  /**
   * When every page from `page` on is fetched and written and holds as many listings as
   * `sizes` says, the loop ends as Paged says.
   */
  lemma {:induction false} PagedLoop(steps: nat -> PageStep, bound: nat, sizes: seq<nat>, page: nat, total: nat,
                                     table: map<Code, Row>, attempts: seq<nat>)
    requires page >= 1 && Bounded(steps, bound)
    requires forall p :: page <= p ==>
      steps(p).fetch.Fetched? && steps(p).written && |steps(p).tuples| == SizeAt(sizes, p)
    ensures Loop(steps, bound, page, total, table, attempts).outcome == Paged(sizes, page, total)
    decreases if page <= bound then bound + 1 - page else 0
  {
    var s := steps(page);
    if GoesOn(s) {
      LoopGoesOn(steps, bound, page, total, table, attempts);
      PagedLoop(steps, bound, sizes, page + 1, total + LIMIT_PER_PAGE, UpsertAll(table, s.tuples), attempts + [s.attempts]);
    } else {
      LoopStopsHere(steps, bound, page, total, table, attempts);
    }
  }
}
