# Listing extraction handler, modelled in Dafny

The system is a serverless handler that copies the real-estate listings of a remote
listing API into the `inmuebles_domus` table of a PostgreSQL database. One invocation:

- refuses to run unless the API token and the database URL are both configured, and
  unless the database URL can be split into connection parameters;
- asks for pages 1, 2, 3, ... of 50 listings (`LIMIT_PER_PAGE`);
- fetches each page with up to 5 requests (`MAX_RETRIES`), sleeping 5, 10, 20, 40 and
  80 seconds after transient failures, and gives up at once on any other error;
- turns each listing into a row tuple (`codpro`, serialised listing, `estado`,
  `fecha_actualizacion`) and writes the page in one transaction with
  `INSERT ... ON CONFLICT (codpro) DO UPDATE`, resetting `sincronizado_wp` to false;
- rolls the page back and stops with status 500 when the write fails;
- goes on only while a page held exactly 50 listings and reports the total written and
  the number of pages.

The modules follow the handler's parts:

- `api.dfy` (module `Api`): the constants, the configuration, JSON listings and the
  environment. The listing API, the database server and the URL parser are not code
  here. One run's worth of their behaviour is an `Env` value: the body of each page,
  the failures each page's requests meet, the fault each page's write meets, and
  whether the URL parses.
- `retry.dfy` (module `Retry`): the per-page retry loop `FetchWithRetry`, proved
  against the closed form `FetchPage`, and the backoff schedule.
- `upsert.dfy` (module `Upsert`): row tuples (`BuildTuples`) and the upsert as a map
  update where the last write wins. The table is the class `Table`, with a committed
  state, a transaction, `ExecuteMany`, `Commit` and `Rollback`. `SavePage` is the
  per-page write.
- `pagination.dfy` (module `Pagination`): the page loop as a function `Loop` over what
  happens to each page, with its closed forms (where it stops, what it reports, what
  it commits, which pages it asks for). `Paged` is an independent reference over page
  sizes alone.
- `extractor.dfy` (module `Extractor`): `Run`, the specification of one invocation;
  `Handler`, the handler itself, proved to compute `Run`; and the run-level lemmas.

## Model

| member | source | states |
|---|---|---|
| Retry.Delay | api/extractor.py:78 | every sleep lasts at least RETRY_DELAY seconds, and each is twice the one before |
| Retry.Schedule | api/extractor.py:77-80 | after n transient failures n sleeps were taken, the k-th of Delay(k) seconds |
| Retry.FetchPage | api/extractor.py:56 | a page never gets fewer than one or more than MAX_RETRIES requests |
| Retry.FetchWithRetry | api/extractor.py:52-87 | the retry loop ends as FetchPage says: a body after the leading transient failures, abort at the first unexpected error, exhausted after MAX_RETRIES transient failures; the sleeps it takes are exactly the first entries of the backoff schedule |
| Retry.LeadingTransientsSplit | api/extractor.py:75-83 | the failures the loop counts are all transient and the one after them, if any, is unexpected |
| Retry.FullSchedule | api/extractor.py:77-80 | the five sleeps are 5, 10, 20, 40 and 80 seconds |
| Retry.ScheduleDoubles | api/extractor.py:78 | the k-th sleep is RETRY_DELAY * 2^(k-1), twice the one before |
| Retry.RetryBounds | api/extractor.py:52-80 | 1..MAX_RETRIES requests per page; one sleep per transient failure, including after the fifth; every request but the last failed transiently; the fetch is exhausted exactly when the first five requests fail transiently, and then the sleeps were 5, 10, 20, 40, 80 |
| Retry.TwoFailuresThenSuccess | api/extractor.py:56-80 | two transient failures then a body: three requests, sleeps of 5 and 10 seconds |
| Retry.UnexpectedNotRetried | api/extractor.py:81-83 | an unexpected error on the first request aborts with one request and no sleep |
| Upsert.BuildTuples | api/extractor.py:103-120 | one tuple per listing, in listing order, holding its code, its serialised form, its status and its update date, each looked-up field (`inm.get` at lines 106, 113 and 118) null when the key is absent or null |
| Upsert.Upsert | api/extractor.py:124-134 | one statement: the tuple's code is in the table afterwards with sincronizado_wp false, and no row is removed |
| Upsert.UpsertAll | api/extractor.py:137 | the statements of a batch in order: no row is removed, and every row the batch adds or changes has sincronizado_wp false |
| Upsert.UpsertAllOverlays | api/extractor.py:124-137 | a batch writes over the old table exactly the rows it would write into an empty one |
| Upsert.UpsertAllKeys | api/extractor.py:124-137 | the batch adds exactly the codes of its tuples and removes no row |
| Upsert.UpsertLastWins | api/extractor.py:124-137 | a code holds the values of the last tuple carrying it, with sincronizado_wp false |
| Upsert.UpsertOthersUnchanged | api/extractor.py:124-137 | a code the batch does not carry keeps its row, or stays absent |
| Upsert.UpsertIdempotent | api/extractor.py:124-137 | writing the same page twice leaves the table as writing it once |
| Upsert.StatementsSucceedIff | api/extractor.py:137 | StatementsSucceed, the error condition of `executemany`, holds exactly when every tuple has a code and none is the failing one |
| Upsert.Table.Begin | api/extractor.py:99-100 | a new transaction starts from the committed rows |
| Upsert.Table.ExecuteMany | api/extractor.py:137 | the statements run in order; it succeeds exactly when all of them can run, and then the transaction holds the batch written over the old rows |
| Upsert.Table.Commit | api/extractor.py:138 | the transaction's rows become the committed rows, unless the commit fails |
| Upsert.Table.Rollback | api/extractor.py:146 | the transaction is discarded |
| Upsert.SavePage | api/extractor.py:97-147 | the page commits exactly when connecting, every statement and the commit succeed; the committed rows are then the page written over the old ones, and otherwise unchanged |
| Pagination.Loop | api/extractor.py:46-156 | the page loop: it asks for at least one more page; it never reports a configuration error; a failure names the current page or a later one; a success counts at least the listings saved so far and the pages before the current one |
| Pagination.LoopGoesOn | api/extractor.py:140-152 | after a fetched, committed page of exactly 50 listings the loop asks for the next page with 50 more counted |
| Pagination.LoopStopsHere | api/extractor.py:153-156 | after any other page the loop ends there |
| Pagination.StopPageBounds | api/extractor.py:48-50 | every page before the stop page was fetched, held 50 listings and was committed; the stop page was not all three |
| Pagination.LoopOutcome | api/extractor.py:46-50 | the loop ends as its stop page says, with 50 counted per earlier page |
| Pagination.LoopTable | api/extractor.py:137-147 | the pages before the stop page are committed in order; the stop page only when it was fetched, non-empty and written |
| Pagination.LoopAttempts | api/extractor.py:46-56 | the loop asks for the pages from the first to the stop page, each once |
| Pagination.TableAfterExtend | api/extractor.py:138 | committing one more page writes it over the pages committed before |
| Pagination.PagedExamples | api/extractor.py:152-166 | page sizes [50, 50, 37] give 137 listings on 3 pages, [50, 0] give 50 on 1, [0] give 0 on 0, [50, 70, 50] give 120 on 2 |
| Pagination.PagedDone | api/extractor.py:159-166 | pagination over page sizes always ends in success |
| Pagination.PagedLoop | api/extractor.py:50-156 | when every page is fetched and written, the loop reports what the page sizes alone determine |
| Extractor.Run | api/extractor.py:20-166 | one invocation: it reports a configuration error exactly when the token or the database URL is unset or empty (Python truthiness, line 25), an invalid URL exactly when both are given and the URL does not parse, and sends no request exactly in those two cases, leaving the table untouched |
| Extractor.FetchAndSave | api/extractor.py:52-147 | one round of the page loop: the fetch ends and counts requests as FetchPage says; a non-empty page is written, and the table changes exactly when it commits |
| Extractor.Handler | api/extractor.py:20-166 | the handler's outcome, the table it leaves and the requests it sends per page are those of Run |
| Extractor.LastPage | api/extractor.py:46 | the loop stops at page 1 or later |
| Extractor.SumAfterFullPages | api/extractor.py:140 | full pages followed by a last page hold 50 listings per full page plus the last page's, and the non-empty ones are the full pages plus the last one when it holds listings |
| Extractor.MissingConfigDoesNothing | api/extractor.py:25-29 | a missing or empty token or database URL gives status 500 with no request sent and the table untouched |
| Extractor.AttemptsPerPage | api/extractor.py:56 | the request counts of the pages asked for, one per page, each between 1 and MAX_RETRIES |
| Extractor.RunAttempts | api/extractor.py:52-66 | a configured run asks for pages 1 .. LastPage, each once, with 1..MAX_RETRIES requests each; no later page is requested |
| Extractor.RunFullPages | api/extractor.py:50-92 | pagination goes on exactly while a page is fetched, holds exactly 50 listings and is written |
| Extractor.RunEnds | api/extractor.py:85-156 | a configured run ends as its last page says, with every earlier page committed |
| Extractor.RunDone | api/extractor.py:159-166 | on success: status 200, the last page was fetched and did not hold 50 listings, the total is the sum of the page sizes, and the page count is the number of non-empty pages |
| Extractor.RunDoneTable | api/extractor.py:137-156 | on success every non-empty page is committed, in page order |
| Extractor.NoListingsEndsRun | api/extractor.py:91-166 | a run that reaches a fetched page whose body has no `inmuebles` key (`data.get('inmuebles', [])`) or an empty list stops at that page with status 200, LIMIT_PER_PAGE listings per earlier page and the earlier pages as page count, and writes nothing of it over the pages committed before |
| Extractor.RunFails | api/extractor.py:75-147 | on a failure: status 500 naming the last page asked for; earlier pages stay committed and nothing of the failing page is; exhaustion means 5 requests and sleeps of 5, 10, 20, 40, 80; an unexpected error aborted the fetch; a database error means a non-empty page that could not be written |
| Extractor.CleanStep | api/extractor.py:56-138 | when nothing fails, a page takes one request and its write commits |
| Extractor.CleanRun | api/extractor.py:46-166 | when nothing fails, a configured run succeeds with the outcome the page sizes alone determine |

## Left out

- HTTP (`requests.get`, `raise_for_status`, `response.json`, the 30-second timeout) is
  an abstract outcome per request: a transient failure (`RequestException`), an
  unexpected failure, or a delivered body. Which exceptions are transient depends on the
  HTTP library and is not modelled.
- The `psycopg2` connection, cursor and SQL text are modelled by the `Table` class and a
  per-page `DbFault`: connecting fails, one statement fails, the commit fails, or nothing
  fails. The model uses the intended `ON CONFLICT (codpro) DO UPDATE` semantics. The
  query text holds a `#` line (api/extractor.py:132), which PostgreSQL does not accept as
  a comment, so the statement as written would fail on every page.
- When `psycopg2.connect` (api/extractor.py:99) raises, the `except` and `finally` blocks
  (api/extractor.py:146, 149-150) raise again, on every page: on the first page `conn`
  and `cursor` are unbound, and on later pages they still hold the previous page's
  connection and cursor, closed at line 150, so `conn.rollback()` fails. The handler then
  ends with an exception instead of status 500. The model reports a database error for
  the page, the evidently intended behaviour.
- `data.get` (api/extractor.py:91) sits outside any `try`: a body that is not a JSON
  object makes the handler crash, and so does a body `{"inmuebles": null}`, since
  `len(None)` raises at line 92, also outside any `try`. A body is modelled as an object
  whose `inmuebles` key is either absent (read as an empty page) or a list; crashes are
  not modelled.
- A listing without `codpro` yields a tuple with a null key. The model assumes `codpro`
  is the table's primary key (the schema is not part of this model), so that statement
  fails and the page rolls back (`StatementsSucceed`). With a nullable unique `codpro`
  the statement would insert a new row with a null code instead.
- `urllib.parse.urlparse` (api/extractor.py:33-43) is the flag `Env.urlParses`. Its
  failure returns status 500 before any request, as `UrlInvalid`.
- `json.dumps` is the opaque `Payload`; the response body of the handler is its outcome
  and status code, not JSON text.
- `time.sleep` and `print` are left out. The sleeps a page's retries take are the ghost
  output of `FetchWithRetry`. A run records the number of requests per page, and the
  sleeps follow from it through `FetchPage` and `Schedule`.
- Environment variables are the `Config` parameter. Python truthiness is modelled: an
  empty string counts as missing.
- The catalogue is finite: past the last delivered body the API returns an empty page.
  An endless stream of full pages would never end in the source either; the model
  leaves that case out so that `Run` is a total function.
- The loop ends on any page size other than 50 (api/extractor.py:50), so an over-long
  page is counted, written and ends the run. The model follows the code.
- The comment at api/extractor.py:111-112 says a missing `fecha_actualizacion` is
  replaced by the current date; the code passes null (line 113), and so does the model
  (`BuildTuples`).
