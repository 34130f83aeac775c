/**
 * Configuration, constants and the collaborators of the extraction handler, as values.
 *
 * The listing API, the database server and the URL parser are not modelled as code: one
 * run's worth of their behaviour is an `Env` value that the handler consults.
 */
module Api {

  /** Records requested per page (`limit`); a page of exactly this many means "more to come". */
  const LIMIT_PER_PAGE: nat := 50
  /** Most requests sent for one page. */
  const MAX_RETRIES: nat := 5
  /** Seconds slept after the first transient failure of a page; doubled after each further one. */
  const RETRY_DELAY: nat := 5

  datatype Option<T> = None | Some(value: T)

  /** The two environment variables the handler needs: the API token and the database URL. */
  datatype Config = Config(token: Option<string>, databaseUrl: Option<string>)

  /** Python truthiness of an optional string: unset and the empty string are both false. */
  predicate Present(v: Option<string>)
  {
    v.Some? && v.value != ""
  }

  predicate Configured(cfg: Config)
  {
    Present(cfg.token) && Present(cfg.databaseUrl)
  }

  /** A JSON field value. Everything except null is kept opaque, as its text. */
  datatype Json = Null | Value(text: string)

  /** One listing (`inmueble`) as the API returns it: a JSON object. */
  datatype Record = Record(fields: map<string, Json>)

  /** `dict.get(key)`: nothing for an absent key and for a JSON null alike. */
  function Get(r: Record, key: string): Option<string>
  {
    if key in r.fields && r.fields[key].Value? then Some(r.fields[key].text) else None
  }

  /** A decoded response body; `inmuebles` is None when the body has no such key. */
  datatype Body = Body(inmuebles: Option<seq<Record>>)

  /** `data.get('inmuebles', [])`. */
  function Listings(b: Body): seq<Record>
  {
    if b.inmuebles.Some? then b.inmuebles.value else []
  }

  /** How one request for a page goes wrong: a `RequestException` (timeout, connection
      error, 4xx/5xx status) or any other exception. */
  datatype Fault = Transient | Unexpected

  /** The outcome of one request for a page. */
  datatype Attempt = TransientError | UnexpectedError | Delivered(body: Body)

  /** How writing one page to the database goes: connecting fails, the statement for the
      tuple at `index` fails, the commit fails, or nothing fails. */
  datatype DbFault = Healthy | ConnectFails | StatementFails(index: nat) | CommitFails

  /**
   * The collaborators' behaviour during one run.
   * - bodies[p - 1] is the body the API delivers for page p; past the end it delivers an
   *   empty page (the catalogue is finite).
   * - fetchFaults[p - 1][k] is how request k (from 0) for page p fails; requests past that
   *   list get through.
   * - dbFaults[p - 1] is how writing page p fails; past the end nothing fails.
   * - urlParses says whether the database URL can be split into connection parameters.
   */
  datatype Env = Env(bodies: seq<Body>, fetchFaults: seq<seq<Fault>>, dbFaults: seq<DbFault>, urlParses: bool)

  function BodyOf(env: Env, page: nat): Body
  {
    if 1 <= page <= |env.bodies| then env.bodies[page - 1] else Body(Some([]))
  }

  /** Number of listings the API delivers for a page. */
  function PageSize(env: Env, page: nat): nat
  {
    |Listings(BodyOf(env, page))|
  }

  /** How the requests for a page fail before one gets through. */
  function PageFaults(env: Env, page: nat): seq<Fault>
  {
    if 1 <= page <= |env.fetchFaults| then env.fetchFaults[page - 1] else []
  }

  /** What request number `k` (from 0) for `page` yields. */
  function AttemptOutcome(env: Env, page: nat, k: nat): Attempt
  {
    var faults := PageFaults(env, page);
    if k < |faults| then
      (if faults[k] == Transient then TransientError else UnexpectedError)
    else
      Delivered(BodyOf(env, page))
  }

  function DbFaultAt(env: Env, page: nat): DbFault
  {
    if 1 <= page <= |env.dbFaults| then env.dbFaults[page - 1] else Healthy
  }
}
