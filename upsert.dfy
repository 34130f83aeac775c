/**
 * Turning a page of listings into row tuples and writing them to the `inmuebles_domus`
 * table with `INSERT ... ON CONFLICT (codpro) DO UPDATE`, one transaction per page.
 *
 * The table is a map from `codpro` to the row's other columns. Each tuple's statement
 * either inserts a row or overwrites the existing one, and in both cases the row's
 * `sincronizado_wp` flag ends up false, so within a page the last tuple for a code wins.
 */
module Upsert {
  import opened Api

  type Code = string

  /** `json.dumps(inm)`, kept opaque: the serialised form of one listing. */
  datatype Payload = Serialized(record: Record)

  /** The parameters of one statement: (codpro, inmueble_data, estado_domus, fecha_actualizacion). */
  datatype Tuple = Tuple(codpro: Option<Code>, data: Payload, estado: Option<string>, fechaActualizacion: Option<string>)

  /** A stored row, without its key. */
  datatype Row = Row(data: Payload, estado: Option<string>, fechaActualizacion: Option<string>, sincronizadoWp: bool)

  function TupleOf(r: Record): Tuple
  {
    Tuple(Get(r, "codpro"), Serialized(r), Get(r, "estado"), Get(r, "fecha_actualizacion"))
  }

  /** The tuples of a page, one per listing, in listing order. */
  function Tuples(rs: seq<Record>): seq<Tuple>
  {
    seq(|rs|, i requires 0 <= i < |rs| => TupleOf(rs[i]))
  }

  /**
   * The loop that builds `inmuebles_a_insertar`: one tuple per listing, in order, holding
   * the listing's code, its serialised form, its status and its update date, each of the
   * three looked-up fields null when the listing lacks it.
   */
  method BuildTuples(inmuebles: seq<Record>) returns (tuples: seq<Tuple>)
    ensures tuples == Tuples(inmuebles)
    ensures |tuples| == |inmuebles|
    ensures forall i :: 0 <= i < |inmuebles| ==>
      && tuples[i].codpro == Get(inmuebles[i], "codpro")
      && tuples[i].data.record == inmuebles[i]
      && tuples[i].estado == Get(inmuebles[i], "estado")
      && tuples[i].fechaActualizacion == Get(inmuebles[i], "fecha_actualizacion")
  {
    tuples := [];
    for i := 0 to |inmuebles|
      invariant tuples == Tuples(inmuebles[..i])
    {
      var inm := inmuebles[i];
      var codpro := Get(inm, "codpro");
      var inmJson := Serialized(inm);
      var fechaAct := Get(inm, "fecha_actualizacion");
      tuples := tuples + [Tuple(codpro, inmJson, Get(inm, "estado"), fechaAct)];
    }
    assert inmuebles[..|inmuebles|] == inmuebles;
  }

  /** The codes a batch of tuples writes. */
  function Codes(ts: seq<Tuple>): set<Code>
  {
    set i | 0 <= i < |ts| && ts[i].codpro.Some? :: ts[i].codpro.value
  }

  /** What the statement leaves in the row, whether it inserted or updated it. */
  function Written(t: Tuple): Row
  {
    Row(t.data, t.estado, t.fechaActualizacion, false)
  }

  /**
   * One `INSERT ... ON CONFLICT (codpro) DO UPDATE` statement. A tuple without a code
   * writes nothing: its statement fails (see StatementsSucceed), so a batch holding one
   * is never committed.
   */
  function Upsert(table: map<Code, Row>, t: Tuple): (r: map<Code, Row>)
    ensures t.codpro.Some? ==> t.codpro.value in r && !r[t.codpro.value].sincronizadoWp
    ensures table.Keys <= r.Keys
  {
    if t.codpro.Some? then table[t.codpro.value := Written(t)] else table
  }

  /** `executemany`: the statements for a batch of tuples, in order. */
  function UpsertAll(table: map<Code, Row>, ts: seq<Tuple>): (r: map<Code, Row>)
    ensures table.Keys <= r.Keys
    ensures forall c :: c in r && (c !in table || r[c] != table[c]) ==> !r[c].sincronizadoWp
    decreases |ts|
  {
    if ts == [] then table else Upsert(UpsertAll(table, ts[..|ts| - 1]), ts[|ts| - 1])
  }

  /** A batch writes the rows it would write into an empty table over the old contents. */
  lemma {:induction false} UpsertAllOverlays(table: map<Code, Row>, ts: seq<Tuple>)
    ensures UpsertAll(table, ts) == table + UpsertAll(map[], ts)
    decreases |ts|
  {
    if ts != [] {
      var init := ts[..|ts| - 1];
      var t := ts[|ts| - 1];
      UpsertAllOverlays(table, init);
      var written := UpsertAll(map[], init);
      if t.codpro.Some? {
        assert (table + written)[t.codpro.value := Written(t)] == table + written[t.codpro.value := Written(t)];
      }
    }
  }

  /** The rows a batch touches are exactly those of its codes. */
  lemma {:induction false} UpsertAllKeys(table: map<Code, Row>, ts: seq<Tuple>)
    ensures UpsertAll(table, ts).Keys == table.Keys + Codes(ts)
    decreases |ts|
  {
    if ts != [] {
      var init := ts[..|ts| - 1];
      UpsertAllKeys(table, init);
      var t := ts[|ts| - 1];
      var last := if t.codpro.Some? then {t.codpro.value} else {};
      assert Codes(ts) == Codes(init) + last by {
        forall c | c in Codes(ts) ensures c in Codes(init) + last {
          var i :| 0 <= i < |ts| && ts[i].codpro.Some? && ts[i].codpro.value == c;
          if i < |ts| - 1 { assert init[i] == ts[i]; }
        }
        forall c | c in Codes(init) ensures c in Codes(ts) {
          var i :| 0 <= i < |init| && init[i].codpro.Some? && init[i].codpro.value == c;
          assert ts[i] == init[i];
        }
      }
    }
  }

  /**
   * Last write wins: a code ends up holding the values of the last tuple that carries it,
   * with `sincronizado_wp` false.
   */
  lemma {:induction false} UpsertLastWins(table: map<Code, Row>, ts: seq<Tuple>, j: nat)
    requires j < |ts| && ts[j].codpro.Some?
    requires forall k :: j < k < |ts| ==> ts[k].codpro != ts[j].codpro
    ensures ts[j].codpro.value in UpsertAll(table, ts)
    ensures UpsertAll(table, ts)[ts[j].codpro.value] == Written(ts[j])
    ensures !UpsertAll(table, ts)[ts[j].codpro.value].sincronizadoWp
    decreases |ts|
  {
    if j < |ts| - 1 {
      var init := ts[..|ts| - 1];
      UpsertLastWins(table, init, j);
    }
  }

  /** Rows whose code the batch does not carry are left as they were, and no row is removed. */
  lemma {:induction false} UpsertOthersUnchanged(table: map<Code, Row>, ts: seq<Tuple>, c: Code)
    requires forall k :: 0 <= k < |ts| ==> ts[k].codpro != Some(c)
    ensures c in UpsertAll(table, ts) <==> c in table
    ensures c in table ==> UpsertAll(table, ts)[c] == table[c]
    decreases |ts|
  {
    if ts != [] {
      UpsertOthersUnchanged(table, ts[..|ts| - 1], c);
    }
  }

  /** Writing the same page twice leaves the table as writing it once. */
  lemma UpsertIdempotent(table: map<Code, Row>, ts: seq<Tuple>)
    ensures UpsertAll(UpsertAll(table, ts), ts) == UpsertAll(table, ts)
  {
    var written := UpsertAll(map[], ts);
    UpsertAllOverlays(table, ts);
    UpsertAllOverlays(table + written, ts);
    assert (table + written) + written == table + written;
  }

  /** Every statement of the batch can run: each tuple has a code and none hits the fault. */
  predicate StatementsSucceed(ts: seq<Tuple>, fault: DbFault)
    decreases |ts|
  {
    ts == [] ||
    (StatementsSucceed(ts[..|ts| - 1], fault) && ts[|ts| - 1].codpro.Some? && fault != StatementFails(|ts| - 1))
  }

  /** The batch's statements all run exactly when every tuple has a code and none is the one the fault names. */
  lemma {:induction false} StatementsSucceedIff(ts: seq<Tuple>, fault: DbFault)
    ensures StatementsSucceed(ts, fault) <==>
      forall i :: 0 <= i < |ts| ==> ts[i].codpro.Some? && fault != StatementFails(i)
    decreases |ts|
  {
    if ts != [] {
      var init := ts[..|ts| - 1];
      StatementsSucceedIff(init, fault);
      assert forall i :: 0 <= i < |init| ==> init[i] == ts[i];
    }
  }

  /** Writing the batch commits: connecting, every statement and the commit succeed. */
  predicate WriteSucceeds(ts: seq<Tuple>, fault: DbFault)
  {
    fault != ConnectFails && fault != CommitFails && StatementsSucceed(ts, fault)
  }

  /**
   * The `inmuebles_domus` table as the handler's database connections see it: what is
   * committed, and what the open transaction has written on top of it.
   */
  class Table {
    var rows: map<Code, Row>
    var pending: map<Code, Row>

    constructor (initial: map<Code, Row>)
      ensures rows == initial && pending == initial
    {
      rows := initial;
      pending := initial;
    }

    /** `psycopg2.connect`: a new transaction starts from the committed rows. */
    method Begin()
      modifies this`pending
      ensures pending == rows
    {
      pending := rows;
    }

    /**
     * `cursor.executemany`: runs the statements in order inside the transaction and stops
     * at the first one that fails (a null code, or the statement the fault names).
     */
    method ExecuteMany(ts: seq<Tuple>, fault: DbFault) returns (ok: bool)
      modifies this`pending
      ensures ok == StatementsSucceed(ts, fault)
      ensures ok ==> pending == UpsertAll(old(pending), ts)
    {
      var i := 0;
      while i < |ts|
        invariant 0 <= i <= |ts|
        invariant StatementsSucceed(ts[..i], fault)
        invariant pending == UpsertAll(old(pending), ts[..i])
      {
        if ts[i].codpro.None? || fault == StatementFails(i) {
          StatementsSucceedIff(ts, fault);
          return false;
        }
        assert ts[..i + 1][..i] == ts[..i];
        pending := Upsert(pending, ts[i]);
        i := i + 1;
      }
      assert ts[..i] == ts;
      return true;
    }

    /** `conn.commit()`: the transaction's rows become the committed ones, unless it fails. */
    method Commit(fails: bool) returns (ok: bool)
      modifies this`rows
      ensures ok == !fails
      ensures rows == if ok then pending else old(rows)
    {
      if fails {
        return false;
      }
      rows := pending;
      return true;
    }

    /** `conn.rollback()`: whatever the transaction wrote is discarded. */
    method Rollback()
      modifies this`pending
      ensures pending == rows
    {
      pending := rows;
    }
  }

  /**
   * The write of one page: connect, run the statements, commit; on any failure roll back,
   * so the committed rows are either the page written over the old ones or unchanged.
   */
  method SavePage(db: Table, tuples: seq<Tuple>, fault: DbFault) returns (ok: bool)
    modifies db
    ensures ok == WriteSucceeds(tuples, fault)
    ensures db.rows == if ok then UpsertAll(old(db.rows), tuples) else old(db.rows)
  {
    ok := fault != ConnectFails;
    if ok {
      db.Begin();
      ok := db.ExecuteMany(tuples, fault);
    }
    if ok {
      ok := db.Commit(fault == CommitFails);
    }
    if !ok {
      db.Rollback();
    }
  }
}
