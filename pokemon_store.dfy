/** The database side of the router: the stored `pokemon` table, a pooled
    client with its transaction state, and the two operations that use a
    client, `insertPokemon` and `getAllPokemon`. */
module PokemonStore {

  import opened Optional
  import opened PokemonTable

  /** The statements a client sends, in order. */
  datatype Statement = Begin | Insert(row: Row) | Commit | Rollback | SelectAll

  /** A client's transaction. `Aborted` is the state PostgreSQL enters after
      a statement fails inside a transaction. PostgreSQL rejects further
      statements there and turns a COMMIT into a rollback; the model accepts
      only ROLLBACK, which is all `insertPokemon` sends after a failure. */
  datatype TxState = Idle | Active | Aborted | Committed | RolledBack

  /** How the step for one record of a batch fails. `BeforeSend`: building
      the INSERT's parameters throws (a record without `stats`, a stat entry
      without `stat`, or a record without `sprites`), so no statement is
      sent and the transaction stays active. `StatementFails`: the INSERT is
      sent and the database raises an error. */
  datatype StepFailure = BeforeSend | StatementFails

  /** How `insertPokemon` ends: it returns, or it re-raises the error of the
      insert for batch index `failedAt`. */
  datatype InsertOutcome = Done | InsertError(failedAt: nat)

  /** How `getAllPokemon` ends: the query's rows, or the re-raised error. */
  datatype QueryOutcome = Found(rows: seq<Row>) | QueryError

  /** The `pokemon` table, updated in place by the statements of clients. */
  class Table {
    var rows: Rows

    ghost predicate Valid()
      reads this
    {
      KeyedByName(rows)
    }

    constructor ()
      ensures Valid() && rows == map[]
    {
      rows := map[];
    }

    /** `SELECT * FROM pokemon ORDER BY strength_index DESC`: every row once,
        strongest first; rows of equal strength come in an order the table
        does not specify. */
    method SelectOrderedByStrength() returns (result: seq<Row>)
      requires Valid()
      ensures SortedByStrengthDesc(result)
      ensures |result| == |rows| && DistinctNames(result)
      ensures forall k | k in rows :: rows[k] in result
      ensures forall x | x in result :: x.name in rows && rows[x.name] == x
    {
      var pending := rows.Keys;
      ghost var done: set<string> := {};
      result := [];
      while pending != {}
        invariant pending !! done && pending + done == rows.Keys
        invariant |result| == |done|
        invariant SortedByStrengthDesc(result) && DistinctNames(result)
        invariant forall k | k in done :: rows[k] in result
        invariant forall x | x in result :: x.name in done && rows[x.name] == x
        decreases pending
      {
        var k :| k in pending;
        var row := rows[k];
        var p := InsertPosition(result, row);
        InsertAtPosition(result, row);
        result := result[..p] + [row] + result[p..];
        pending := pending - {k};
        done := done + {k};
      }
    }
  }

  /** A client checked out of the pool (`pool.connect()`), bound to the
      table it talks to. */
  class Client {
    const db: Table
    var tx: TxState
    /** The table as it was at BEGIN: what ROLLBACK restores. */
    var snapshot: Rows
    /** The statements sent so far. */
    var log: seq<Statement>
    var released: bool

    constructor (db: Table)
      ensures this.db == db && tx == Idle && log == [] && !released
    {
      this.db := db;
      tx := Idle;
      snapshot := map[];
      log := [];
      released := false;
    }

    /** `client.query('BEGIN')`. */
    method BeginTransaction()
      requires tx == Idle && !released && db.Valid()
      modifies this
      ensures tx == Active && snapshot == db.rows && !released
      ensures KeyedByName(snapshot)
      ensures log == old(log) + [Begin]
    {
      tx := Active;
      snapshot := db.rows;
      log := log + [Begin];
    }

    /** The parameterised `INSERT ... ON CONFLICT (name) DO NOTHING`; when
        `fails` holds, the statement raises an error, changes nothing and
        aborts the transaction. */
    method InsertOrIgnoreRow(row: Row, fails: bool) returns (ok: bool)
      requires tx == Active && !released && db.Valid()
      modifies this, db
      ensures ok == !fails
      ensures db.Valid() && snapshot == old(snapshot) && !released
      ensures log == old(log) + [Insert(row)]
      ensures ok ==> tx == Active && db.rows == InsertOrIgnore(old(db.rows), row)
      ensures !ok ==> tx == Aborted && db.rows == old(db.rows)
    {
      log := log + [Insert(row)];
      ok := !fails;
      if fails {
        tx := Aborted;
      } else {
        db.rows := InsertOrIgnore(db.rows, row);
      }
    }

    /** `client.query('COMMIT')`: only from a transaction with no failed
        statement. */
    method CommitTransaction()
      requires tx == Active && !released
      modifies this
      ensures tx == Committed && snapshot == old(snapshot) && !released
      ensures log == old(log) + [Commit]
    {
      tx := Committed;
      log := log + [Commit];
    }

    /** `client.query('ROLLBACK')`: the table is back to its state at BEGIN. */
    method RollbackTransaction()
      requires (tx == Active || tx == Aborted) && !released
      requires KeyedByName(snapshot)
      modifies this, db
      ensures tx == RolledBack && db.rows == old(snapshot) && !released
      ensures db.Valid()
      ensures log == old(log) + [Rollback]
    {
      tx := RolledBack;
      db.rows := snapshot;
      log := log + [Rollback];
    }

    /** The ordered SELECT of `getAllPokemon`; when `fails` holds it raises
        an error instead. Like every statement but ROLLBACK, it is not
        accepted in an aborted transaction. */
    method SelectAllByStrength(fails: bool) returns (result: Option<seq<Row>>)
      requires tx != Aborted && !released && db.Valid()
      modifies this
      ensures tx == old(tx) && snapshot == old(snapshot) && !released
      ensures log == old(log) + [SelectAll]
      ensures result.None? <==> fails
      ensures result.Some? ==> SortedByStrengthDesc(result.value) && DistinctNames(result.value)
      ensures result.Some? ==> |result.value| == |db.rows|
      ensures result.Some? ==> forall k | k in db.rows :: db.rows[k] in result.value
      ensures result.Some? ==> forall x | x in result.value :: x.name in db.rows && db.rows[x.name] == x
    {
      log := log + [SelectAll];
      if fails {
        result := None;
      } else {
        var rows := db.SelectOrderedByStrength();
        result := Some(rows);
      }
    }

    /** `client.release()`: a client goes back to the pool exactly once. */
    method Release()
      requires !released
      modifies this
      ensures released && tx == old(tx) && log == old(log)
    {
      released := true;
    }
  }

  /** The INSERT statements of a batch, in order. */
  function InsertStatements(batch: seq<Pokemon>): (r: seq<Statement>)
    ensures |r| == |batch|
    ensures forall i | 0 <= i < |batch| :: r[i] == Insert(ToRow(batch[i]))
  {
    if |batch| == 0 then []
    else InsertStatements(batch[..|batch| - 1]) + [Insert(ToRow(batch[|batch| - 1]))]
  }

  /** The statements sent for a batch whose step `failedAt` fails as `kind`:
      the INSERTs of the records before it, and its own INSERT only when it
      was sent. */
  function StatementsUpTo(batch: seq<Pokemon>, failedAt: nat, kind: StepFailure): (r: seq<Statement>)
    requires failedAt < |batch|
    ensures |r| == if kind == StatementFails then failedAt + 1 else failedAt
    ensures forall i | 0 <= i < |r| :: r[i] == Insert(ToRow(batch[i]))
  {
    if kind == StatementFails then InsertStatements(batch[..failedAt + 1])
    else InsertStatements(batch[..failedAt])
  }

  /** Extending the processed prefix by record `i` adds its INSERT to the
      table and to the statements. */
  lemma PrefixStep(batch: seq<Pokemon>, i: nat, t: Rows)
    requires i < |batch|
    ensures InsertAll(t, batch[..i + 1]) == InsertOrIgnore(InsertAll(t, batch[..i]), ToRow(batch[i]))
    ensures InsertStatements(batch[..i + 1]) == InsertStatements(batch[..i]) + [Insert(ToRow(batch[i]))]
  {
    assert batch[..i + 1][..i] == batch[..i];
  }

  /** The body of the `for` loop of `insertPokemon` for record `i`: build
      the INSERT's parameters (name, height, weight, the strength index and
      `sprites.front_default`) and send it. The step fails, in the way
      `fails[i]` says, when `i` is in `fails`. Before the step the table and
      the log hold the INSERTs of the records before `i` on top of `t0` and
      `log0`. */
  method InsertRecord(client: Client, batch: seq<Pokemon>, i: nat, fails: map<nat, StepFailure>,
                      ghost t0: Rows, ghost log0: seq<Statement>)
    returns (ok: bool)
    requires i < |batch|
    requires client.tx == Active && !client.released && client.db.Valid()
    requires client.db.rows == InsertAll(t0, batch[..i])
    requires client.log == log0 + InsertStatements(batch[..i])
    modifies client, client.db
    ensures ok <==> i !in fails
    ensures client.db.Valid() && client.snapshot == old(client.snapshot) && !client.released
    ensures i in fails ==>
      && client.tx == (if fails[i] == BeforeSend then Active else Aborted)
      && client.db.rows == InsertAll(t0, batch[..i])
      && client.log == log0 + StatementsUpTo(batch, i, fails[i])
    ensures i !in fails ==>
      && client.tx == Active
      && client.db.rows == InsertAll(t0, batch[..i + 1])
      && client.log == log0 + InsertStatements(batch[..i + 1])
  {
    if i in fails && fails[i] == BeforeSend {
      return false;
    }
    PrefixStep(batch, i, t0);
    ghost var sent := log0 + InsertStatements(batch[..i + 1]);
    assert sent == client.log + [Insert(ToRow(batch[i]))];
    ok := client.InsertOrIgnoreRow(ToRow(batch[i]), i in fails);
    assert client.log == sent;
  }

  /** The `for` loop of `insertPokemon`, inside the open transaction: each
      record's INSERT in order, stopping at the first failing step. On a
      failure the rows inserted before it are still in the table, to be
      undone by ROLLBACK. */
  method InsertEach(client: Client, batch: seq<Pokemon>, fails: map<nat, StepFailure>)
    returns (failedAt: Option<nat>)
    requires client.tx == Active && !client.released && client.db.Valid()
    modifies client, client.db
    ensures client.db.Valid() && client.snapshot == old(client.snapshot) && !client.released
    ensures failedAt.None? <==> forall i | i in fails :: i >= |batch|
    ensures failedAt.None? ==>
      && client.tx == Active
      && client.db.rows == InsertAll(old(client.db.rows), batch)
      && client.log == old(client.log) + InsertStatements(batch)
    ensures failedAt.Some? ==>
      && failedAt.value < |batch| && failedAt.value in fails
      && (forall i | i in fails :: i >= failedAt.value)
      && (client.tx == Active || client.tx == Aborted)
      && client.db.rows == InsertAll(old(client.db.rows), batch[..failedAt.value])
      && client.log == old(client.log) + StatementsUpTo(batch, failedAt.value, fails[failedAt.value])
  {
    ghost var t0 := client.db.rows;
    ghost var log0 := client.log;
    var i := 0;
    while i < |batch|
      invariant 0 <= i <= |batch|
      invariant client.tx == Active && !client.released && client.db.Valid()
      invariant client.snapshot == old(client.snapshot)
      invariant client.db.rows == InsertAll(t0, batch[..i])
      invariant forall j | j in fails :: j >= i
      invariant client.log == log0 + InsertStatements(batch[..i])
    {
      var ok := InsertRecord(client, batch, i, fails, t0, log0);
      if !ok {
        return Some(i);
      }
      i := i + 1;
    }
    assert batch[..i] == batch;
    return None;
  }

  /** `insertPokemon(pokemonData)`: one transaction that inserts the batch
      in order and commits, or on the first failing step (the indices in
      `fails`, with how each fails) rolls the table back to its state at
      BEGIN and re-raises. The client is released on both paths. */
  method InsertPokemon(db: Table, batch: seq<Pokemon>, fails: map<nat, StepFailure>)
    returns (outcome: InsertOutcome, client: Client)
    requires db.Valid()
    modifies db
    ensures db.Valid()
    ensures fresh(client) && client.db == db && client.released
    ensures outcome.Done? <==> forall i | i in fails :: i >= |batch|
    ensures outcome.Done? ==>
      && db.rows == InsertAll(old(db.rows), batch)
      && client.tx == Committed
      && client.log == [Begin] + InsertStatements(batch) + [Commit]
    ensures outcome.InsertError? ==>
      && outcome.failedAt < |batch| && outcome.failedAt in fails
      && (forall i | i in fails :: i >= outcome.failedAt)
      && db.rows == old(db.rows)
      && client.tx == RolledBack
      && client.log == [Begin] + StatementsUpTo(batch, outcome.failedAt, fails[outcome.failedAt]) + [Rollback]
  {
    client := new Client(db);
    client.BeginTransaction();
    assert client.log == [Begin] && client.snapshot == old(db.rows);
    var failedAt := InsertEach(client, batch, fails);
    if failedAt.None? {
      client.CommitTransaction();
      outcome := Done;
    } else {
      client.RollbackTransaction();
      outcome := InsertError(failedAt.value);
    }
    client.Release();
  }

  /** `getAllPokemon()`: every stored row, strongest first, or the query's
      error re-raised; the table is not changed and the client is released
      on both paths. */
  method GetAllPokemon(db: Table, fails: bool) returns (outcome: QueryOutcome, client: Client)
    requires db.Valid()
    ensures fresh(client) && client.db == db && client.released && client.log == [SelectAll]
    ensures outcome.QueryError? <==> fails
    ensures outcome.Found? ==>
      && SortedByStrengthDesc(outcome.rows) && DistinctNames(outcome.rows)
      && |outcome.rows| == |db.rows|
      && (forall k | k in db.rows :: db.rows[k] in outcome.rows)
      && (forall x | x in outcome.rows :: x.name in db.rows && db.rows[x.name] == x)
  {
    client := new Client(db);
    var result := client.SelectAllByStrength(fails);
    client.Release();
    outcome := if result.Some? then Found(result.value) else QueryError;
  }
}
