/** save_backups.php: the write endpoint. It validates the batch, converts each complete
    entry's date to the storage form, inserts it inside one transaction, counts the
    successful inserts, and commits; any exception rolls the whole batch back. */
module SaveBackups {
  import opened Common
  import opened DateText

  /** One element of the `items` array. A field that is absent or null (`isset` false) is
      None; an element that is not an object has every field None. */
  datatype Entry = Entry(categoria: Option<string>, item: Option<string>, fecha: Option<string>)

  /** The decoded request body: no `items` field, an `items` that is not an array, or
      the array of entries. */
  datatype Payload = NoItems | NotArray | Items(entries: seq<Entry>)

  /** A row of the copias_seguridad table. */
  datatype Row = Row(categoria: string, item: string, fechaCopia: string)

  /** What one `$stmt->execute()` does: insert the row, return false, or throw. */
  datatype Exec = Inserted | Refused | Raised(message: string)

  /** The database's behaviour, which the model does not see: whether connecting and
      preparing the statement throws, what the n-th execute does, whether commit throws. */
  datatype Backend = Backend(connectError: Option<string>, execute: nat -> Exec, commitError: Option<string>)

  /** The JSON response and its HTTP status. */
  datatype Response = Response(success: bool, status: nat, message: string, count: Option<nat>)

  const Invalid := "Datos inválidos"

  function Success(count: nat): (r: Response)
    ensures r.success && r.status == 200 && r.count == Some(count)
  {
    Response(true, 200, "Copias guardadas exitosamente", Some(count))
  }

  function Failure(message: string): (r: Response)
    ensures !r.success && r.status == 500 && r.count.None?
    ensures r.message == "Error al guardar las copias: " + message
  {
    Response(false, 500, "Error al guardar las copias: " + message, None)
  }

  /** The `isset` test on the three fields. */
  predicate Complete(e: Entry)
  {
    e.categoria.Some? && e.item.Some? && e.fecha.Some?
  }

  /** The row bound for a complete entry: categoria and item as given, with no catalog
      check, and the date in the storage form. */
  function RowOf(e: Entry): (r: Row)
    requires Complete(e)
    ensures r.categoria == e.categoria.value && r.item == e.item.value
  {
    Row(e.categoria.value, e.item.value, ToStorage(e.fecha.value))
  }

  /** A display-form date is stored as a DATETIME text that reads back as the same date. */
  lemma RowOfReadsBack(e: Entry)
    requires Complete(e) && IsDisplayStamp(e.fecha.value)
    ensures IsStorageStamp(RowOf(e).fechaCopia) && FromStorage(RowOf(e).fechaCopia) == e.fecha.value
  {
    DisplayRoundTrip(e.fecha.value);
  }

  /** The rows of the complete entries, in order: what a batch inserts when every
      execute succeeds. */
  function Wanted(entries: seq<Entry>): (w: seq<Row>)
    ensures |w| <= |entries|
  {
    if entries == [] then []
    else if Complete(entries[0]) then [RowOf(entries[0])] + Wanted(entries[1..])
    else Wanted(entries[1..])
  }

  /** Every wanted row is the row of a complete entry. */
  lemma {:induction false} WantedFrom(entries: seq<Entry>, r: Row)
    requires r in Wanted(entries)
    ensures exists e :: e in entries && Complete(e) && r == RowOf(e)
  {
    if !(Complete(entries[0]) && r == RowOf(entries[0])) {
      WantedFrom(entries[1..], r);
      var e :| e in entries[1..] && Complete(e) && r == RowOf(e);
      assert e in entries;
    }
  }

  /** Every complete entry has its row among the wanted rows. */
  lemma {:induction false} WantedCovers(entries: seq<Entry>, e: Entry)
    requires e in entries && Complete(e)
    ensures RowOf(e) in Wanted(entries)
  {
    if entries[0] != e {
      assert e in entries[1..];
      WantedCovers(entries[1..], e);
    }
  }

  /** How the loop over a batch ends: with the rows staged for commit, or aborted by
      the message of the exception an execute threw. */
  datatype Outcome = Staged(rows: seq<Row>) | Aborted(message: string)

  /** The loop from save_backups.php: incomplete entries are skipped without an execute;
      each complete entry is the `attempt`-th execute; an execute that returns false
      stages nothing and is not counted; one that throws ends the batch. */
  function Batch(entries: seq<Entry>, execute: nat -> Exec, attempt: nat): (o: Outcome)
    ensures o.Staged? ==> |o.rows| <= |Wanted(entries)|
    ensures o.Staged? ==> forall r :: r in o.rows ==> r in Wanted(entries)
    decreases |entries|
  {
    if entries == [] then Staged([])
    else
      var rest := Batch(entries[1..], execute, if Complete(entries[0]) then attempt + 1 else attempt);
      if !Complete(entries[0]) then rest
      else match execute(attempt)
        case Raised(m) => Aborted(m)
        case Refused => rest
        case Inserted => if rest.Aborted? then rest else Staged([RowOf(entries[0])] + rest.rows)
  }

  /** The rows staged before the remaining entries, followed by what those produce. */
  function After(staged: seq<Row>, o: Outcome): Outcome
  {
    match o
    case Staged(rows) => Staged(staged + rows)
    case Aborted(m) => Aborted(m)
  }

  /** With every execute succeeding, a batch stages exactly the wanted rows: the
      incomplete entries are skipped and the rest are inserted in order. */
  lemma {:induction false} AllExecuted(entries: seq<Entry>, execute: nat -> Exec, attempt: nat)
    requires forall k :: execute(k) == Inserted
    ensures Batch(entries, execute, attempt) == Staged(Wanted(entries))
    decreases |entries|
  {
    if entries != [] {
      AllExecuted(entries[1..], execute, if Complete(entries[0]) then attempt + 1 else attempt);
    }
  }

  /** A batch aborts exactly when one of its executes throws: the complete entries are
      the executes numbered `attempt` onwards, one each. */
  lemma {:induction false} AbortsOnRaise(entries: seq<Entry>, execute: nat -> Exec, attempt: nat)
    ensures Batch(entries, execute, attempt).Aborted?
        <==> exists k :: attempt <= k < attempt + |Wanted(entries)| && execute(k).Raised?
    decreases |entries|
  {
    if entries != [] {
      var next := if Complete(entries[0]) then attempt + 1 else attempt;
      AbortsOnRaise(entries[1..], execute, next);
      if Complete(entries[0]) {
        var n := |Wanted(entries[1..])|;
        assert |Wanted(entries)| == n + 1;
        if exists k :: attempt <= k < attempt + n + 1 && execute(k).Raised? {
          var k :| attempt <= k < attempt + n + 1 && execute(k).Raised?;
          assert k == attempt || (next <= k < next + n && execute(k).Raised?);
        }
      }
    }
  }

  /** How many of the executes numbered `from` up to `from + n` insert. */
  function Inserts(execute: nat -> Exec, from: nat, n: nat): (count: nat)
    ensures count <= n
    decreases n
  {
    if n == 0 then 0 else (if execute(from) == Inserted then 1 else 0) + Inserts(execute, from + 1, n - 1)
  }

  /** insertCount is the number of executes that returned true: a batch that is not
      aborted stages one row per inserting execute among its complete entries. */
  lemma {:induction false} CountIsInserts(entries: seq<Entry>, execute: nat -> Exec, attempt: nat)
    requires Batch(entries, execute, attempt).Staged?
    ensures |Batch(entries, execute, attempt).rows| == Inserts(execute, attempt, |Wanted(entries)|)
    decreases |entries|
  {
    if entries != [] {
      var next := if Complete(entries[0]) then attempt + 1 else attempt;
      CountIsInserts(entries[1..], execute, next);
    }
  }

  /** The loop's step over an incomplete entry: no execute, nothing staged. */
  lemma BatchSkips(entries: seq<Entry>, execute: nat -> Exec, k: nat, attempt: nat)
    requires k < |entries| && !Complete(entries[k])
    ensures Batch(entries[k..], execute, attempt) == Batch(entries[k + 1..], execute, attempt)
  {
    assert entries[k..][1..] == entries[k + 1..];
  }

  /** The loop's step over a complete entry whose execute returns false: nothing staged. */
  lemma BatchRefuses(entries: seq<Entry>, execute: nat -> Exec, k: nat, attempt: nat)
    requires k < |entries| && Complete(entries[k]) && execute(attempt) == Refused
    ensures Batch(entries[k..], execute, attempt) == Batch(entries[k + 1..], execute, attempt + 1)
  {
    assert entries[k..][0] == entries[k] && entries[k..][1..] == entries[k + 1..];
  }

  /** The loop's step over a complete entry whose execute inserts: its row is staged. */
  lemma BatchInserts(entries: seq<Entry>, execute: nat -> Exec, k: nat, attempt: nat, staged: seq<Row>)
    requires k < |entries| && Complete(entries[k]) && execute(attempt) == Inserted
    ensures After(staged, Batch(entries[k..], execute, attempt))
         == After(staged + [RowOf(entries[k])], Batch(entries[k + 1..], execute, attempt + 1))
  {
    assert entries[k..][0] == entries[k] && entries[k..][1..] == entries[k + 1..];
    var rest := Batch(entries[k + 1..], execute, attempt + 1);
    if rest.Staged? {
      assert staged + ([RowOf(entries[k])] + rest.rows) == staged + [RowOf(entries[k])] + rest.rows;
    }
  }

  /** The loop's step over a complete entry whose execute returns. */
  lemma BatchExecutes(entries: seq<Entry>, execute: nat -> Exec, k: nat, attempt: nat, staged: seq<Row>)
    requires k < |entries| && Complete(entries[k]) && !execute(attempt).Raised?
    ensures After(staged, Batch(entries[k..], execute, attempt))
         == After(staged + (if execute(attempt) == Inserted then [RowOf(entries[k])] else []),
                  Batch(entries[k + 1..], execute, attempt + 1))
  {
    if execute(attempt) == Inserted {
      BatchInserts(entries, execute, k, attempt, staged);
    } else {
      BatchRefuses(entries, execute, k, attempt);
      assert staged + [] == staged;
    }
  }

  /** The loop's step over a complete entry whose execute throws. */
  lemma BatchRaises(entries: seq<Entry>, execute: nat -> Exec, k: nat, attempt: nat)
    requires k < |entries| && Complete(entries[k]) && execute(attempt).Raised?
    ensures Batch(entries[k..], execute, attempt) == Aborted(execute(attempt).message)
  {
    assert entries[k..][0] == entries[k];
  }

  /** The whole request: validation, connection, the batch, and the commit. */
  function Expected(payload: Payload, db: Backend): (o: Outcome)
    ensures !payload.Items? ==> o == Aborted(Invalid)
    ensures o.Staged? ==> payload.Items? && db.connectError.None? && db.commitError.None?
    ensures o.Staged? ==> |o.rows| <= |Wanted(payload.entries)|
  {
    if !payload.Items? then Aborted(Invalid)
    else if db.connectError.Some? then Aborted(db.connectError.value)
    else match Batch(payload.entries, db.execute, 0)
      case Aborted(m) => Aborted(m)
      case Staged(rows) => if db.commitError.Some? then Aborted(db.commitError.value) else Staged(rows)
  }

  /** The PDO connection's view of copias_seguridad: the committed rows, and the rows
      inserted in the open transaction, which only a commit makes permanent. */
  class Connection {
    var rows: seq<Row>
    var staged: seq<Row>
    var open: bool

    ghost predicate Valid()
      reads this
    {
      !open ==> staged == []
    }

    constructor (rows: seq<Row>)
      ensures Valid() && !open
      ensures this.rows == rows && staged == []
    {
      this.rows := rows;
      staged := [];
      open := false;
    }

    method BeginTransaction()
      requires Valid() && !open
      modifies this
      ensures Valid() && open
      ensures rows == old(rows) && staged == []
    {
      open := true;
    }

    /** `$stmt->execute()` with the bound row; `result` is what the database does. */
    method Execute(row: Row, result: Exec) returns (ok: bool)
      requires Valid() && open && !result.Raised?
      modifies this
      ensures Valid() && open && rows == old(rows)
      ensures ok <==> result == Inserted
      ensures staged == old(staged) + (if ok then [row] else [])
    {
      ok := result == Inserted;
      if ok {
        staged := staged + [row];
      }
    }

    /** `$conn->commit()`: the staged rows become permanent unless the commit throws,
        in which case the transaction stays open. */
    method Commit(error: Option<string>)
      requires Valid() && open
      modifies this
      ensures Valid()
      ensures error.None? ==> !open && rows == old(rows) + old(staged)
      ensures error.Some? ==> open && rows == old(rows) && staged == old(staged)
    {
      if error.None? {
        rows := rows + staged;
        staged := [];
        open := false;
      }
    }

    /** `$conn->rollBack()`: the staged rows are discarded. */
    method RollBack()
      requires Valid() && open
      modifies this
      ensures Valid() && !open
      ensures rows == old(rows)
    {
      staged := [];
      open := false;
    }
  }

  /** The endpoint. The table changes only on success, and then by the staged rows, in
      order, with `count` their number; on failure nothing of the batch is kept. */
  method Save(payload: Payload, db: Backend, conn: Connection) returns (response: Response)
    requires conn.Valid() && !conn.open
    modifies conn
    ensures conn.Valid() && !conn.open
    ensures match Expected(payload, db)
      case Aborted(m) => response == Failure(m) && conn.rows == old(conn.rows)
      case Staged(rows) => response == Success(|rows|) && conn.rows == old(conn.rows) + rows
  {
    if !payload.Items? {
      return Failure(Invalid);
    }
    if db.connectError.Some? {
      return Failure(db.connectError.value);
    }
    var entries := payload.entries;
    conn.BeginTransaction();
    var insertCount := 0;
    var attempt := 0;
    var k := 0;
    while k < |entries|
      invariant k <= |entries|
      invariant conn.Valid() && conn.open && conn.rows == old(conn.rows)
      invariant insertCount == |conn.staged|
      invariant Batch(entries, db.execute, 0) == After(conn.staged, Batch(entries[k..], db.execute, attempt))
    {
      var backup := entries[k];
      if Complete(backup) {
        var row := RowOf(backup);
        var result := db.execute(attempt);
        if result.Raised? {
          BatchRaises(entries, db.execute, k, attempt);
          conn.RollBack();
          return Failure(result.message);
        }
        BatchExecutes(entries, db.execute, k, attempt, conn.staged);
        var ok := conn.Execute(row, result);
        if ok {
          insertCount := insertCount + 1;
        }
        attempt := attempt + 1;
      } else {
        BatchSkips(entries, db.execute, k, attempt);
      }
      k := k + 1;
    }
    assert entries[k..] == [];
    assert Batch(entries, db.execute, 0) == Staged(conn.staged);
    if db.commitError.Some? {
      conn.RollBack();
      return Failure(db.commitError.value);
    }
    conn.Commit(None);
    response := Success(insertCount);
  }
}
