/** The record store: the `food_consumption` table of active rows, keyed by
    id, and the `deleted_records` log of tombstones that makes deletion
    undoable. Timestamps are readings of a logical clock that every insert,
    update and delete advances, so "the latest tombstone" is always well
    defined; an undo keeps the clock, as the restored row keeps its own
    timestamps. */
module DbManager {
  import opened Wrappers
  import opened Dicts
  import opened Frames
  import SchemaRules

  const Food := SchemaRules.FoodConsumption
  const DeletedRecords := "deleted_records"

  /** The data columns of `food_consumption`, besides `id`, `version` and the timestamps. */
  const DataColumns := ["commodity", "age_group"] + SchemaRules.ConsumptionFields + ["notes"]

  /** The columns declared `NOT NULL`. */
  const NotNullColumns := ["commodity", "age_group"]

  datatype Row = Row(id: int, data: map<string, Value>, version: int, createdAt: nat, updatedAt: nat)

  /** A deleted row: its id, its table and a full snapshot of it. */
  datatype Tombstone = Tombstone(originalId: int, tableName: string, snapshot: Row, deletedAt: nat)

  datatype Db = Db(rows: map<int, Row>, log: seq<Tombstone>, clock: nat)

  datatype StoreError =
    | NoSuchTable(table: string)           // the table does not exist
    | NoSuchColumn(column: string)         // a column the table does not have
    | EmptyColumnList                      // a statement naming no column is not valid SQL
    | NotNullViolation(column: string)
    | DuplicateKey(id: int)
    | RecordNotFound(id: int)              // no current version to read
    | MissingCsvColumn(column: string)     // "Required column '...' missing from CSV"

  /** A store operation: the new state and what the call returns or raises. */
  datatype Step<T> = Step(db: Db, out: Result<T, StoreError>)

  datatype Listing = ActiveRows(rows: seq<Row>) | DeletedRows(tombstones: seq<Tombstone>)

  datatype VersionInfo = VersionInfo(version: int, updatedAt: nat)

  /* ---------------------------------------------------------------------- */
  /* Store invariant                                                        */
  /* ---------------------------------------------------------------------- */

  ghost predicate RowOk(r: Row)
  {
    && (forall c :: c in r.data <==> c in DataColumns)
    && (forall c :: c in NotNullColumns ==> c in r.data && r.data[c] != Missing)
    && r.version >= 1
    && r.createdAt <= r.updatedAt
  }

  /** Every row is stored under its own id, meets the table's constraints
      and was written before now. */
  ghost predicate RowsOk(rows: map<int, Row>, clock: nat)
  {
    forall id :: id in rows ==> rows[id].id == id && RowOk(rows[id]) && rows[id].updatedAt < clock
  }

  /** A tombstone belongs to `food_consumption` and holds a snapshot of the
      row it names, taken before now. */
  ghost predicate TombstoneOk(t: Tombstone, clock: nat)
  {
    && t.tableName == Food
    && t.snapshot.id == t.originalId
    && RowOk(t.snapshot)
    && t.snapshot.updatedAt < clock
    && t.deletedAt < clock
  }

  /** The log holds good tombstones in the order of deletion. */
  ghost predicate LogOk(log: seq<Tombstone>, clock: nat)
  {
    && (forall i :: 0 <= i < |log| ==> TombstoneOk(log[i], clock))
    && (forall i, j :: 0 <= i < j < |log| ==> log[i].deletedAt < log[j].deletedAt)
  }

  ghost predicate Consistent(db: Db)
  {
    RowsOk(db.rows, db.clock) && LogOk(db.log, db.clock)
  }

  /** Taking one tombstone out of a good log leaves a good log. */
  lemma LogRemove(log: seq<Tombstone>, i: nat, clock: nat)
    requires LogOk(log, clock) && i < |log|
    ensures LogOk(log[..i] + log[i + 1..], clock)
  {
    var log' := log[..i] + log[i + 1..];
    forall j | 0 <= j < |log'| ensures log'[j] == log[if j < i then j else j + 1] {
    }
  }

  /* ---------------------------------------------------------------------- */
  /* Statements                                                             */
  /* ---------------------------------------------------------------------- */

  /** The first key of `data` that is not a data column. */
  function UnknownColumn(data: Dict<Value>): (r: Option<string>)
    ensures r.None? <==> forall k :: k in Keys(data) ==> k in DataColumns
    ensures r.Some? ==> r.value in Keys(data) && r.value !in DataColumns
  {
    if data == [] then None
    else
      assert Keys(data) == [data[0].0] + Keys(data[1..]);
      if data[0].0 !in DataColumns then Some(data[0].0) else UnknownColumn(data[1..])
  }

  /** The row an insert of `data` stores: the given columns hold the given
      values and the others `NULL`. */
  function Fill(data: Dict<Value>): (m: map<string, Value>)
    ensures forall c :: c in m <==> c in DataColumns
    ensures forall c :: c in m ==> m[c] == (if c in Keys(data) then Lookup(data, c).value else Missing)
  {
    map c | c in DataColumns :: if Lookup(data, c).Some? then Lookup(data, c).value else Missing
  }

  /** Writing the given columns over a stored row's data. */
  function Assign(m: map<string, Value>, data: Dict<Value>): (r: map<string, Value>)
    ensures r.Keys == m.Keys
    ensures forall c :: c in r ==> r[c] == (if c in Keys(data) then Lookup(data, c).value else m[c])
  {
    map c | c in m :: if Lookup(data, c).Some? then Lookup(data, c).value else m[c]
  }

  /** The stored row is null in no `NOT NULL` column exactly when `data`
      gives each of them a value other than `NULL`. */
  lemma FilledNotNull(data: Dict<Value>)
    ensures "commodity" in Fill(data) && "age_group" in Fill(data)
    ensures (forall c :: c in NotNullColumns ==> c in Keys(data) && Lookup(data, c).value != Missing)
            <==> Fill(data)["commodity"] != Missing && Fill(data)["age_group"] != Missing
  {
    var m := Fill(data);
    assert "commodity" in DataColumns && "age_group" in DataColumns;
    assert forall c :: c in NotNullColumns <==> c == "commodity" || c == "age_group";
  }

  /** Why `INSERT INTO food_consumption (<keys of data>) VALUES (...)` fails, if it does. */
  function InsertError(data: Dict<Value>): (e: Option<StoreError>)
    ensures e.Some? ==> e.value.EmptyColumnList? || e.value.NoSuchColumn? || e.value.NotNullViolation?
    ensures e.None? <==>
              && data != []
              && (forall k :: k in Keys(data) ==> k in DataColumns)
              && (forall c :: c in NotNullColumns ==> c in Keys(data) && Lookup(data, c).value != Missing)
  {
    FilledNotNull(data);
    if data == [] then Some(EmptyColumnList)
    else if UnknownColumn(data).Some? then Some(NoSuchColumn(UnknownColumn(data).value))
    else if Fill(data)["commodity"] == Missing then Some(NotNullViolation("commodity"))
    else if Fill(data)["age_group"] == Missing then Some(NotNullViolation("age_group"))
    else None
  }

  /** Why `UPDATE food_consumption SET <keys of data>, version = ... WHERE id = ...` fails, if it does. */
  function UpdateError(data: Dict<Value>): (e: Option<StoreError>)
    ensures e.None? <==>
              && data != []
              && (forall k :: k in Keys(data) ==> k in DataColumns)
              && (forall c :: c in NotNullColumns && c in Keys(data) ==> Lookup(data, c).value != Missing)
  {
    if data == [] then Some(EmptyColumnList)
    else if UnknownColumn(data).Some? then Some(NoSuchColumn(UnknownColumn(data).value))
    else if Lookup(data, "commodity") == Some(Missing) then Some(NotNullViolation("commodity"))
    else if Lookup(data, "age_group") == Some(Missing) then Some(NotNullViolation("age_group"))
    else None
  }

  function Inserted(db: Db, data: Dict<Value>, id: int): Db
  {
    Db(db.rows[id := Row(id, Fill(data), 1, db.clock, db.clock)], db.log, db.clock + 1)
  }

  /** `add_record`, with `freshId` the id the database assigns. */
  function AddStep(db: Db, table: string, data: Dict<Value>, freshId: int): Step<Option<int>>
  {
    if table != Food then Step(db, Success(None))
    else if InsertError(data).Some? then Step(db, Failure(InsertError(data).value))
    else Step(Inserted(db, data, freshId), Success(Some(freshId)))
  }

  /** `get_record_by_id`. */
  function Get(db: Db, table: string, id: int): Result<Option<Row>, StoreError>
  {
    if table == Food then Success(if id in db.rows then Some(db.rows[id]) else None)
    else if table == DeletedRecords then Failure(NoSuchColumn("id"))
    else Failure(NoSuchTable(table))
  }

  /** The row `SET <columns>, version = version + 1, updated_at = now` leaves. */
  function Updated(r: Row, data: Dict<Value>, now: nat): Row
  {
    r.(data := Assign(r.data, data), version := r.version + 1, updatedAt := now)
  }

  /** `update_record`: the current version is read first, then the supplied
      columns, the version and `updated_at` are written in one statement. */
  function UpdateStep(db: Db, table: string, id: int, data: Dict<Value>): Step<()>
  {
    if table != Food then Step(db, Success(()))
    else if id !in db.rows then Step(db, Failure(RecordNotFound(id)))
    else if UpdateError(data).Some? then Step(db, Failure(UpdateError(data).value))
    else Step(Db(db.rows[id := Updated(db.rows[id], data, db.clock)], db.log, db.clock + 1), Success(()))
  }

  /** `delete_record`: a found row moves to the log as a tombstone. */
  function DeleteStep(db: Db, table: string, id: int): Step<bool>
  {
    match Get(db, table, id)
    case Failure(e) => Step(db, Failure(e))
    case Success(None) => Step(db, Success(false))
    case Success(Some(row)) =>
      Step(Db(db.rows - {id}, db.log + [Tombstone(id, table, row, db.clock)], db.clock + 1), Success(true))
  }

  predicate Matches(t: Tombstone, id: int, table: string)
  {
    t.originalId == id && t.tableName == table
  }

  /** The position of the last tombstone for (`id`, `table`). */
  function LastMatch(log: seq<Tombstone>, id: int, table: string): (r: Option<nat>)
    ensures r.Some? ==> r.value < |log| && Matches(log[r.value], id, table)
    ensures r.Some? ==> forall j :: r.value < j < |log| ==> !Matches(log[j], id, table)
    ensures r.None? ==> forall j :: 0 <= j < |log| ==> !Matches(log[j], id, table)
  {
    if log == [] then None
    else if Matches(log[|log| - 1], id, table) then Some(|log| - 1)
    else LastMatch(log[..|log| - 1], id, table)
  }

  /** `undo_delete`: the latest tombstone for (`id`, `table`) is re-inserted
      as it was, id and version included, and then removed from the log. */
  function UndoStep(db: Db, id: int, table: string): Step<bool>
  {
    match LastMatch(db.log, id, table)
    case None => Step(db, Success(false))
    case Some(i) =>
      var s := db.log[i].snapshot;
      if table != Food then Step(db, Failure(NoSuchTable(table)))
      else if s.id in db.rows then Step(db, Failure(DuplicateKey(s.id)))
      else Step(Db(db.rows[s.id := s], db.log[..i] + db.log[i + 1..], db.clock), Success(true))
  }

  /** Row `j` of a batch as `import_csv_data` passes it to `add_record`: the
      row as a dictionary in column order, restricted to the data columns. */
  function CsvRecord(cols: Dict<seq<Value>>, j: nat): (r: Dict<Value>)
    ensures forall k :: k in Keys(r) ==> k in DataColumns && k in Keys(cols)
    ensures forall k :: k in DataColumns && k in Keys(cols) && j < |Lookup(cols, k).value| ==>
              Lookup(r, k) == Some(Lookup(cols, k).value[j])
    ensures IsSubsequence(Keys(r), Keys(cols))
    ensures UniqueKeys(cols) ==> UniqueKeys(r)
  {
    if cols == [] then []
    else
      var rest := CsvRecord(cols[1..], j);
      CsvConsKeys(cols, j, rest);
      CsvConsLookup(cols, j, rest);
      CsvCons(cols, j, rest)
  }

  /** The first column's cell in front of the record of the other columns,
      when it is a data column long enough to have row `j`. */
  function CsvCons(cols: Dict<seq<Value>>, j: nat, rest: Dict<Value>): Dict<Value>
    requires cols != []
  {
    if cols[0].0 in DataColumns && j < |cols[0].1| then [(cols[0].0, cols[0].1[j])] + rest else rest
  }

  lemma CsvConsKeys(cols: Dict<seq<Value>>, j: nat, rest: Dict<Value>)
    requires cols != []
    requires forall k :: k in Keys(rest) ==> k in DataColumns && k in Keys(cols[1..])
    requires IsSubsequence(Keys(rest), Keys(cols[1..]))
    requires UniqueKeys(cols[1..]) ==> UniqueKeys(rest)
    ensures forall k :: k in Keys(CsvCons(cols, j, rest)) ==> k in DataColumns && k in Keys(cols)
    ensures IsSubsequence(Keys(CsvCons(cols, j, rest)), Keys(cols))
    ensures UniqueKeys(cols) ==> UniqueKeys(CsvCons(cols, j, rest))
  {
    assert Keys(cols) == [cols[0].0] + Keys(cols[1..]);
    assert Keys(cols)[1..] == Keys(cols[1..]);
    if cols[0].0 in DataColumns && j < |cols[0].1| {
      var r := [(cols[0].0, cols[0].1[j])] + rest;
      assert Keys(r) == [cols[0].0] + Keys(rest);
      assert Keys(r)[1..] == Keys(rest);
      if UniqueKeys(cols) {
        forall m | 0 <= m < |rest| ensures rest[m].0 != cols[0].0 {
          assert Keys(rest)[m] == rest[m].0;
          assert rest[m].0 in Keys(cols[1..]);
          var q :| 0 <= q < |Keys(cols[1..])| && Keys(cols[1..])[q] == rest[m].0;
          assert cols[q + 1].0 == rest[m].0;
        }
      }
    }
  }

  lemma CsvConsLookup(cols: Dict<seq<Value>>, j: nat, rest: Dict<Value>)
    requires cols != []
    requires forall k :: k in DataColumns && k in Keys(cols[1..]) && j < |Lookup(cols[1..], k).value| ==>
               Lookup(rest, k) == Some(Lookup(cols[1..], k).value[j])
    ensures forall k :: k in DataColumns && k in Keys(cols) && j < |Lookup(cols, k).value| ==>
              Lookup(CsvCons(cols, j, rest), k) == Some(Lookup(cols, k).value[j])
  {
    LookupCons(cols[0], cols[1..]);
    assert cols == [cols[0]] + cols[1..];
    if cols[0].0 in DataColumns && j < |cols[0].1| {
      LookupCons((cols[0].0, cols[0].1[j]), rest);
    }
  }

  function CsvRecords(df: Frame): seq<Dict<Value>>
  {
    seq(df.height, j requires 0 <= j < df.height => CsvRecord(df.columns, j))
  }

  /** `ids` are distinct and none of them is in use. */
  ghost predicate FreshIds(rows: map<int, Row>, ids: seq<int>)
  {
    && (forall i :: 0 <= i < |ids| ==> ids[i] !in rows)
    && (forall i, j :: 0 <= i < j < |ids| ==> ids[i] != ids[j])
  }

  /** Successive inserts of `datas`, the `k`-th under `ids[k]`. */
  function InsertedAll(db: Db, datas: seq<Dict<Value>>, ids: seq<int>): Db
    requires |ids| == |datas|
    decreases |datas|
  {
    if datas == [] then db
    else Inserted(InsertedAll(db, datas[..|datas| - 1], ids[..|ids| - 1]), datas[|datas| - 1], ids[|ids| - 1])
  }

  /* ---------------------------------------------------------------------- */
  /* Properties of the statements                                           */
  /* ---------------------------------------------------------------------- */

  /** The built-in schema of the validator and the table agree: the same seven
      data columns, and the required fields are the `NOT NULL` columns. */
  lemma DefaultSchemaMatchesTable()
    ensures Keys(SchemaRules.DefaultSchema()[Food]) == DataColumns
    ensures forall i :: 0 <= i < |DataColumns| ==>
              (SchemaRules.DefaultSchema()[Food][i].1.required <==> DataColumns[i] in NotNullColumns)
  {
  }

  lemma AddKeepsConsistent(db: Db, data: Dict<Value>, id: int)
    requires Consistent(db) && InsertError(data).None? && id !in db.rows
    ensures Consistent(Inserted(db, data, id))
  {
    var row := Row(id, Fill(data), 1, db.clock, db.clock);
    assert RowOk(row);
  }

  /** An added row holds exactly the given columns, `NULL` elsewhere, version
      1 and the id it was added under; no other row changes. */
  lemma AddThenGet(db: Db, data: Dict<Value>, freshId: int)
    requires InsertError(data).None? && freshId !in db.rows
    ensures var step := AddStep(db, Food, data, freshId);
            && step.out == Success(Some(freshId))
            && step.db.log == db.log
            && step.db.rows.Keys == db.rows.Keys + {freshId}
            && (forall id :: id != freshId ==> Get(step.db, Food, id) == Get(db, Food, id))
            && Get(step.db, Food, freshId).value.Some?
            && var row := Get(step.db, Food, freshId).value.value;
               && row.id == freshId && row.version == 1
               && forall c :: c in DataColumns ==>
                    row.data[c] == if c in Keys(data) then Lookup(data, c).value else Missing
  {
  }

  lemma UpdateKeepsConsistent(db: Db, id: int, data: Dict<Value>)
    requires Consistent(db)
    ensures Consistent(UpdateStep(db, Food, id, data).db)
  {
    if id in db.rows && UpdateError(data).None? {
      var r := db.rows[id];
      var m := Assign(r.data, data);
      forall c | c in NotNullColumns ensures c in m && m[c] != Missing {
        assert c in r.data;
      }
      var r' := Updated(r, data, db.clock);
      assert RowOk(r');
      var db' := UpdateStep(db, Food, id, data).db;
      assert db' == Db(db.rows[id := r'], db.log, db.clock + 1);
      forall k | k in db'.rows ensures db'.rows[k].id == k && RowOk(db'.rows[k]) && db'.rows[k].updatedAt < db'.clock {
        if k != id {
          assert db'.rows[k] == db.rows[k];
        }
      }
    }
  }

  /** A successful update raises the version by exactly one, writes the given
      columns and `updated_at`, and leaves every other column, every other row
      and the log as they were. */
  lemma UpdateBumpsVersion(db: Db, id: int, data: Dict<Value>)
    requires Consistent(db) && id in db.rows && UpdateError(data).None?
    ensures var step := UpdateStep(db, Food, id, data);
            && step.out == Success(())
            && step.db.log == db.log
            && step.db.rows.Keys == db.rows.Keys
            && (forall other :: other in db.rows && other != id ==> step.db.rows[other] == db.rows[other])
            && var (before, after) := (db.rows[id], step.db.rows[id]);
               && after.version == before.version + 1
               && after.id == id && after.createdAt == before.createdAt
               && after.updatedAt > before.updatedAt
               && forall c :: c in DataColumns ==>
                    after.data[c] == if c in Keys(data) then Lookup(data, c).value else before.data[c]
  {
  }

  /** An update of an id with no row fails, and a failed statement changes nothing. */
  lemma FailedUpdateChangesNothing(db: Db, table: string, id: int, data: Dict<Value>)
    requires table != Food || id !in db.rows || UpdateError(data).Some?
    ensures UpdateStep(db, table, id, data).db == db
    ensures table == Food && id !in db.rows ==> UpdateStep(db, table, id, data).out == Failure(RecordNotFound(id))
  {
  }

  lemma DeleteKeepsConsistent(db: Db, table: string, id: int)
    requires Consistent(db)
    ensures Consistent(DeleteStep(db, table, id).db)
  {
  }

  /** The tombstones of (`id`, `table`), oldest first. */
  function History(log: seq<Tombstone>, id: int, table: string): seq<Tombstone>
    decreases |log|
  {
    if log == [] then []
    else
      var last := log[|log| - 1];
      History(log[..|log| - 1], id, table) + if Matches(last, id, table) then [last] else []
  }

  lemma {:induction false} HistoryAppend(a: seq<Tombstone>, b: seq<Tombstone>, id: int, table: string)
    ensures History(a + b, id, table) == History(a, id, table) + History(b, id, table)
    decreases |b|
  {
    if b != [] {
      var init := b[..|b| - 1];
      var last := b[|b| - 1];
      assert (a + b)[..|a + b| - 1] == a + init;
      assert (a + b)[|a + b| - 1] == last;
      HistoryAppend(a, init, id, table);
      var tail := if Matches(last, id, table) then [last] else [];
      assert History(a + b, id, table) == History(a + init, id, table) + tail;
      assert History(b, id, table) == History(init, id, table) + tail;
    } else {
      assert a + b == a;
    }
  }

  lemma {:induction false} HistoryNone(log: seq<Tombstone>, id: int, table: string)
    requires forall j :: 0 <= j < |log| ==> !Matches(log[j], id, table)
    ensures History(log, id, table) == []
    decreases |log|
  {
    if log != [] {
      HistoryNone(log[..|log| - 1], id, table);
    }
  }

  /** Deleting pushes one tombstone, holding the row as it was, on top of the
      history of its id; the histories of other ids are untouched. */
  lemma DeletePushes(db: Db, id: int, id': int, table': string)
    requires id in db.rows
    ensures var log' := DeleteStep(db, Food, id).db.log;
            History(log', id', table')
            == History(db.log, id', table')
               + if (id', table') == (id, Food) then [Tombstone(id, Food, db.rows[id], db.clock)] else []
  {
    var t := Tombstone(id, Food, db.rows[id], db.clock);
    HistoryAppend(db.log, [t], id', table');
    assert [t][..0] == [];
  }

  /** Removing the last tombstone of (`id`, `table`) from the log removes
      the top of its history. */
  lemma HistoryRemoveLast(log: seq<Tombstone>, i: nat, id: int, table: string)
    requires i < |log| && Matches(log[i], id, table)
    requires forall j :: i < j < |log| ==> !Matches(log[j], id, table)
    ensures var h := History(log, id, table);
            && h != [] && h[|h| - 1] == log[i]
            && History(log[..i] + log[i + 1..], id, table) == h[..|h| - 1]
  {
    var before, after := log[..i], log[i + 1..];
    assert log == (before + [log[i]]) + after;
    HistoryNone(after, id, table);
    HistoryAppend(before + [log[i]], after, id, table);
    HistoryAppend(before, [log[i]], id, table);
    HistoryAppend(before, after, id, table);
    assert [log[i]][..0] == [];
    assert History([log[i]], id, table) == [log[i]];
  }

  /** Removing a tombstone of another id leaves a history as it was. */
  lemma HistoryRemoveOther(log: seq<Tombstone>, i: nat, id: int, table: string)
    requires i < |log| && !Matches(log[i], id, table)
    ensures History(log[..i] + log[i + 1..], id, table) == History(log, id, table)
  {
    var before, after := log[..i], log[i + 1..];
    assert log == (before + [log[i]]) + after;
    HistoryAppend(before + [log[i]], after, id, table);
    HistoryAppend(before, [log[i]], id, table);
    HistoryAppend(before, after, id, table);
    assert [log[i]][..0] == [];
    assert History([log[i]], id, table) == [];
  }

  /** A successful undo pops the top of the history of its id: it restores
      the newest tombstone's snapshot and removes exactly that tombstone,
      leaving the histories of other ids untouched. */
  lemma UndoPops(db: Db, id: int, table: string, id': int, table': string)
    requires UndoStep(db, id, table).out == Success(true)
    ensures var h := History(db.log, id, table);
            && h != []
            && UndoStep(db, id, table).db.rows == db.rows[h[|h| - 1].snapshot.id := h[|h| - 1].snapshot]
            && History(UndoStep(db, id, table).db.log, id', table')
               == if (id', table') == (id, table) then h[..|h| - 1] else History(db.log, id', table')
  {
    var i := LastMatch(db.log, id, table).value;
    HistoryRemoveLast(db.log, i, id, table);
    if (id', table') != (id, table) {
      HistoryRemoveOther(db.log, i, id', table');
    }
  }

  lemma UndoKeepsConsistent(db: Db, id: int, table: string)
    requires Consistent(db)
    ensures Consistent(UndoStep(db, id, table).db)
  {
    match LastMatch(db.log, id, table)
    case None =>
    case Some(i) =>
      var s := db.log[i].snapshot;
      if table == Food && s.id !in db.rows {
        assert TombstoneOk(db.log[i], db.clock);
        LogRemove(db.log, i, db.clock);
        var rows' := db.rows[s.id := s];
        forall k | k in rows' ensures rows'[k].id == k && RowOk(rows'[k]) && rows'[k].updatedAt < db.clock {
          if k != s.id {
            assert rows'[k] == db.rows[k];
          }
        }
      }
  }

  /** Undoing a delete straight away restores the table and the log as they
      were before the delete; only the clock has moved on. */
  lemma DeleteThenUndo(db: Db, id: int)
    requires Consistent(db) && id in db.rows
    ensures var deleted := DeleteStep(db, Food, id);
            && deleted.out == Success(true)
            && UndoStep(deleted.db, id, Food) == Step(db.(clock := db.clock + 1), Success(true))
  {
    var deleted := DeleteStep(db, Food, id).db;
    var log := deleted.log;
    assert LastMatch(log, id, Food) == Some(|db.log|);
    assert log[..|db.log|] + log[|db.log| + 1..] == db.log;
    assert (db.rows - {id})[id := db.rows[id]] == db.rows;
  }

  /** Two undos of the same id in a row never both restore: once a row is
      back, an older tombstone of its id clashes with it. */
  lemma NoDoubleUndo(db: Db, id: int)
    requires Consistent(db) && UndoStep(db, id, Food).out == Success(true)
    ensures UndoStep(UndoStep(db, id, Food).db, id, Food).out != Success(true)
  {
    var i := LastMatch(db.log, id, Food).value;
    UndoKeepsConsistent(db, id, Food);
    var db' := UndoStep(db, id, Food).db;
    assert id in db'.rows;
    match LastMatch(db'.log, id, Food)
    case None =>
    case Some(k) =>
      assert db'.log[k].snapshot.id == id;
  }

  /** The undo statement picks the tombstone with the latest `deleted_at`:
      in a consistent store, that is the last one for the id in the log. */
  lemma LastMatchIsLatest(db: Db, id: int, table: string)
    requires Consistent(db) && LastMatch(db.log, id, table).Some?
    ensures var i := LastMatch(db.log, id, table).value;
            forall j :: 0 <= j < |db.log| && j != i && Matches(db.log[j], id, table) ==>
              db.log[j].deletedAt < db.log[i].deletedAt
  {
  }

  /** Successive inserts add exactly their ids, leave the log alone and move
      the clock once per row. */
  lemma {:induction false} InsertedAllKeys(db: Db, datas: seq<Dict<Value>>, ids: seq<int>)
    requires |ids| == |datas|
    ensures var db' := InsertedAll(db, datas, ids);
            && (forall id :: id in db'.rows <==> id in db.rows || id in ids)
            && db'.log == db.log && db'.clock == db.clock + |ids|
    decreases |datas|
  {
    if datas != [] {
      var n := |datas| - 1;
      InsertedAllKeys(db, datas[..n], ids[..n]);
      assert forall id :: id in ids <==> id in ids[..n] || id == ids[n];
    }
  }

  /** A row that was there before a series of inserts under other ids is
      still there, unchanged. */
  lemma {:induction false} InsertedAllKeeps(db: Db, datas: seq<Dict<Value>>, ids: seq<int>, id: int)
    requires |ids| == |datas| && id in db.rows && id !in ids
    ensures id in InsertedAll(db, datas, ids).rows
    ensures InsertedAll(db, datas, ids).rows[id] == db.rows[id]
    decreases |datas|
  {
    if datas != [] {
      var n := |datas| - 1;
      assert id != ids[n] && id !in ids[..n];
      InsertedAllKeeps(db, datas[..n], ids[..n], id);
    }
  }

  /** The `k`-th insert of a series under distinct ids leaves a row holding
      the `k`-th data, at version 1. */
  lemma {:induction false} InsertedAllRow(db: Db, datas: seq<Dict<Value>>, ids: seq<int>, k: nat)
    requires |ids| == |datas| && FreshIds(db.rows, ids) && k < |ids|
    ensures ids[k] in InsertedAll(db, datas, ids).rows
    ensures InsertedAll(db, datas, ids).rows[ids[k]].data == Fill(datas[k])
    ensures InsertedAll(db, datas, ids).rows[ids[k]].version == 1
    decreases |datas|
  {
    var n := |datas| - 1;
    if k < n {
      assert ids[..n][k] == ids[k] && datas[..n][k] == datas[k];
      InsertedAllRow(db, datas[..n], ids[..n], k);
      assert ids[k] != ids[n];
    }
  }

  /** One more row of an import added under a fresh id `id`. */
  lemma ImportedOneMore(db: Db, datas: seq<Dict<Value>>, ids: seq<int>, id: int)
    requires |ids| < |datas| && FreshIds(db.rows, ids)
    requires id !in InsertedAll(db, datas[..|ids|], ids).rows
    ensures FreshIds(db.rows, ids + [id])
    ensures InsertedAll(db, datas[..|ids| + 1], ids + [id])
            == Inserted(InsertedAll(db, datas[..|ids|], ids), datas[|ids|], id)
  {
    var n := |ids|;
    InsertedAllKeys(db, datas[..n], ids);
    assert datas[..n + 1][..n] == datas[..n];
    assert (ids + [id])[..n] == ids;
  }

  /* ---------------------------------------------------------------------- */
  /* The store                                                              */
  /* ---------------------------------------------------------------------- */

  class DatabaseManager {
    var rows: map<int, Row>
    var log: seq<Tombstone>
    var clock: nat

    ghost function State(): Db
      reads this
    {
      Db(rows, log, clock)
    }

    ghost predicate Valid()
      reads this
    {
      Consistent(State())
    }

    /** Opens a store holding `initial`, what the database file contains. */
    constructor (initial: Db)
      requires Consistent(initial)
      ensures Valid() && State() == initial
    {
      rows := initial.rows;
      log := initial.log;
      clock := initial.clock;
    }

    /** `SELECT * FROM <table>`: the active rows, each once and in no
        particular order, or the tombstone log. */
    method GetAllRecords(table: string) returns (r: Result<Listing, StoreError>)
      requires Valid()
      ensures table == Food ==>
                && r.Success? && r.value.ActiveRows?
                && |r.value.rows| == |rows|
                && (forall x :: x in r.value.rows <==> x in rows.Values)
                && forall i, j :: 0 <= i < j < |r.value.rows| ==> r.value.rows[i].id != r.value.rows[j].id
      ensures table == DeletedRecords ==> r == Success(DeletedRows(log))
      ensures table != Food && table != DeletedRecords ==> r == Failure(NoSuchTable(table))
    {
      if table == DeletedRecords {
        return Success(DeletedRows(log));
      }
      if table != Food {
        return Failure(NoSuchTable(table));
      }
      forall x | x in rows.Values ensures x.id in rows && rows[x.id] == x {
        if forall k :: k in rows ==> rows[k] != x {
          assert false;
        }
        var k :| k in rows && rows[k] == x;
      }
      var ids := rows.Keys;
      var out: seq<Row> := [];
      while ids != {}
        invariant ids <= rows.Keys
        invariant forall x :: x in rows.Values ==> x.id in rows && rows[x.id] == x
        invariant |out| + |ids| == |rows|
        invariant forall x :: x in out <==> x in rows.Values && x.id !in ids
        invariant forall i, j :: 0 <= i < j < |out| ==> out[i].id != out[j].id
        decreases |ids|
      {
        NonEmpty(ids);
        var id :| id in ids;
        out := out + [rows[id]];
        ids := ids - {id};
      }
      r := Success(ActiveRows(out));
    }

    method GetRecordById(table: string, id: int) returns (r: Result<Option<Row>, StoreError>)
      ensures r == Get(State(), table, id)
    {
      if table == Food {
        r := Success(if id in rows then Some(rows[id]) else None);
      } else if table == DeletedRecords {
        r := Failure(NoSuchColumn("id"));
      } else {
        r := Failure(NoSuchTable(table));
      }
    }

    method AddRecord(table: string, data: Dict<Value>) returns (r: Result<Option<int>, StoreError>)
      requires Valid() && UniqueKeys(data)
      modifies this
      ensures Valid()
      ensures r.Success? && r.value.Some? ==> r.value.value !in old(rows)
      ensures Step(State(), r) == AddStep(old(State()), table, data, if r.Success? && r.value.Some? then r.value.value else 0)
    {
      if table != Food {
        return Success(None);
      }
      var error := InsertError(data);
      if error.Some? {
        return Failure(error.value);
      }
      ghost var unused := UnusedId(rows.Keys);
      var id :| id !in rows;
      AddKeepsConsistent(State(), data, id);
      rows := rows[id := Row(id, Fill(data), 1, clock, clock)];
      clock := clock + 1;
      r := Success(Some(id));
    }

    method UpdateRecord(table: string, id: int, data: Dict<Value>) returns (r: Result<(), StoreError>)
      requires Valid() && UniqueKeys(data)
      modifies this
      ensures Valid()
      ensures Step(State(), r) == UpdateStep(old(State()), table, id, data)
    {
      if table != Food {
        return Success(());
      }
      if id !in rows {
        return Failure(RecordNotFound(id));
      }
      var currentVersion := rows[id].version;
      var error := UpdateError(data);
      if error.Some? {
        return Failure(error.value);
      }
      ghost var next := UpdateStep(State(), table, id, data).db;
      UpdateKeepsConsistent(State(), id, data);
      var updated := rows[id].(data := Assign(rows[id].data, data), version := currentVersion + 1, updatedAt := clock);
      assert updated == Updated(rows[id], data, clock);
      rows := rows[id := updated];
      clock := clock + 1;
      r := Success(());
      assert State() == next;
    }

    method DeleteRecord(table: string, id: int) returns (r: Result<bool, StoreError>)
      requires Valid()
      modifies this
      ensures Valid()
      ensures Step(State(), r) == DeleteStep(old(State()), table, id)
    {
      var record := GetRecordById(table, id);
      if record.Failure? {
        return Failure(record.error);
      }
      if record.value.None? {
        return Success(false);
      }
      DeleteKeepsConsistent(State(), table, id);
      log := log + [Tombstone(id, table, record.value.value, clock)];
      rows := rows - {id};
      clock := clock + 1;
      r := Success(true);
    }

    /** The tombstone query scans the log for the entry of (`originalId`,
        `table`) with the latest `deleted_at`. */
    method UndoDelete(originalId: int, table: string) returns (r: Result<bool, StoreError>)
      requires Valid()
      modifies this
      ensures Valid()
      ensures Step(State(), r) == UndoStep(old(State()), originalId, table)
    {
      var latest: Option<nat> := None;
      for j := 0 to |log|
        invariant latest == LastMatch(log[..j], originalId, table)
      {
        assert log[..j + 1][..j] == log[..j];
        if log[j].originalId == originalId && log[j].tableName == table
           && (latest.None? || log[j].deletedAt > log[latest.value].deletedAt) {
          latest := Some(j);
        }
      }
      assert log[..|log|] == log;
      if latest.None? {
        return Success(false);
      }
      var i := latest.value;
      var snapshot := log[i].snapshot;
      if table != Food {
        return Failure(NoSuchTable(table));
      }
      if snapshot.id in rows {
        return Failure(DuplicateKey(snapshot.id));
      }
      UndoKeepsConsistent(State(), originalId, table);
      rows := rows[snapshot.id := snapshot];
      log := log[..i] + log[i + 1..];
      r := Success(true);
    }

    /** Adds `records` one by one. A failing record stops the loop and the
        records added before it stay: `newIds` are the ids they were given. */
    method AddEach(records: seq<Dict<Value>>) returns (r: Result<bool, StoreError>, ghost newIds: seq<int>)
      requires Valid() && forall j :: 0 <= j < |records| ==> UniqueKeys(records[j])
      modifies this
      ensures Valid()
      ensures |newIds| <= |records| && FreshIds(old(rows), newIds)
      ensures State() == InsertedAll(old(State()), records[..|newIds|], newIds)
      ensures r.Success? ==> r.value && |newIds| == |records|
      ensures r.Failure? ==> |newIds| < |records| && InsertError(records[|newIds|]) == Some(r.error)
    {
      newIds := [];
      assert records[..0] == [];
      ghost var start := State();
      var j := 0;
      while j < |records|
        invariant 0 <= j <= |records| && |newIds| == j
        invariant Valid() && FreshIds(start.rows, newIds)
        invariant State() == InsertedAll(start, records[..j], newIds)
      {
        var added := AddRecord(Food, records[j]);
        if added.Failure? {
          return Failure(added.error), newIds;
        }
        var id := added.value.value;
        ImportedOneMore(start, records, newIds, id);
        newIds := newIds + [id];
        j := j + 1;
      }
      r := Success(true);
    }

    /** Checks that the batch has the `NOT NULL` columns, then adds its rows,
        each restricted to the data columns. */
    method ImportCsvData(table: string, df: Frame) returns (r: Result<bool, StoreError>, ghost newIds: seq<int>)
      requires Valid() && WellFormed(df)
      modifies this
      ensures Valid()
      ensures table != Food ==> r == Success(false)
      ensures table == Food && "commodity" !in Keys(df.columns) ==> r == Failure(MissingCsvColumn("commodity"))
      ensures table == Food && "commodity" in Keys(df.columns) && "age_group" !in Keys(df.columns) ==>
                r == Failure(MissingCsvColumn("age_group"))
      ensures |newIds| <= df.height && FreshIds(old(rows), newIds)
      ensures State() == InsertedAll(old(State()), CsvRecords(df)[..|newIds|], newIds)
      ensures r.Success? && table == Food ==> r.value && |newIds| == df.height
      ensures r.Failure? && r.error.MissingCsvColumn? ==> newIds == []
      ensures r.Failure? && !r.error.MissingCsvColumn? ==>
                |newIds| < df.height && InsertError(CsvRecords(df)[|newIds|]) == Some(r.error)
    {
      newIds := [];
      assert CsvRecords(df)[..0] == [];
      if table != Food {
        return Success(false), newIds;
      }
      assert NotNullColumns[0] == "commodity" && NotNullColumns[1] == "age_group";
      for k := 0 to |NotNullColumns|
        invariant forall m :: 0 <= m < k ==> NotNullColumns[m] in Keys(df.columns)
      {
        if NotNullColumns[k] !in Keys(df.columns) {
          return Failure(MissingCsvColumn(NotNullColumns[k])), newIds;
        }
      }
      var records := CsvRecords(df);
      assert forall j :: 0 <= j < |records| ==> records[j] == CsvRecord(df.columns, j);
      r, newIds := AddEach(records);
    }

    /** The version history kept for a row: its current version and update
        time, or nothing when the id has no row. */
    method GetVersions(table: string, id: int) returns (r: Result<seq<VersionInfo>, StoreError>)
      ensures table == Food ==> r.Success? && |r.value| <= 1 && (r.value != [] <==> id in rows)
      ensures table == Food && id in rows ==> r.value == [VersionInfo(rows[id].version, rows[id].updatedAt)]
      ensures table != Food ==> r == Failure(Get(State(), table, id).error)
    {
      var current := GetRecordById(table, id);
      if current.Failure? {
        return Failure(current.error);
      }
      if current.value.Some? {
        return Success([VersionInfo(current.value.value.version, current.value.value.updatedAt)]);
      }
      r := Success([]);
    }
  }

  lemma NonEmpty(s: set<int>)
    requires s != {}
    ensures exists x :: x in s
  {
    if forall x :: x !in s {
      assert false;
    }
  }

  /** Some integer is above every id in use. */
  lemma {:induction false} UnusedId(ids: set<int>) returns (b: int)
    ensures forall x :: x in ids ==> x < b
    ensures b !in ids
    decreases |ids|
  {
    if ids == {} {
      b := 0;
    } else {
      NonEmpty(ids);
      var x :| x in ids;
      var c := UnusedId(ids - {x});
      b := if c > x + 1 then c else x + 1;
      forall y | y in ids ensures y < b {
        if y != x {
          assert y in ids - {x};
        }
      }
    }
  }
}
