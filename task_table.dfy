/**
  The meaning of the SQL statements that the task store runs against its one
  table, `tasks(id, CaseNumber, title, description, status, CreatedDate)`,
  stated on values: the table's rows keyed by their id, plus the table's
  autoincrement mark (its entry in SQLite's `sqlite_sequence`).
 */
module TaskTable {
  import opened Wrappers

  /** The range of a SQLite INTEGER, which is also the range of a row id. */
  const MinRowId: int := -0x8000_0000_0000_0000
  const MaxRowId: int := 0x7FFF_FFFF_FFFF_FFFF

  /** Whether an integer parameter can be bound to a statement at all. */
  predicate InInt64(x: int) {
    MinRowId <= x <= MaxRowId
  }

  /** The columns of a row other than its id. */
  datatype Task = Task(caseNumber: int, title: string, description: string, status: string, createdDate: string)

  /** A row as a listing reports it: its id together with its other columns. */
  datatype Row = Row(id: int, task: Task)

  /** The ways a statement against the table fails. */
  datatype Error =
    | NoSuchTable         // the database holds no `tasks` table
    | Overflow            // an integer parameter does not fit in 64 bits
    | PrimaryKeyConflict  // an explicit id is already held by a row
    | Full                // the autoincrement mark reached the largest row id

  /** The rows of the table; a map, so that no two rows share an id. */
  type Rows = map<int, Task>

  /**
    The table's invariant: the autoincrement mark is a 64-bit integer no
    smaller than 0 and no smaller than the id of any row.
   */
  predicate WellFormed(rows: Rows, mark: int) {
    && 0 <= mark <= MaxRowId
    && forall id :: id in rows ==> MinRowId <= id <= mark
  }

  /** `SELECT * FROM tasks`: every row, in no particular order. */
  function Listing(rows: Rows): (r: set<Row>)
    ensures forall x :: x in r <==> x.id in rows && rows[x.id] == x.task
    ensures forall x, y :: x in r && y in r && x.id == y.id ==> x == y
  {
    set id | id in rows :: Row(id, rows[id])
  }

  /** A table either is empty or holds a row with some id. */
  lemma EmptyOrHasRow(rows: Rows)
    ensures |rows| == 0 || exists id :: id in rows
  {
    if forall id :: id !in rows {
      assert rows.Keys == {};
    }
  }

  /** A listing holds exactly one entry per row. */
  lemma {:induction false} ListingSize(rows: Rows)
    ensures |Listing(rows)| == |rows|
    decreases |rows|
  {
    if |rows| == 0 {
      assert Listing(rows) == {};
    } else {
      EmptyOrHasRow(rows);
      var k :| k in rows;
      var rest := rows - {k};
      assert rest.Keys == rows.Keys - {k};
      ListingSize(rest);
      assert Listing(rows) == Listing(rest) + {Row(k, rows[k])};
    }
  }

  /** What a successful insert leaves behind: the rows, the autoincrement mark and the id the new row got. */
  datatype Inserted = Inserted(rows: Rows, mark: int, id: int)

  /**
    `INSERT INTO tasks VALUES(:id, :CaseNumber, ...)`. An absent id (NULL) is
    assigned by AUTOINCREMENT: one past the largest id ever used, failing once
    that is the largest row id; an explicit id must not be held by a row. The
    integer parameters are bound before the statement runs.
   */
  function Insert(rows: Rows, mark: int, id: Option<int>, task: Task): (r: Result<Inserted, Error>)
    requires WellFormed(rows, mark)
    ensures r == Failure(Overflow) <==> !InInt64(task.caseNumber) || (id.Some? && !InInt64(id.value))
    ensures r == Failure(PrimaryKeyConflict) <==>
              InInt64(task.caseNumber) && id.Some? && InInt64(id.value) && id.value in rows
    ensures r == Failure(Full) <==> InInt64(task.caseNumber) && id.None? && mark == MaxRowId
    ensures r.Success? || r == Failure(Overflow) || r == Failure(PrimaryKeyConflict) || r == Failure(Full)
    ensures r.Success? ==>
              && r.value.id !in rows
              && r.value.rows == rows[r.value.id := task]
              && WellFormed(r.value.rows, r.value.mark)
              && r.value.mark == (if mark < r.value.id then r.value.id else mark)
    ensures r.Success? && id.Some? ==> r.value.id == id.value
    ensures r.Success? && id.None? ==> r.value.id == mark + 1
  {
    if !InInt64(task.caseNumber) || (id.Some? && !InInt64(id.value)) then
      Failure(Overflow)
    else
      match id
      case Some(k) =>
        if k in rows then Failure(PrimaryKeyConflict)
        else Success(Inserted(rows[k := task], if mark < k then k else mark, k))
      case None =>
        if mark == MaxRowId then Failure(Full)
        else Success(Inserted(rows[mark + 1 := task], mark + 1, mark + 1))
  }

  /** `DELETE FROM tasks WHERE id = :id`: drops the row with that id, if there is one. */
  function Deleted(rows: Rows, id: int): (r: Rows)
    ensures r.Keys == rows.Keys - {id}
    ensures forall k :: k in r ==> r[k] == rows[k]
    ensures id !in rows ==> r == rows
    ensures id in rows ==> |r| == |rows| - 1
  {
    var r := rows - {id};
    assert r.Keys == rows.Keys - {id};
    r
  }

  /** `UPDATE tasks SET CaseNumber = :case_num WHERE id = :id`. */
  function WithCaseNumber(rows: Rows, id: int, caseNumber: int): (r: Rows)
    ensures r.Keys == rows.Keys
    ensures forall k :: k in r && k != id ==> r[k] == rows[k]
    ensures id in rows ==> r[id] == rows[id].(caseNumber := caseNumber)
    ensures id !in rows ==> r == rows
  {
    if id in rows then rows[id := rows[id].(caseNumber := caseNumber)] else rows
  }

  /** `UPDATE tasks SET description = :description WHERE id = :id`. */
  function WithDescription(rows: Rows, id: int, description: string): (r: Rows)
    ensures r.Keys == rows.Keys
    ensures forall k :: k in r && k != id ==> r[k] == rows[k]
    ensures id in rows ==> r[id] == rows[id].(description := description)
    ensures id !in rows ==> r == rows
  {
    if id in rows then rows[id := rows[id].(description := description)] else rows
  }

  /** A row added under a fresh id shows up in the listing, which grows by exactly that row. */
  lemma ListingAfterInsert(rows: Rows, id: int, task: Task)
    requires id !in rows
    ensures Listing(rows[id := task]) == Listing(rows) + {Row(id, task)}
    ensures |Listing(rows[id := task])| == |Listing(rows)| + 1
  {
  }

  /**
    Inserting with no id into an empty table gives a listing of exactly one
    row, whose columns are the inserted ones.
   */
  lemma CreateOnEmpty(mark: int, task: Task)
    requires 0 <= mark < MaxRowId && InInt64(task.caseNumber)
    ensures Insert(map[], mark, None, task).Success?
    ensures var rows := Insert(map[], mark, None, task).value.rows;
            |Listing(rows)| == 1 && Listing(rows) == {Row(mark + 1, task)}
  {
    var rows := Insert(map[], mark, None, task).value.rows;
    ListingAfterInsert(map[], mark + 1, task);
    assert Listing(map[]) == {};
  }

  /**
    Two inserts with no id get two different ids, neither held by a row
    before, and the listing afterwards holds both new rows and two more
    entries than before.
   */
  lemma TwoAutoInserts(rows: Rows, mark: int, a: Task, b: Task)
    requires WellFormed(rows, mark) && mark < MaxRowId - 1
    requires InInt64(a.caseNumber) && InInt64(b.caseNumber)
    ensures Insert(rows, mark, None, a).Success?
    ensures var first := Insert(rows, mark, None, a).value;
            var second := Insert(first.rows, first.mark, None, b);
            && second.Success?
            && first.id != second.value.id
            && first.id !in rows && second.value.id !in rows
            && Row(first.id, a) in Listing(second.value.rows)
            && Row(second.value.id, b) in Listing(second.value.rows)
            && |Listing(second.value.rows)| == |Listing(rows)| + 2
  {
    var first := Insert(rows, mark, None, a).value;
    var second := Insert(first.rows, first.mark, None, b).value;
    ListingAfterInsert(rows, first.id, a);
    ListingAfterInsert(first.rows, second.id, b);
  }

  /**
    Deleting leaves in the listing exactly the rows whose id differs, one
    fewer than before when the id was present and the same listing otherwise.
   */
  lemma ListingAfterDelete(rows: Rows, id: int)
    ensures Listing(Deleted(rows, id)) == set x | x in Listing(rows) && x.id != id
    ensures id in rows ==> |Listing(Deleted(rows, id))| == |Listing(rows)| - 1
    ensures id !in rows ==> Listing(Deleted(rows, id)) == Listing(rows)
  {
    ListingSize(rows);
    ListingSize(Deleted(rows, id));
  }

  /** Updating a column keeps the number of rows: a missing id changes nothing and a present one changes one row in place. */
  lemma UpdatesKeepCount(rows: Rows, id: int, caseNumber: int, description: string)
    ensures |Listing(WithCaseNumber(rows, id, caseNumber))| == |Listing(rows)|
    ensures |Listing(WithDescription(rows, id, description))| == |Listing(rows)|
  {
    var c := WithCaseNumber(rows, id, caseNumber);
    var d := WithDescription(rows, id, description);
    assert c.Keys == rows.Keys && d.Keys == rows.Keys;
    ListingSize(rows);
    ListingSize(c);
    ListingSize(d);
  }
}
