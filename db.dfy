/**
  The task store: one object per database, holding the `tasks` table in
  place. Each method runs the statement that the store's method of the same
  purpose runs, and says, through the functions of TaskTable, what the table
  holds afterwards and when the statement fails.
 */
module Db {
  import opened Wrappers
  import opened TaskTable

  class TaskStore {
    /** Whether the database holds the `tasks` table. */
    var hasTable: bool
    /** The rows of `tasks`, by id. */
    var rows: Rows
    /** The table's autoincrement mark: the largest id ever inserted, 0 before any. */
    var mark: int
    /** Every id the table has held since it was created, as far as the store knows. */
    ghost var used: set<int>

    ghost predicate Valid()
      reads this
    {
      && WellFormed(rows, mark)
      && rows.Keys <= used
      && (forall u :: u in used ==> u <= mark)
      && (mark == 0 || mark in used)
      && (!hasTable ==> rows == map[] && mark == 0)
    }

    /**
      Opens a database whose current content is `file` (no `tasks` table when
      it is None) and makes sure the table exists.
     */
    constructor (file: Option<(Rows, int)>)
      requires file.Some? ==> WellFormed(file.value.0, file.value.1)
      ensures Valid() && hasTable
      ensures file.Some? ==> rows == file.value.0 && mark == file.value.1
      ensures file.None? ==> rows == map[] && mark == 0
    {
      var stored, storedMark := map[], 0;
      if file.Some? {
        stored, storedMark := file.value.0, file.value.1;
      }
      hasTable, rows, mark := file.Some?, stored, storedMark;
      used := stored.Keys + (if storedMark == 0 then {} else {storedMark});
      new;
      CreateTables();
    }

    /**
      `CREATE TABLE IF NOT EXISTS tasks(...)`: creates an empty table when
      there is none and otherwise leaves the table and its rows as they are.
     */
    method CreateTables()
      requires Valid()
      modifies this
      ensures Valid() && hasTable
      ensures !old(hasTable) ==> rows == map[] && mark == 0
      ensures rows == old(rows) && mark == old(mark) && used == old(used)
    {
      if !hasTable {
        hasTable := true;
        rows := map[];
        mark := 0;
      }
    }

    /** `SELECT * FROM tasks`: one entry per row, each carrying the row's id and columns. */
    function Tasks(): (r: Result<set<Row>, Error>)
      reads this
      requires Valid()
      ensures r.Failure? <==> !hasTable
      ensures r.Failure? ==> r.error == NoSuchTable
      ensures r.Success? ==> (forall x :: x in r.value <==> x.id in rows && rows[x.id] == x.task)
      ensures r.Success? ==> |r.value| == |rows|
    {
      if hasTable then
        ListingSize(rows);
        Success(Listing(rows))
      else
        Failure(NoSuchTable)
    }

    /**
      `INSERT INTO tasks VALUES(...)` with the given id (None for NULL) and
      columns. `newId` is the id the new row got: the caller's id, or the
      next autoincrement id, which no row has ever held.
     */
    method Create(id: Option<int>, task: Task) returns (res: Outcome<Error>, ghost newId: int)
      requires Valid()
      modifies this
      ensures Valid() && hasTable == old(hasTable)
      ensures !old(hasTable) ==> res == Fail(NoSuchTable) && rows == old(rows) && mark == old(mark) && used == old(used)
      ensures old(hasTable) ==>
                match Insert(old(rows), old(mark), id, task)
                case Success(ins) =>
                  && res == Pass && newId == ins.id
                  && rows == ins.rows && mark == ins.mark && used == old(used) + {newId}
                case Failure(e) =>
                  && res == Fail(e)
                  && rows == old(rows) && mark == old(mark) && used == old(used)
      ensures res.Pass? && id.None? ==> newId !in old(used)
    {
      newId := 0;
      if !hasTable {
        return Fail(NoSuchTable), newId;
      }
      if !InInt64(task.caseNumber) || (id.Some? && !InInt64(id.value)) {
        return Fail(Overflow), newId;
      }
      var k: int;
      match id {
        case Some(given) =>
          if given in rows {
            return Fail(PrimaryKeyConflict), newId;
          }
          k := given;
        case None =>
          if mark == MaxRowId {
            return Fail(Full), newId;
          }
          k := mark + 1;
      }
      rows := rows[k := task];
      if mark < k {
        mark := k;
      }
      newId := k;
      used := used + {k};
      res := Pass;
    }

    /** `DELETE FROM tasks WHERE id = :id`; an id no row holds is not an error. */
    method Delete(id: int) returns (res: Outcome<Error>)
      requires Valid()
      modifies this
      ensures Valid()
      ensures hasTable == old(hasTable) && mark == old(mark) && used == old(used)
      ensures res == if !hasTable then Fail(NoSuchTable) else if !InInt64(id) then Fail(Overflow) else Pass
      ensures rows == if res.Pass? then Deleted(old(rows), id) else old(rows)
    {
      if !hasTable {
        return Fail(NoSuchTable);
      }
      if !InInt64(id) {
        return Fail(Overflow);
      }
      rows := rows - {id};
      res := Pass;
    }

    /** `UPDATE tasks SET CaseNumber = :case_num WHERE id = :id`; an id no row holds is not an error. */
    method UpdateCaseNumber(id: int, caseNumber: int) returns (res: Outcome<Error>)
      requires Valid()
      modifies this
      ensures Valid()
      ensures hasTable == old(hasTable) && mark == old(mark) && used == old(used)
      ensures res == if !hasTable then Fail(NoSuchTable)
                     else if !InInt64(id) || !InInt64(caseNumber) then Fail(Overflow)
                     else Pass
      ensures rows == if res.Pass? then WithCaseNumber(old(rows), id, caseNumber) else old(rows)
    {
      if !hasTable {
        return Fail(NoSuchTable);
      }
      if !InInt64(id) || !InInt64(caseNumber) {
        return Fail(Overflow);
      }
      if id in rows {
        rows := rows[id := rows[id].(caseNumber := caseNumber)];
      }
      res := Pass;
    }

    /** `UPDATE tasks SET description = :description WHERE id = :id`; an id no row holds is not an error. */
    method UpdateDescription(id: int, description: string) returns (res: Outcome<Error>)
      requires Valid()
      modifies this
      ensures Valid()
      ensures hasTable == old(hasTable) && mark == old(mark) && used == old(used)
      ensures res == if !hasTable then Fail(NoSuchTable) else if !InInt64(id) then Fail(Overflow) else Pass
      ensures rows == if res.Pass? then WithDescription(old(rows), id, description) else old(rows)
    {
      if !hasTable {
        return Fail(NoSuchTable);
      }
      if !InInt64(id) {
        return Fail(Overflow);
      }
      if id in rows {
        rows := rows[id := rows[id].(description := description)];
      }
      res := Pass;
    }
  }
}
