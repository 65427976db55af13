# Task store of dts-backend, in Dafny

The backend keeps its tasks in one SQLite table,
`tasks(id, CaseNumber, title, description, status, CreatedDate)`, whose `id`
is an `integer primary key autoincrement`. The `DB` class runs one
parameterised statement per method against it. This project models what
those statements do to the table, without SQLite:

- `wrappers.dfy` (module `Wrappers`): `Option`, `Result` and `Outcome`.
- `task_table.dfy` (module `TaskTable`): the meaning of each statement as a
  function on values. The table's rows are a `map<int, Task>`, so no two rows
  can share an id. Beside them sits the autoincrement mark, the table's
  `sqlite_sequence` entry: the largest id ever inserted, or 0 before any.
  The module also holds the error kinds and the lemmas that relate a listing
  before and after each statement.
- `db.dfy` (module `Db`): class `TaskStore`. It has one method per method of
  `DB`, changes the table in place, and ties each new state to the functions
  of `TaskTable`. A ghost field `used` records every id the table has held,
  which lets the store state that an automatically assigned id is never
  reused.
- `scenarios.dfy` (module `DbScenarios`): client methods that replay the
  store's unit tests in `tests/test_db.py` on a fresh database (create and
  list, update the case number, update the description, delete, two
  creates). They also cover creating the schema twice and a duplicate
  explicit id. Each one checks with `assert` what the test observes,
  using only the contracts.

Behaviour the model commits to:

- **Insert with a NULL id.** It gets `mark + 1`, and the mark moves to that
  id. Once the mark is the largest 64-bit integer, the insert fails with
  `Full`. SQLite computes `max(mark, largest id in the table) + 1`; the
  invariant `WellFormed` (the mark is at least every id) makes the two
  equal.
- **Insert with an explicit id.** An id that a row already holds fails with
  `PrimaryKeyConflict` and changes nothing. A free id is stored as given,
  even one that was used before and since deleted. The mark rises to the id
  when the id is larger.
- **64-bit parameters.** An integer parameter outside the 64-bit range is
  refused with `Overflow` before the statement runs. This is the
  `OverflowError` that Python's sqlite3 module raises when it binds such a
  value, and it applies to every id and case number bound.
- **Missing table.** A statement on a database without the `tasks` table
  fails with `NoSuchTable`. It takes precedence over parameter errors,
  because the statement is prepared before its parameters are bound.
- **Delete and update on an absent id.** Both report success and change
  nothing.
- **Listing order.** The listing is a set of `Row(id, task)` values, because
  `SELECT *` without `ORDER BY` fixes no order.

Where the documentation of the system and the code disagree, the model
follows the code. The documentation says that an insert always supplies an
explicit id. The code binds `:id` from the caller's mapping, and the tests
pass `None` there, which makes SQLite assign the id. Both paths are
modelled.

## Model

| member | source | states |
|---|---|---|
| TaskTable.Listing | src/db.py:25-34 | an entry is in the listing exactly when its id is a row's id and its columns are that row's columns; no two entries share an id |
| TaskTable.ListingSize | src/db.py:34 | the listing has exactly one entry per row of the table |
| TaskTable.Insert | src/db.py:47-57 | fails with Overflow exactly when the case number or an explicit id does not fit in 64 bits; fails with PrimaryKeyConflict exactly when an explicit id is already held; fails with Full exactly when no id is given and the autoincrement mark is the largest row id; otherwise adds one row under an id no row held, keeps every other row, keeps the invariant, raises the mark to the new id, uses the caller's id when there is one and the mark plus one otherwise |
| TaskTable.Deleted | src/db.py:36-45 | removes exactly the row with the given id and keeps every other row unchanged; an absent id leaves the table as it was; a present one leaves one row fewer |
| TaskTable.WithCaseNumber | src/db.py:59-73 | the row with the id gets the new case number and keeps its other columns; every other row and the set of ids are unchanged; an absent id changes nothing |
| TaskTable.WithDescription | src/db.py:75-89 | the row with the id gets the new description and keeps its other columns; every other row and the set of ids are unchanged; an absent id changes nothing |
| TaskTable.ListingAfterInsert | src/db.py:50-56 | a row stored under a fresh id adds exactly that entry to the listing and makes it one longer |
| TaskTable.CreateOnEmpty | tests/test_db.py:46-63 | inserting with no id into an empty table succeeds and lists exactly one row, carrying the inserted case number, title, description, status and creation date |
| TaskTable.TwoAutoInserts | tests/test_db.py:121-139 | two inserts with no id both succeed under two different ids held by no earlier row; both new rows, with their own case numbers, are in the listing, which has two more entries than before |
| TaskTable.ListingAfterDelete | tests/test_db.py:105-119 | after a delete the listing holds exactly the earlier entries with another id, one fewer when the id was present and the same listing when it was absent |
| TaskTable.UpdatesKeepCount | src/db.py:59-89 | neither update changes the number of listed rows |
| Db.TaskStore.constructor | src/db.py:5-7 | opening a database and creating the schema leaves the table existing, holding the rows and mark it held before or, when there was no table, empty with mark 0 |
| Db.TaskStore.CreateTables | src/db.py:9-23 | afterwards the table exists; a missing table is created empty; an existing table keeps every row and its mark, so a second call changes nothing |
| Db.TaskStore.Tasks | src/db.py:25-34 | fails with NoSuchTable exactly when the table is missing; otherwise returns one entry per row, each with the row's id and columns, and reads without changing anything |
| Db.TaskStore.Create | src/db.py:47-57 | fails with NoSuchTable without a table; otherwise fails or stores the row as Insert says and nothing else changes; an automatically assigned id is one the table has never held |
| Db.TaskStore.Delete | src/db.py:36-45 | fails with NoSuchTable without a table and with Overflow for an id outside 64 bits; otherwise succeeds and leaves the rows as Deleted says, even when no row has the id |
| Db.TaskStore.UpdateCaseNumber | src/db.py:59-73 | fails with NoSuchTable without a table and with Overflow when the id or the case number is outside 64 bits; otherwise succeeds and leaves the rows as WithCaseNumber says |
| Db.TaskStore.UpdateDescription | src/db.py:75-89 | fails with NoSuchTable without a table and with Overflow for an id outside 64 bits; otherwise succeeds and leaves the rows as WithDescription says |

## Left out

- SQLite itself is not modelled. That covers opening a connection per call, the `with con:` transaction, `executescript`, `row_factory` and the path of the database file. Each statement is taken to run atomically on one in-memory table.
- Pointing an existing store at another database file (the tests assign to `db` after construction) is not modelled. A store stays attached to the database it was opened on, and that database's earlier content is the constructor's parameter.
- SQLite type affinity and NULL column values are not modelled. Every column has a fixed type: the case number is an integer and the other columns are strings. The model does not capture a text case number, a `None` title, or a text id converted to an integer.
- Python's errors for a mapping with a missing named parameter are not modelled. An insert takes a complete `Task` plus an optional id, and a delete takes the id itself rather than the mapping `{'id': ...}`.
- Db.TaskStore.Tasks: it returns a set of rows instead of Python's list of dicts. Row order is engine-defined, and ids are unique, so no information beyond that order is lost.
- The creation timestamp is an opaque string. How the tests format it is not modelled.
- `src/app.py` and `tests/test_app.py` are HTTP plumbing (Flask routes, CORS, `jsonify`, a module-level list) and are not part of this model.
