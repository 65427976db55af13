/**
  Clients of the task store that replay the unit tests of the store on a
  fresh database: what each test observes follows from the contracts alone.
 */
module DbScenarios {
  import opened Wrappers
  import opened TaskTable
  import opened Db

  function Sample(createdDate: string): Task {
    Task(12345, "Test Task", "This is a test task description", "Open", createdDate)
  }

  /** The schema exists after opening, and opening again keeps every row. */
  method CreateTablesTwice(createdDate: string) {
    var store := new TaskStore(None);
    var res, _ := store.Create(None, Sample(createdDate));
    assert res == Pass;
    store.CreateTables();
    store.CreateTables();
    var tasks := store.Tasks();
    assert tasks.Success? && tasks.value == {Row(1, Sample(createdDate))};
  }

  /** One insert with no id gives exactly one row, with the inserted columns. */
  method CreateAndGet(createdDate: string) {
    var store := new TaskStore(None);
    var res, _ := store.Create(None, Sample(createdDate));
    assert res == Pass;
    var tasks := store.Tasks();
    assert tasks.Success? && |tasks.value| == 1;
    assert Row(1, Sample(createdDate)) in tasks.value;
    var task :| task in tasks.value;
    assert task.task == Sample(createdDate);
  }

  /** The id read back from the listing addresses the row for an update of its case number. */
  method UpdateCaseNumberOfListedTask(createdDate: string) {
    var store := new TaskStore(None);
    var _, _ := store.Create(None, Sample(createdDate));
    var tasks := store.Tasks();
    assert Row(1, Sample(createdDate)) in tasks.value;
    var task :| task in tasks.value;
    var res := store.UpdateCaseNumber(task.id, 67890);
    assert res == Pass;
    var updated := store.Tasks();
    assert updated.Success? && updated.value == {Row(task.id, Sample(createdDate).(caseNumber := 67890))};
  }

  /** The same for the description. */
  method UpdateDescriptionOfListedTask(createdDate: string) {
    var store := new TaskStore(None);
    var _, _ := store.Create(None, Sample(createdDate));
    var tasks := store.Tasks();
    assert Row(1, Sample(createdDate)) in tasks.value;
    var task :| task in tasks.value;
    var res := store.UpdateDescription(task.id, "Updated description for testing");
    assert res == Pass;
    var updated := store.Tasks();
    assert updated.Success?;
    assert Row(task.id, Sample(createdDate).(description := "Updated description for testing")) in updated.value;
  }

  /** Deleting the only row by the id read back from the listing empties the table. */
  method DeleteListedTask(createdDate: string) {
    var store := new TaskStore(None);
    var _, _ := store.Create(None, Sample(createdDate));
    var tasks := store.Tasks();
    assert Row(1, Sample(createdDate)) in tasks.value;
    var task :| task in tasks.value;
    var res := store.Delete(task.id);
    assert res == Pass;
    var after := store.Tasks();
    assert after.Success? && |after.value| == 0;
    res := store.Delete(task.id);
    assert res == Pass;
  }

  /** Two inserts with no id give two rows under different ids, both case numbers present. */
  method MultipleTasks(createdDate: string) {
    var store := new TaskStore(None);
    var first := Sample(createdDate);
    var second := first.(caseNumber := 54321, title := "Second Test Task");
    var r1, id1 := store.Create(None, first);
    var r2, id2 := store.Create(None, second);
    assert r1 == Pass && r2 == Pass && id1 != id2;
    var tasks := store.Tasks();
    assert tasks.Success? && |tasks.value| == 2;
    assert Row(id1, first) in tasks.value && Row(id2, second) in tasks.value;
  }

  /** Inserting again under an id a row holds fails and leaves the table as it was. */
  method DuplicateExplicitId(createdDate: string) {
    var store := new TaskStore(None);
    var r1, _ := store.Create(Some(7), Sample(createdDate));
    var r2, _ := store.Create(Some(7), Sample(createdDate).(title := "Other"));
    assert r1 == Pass && r2 == Fail(PrimaryKeyConflict);
    var tasks := store.Tasks();
    assert tasks.Success? && tasks.value == {Row(7, Sample(createdDate))};
  }
}
