/**
 * The in-memory task store and its five routes. The shared state is a list of
 * tasks kept in insertion order and a counter that hands out ids. Whether the
 * list's lock could be taken without waiting is an input, `lockOk`, of each
 * route.
 */
module Routes {
  import opened Wrappers
  import opened Errors
  import opened Models

  // ---------------------------------------------------------------------------
  // Reference definitions for the list operations
  // ---------------------------------------------------------------------------

  /** The index of the first task with id `id`, as `iter().find` would reach it. */
  function FirstMatch(tasks: seq<Task>, id: nat): (r: Option<nat>)
    ensures r.Some? ==> r.value < |tasks| && tasks[r.value].id == id
    ensures r.Some? ==> forall j :: 0 <= j < r.value ==> tasks[j].id != id
    ensures r.None? <==> forall j :: 0 <= j < |tasks| ==> tasks[j].id != id
  {
    if tasks == [] then None
    else if tasks[0].id == id then Some(0)
    else match FirstMatch(tasks[1..], id)
      case None => None
      case Some(k) => Some(k + 1)
  }

  /** What a lookup by id answers: the first task with that id, or `IdNotFound`. */
  function Lookup(tasks: seq<Task>, id: nat): (r: Result<Task, AppError>)
    ensures r.Ok? ==> r.value in tasks && r.value.id == id
    ensures r.Ok? ==> exists i :: 0 <= i < |tasks| && tasks[i] == r.value &&
                       forall j :: 0 <= j < i ==> tasks[j].id != id
    ensures r.Err? <==> forall t :: t in tasks ==> t.id != id
    ensures r.Err? ==> r.error == IdNotFound(id)
  {
    match FirstMatch(tasks, id)
    case Some(i) => Ok(tasks[i])
    case None => Err(IdNotFound(id))
  }

  /** `Vec::remove(i)`: the element at `i` goes, the others keep their order. */
  function RemoveAt(tasks: seq<Task>, i: nat): (r: seq<Task>)
    requires i < |tasks|
    ensures |r| == |tasks| - 1
    ensures forall k :: 0 <= k < i ==> r[k] == tasks[k]
    ensures forall k :: i <= k < |r| ==> r[k] == tasks[k + 1]
  {
    tasks[..i] + tasks[i + 1..]
  }

  ghost predicate UniqueIds(tasks: seq<Task>) {
    forall i, j :: 0 <= i < j < |tasks| ==> tasks[i].id != tasks[j].id
  }

  ghost predicate IdsBelow(tasks: seq<Task>, bound: nat) {
    forall i :: 0 <= i < |tasks| ==> tasks[i].id < bound
  }

  ghost predicate TitlesPresent(tasks: seq<Task>) {
    forall i :: 0 <= i < |tasks| ==> !Blank(tasks[i].title)
  }

  // ---------------------------------------------------------------------------
  // Properties of the reference definitions
  // ---------------------------------------------------------------------------

  /**
   * A task appended with an id no stored task reaches is the one a lookup of
   * that id finds.
   */
  lemma {:induction false} FindAfterAppend(tasks: seq<Task>, t: Task)
    requires IdsBelow(tasks, t.id)
    ensures Lookup(tasks + [t], t.id) == Ok(t)
  {
    var s := tasks + [t];
    assert s[|tasks|] == t;
    forall j | 0 <= j < |tasks| ensures s[j].id != t.id {
      assert s[j] == tasks[j];
    }
  }

  /** Once the only task with an id is removed, a lookup of that id fails. */
  lemma {:induction false} FindAfterRemove(tasks: seq<Task>, id: nat, i: nat)
    requires UniqueIds(tasks)
    requires FirstMatch(tasks, id) == Some(i)
    ensures Lookup(RemoveAt(tasks, i), id) == Err(IdNotFound(id))
  {
    var r := RemoveAt(tasks, i);
    forall k | 0 <= k < |r| ensures r[k].id != id {
      if k < i {
        assert r[k] == tasks[k];
      } else {
        assert r[k] == tasks[k + 1];
        assert tasks[i].id != tasks[k + 1].id;
      }
    }
  }

  /**
   * Replacing the first task with an id by one with the same id keeps it the
   * first, so a lookup finds the replacement.
   */
  lemma {:induction false} FindAfterReplace(tasks: seq<Task>, i: nat, t: Task)
    requires FirstMatch(tasks, t.id) == Some(i)
    ensures Lookup(tasks[i := t], t.id) == Ok(t)
  {
    var s := tasks[i := t];
    assert s[i] == t;
    forall j | 0 <= j < i ensures s[j].id != t.id {
      assert s[j] == tasks[j];
    }
  }

  /** Appending a task whose id is the counter keeps the ids distinct and below the advanced counter. */
  lemma {:induction false} AppendKeepsIds(tasks: seq<Task>, t: Task)
    requires UniqueIds(tasks) && IdsBelow(tasks, t.id)
    ensures UniqueIds(tasks + [t]) && IdsBelow(tasks + [t], t.id + 1)
  {
    var s := tasks + [t];
    forall i | 0 <= i < |tasks| ensures s[i] == tasks[i] && s[i].id < t.id {
    }
  }

  /** Appending a task with a non-blank title keeps every stored title non-blank. */
  lemma {:induction false} AppendKeepsTitles(tasks: seq<Task>, t: Task)
    requires !Blank(t.title)
    ensures TitlesPresent(tasks) ==> TitlesPresent(tasks + [t])
  {
    var s := tasks + [t];
    forall i | 0 <= i < |tasks| ensures s[i] == tasks[i] {
    }
  }

  // ---------------------------------------------------------------------------
  // The shared state and the routes
  // ---------------------------------------------------------------------------

  /** `AppData`: the id counter and the task list, shared by every request. */
  class AppData {
    var idTracker: nat
    var taskList: seq<Task>

    /** Ids are pairwise distinct and every one was handed out by the counter. */
    ghost predicate Valid()
      reads this
    {
      UniqueIds(taskList) && IdsBelow(taskList, idTracker)
    }

    /** The state the service starts with: counter 0 and no tasks. */
    constructor ()
      ensures Valid()
      ensures idTracker == 0 && taskList == []
    {
      idTracker := 0;
      taskList := [];
    }

    /** The linear scan that `find_by_id`, `delete` and `update` share. */
    method FindIndex(id: nat) returns (r: Option<nat>)
      ensures r == FirstMatch(taskList, id)
    {
      var i := 0;
      while i < |taskList|
        invariant 0 <= i <= |taskList|
        invariant forall j :: 0 <= j < i ==> taskList[j].id != id
      {
        if taskList[i].id == id {
          return Some(i);
        }
        i := i + 1;
      }
      return None;
    }

    /**
     * `insert`: a blank title is refused before anything changes. Otherwise an
     * id is drawn from the counter first, and only then is the lock tried, so a
     * failed lock still uses up that id.
     */
    method Insert(insertTask: InsertTask, lockOk: bool) returns (r: Result<Task, AppError>)
      requires Valid()
      modifies this
      ensures Valid()
      ensures Blank(insertTask.nonEmptyTitle) ==>
                r == Err(EmptyTitle) && idTracker == old(idTracker) && taskList == old(taskList)
      ensures !Blank(insertTask.nonEmptyTitle) ==> idTracker == old(idTracker) + 1
      ensures !Blank(insertTask.nonEmptyTitle) && !lockOk ==>
                r == Err(Internal) && taskList == old(taskList)
      ensures !Blank(insertTask.nonEmptyTitle) && lockOk ==>
                && r == Ok(Task(old(idTracker), insertTask.nonEmptyTitle, insertTask.details))
                && taskList == old(taskList) + [r.value]
      ensures old(TitlesPresent(taskList)) ==> TitlesPresent(taskList)
    {
      if Blank(insertTask.nonEmptyTitle) {
        return Err(EmptyTitle);
      }
      var id := idTracker;
      idTracker := idTracker + 1;
      var newTask := Task(id, insertTask.nonEmptyTitle, insertTask.details);
      if !lockOk {
        return Err(Internal);
      }
      AppendKeepsIds(taskList, newTask);
      AppendKeepsTitles(taskList, newTask);
      taskList := taskList + [newTask];
      r := Ok(newTask);
    }

    /** `find_all`: the whole list, in its current order. */
    method FindAll(lockOk: bool) returns (r: Result<seq<Task>, AppError>)
      ensures lockOk ==> r == Ok(taskList)
      ensures !lockOk ==> r == Err(Internal)
    {
      if !lockOk {
        return Err(Internal);
      }
      r := Ok(taskList);
    }

    /** `find_by_id`: the first task with the id, or `IdNotFound(id)`. */
    method FindById(id: nat, lockOk: bool) returns (r: Result<Task, AppError>)
      ensures lockOk ==> r == Lookup(taskList, id)
      ensures !lockOk ==> r == Err(Internal)
    {
      if !lockOk {
        return Err(Internal);
      }
      var found := FindIndex(id);
      match found
      case None =>
        r := Err(IdNotFound(id));
      case Some(i) =>
        r := Ok(taskList[i]);
    }

    /**
     * `delete`: removes the first task with the id and returns it; the other
     * tasks keep their order. Without a match nothing changes.
     */
    method Delete(id: nat, lockOk: bool) returns (r: Result<Task, AppError>)
      requires Valid()
      modifies this
      ensures Valid() && idTracker == old(idTracker)
      ensures !lockOk ==> r == Err(Internal) && taskList == old(taskList)
      ensures lockOk && FirstMatch(old(taskList), id).None? ==>
                r == Err(IdNotFound(id)) && taskList == old(taskList)
      ensures lockOk && FirstMatch(old(taskList), id).Some? ==>
                var i := FirstMatch(old(taskList), id).value;
                r == Ok(old(taskList)[i]) && taskList == RemoveAt(old(taskList), i)
      ensures old(TitlesPresent(taskList)) ==> TitlesPresent(taskList)
    {
      if !lockOk {
        return Err(Internal);
      }
      var found := FindIndex(id);
      match found
      case None =>
        r := Err(IdNotFound(id));
      case Some(i) =>
        var task := taskList[i];
        taskList := RemoveAt(taskList, i);
        r := Ok(task);
    }

    /**
     * `update`: the first task with the requested id gets the new title and
     * details in place; its id and position stay, the other tasks are
     * untouched, and the updated task is returned. Without a match nothing
     * changes.
     */
    method Update(updateTask: UpdateTask, lockOk: bool) returns (r: Result<Task, AppError>)
      requires Valid()
      modifies this
      ensures Valid() && idTracker == old(idTracker)
      ensures !lockOk ==> r == Err(Internal) && taskList == old(taskList)
      ensures lockOk && FirstMatch(old(taskList), updateTask.id).None? ==>
                r == Err(IdNotFound(updateTask.id)) && taskList == old(taskList)
      ensures lockOk && FirstMatch(old(taskList), updateTask.id).Some? ==>
                var i := FirstMatch(old(taskList), updateTask.id).value;
                && r == Ok(Task(old(taskList)[i].id, updateTask.newTitle, updateTask.details))
                && taskList == old(taskList)[i := r.value]
      ensures old(TitlesPresent(taskList)) && !Blank(updateTask.newTitle) ==> TitlesPresent(taskList)
    {
      if !lockOk {
        return Err(Internal);
      }
      var found := FindIndex(updateTask.id);
      match found
      case None =>
        r := Err(IdNotFound(updateTask.id));
      case Some(i) =>
        var task := Task(taskList[i].id, updateTask.newTitle, updateTask.details);
        taskList := taskList[i := task];
        r := Ok(task);
    }
  }

  // ---------------------------------------------------------------------------
  // Sequences of requests
  // ---------------------------------------------------------------------------

  /** After a successful insert, looking up the returned id gives back the same task. */
  method InsertThenFindById(app: AppData, insertTask: InsertTask) returns (inserted: Result<Task, AppError>, found: Result<Task, AppError>)
    requires app.Valid() && !Blank(insertTask.nonEmptyTitle)
    modifies app
    ensures app.Valid()
    ensures inserted.Ok? && found == inserted
  {
    ghost var before := app.taskList;
    inserted := app.Insert(insertTask, true);
    FindAfterAppend(before, inserted.value);
    found := app.FindById(inserted.value.id, true);
  }

  /** Once a task is deleted, looking up its id fails with `IdNotFound`. */
  method DeleteThenFindById(app: AppData, id: nat) returns (deleted: Result<Task, AppError>, found: Result<Task, AppError>)
    requires app.Valid()
    modifies app
    ensures app.Valid()
    ensures found == Err(IdNotFound(id))
  {
    ghost var before := app.taskList;
    deleted := app.Delete(id, true);
    if FirstMatch(before, id).Some? {
      FindAfterRemove(before, id, FirstMatch(before, id).value);
    }
    found := app.FindById(id, true);
  }

  /** After a successful update, looking up the id gives back the updated task. */
  method UpdateThenFindById(app: AppData, updateTask: UpdateTask) returns (updated: Result<Task, AppError>, found: Result<Task, AppError>)
    requires app.Valid()
    modifies app
    ensures app.Valid()
    ensures updated.Ok? ==> found == updated && found.value.id == updateTask.id
    ensures updated.Err? ==> updated == found == Err(IdNotFound(updateTask.id))
  {
    ghost var before := app.taskList;
    updated := app.Update(updateTask, true);
    if FirstMatch(before, updateTask.id).Some? {
      FindAfterReplace(before, FirstMatch(before, updateTask.id).value, updated.value);
    }
    found := app.FindById(updateTask.id, true);
  }

  /** Two inserts into a fresh store, then listing it: ids 0 and 1, in insertion order. */
  method SessionInsertAndList() returns (app: AppData)
    ensures fresh(app) && app.Valid()
    ensures app.idTracker == 2 && app.taskList == [Task(0, "Buy milk", "2%"), Task(1, "Walk dog", "")]
  {
    app := new AppData();
    var milk := "Buy milk";
    var dog := "Walk dog";
    assert !IsWhitespace(milk[0]) && !IsWhitespace(dog[0]);
    var t0 := app.Insert(InsertTask(milk, "2%"), true);
    assert t0 == Ok(Task(0, milk, "2%"));
    var t1 := app.Insert(InsertTask(dog, ""), true);
    assert t1 == Ok(Task(1, dog, ""));
    assert app.taskList == [Task(0, milk, "2%"), Task(1, dog, "")];
    var all := app.FindAll(true);
    assert all == Ok([Task(0, milk, "2%"), Task(1, dog, "")]);
  }

  /** Continues the session: an update of task 0, then the deletion of task 1. */
  method SessionUpdateAndDelete() returns (app: AppData)
    ensures fresh(app) && app.Valid()
    ensures app.idTracker == 2 && app.taskList == [Task(0, "Buy oat milk", "2%")]
  {
    app := SessionInsertAndList();
    assert FirstMatch(app.taskList, 0) == Some(0) && app.taskList[0].id == 0;
    var u := app.Update(UpdateTask(0, "Buy oat milk", "2%"), true);
    assert u == Ok(Task(0, "Buy oat milk", "2%"));
    assert app.taskList == [Task(0, "Buy oat milk", "2%"), Task(1, "Walk dog", "")];
    assert FirstMatch(app.taskList, 1) == Some(1);
    var d := app.Delete(1, true);
    assert d == Ok(Task(1, "Walk dog", ""));
  }

  /** Ends the session: a missing id and a busy lock change nothing but the counter. */
  method SessionFailures() {
    var app := SessionUpdateAndDelete();
    assert FirstMatch(app.taskList, 7) == None;
    var missing := app.Update(UpdateTask(7, "x", ""), true);
    assert missing == Err(IdNotFound(7));
    var gone := app.FindById(1, true);
    assert gone == Err(IdNotFound(1));
    assert !IsWhitespace("x"[0]);
    var busy := app.Insert(InsertTask("x", ""), false);
    assert busy == Err(Internal) && app.idTracker == 3;
    var all := app.FindAll(true);
    assert all == Ok([Task(0, "Buy oat milk", "2%")]);
  }
}
