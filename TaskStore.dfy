/**
 * The task page's state and its event handlers. The object holds the task
 * records and what the page shows of them: the list items and the two
 * counters. Each handler changes the records, re-renders, and returns the
 * message it writes to the status line.
 */
module TaskStoreApp {
  import opened JsString
  import opened TaskModel

  class TaskStore {
    /** The records, in insertion (and display) order. */
    var tasks: seq<Task>
    /** The rendered list items, one per record. */
    var rows: seq<Row>
    /** The numbers shown as the total and the done count. */
    var totalCount: nat
    var doneCount: nat

    /** The page shows the records as they are: one row per record in the
        same order, and the two counters. */
    ghost predicate InSync()
      reads this
    {
      |rows| == |tasks|
      && (forall i :: 0 <= i < |tasks| ==>
            rows[i].dataId == tasks[i].id && rows[i].text == tasks[i].text
            && (rows[i].hasDoneClass <==> tasks[i].done))
      && totalCount == |tasks|
      && doneCount == DoneCount(tasks)
    }

    /** What every handler keeps: distinct ids, trimmed non-empty texts, and a
        page in step with the records. */
    ghost predicate Valid()
      reads this
    {
      DistinctIds(tasks) && TextsTrimmed(tasks) && InSync()
    }

    /** The page at start-up: no records, rendered once. */
    constructor ()
      ensures Valid() && tasks == []
    {
      tasks := [];
      rows := [];
      totalCount, doneCount := 0, 0;
      new;
      Render();
    }

    /** updateCounts: the total is the number of records, and the done count
        is found by counting the done records. */
    method UpdateCounts()
      modifies this`totalCount, this`doneCount
      ensures totalCount == |tasks| && doneCount == DoneCount(tasks)
    {
      totalCount := |tasks|;
      var done := 0;
      for i := 0 to |tasks|
        invariant done == DoneCount(tasks[..i])
      {
        assert tasks[..i + 1][..i] == tasks[..i];
        if tasks[i].done {
          done := done + 1;
        }
      }
      assert tasks[..|tasks|] == tasks;
      doneCount := done;
    }

    /** renderTasks: rebuilds the list from the records, then updates the
        counters. */
    method Render()
      modifies this`rows, this`totalCount, this`doneCount
      ensures InSync()
    {
      var items: seq<Row> := [];
      for i := 0 to |tasks|
        invariant |items| == i
        invariant forall k :: 0 <= k < i ==>
                    items[k].dataId == tasks[k].id && items[k].text == tasks[k].text
                    && (items[k].hasDoneClass <==> tasks[k].done)
      {
        var task := tasks[i];
        items := items + [Row(task.id, task.text, task.done)];
      }
      rows := items;
      UpdateCounts();
    }

    /** The submit handler. Input that trims to nothing is refused and changes
        nothing; otherwise a not-done record with the trimmed text and the
        generated id is appended. The id generator is the caller's: it must
        yield an id no record has. */
    method Add(raw: string, id: string) returns (status: Status)
      requires Valid()
      requires Trim(raw) != [] ==> !HasId(tasks, id)
      modifies this
      ensures Valid()
      ensures Trim(raw) == [] ==> status == EmptyInput && unchanged(this)
      ensures Trim(raw) != [] ==> status == TaskAdded
                                  && tasks == old(tasks) + [Task(id, Trim(raw), false)]
    {
      var text := Trim(raw);
      if |text| == 0 {
        status := EmptyInput;
        return;
      }
      AppendFresh(tasks, Task(id, text, false));
      tasks := tasks + [Task(id, text, false)];
      status := TaskAdded;
      Render();
    }

    /** The delete button: every record with the id goes, the others stay in
        order; with distinct ids that is one record or, for an unknown id,
        none. */
    method Delete(id: string) returns (status: Status)
      requires Valid()
      modifies this
      ensures Valid()
      ensures status == TaskDeleted
      ensures tasks == WithoutId(old(tasks), id)
      ensures |tasks| == |old(tasks)| - (if HasId(old(tasks), id) then 1 else 0)
      ensures !HasId(old(tasks), id) ==> tasks == old(tasks)
    {
      FilterDistinct(tasks, OtherId(id));
      FilterTexts(tasks, OtherId(id));
      WithoutIdLength(tasks, id);
      if !HasId(tasks, id) {
        WithoutAbsentId(tasks, id);
      }
      tasks := WithoutId(tasks, id);
      status := TaskDeleted;
      Render();
    }

    /** A click on a row elsewhere than its delete button: the first record
        with the id has its done flag flipped and the status says which way.
        An unknown id returns at once, with no status and no re-render. */
    method Toggle(id: string) returns (status: Option<Status>)
      requires Valid()
      modifies this
      ensures Valid()
      ensures tasks == Toggled(old(tasks), id)
      ensures !HasId(old(tasks), id) ==> status == None && unchanged(this)
      ensures HasId(old(tasks), id) ==>
                var i := FirstIndex(old(tasks), id).value;
                status == Some(if tasks[i].done then MarkedComplete else MarkedActive)
    {
      var found := FirstIndex(tasks, id);
      if found.None? {
        status := None;
        return;
      }
      ToggleDistinct(tasks, id);
      var i := found.value;
      tasks := tasks[i := tasks[i].(done := !tasks[i].done)];
      status := Some(if tasks[i].done then MarkedComplete else MarkedActive);
      Render();
    }

    /** The clear-completed button: the done records go, the others stay in
        order. The status says nothing was cleared exactly when the length did
        not change, which is exactly when no record was done. */
    method ClearCompleted() returns (status: Status)
      requires Valid()
      modifies this
      ensures Valid()
      ensures tasks == Active(old(tasks))
      ensures forall i :: 0 <= i < |tasks| ==> !tasks[i].done
      ensures status == (if |tasks| == |old(tasks)| then NothingToClear else ClearedCompleted)
      ensures status == NothingToClear <==> DoneCount(old(tasks)) == 0
    {
      var before := |tasks|;
      FilterDistinct(tasks, NotDone);
      FilterTexts(tasks, NotDone);
      ActiveUnchanged(tasks);
      ActiveNoneDone(tasks);
      tasks := Active(tasks);
      var after := |tasks|;
      if before == after {
        status := NothingToClear;
      } else {
        status := ClearedCompleted;
      }
      Render();
    }
  }

  /** Add a task, mark it done, delete it; the counters follow. */
  method AddToggleDeleteScenario(raw: string, id: string)
    requires raw != [] && IsTrimmed(raw)
  {
    var store := new TaskStore();
    TrimOfTrimmed(raw);
    var s := store.Add(raw, id);
    var one := [Task(id, raw, false)];
    assert store.tasks == one;
    assert HasId(one, id);
    var t := store.Toggle(id);
    var done := [Task(id, raw, true)];
    assert store.tasks == done;
    assert t == Some(MarkedComplete);
    assert DoneCount(done) == 1 by {
      assert done[..0] == [];
    }
    assert store.totalCount == 1 && store.doneCount == 1;
    s := store.Delete(id);
    assert HasId(done, id);
    assert store.tasks == [];
    assert store.totalCount == 0 && store.doneCount == 0;
  }

  /** Input of white space only is refused and changes nothing. */
  method EmptyInputScenario(raw: string, id: string)
    requires AllWhitespace(raw)
  {
    var store := new TaskStore();
    var s := store.Add(raw, id);
    assert s == EmptyInput && store.tasks == [];
  }

  /** The list operations behind ClearScenario, on its two records. */
  lemma ClearScenarioSteps(x: Task, y: Task)
    requires x.id != y.id && !x.done && !y.done
    ensures Toggled([x, y], x.id) == [x.(done := true), y]
    ensures Active([x.(done := true), y]) == [y]
  {
    assert FirstIndex([x, y], x.id) == Some(0);
    assert [x.(done := true), y] == [x.(done := true)] + [y];
    FilterAppend([x.(done := true)], [y], NotDone);
    assert [x.(done := true)][1..] == [] && [y][1..] == [];
  }

  /** Add two tasks, mark the first done and clear: only the second is left. */
  method ClearScenario(a: string, b: string, ida: string, idb: string)
    requires a != [] && IsTrimmed(a) && b != [] && IsTrimmed(b)
    requires ida != idb
  {
    var store := new TaskStore();
    TrimOfTrimmed(a);
    TrimOfTrimmed(b);
    var s := store.Add(a, ida);
    assert store.tasks == [Task(ida, a, false)];
    s := store.Add(b, idb);
    var x, y := Task(ida, a, false), Task(idb, b, false);
    assert store.tasks == [x, y];
    ClearScenarioSteps(x, y);
    var t := store.Toggle(ida);
    s := store.ClearCompleted();
    assert store.tasks == [y];
    assert s == ClearedCompleted;
  }
}
