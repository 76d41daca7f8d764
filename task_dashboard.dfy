/** The dashboard's state machine: the task list and the undo history the
    component keeps, and one method per action that changes them. Each
    method is specified by the pure transformation of `TaskList` it
    performs, so what is proved about those functions holds of the store. */
module TaskDashboard {
  import opened TaskList

  datatype Option<T> = None | Some(value: T)

  /** A batch the history can hold: one recorded index per removed task,
      at least one task, only completed tasks, indices strictly ascending. */
  ghost predicate WellFormedBatch(b: Batch) {
    && |b.tasks| == |b.indices| && |b.tasks| > 0
    && (forall k :: 0 <= k < |b.tasks| ==> b.tasks[k].completed)
    && (forall j, k :: 0 <= j < k < |b.indices| ==> b.indices[j] < b.indices[k])
  }

  /** Whenever something is removed, the batch recorded for it is one the
      history can hold. */
  lemma RemovedBatchWellFormed(ts: seq<Task>)
    requires CompletedTasks(ts) != []
    ensures WellFormedBatch(RemovedBatch(ts))
  {
    CompletedIndicesInRange(ts, 0);
    CompletedIndicesAscending(ts, 0);
    RemovalSplitsByCompletion(ts);
  }

  /** The state of the filter pass of `removeCompletedTasks` after the
      first `i` tasks: what has been kept, removed and recorded so far,
      followed by what the rest of the list contributes, is the whole
      split. */
  ghost predicate FilteredUpTo(ts: seq<Task>, i: nat, kept: seq<Task>, removed: seq<Task>, indices: seq<nat>) {
    && i <= |ts|
    && KeptTasks(ts) == kept + KeptTasks(ts[i..])
    && CompletedTasks(ts) == removed + CompletedTasks(ts[i..])
    && CompletedIndices(ts, 0) == indices + CompletedIndices(ts[i..], i)
  }

  /** One step of the filter pass: a completed task is collected with its
      index, any other task kept. */
  lemma FilterStep(ts: seq<Task>, i: nat, kept: seq<Task>, removed: seq<Task>, indices: seq<nat>)
    requires i < |ts| && FilteredUpTo(ts, i, kept, removed, indices)
    ensures ts[i].completed ==> FilteredUpTo(ts, i + 1, kept, removed + [ts[i]], indices + [i])
    ensures !ts[i].completed ==> FilteredUpTo(ts, i + 1, kept + [ts[i]], removed, indices)
  {
    assert ts[i..][1..] == ts[i + 1..];
    if ts[i].completed {
      RemovalOfCompletedHead(ts[i..], i);
    } else {
      RemovalOfKeptHead(ts[i..], i);
    }
  }

  /** At the end of the pass the collected sequences are the whole split. */
  lemma FilterDone(ts: seq<Task>, kept: seq<Task>, removed: seq<Task>, indices: seq<nat>)
    requires FilteredUpTo(ts, |ts|, kept, removed, indices)
    ensures kept == KeptTasks(ts) && removed == CompletedTasks(ts) && indices == CompletedIndices(ts, 0)
  {
    assert ts[|ts|..] == [];
    assert kept + [] == kept && removed + [] == removed && indices + [] == indices;
  }

  /** The `tasks.filter` pass of `removeCompletedTasks`: the incomplete
      tasks are kept, and each completed task is pushed, together with its
      index, onto the removed tasks and the recorded indices. */
  method FilterCompleted(ts: seq<Task>) returns (kept: seq<Task>, removed: seq<Task>, indices: seq<nat>)
    ensures kept == KeptTasks(ts) && removed == CompletedTasks(ts) && indices == CompletedIndices(ts, 0)
  {
    kept, removed, indices := [], [], [];
    var i := 0;
    while i < |ts|
      invariant 0 <= i <= |ts|
      invariant FilteredUpTo(ts, i, kept, removed, indices)
    {
      var task := ts[i];
      FilterStep(ts, i, kept, removed, indices);
      if task.completed {
        removed := removed + [task];
        indices := indices + [i];
      } else {
        kept := kept + [task];
      }
      i := i + 1;
    }
    FilterDone(ts, kept, removed, indices);
  }

  /** The ten example tasks the dashboard starts with. */
  function SeedTasks(): (r: seq<Task>)
    ensures |r| == 10
    ensures forall i :: 0 <= i < |r| ==>
      r[i].id == i + 1 && !r[i].completed && !r[i].timerRunning
      && r[i].elapsedTime == 0 && r[i].totalDuration == 0
  {
    [ Task(1, "Start the design system", false, false, 0, 0),
      Task(2, "Define a grid system", false, false, 0, 0),
      Task(3, "Establish a visual language", false, false, 0, 0),
      Task(4, "Curate a list of icon libraries", false, false, 0, 0),
      Task(5, "Create a color palette", false, false, 0, 0),
      Task(6, "Design primary UI components", false, false, 0, 0),
      Task(7, "Develop typography guidelines", false, false, 0, 0),
      Task(8, "Create user personas", false, false, 0, 0),
      Task(9, "Sketch wireframes for key pages", false, false, 0, 0),
      Task(10, "Plan user testing sessions", false, false, 0, 0) ]
  }

  class Dashboard {
    /** The list shown, first task on top. */
    var tasks: seq<Task>
    /** The undo stack; its last batch is undone first. */
    var history: seq<Batch>
    /** The task whose title is being edited, if any. */
    var editing: Option<int>

    ghost predicate Valid()
      reads this
    {
      forall k :: 0 <= k < |history| ==> WellFormedBatch(history[k])
    }

    constructor ()
      ensures Valid()
      ensures tasks == SeedTasks() && history == [] && editing == None
    {
      tasks := SeedTasks();
      history := [];
      editing := None;
    }

    method ToggleTaskCompletion(id: int, checked: bool)
      requires Valid()
      modifies this
      ensures Valid()
      ensures tasks == SetCompleted(old(tasks), id, checked)
      ensures history == old(history) && editing == old(editing)
    {
      tasks := SetCompleted(tasks, id, checked);
    }

    /** The filter pass keeps the incomplete tasks; the completed ones and
        their positions, if there are any, are pushed onto the history as
        one batch. */
    method RemoveCompletedTasks()
      requires Valid()
      modifies this
      ensures Valid()
      ensures tasks == KeptTasks(old(tasks))
      ensures CompletedTasks(old(tasks)) == [] ==> tasks == old(tasks) && history == old(history)
      ensures CompletedTasks(old(tasks)) != [] ==> history == old(history) + [RemovedBatch(old(tasks))]
      ensures editing == old(editing)
    {
      var updatedTasks, completedTasks, indices := FilterCompleted(tasks);
      if |completedTasks| > 0 {
        RemovedBatchWellFormed(tasks);
        history := history + [Batch(completedTasks, indices)];
      }
      NothingRemovedKeepsAll(tasks);
      tasks := updatedTasks;
    }

    /** Pops the last batch and splices its tasks, uncompleted, back into a
        copy of the list one at a time, in stored order. */
    method UndoChanges()
      requires Valid()
      modifies this
      ensures Valid()
      ensures old(history) == [] ==> tasks == old(tasks) && history == old(history)
      ensures old(history) != [] ==>
        var last := old(history)[|old(history)| - 1];
        && history == old(history)[..|old(history)| - 1]
        && tasks == Restore(old(tasks), last.tasks, last.indices)
        && |tasks| == |old(tasks)| + |last.tasks|
      ensures editing == old(editing)
    {
      if |history| > 0 {
        var lastRemoved := history[|history| - 1];
        var newTasks := tasks;
        var i := 0;
        while i < |lastRemoved.tasks|
          invariant 0 <= i <= |lastRemoved.tasks| == |lastRemoved.indices|
          invariant unchanged(this)
          invariant Restore(newTasks, lastRemoved.tasks[i..], lastRemoved.indices[i..])
                 == Restore(tasks, lastRemoved.tasks, lastRemoved.indices)
        {
          assert lastRemoved.tasks[i..] == [lastRemoved.tasks[i]] + lastRemoved.tasks[i + 1..];
          assert lastRemoved.indices[i..] == [lastRemoved.indices[i]] + lastRemoved.indices[i + 1..];
          RestoreStep(newTasks, lastRemoved.tasks[i], lastRemoved.tasks[i + 1..],
                      lastRemoved.indices[i], lastRemoved.indices[i + 1..]);
          newTasks := Insert(newTasks, lastRemoved.indices[i], lastRemoved.tasks[i].(completed := false));
          i := i + 1;
        }
        assert lastRemoved.tasks[i..] == [];
        tasks := newTasks;
        history := history[..|history| - 1];
      }
    }

    method EditTask(id: int)
      requires Valid()
      modifies this
      ensures Valid()
      ensures editing == Some(id)
      ensures tasks == old(tasks) && history == old(history)
    {
      editing := Some(id);
    }

    method SaveTask(id: int, newTitle: string)
      requires Valid()
      modifies this
      ensures Valid()
      ensures tasks == SetTitle(old(tasks), id, newTitle)
      ensures editing == None && history == old(history)
    {
      tasks := SetTitle(tasks, id, newTitle);
      editing := None;
    }

    method ToggleTimer(id: int)
      requires Valid()
      modifies this
      ensures Valid()
      ensures tasks == TaskList.ToggleTimer(old(tasks), id)
      ensures history == old(history) && editing == old(editing)
    {
      tasks := TaskList.ToggleTimer(tasks, id);
    }

    method ResetTimer(id: int)
      requires Valid()
      modifies this
      ensures Valid()
      ensures tasks == TaskList.ResetTimer(old(tasks), id)
      ensures history == old(history) && editing == old(editing)
    {
      tasks := TaskList.ResetTimer(tasks, id);
    }

    /** createNewTask, with the typed title as a parameter. */
    method CreateNewTask(title: string)
      requires Valid()
      modifies this
      ensures Valid()
      ensures tasks == CreateTask(old(tasks), title)
      ensures history == old(history) && editing == old(editing)
    {
      if !IsBlank(title) {
        var newTask := Task(NextId(tasks), Trim(title), false, false, 0, 0);
        tasks := [newTask] + tasks;
      }
    }

    /** The callback of the one-second interval. */
    method Tick()
      requires Valid()
      modifies this
      ensures Valid()
      ensures tasks == TaskList.Tick(old(tasks))
      ensures history == old(history) && editing == old(editing)
    {
      tasks := TaskList.Tick(tasks);
    }
  }

  /** "Remove completed" followed directly by "undo" puts every task back
      where it was, incomplete, and leaves the history as it was. */
  method RemoveThenUndo(d: Dashboard)
    requires d.Valid() && CompletedTasks(d.tasks) != []
    modifies d
    ensures d.Valid()
    ensures d.tasks == ClearCompleted(old(d.tasks))
    ensures d.history == old(d.history)
  {
    ghost var before := d.tasks;
    d.RemoveCompletedTasks();
    assert d.history[|d.history| - 1] == RemovedBatch(before);
    assert d.history[..|d.history| - 1] == old(d.history);
    d.UndoChanges();
    UndoRestoresRemoved(before);
  }
}
