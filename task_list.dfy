/** The task records of the dashboard and the pure transformations the
    dashboard applies to its list of tasks: the per-id record rebuilds, the
    one-second tick, the split performed by "remove completed", the splice
    sequence performed by "undo", and the derived metrics. */
module TaskList {

  /** One row of the dashboard. `elapsedTime` counts the seconds of the
      interval being timed now; `totalDuration` the seconds of the intervals
      already stopped. The source calls the label `task`. */
  datatype Task = Task(
    id: int,
    title: string,
    completed: bool,
    timerRunning: bool,
    elapsedTime: nat,
    totalDuration: nat)

  /** One entry of the undo history: the removed tasks, and for each the
      position it had in the list before the removal. */
  datatype Batch = Batch(tasks: seq<Task>, indices: seq<nat>)

  function Min(a: nat, b: nat): nat { if a <= b then a else b }

  // ---------------------------------------------------------------------
  // Whitespace trimming (String.prototype.trim)
  // ---------------------------------------------------------------------

  /** The characters `trim` strips: tab, vertical tab, form feed, the space
      separators, the byte order mark, and the line terminators. */
  predicate IsWhitespace(c: char) {
    c == '\t' || c == '\U{0B}' || c == '\U{0C}' || c == ' ' || c == '\U{A0}' || c == '\U{FEFF}'
    || c == '\U{1680}' || ('\U{2000}' <= c <= '\U{200A}') || c == '\U{202F}' || c == '\U{205F}' || c == '\U{3000}'
    || c == '\n' || c == '\r' || c == '\U{2028}' || c == '\U{2029}'
  }

  /** Drops the longest whitespace prefix. */
  function TrimStart(s: string): (r: string)
    ensures |r| <= |s| && r == s[|s| - |r|..]
    ensures forall i :: 0 <= i < |s| - |r| ==> IsWhitespace(s[i])
    ensures r != [] ==> !IsWhitespace(r[0])
  {
    if s != [] && IsWhitespace(s[0]) then TrimStart(s[1..]) else s
  }

  /** Drops the longest whitespace suffix. */
  function TrimEnd(s: string): (r: string)
    ensures |r| <= |s| && r == s[..|r|]
    ensures forall i :: |r| <= i < |s| ==> IsWhitespace(s[i])
    ensures r != [] ==> !IsWhitespace(r[|r| - 1])
  {
    if s != [] && IsWhitespace(s[|s| - 1]) then TrimEnd(s[..|s| - 1]) else s
  }

  /** `r` is the slice of `s` that starts at `k`, and every character of
      `s` before or after that slice is whitespace. */
  predicate IsInnerSlice(s: string, r: string, k: nat) {
    && k + |r| <= |s| && r == s[k..k + |r|]
    && (forall i :: 0 <= i < k ==> IsWhitespace(s[i]))
    && (forall i :: k + |r| <= i < |s| ==> IsWhitespace(s[i]))
  }

  /** `s.trim()`: what is left of `s` once the whitespace at both ends is
      dropped; empty exactly when `s` is all whitespace. */
  function Trim(s: string): (r: string)
    ensures exists k :: IsInnerSlice(s, r, k)
    ensures r != [] ==> !IsWhitespace(r[0]) && !IsWhitespace(r[|r| - 1])
    ensures r == [] <==> forall i :: 0 <= i < |s| ==> IsWhitespace(s[i])
  {
    TrimBothEnds(s);
    TrimEnd(TrimStart(s))
  }

  /** Dropping whitespace at the front and then at the back leaves an
      inner slice. */
  lemma TrimBothEnds(s: string)
    ensures IsInnerSlice(s, TrimEnd(TrimStart(s)), |s| - |TrimStart(s)|)
  {
    InnerSliceOfSuffix(s, TrimStart(s), TrimEnd(TrimStart(s)));
  }

  /** A prefix `r` of a suffix `t` of `s`, each cut off at whitespace only,
      is an inner slice of `s`. */
  lemma InnerSliceOfSuffix(s: string, t: string, r: string)
    requires |t| <= |s| && t == s[|s| - |t|..]
    requires forall i :: 0 <= i < |s| - |t| ==> IsWhitespace(s[i])
    requires |r| <= |t| && r == t[..|r|]
    requires forall i :: |r| <= i < |t| ==> IsWhitespace(t[i])
    ensures IsInnerSlice(s, r, |s| - |t|)
  {
    var k := |s| - |t|;
    assert r == s[k..k + |r|];
    forall i | k + |r| <= i < |s| ensures IsWhitespace(s[i]) {
      assert s[i] == t[i - k];
    }
  }

  /** The guard of task creation: the title trims to nothing. */
  predicate IsBlank(s: string) { Trim(s) == [] }

  lemma {:induction false} TrimIdempotent(s: string)
    ensures Trim(Trim(s)) == Trim(s)
  {
    var r := Trim(s);
    if r != [] {
      assert TrimStart(r) == r;
      assert TrimEnd(r) == r;
    }
  }

  // ---------------------------------------------------------------------
  // Per-id record rebuilds (`tasks.map(task => task.id === id ? … : task)`)
  // ---------------------------------------------------------------------

  /** toggleTaskCompletion: every task whose id matches gets `completed :=
      checked`; nothing else changes. */
  function SetCompleted(ts: seq<Task>, id: int, checked: bool): (r: seq<Task>)
    ensures |r| == |ts|
    ensures forall i :: 0 <= i < |ts| ==>
      r[i] == ts[i].(completed := if ts[i].id == id then checked else ts[i].completed)
  {
    if ts == [] then []
    else [if ts[0].id == id then ts[0].(completed := checked) else ts[0]]
         + SetCompleted(ts[1..], id, checked)
  }

  /** saveTask: every task whose id matches gets the new title, kept as
      given (not trimmed, possibly empty); nothing else changes. */
  function SetTitle(ts: seq<Task>, id: int, title: string): (r: seq<Task>)
    ensures |r| == |ts|
    ensures forall i :: 0 <= i < |ts| ==>
      r[i] == ts[i].(title := if ts[i].id == id then title else ts[i].title)
  {
    if ts == [] then []
    else [if ts[0].id == id then ts[0].(title := title) else ts[0]]
         + SetTitle(ts[1..], id, title)
  }

  /** What the dashboard shows as a task's time: the stopped intervals,
      plus the running one while the timer runs. */
  function DisplayedTime(t: Task): (n: nat)
    ensures t.totalDuration <= n <= t.totalDuration + t.elapsedTime
    ensures !t.timerRunning ==> n == t.totalDuration
  {
    t.totalDuration + (if t.timerRunning then t.elapsedTime else 0)
  }

  /** toggleTimer on one task: stopping moves the running interval into
      the total, starting begins a fresh interval. */
  function FlipTimer(t: Task): (r: Task)
    ensures r.id == t.id && r.title == t.title && r.completed == t.completed
    ensures r.timerRunning == !t.timerRunning && r.elapsedTime == 0
    ensures DisplayedTime(r) == DisplayedTime(t)
  {
    if t.timerRunning then
      t.(timerRunning := false, totalDuration := t.totalDuration + t.elapsedTime, elapsedTime := 0)
    else
      t.(timerRunning := true, elapsedTime := 0)
  }

  /** toggleTimer: matching tasks flip their timer, restart the running
      interval at zero and keep the time they display; others untouched. */
  function ToggleTimer(ts: seq<Task>, id: int): (r: seq<Task>)
    ensures |r| == |ts|
    ensures forall i :: 0 <= i < |ts| && ts[i].id != id ==> r[i] == ts[i]
    ensures forall i :: 0 <= i < |ts| && ts[i].id == id ==>
      && r[i].id == id && r[i].title == ts[i].title && r[i].completed == ts[i].completed
      && r[i].timerRunning == !ts[i].timerRunning && r[i].elapsedTime == 0
      && DisplayedTime(r[i]) == DisplayedTime(ts[i])
  {
    if ts == [] then []
    else [if ts[0].id == id then FlipTimer(ts[0]) else ts[0]] + ToggleTimer(ts[1..], id)
  }

  /** resetTimer: matching tasks end stopped with both counters zero,
      whatever their prior state; others untouched. */
  function ResetTimer(ts: seq<Task>, id: int): (r: seq<Task>)
    ensures |r| == |ts|
    ensures forall i :: 0 <= i < |ts| && ts[i].id != id ==> r[i] == ts[i]
    ensures forall i :: 0 <= i < |ts| && ts[i].id == id ==>
      r[i] == ts[i].(timerRunning := false, elapsedTime := 0, totalDuration := 0)
  {
    if ts == [] then []
    else [if ts[0].id == id then ts[0].(elapsedTime := 0, totalDuration := 0, timerRunning := false) else ts[0]]
         + ResetTimer(ts[1..], id)
  }

  /** The one-second tick: each running task's elapsed counter goes up by
      one; every other field and every stopped task is untouched. */
  function Tick(ts: seq<Task>): (r: seq<Task>)
    ensures |r| == |ts|
    ensures forall i :: 0 <= i < |ts| ==>
      r[i] == ts[i].(elapsedTime := ts[i].elapsedTime + if ts[i].timerRunning then 1 else 0)
  {
    if ts == [] then []
    else [if ts[0].timerRunning then ts[0].(elapsedTime := ts[0].elapsedTime + 1) else ts[0]]
         + Tick(ts[1..])
  }

  /** `n` consecutive ticks. */
  function Ticks(ts: seq<Task>, n: nat): seq<Task> {
    if n == 0 then ts else Tick(Ticks(ts, n - 1))
  }

  // ---------------------------------------------------------------------
  // Task creation
  // ---------------------------------------------------------------------

  /** `Math.max(...tasks.map(t => t.id))` on a non-empty list. */
  function MaxId(ts: seq<Task>): (r: int)
    requires ts != []
    ensures exists i :: 0 <= i < |ts| && ts[i].id == r
    ensures forall i :: 0 <= i < |ts| ==> ts[i].id <= r
  {
    if |ts| == 1 then ts[0].id
    else
      var m := MaxId(ts[1..]);
      assert forall i :: 1 <= i < |ts| ==> ts[i] == ts[1..][i - 1];
      if ts[0].id >= m then ts[0].id else m
  }

  /** The id a new task receives: one above the largest id, or 1 for an
      empty list. */
  function NextId(ts: seq<Task>): (r: int)
    ensures forall i :: 0 <= i < |ts| ==> ts[i].id < r
    ensures ts == [] ==> r == 1
    ensures ts != [] ==> exists i :: 0 <= i < |ts| && ts[i].id == r - 1
  {
    if |ts| > 0 then MaxId(ts) + 1 else 1
  }

  /** createNewTask: a blank title leaves the list as it is; otherwise a
      fresh stopped, incomplete task with zero counters and the trimmed
      title goes in front of the unchanged old list. */
  function CreateTask(ts: seq<Task>, title: string): (r: seq<Task>)
    ensures IsBlank(title) ==> r == ts
    ensures !IsBlank(title) ==>
      && |r| == |ts| + 1 && r[1..] == ts
      && r[0].id == NextId(ts)
      && (forall i :: 0 <= i < |ts| ==> ts[i].id < r[0].id)
      && r[0].title == Trim(title) && r[0].title != []
      && !r[0].completed && !r[0].timerRunning
      && r[0].elapsedTime == 0 && r[0].totalDuration == 0
  {
    if IsBlank(title) then ts
    else [Task(NextId(ts), Trim(title), false, false, 0, 0)] + ts
  }

  // ---------------------------------------------------------------------
  // Remove completed: the filter pass, and the batch it records
  // ---------------------------------------------------------------------

  /** The tasks the filter keeps: the incomplete ones, in order. */
  function KeptTasks(ts: seq<Task>): (r: seq<Task>)
    ensures |r| + |CompletedTasks(ts)| == |ts|
  {
    if ts == [] then []
    else (if ts[0].completed then [] else [ts[0]]) + KeptTasks(ts[1..])
  }

  /** The tasks the filter removes: the completed ones, in order. */
  function CompletedTasks(ts: seq<Task>): (r: seq<Task>)
    ensures |r| <= |ts|
  {
    if ts == [] then []
    else (if ts[0].completed then [ts[0]] else []) + CompletedTasks(ts[1..])
  }

  /** Removal loses no task: the kept and the removed tasks together are
      the old list, as a multiset. */
  lemma {:induction false} RemovalPartitions(ts: seq<Task>)
    ensures multiset(KeptTasks(ts)) + multiset(CompletedTasks(ts)) == multiset(ts)
    decreases |ts|
  {
    if ts != [] {
      RemovalPartitions(ts[1..]);
      assert ts == [ts[0]] + ts[1..];
    }
  }

  /** The positions, offset by `base`, of the completed tasks; at most one
      per task. */
  function CompletedIndices(ts: seq<Task>, base: nat): (r: seq<nat>)
    ensures |r| <= |ts|
  {
    if ts == [] then []
    else
      var rest := CompletedIndices(ts[1..], base + 1);
      if ts[0].completed then [base] + rest else rest
  }

  /** The filter keeps only incomplete tasks and removes only completed
      ones. */
  lemma {:induction false} RemovalSplitsByCompletion(ts: seq<Task>)
    ensures forall i :: 0 <= i < |KeptTasks(ts)| ==> !KeptTasks(ts)[i].completed
    ensures forall i :: 0 <= i < |CompletedTasks(ts)| ==> CompletedTasks(ts)[i].completed
    decreases |ts|
  {
    if ts != [] {
      RemovalSplitsByCompletion(ts[1..]);
    }
  }

  /** There is one recorded index per removed task, and each lies within
      the old list. */
  lemma {:induction false} CompletedIndicesInRange(ts: seq<Task>, base: nat)
    ensures |CompletedIndices(ts, base)| == |CompletedTasks(ts)|
    ensures forall k :: 0 <= k < |CompletedIndices(ts, base)| ==>
      base <= CompletedIndices(ts, base)[k] < base + |ts|
    decreases |ts|
  {
    if ts != [] {
      CompletedIndicesInRange(ts[1..], base + 1);
    }
  }

  /** The recorded indices strictly ascend. */
  lemma {:induction false} CompletedIndicesAscending(ts: seq<Task>, base: nat)
    ensures forall j, k :: 0 <= j < k < |CompletedIndices(ts, base)| ==>
      CompletedIndices(ts, base)[j] < CompletedIndices(ts, base)[k]
    decreases |ts|
  {
    if ts != [] {
      CompletedIndicesInRange(ts[1..], base + 1);
      CompletedIndicesAscending(ts[1..], base + 1);
    }
  }

  /** Recorded index k points at the k-th removed task in the old list. */
  lemma {:induction false} CompletedIndicesPick(ts: seq<Task>, base: nat)
    ensures |CompletedIndices(ts, base)| == |CompletedTasks(ts)|
    ensures forall k :: 0 <= k < |CompletedIndices(ts, base)| ==>
      && base <= CompletedIndices(ts, base)[k] < base + |ts|
      && ts[CompletedIndices(ts, base)[k] - base] == CompletedTasks(ts)[k]
    decreases |ts|
  {
    if ts != [] {
      CompletedIndicesInRange(ts[1..], base + 1);
      CompletedIndicesPick(ts[1..], base + 1);
      var rest := CompletedIndices(ts[1..], base + 1);
      var c := CompletedTasks(ts[1..]);
      var r := CompletedIndices(ts, base);
      var d := if ts[0].completed then 1 else 0;
      assert |r| == |rest| + d;
      assert CompletedTasks(ts) == (if ts[0].completed then [ts[0]] else []) + c;
      forall k | 0 <= k < |r| ensures ts[r[k] - base] == CompletedTasks(ts)[k] {
        if k >= d {
          assert r[k] == rest[k - d];
          assert CompletedTasks(ts)[k] == c[k - d];
          assert ts[rest[k - d] - base] == ts[1..][rest[k - d] - (base + 1)];
        }
      }
    }
  }

  /** The filter keeps the whole list exactly when it removes nothing. */
  lemma {:induction false} NothingRemovedKeepsAll(ts: seq<Task>)
    ensures KeptTasks(ts) == ts <==> CompletedTasks(ts) == []
    decreases |ts|
  {
    if ts != [] {
      NothingRemovedKeepsAll(ts[1..]);
      assert ts == [ts[0]] + ts[1..];
    }
  }

  /** The recorded indices are exactly the completed positions. */
  lemma {:induction false} CompletedIndicesExact(ts: seq<Task>, base: nat)
    ensures forall i :: 0 <= i < |ts| ==> (ts[i].completed <==> base + i in CompletedIndices(ts, base))
    decreases |ts|
  {
    if ts != [] {
      CompletedIndicesExact(ts[1..], base + 1);
      CompletedIndicesInRange(ts[1..], base + 1);
      var r := CompletedIndices(ts, base);
      forall i | 1 <= i < |ts| ensures (ts[i].completed <==> base + i in r) {
        assert ts[i] == ts[1..][i - 1];
      }
    }
  }

  /** No task is completed exactly when none is removed. */
  lemma {:induction false} NoCompletedTasks(ts: seq<Task>)
    ensures CompletedTasks(ts) == [] <==> forall i :: 0 <= i < |ts| ==> !ts[i].completed
    decreases |ts|
  {
    if ts != [] {
      NoCompletedTasks(ts[1..]);
      assert forall i :: 1 <= i < |ts| ==> ts[i] == ts[1..][i - 1];
    }
  }

  /** The batch `removeCompletedTasks` pushes for the list `ts`. */
  function RemovedBatch(ts: seq<Task>): (b: Batch)
    ensures |b.tasks| == |b.indices| <= |ts|
    ensures b.tasks == [] <==> CompletedTasks(ts) == []
  {
    CompletedIndicesInRange(ts, 0);
    Batch(CompletedTasks(ts), CompletedIndices(ts, 0))
  }

  // ---------------------------------------------------------------------
  // Undo: splice the removed tasks back one at a time
  // ---------------------------------------------------------------------

  /** `{ ...task, completed: false }`: an incomplete copy that differs from
      the task in the completion flag alone. */
  function Uncomplete(t: Task): (r: Task)
    ensures !r.completed && r.(completed := t.completed) == t
  {
    t.(completed := false)
  }

  /** Every task with `completed` forced to false, order kept. */
  function ClearCompleted(ts: seq<Task>): (r: seq<Task>)
    ensures |r| == |ts|
  {
    if ts == [] then [] else [Uncomplete(ts[0])] + ClearCompleted(ts[1..])
  }

  /** Position by position, the uncompleted list holds the same tasks with
      only `completed` cleared. */
  lemma {:induction false} ClearCompletedAt(ts: seq<Task>)
    ensures forall i :: 0 <= i < |ts| ==> ClearCompleted(ts)[i] == ts[i].(completed := false)
    decreases |ts|
  {
    if ts != [] {
      ClearCompletedAt(ts[1..]);
      var r, rest := ClearCompleted(ts), ClearCompleted(ts[1..]);
      assert r == [Uncomplete(ts[0])] + rest;
      forall i | 1 <= i < |ts| ensures r[i] == ts[i].(completed := false) {
        assert r[i] == rest[i - 1];
        assert ts[1..][i - 1] == ts[i];
      }
    }
  }

  /** `newTasks.splice(i, 0, t)`: insertion at `i`, clamped to the end;
      what was before that position stays before it, the rest after it. */
  function Insert(ts: seq<Task>, i: nat, t: Task): (r: seq<Task>)
    ensures |r| == |ts| + 1
    ensures var j := Min(i, |ts|); r[j] == t && r[..j] == ts[..j] && r[j + 1..] == ts[j..]
  {
    var j := Min(i, |ts|);
    ts[..j] + [t] + ts[j..]
  }

  /** The `forEach` of `undoChanges`: insert each removed task, uncompleted,
      at its recorded index, in stored order. A missing index reads as
      `undefined`, which `splice` takes as position 0. */
  function Restore(ts: seq<Task>, removed: seq<Task>, indices: seq<nat>): (r: seq<Task>)
    ensures |r| == |ts| + |removed|
    decreases |removed|
  {
    if removed == [] then ts
    else if indices == [] then Restore(Insert(ts, 0, Uncomplete(removed[0])), removed[1..], [])
    else Restore(Insert(ts, indices[0], Uncomplete(removed[0])), removed[1..], indices[1..])
  }

  /** A splice adds exactly the inserted task. */
  lemma InsertPermutation(ts: seq<Task>, i: nat, t: Task)
    ensures multiset(Insert(ts, i, t)) == multiset(ts) + multiset{t}
  {
    var j := Min(i, |ts|);
    assert ts == ts[..j] + ts[j..];
  }

  /** Undo adds exactly the batch's tasks, uncompleted, and loses none. */
  lemma {:induction false} RestorePermutation(ts: seq<Task>, removed: seq<Task>, indices: seq<nat>)
    ensures multiset(Restore(ts, removed, indices)) == multiset(ts) + multiset(ClearCompleted(removed))
    decreases |removed|
  {
    if removed != [] {
      var u := Uncomplete(removed[0]);
      var i := if indices == [] then 0 else indices[0];
      var ins := Insert(ts, i, u);
      RestorePermutation(ins, removed[1..], if indices == [] then [] else indices[1..]);
      InsertPermutation(ts, i, u);
      assert multiset(ClearCompleted(removed)) == multiset{u} + multiset(ClearCompleted(removed[1..])) by {
        assert ClearCompleted(removed) == [u] + ClearCompleted(removed[1..]);
      }
    }
  }

  /** One step of the splice loop. */
  lemma RestoreStep(ts: seq<Task>, x: Task, removed: seq<Task>, i: nat, indices: seq<nat>)
    ensures Restore(ts, [x] + removed, [i] + indices)
         == Restore(Insert(ts, i, Uncomplete(x)), removed, indices)
  {
    assert ([x] + removed)[1..] == removed;
    assert ([i] + indices)[1..] == indices;
  }

  /** Generalised round trip: with any prefix in front of the kept tasks,
      splicing the removed tasks back at their recorded (offset) positions
      rebuilds the prefix followed by the original list, uncompleted. */
  lemma {:induction false} RestoreAfterRemoval(prefix: seq<Task>, ts: seq<Task>)
    ensures Restore(prefix + KeptTasks(ts), CompletedTasks(ts), CompletedIndices(ts, |prefix|))
         == prefix + ClearCompleted(ts)
    decreases |ts|, 1
  {
    if ts == [] {
      assert KeptTasks(ts) == [] && ClearCompleted(ts) == [];
      assert CompletedTasks(ts) == [] && CompletedIndices(ts, |prefix|) == [];
      assert prefix + [] == prefix;
    } else if ts[0].completed {
      RestoreAfterRemovalOfCompleted(prefix, ts);
    } else {
      RestoreAfterRemovalOfKept(prefix, ts);
    }
  }

  /** How the filter pass treats a completed first task. */
  lemma RemovalOfCompletedHead(ts: seq<Task>, base: nat)
    requires ts != [] && ts[0].completed
    ensures KeptTasks(ts) == KeptTasks(ts[1..])
    ensures CompletedTasks(ts) == [ts[0]] + CompletedTasks(ts[1..])
    ensures CompletedIndices(ts, base) == [base] + CompletedIndices(ts[1..], base + 1)
  {
    assert [] + KeptTasks(ts[1..]) == KeptTasks(ts[1..]);
  }

  /** How the filter pass treats an incomplete first task. */
  lemma RemovalOfKeptHead(ts: seq<Task>, base: nat)
    requires ts != [] && !ts[0].completed
    ensures KeptTasks(ts) == [ts[0]] + KeptTasks(ts[1..])
    ensures CompletedTasks(ts) == CompletedTasks(ts[1..])
    ensures CompletedIndices(ts, base) == CompletedIndices(ts[1..], base + 1)
  {
    assert [] + CompletedTasks(ts[1..]) == CompletedTasks(ts[1..]);
  }

  /** Inserting right after a prefix. */
  lemma InsertAfterPrefix(prefix: seq<Task>, rest: seq<Task>, t: Task)
    ensures Insert(prefix + rest, |prefix|, t) == prefix + [t] + rest
  {
    assert (prefix + rest)[..|prefix|] == prefix;
    assert (prefix + rest)[|prefix|..] == rest;
  }

  /** The round trip when the first task was removed: it is spliced back
      right after the prefix. */
  lemma {:induction false} RestoreAfterRemovalOfCompleted(prefix: seq<Task>, ts: seq<Task>)
    requires ts != [] && ts[0].completed
    ensures Restore(prefix + KeptTasks(ts), CompletedTasks(ts), CompletedIndices(ts, |prefix|))
         == prefix + ClearCompleted(ts)
    decreases |ts|, 0
  {
    var x, rest := ts[0], ts[1..];
    var kept, removed, indices := KeptTasks(rest), CompletedTasks(rest), CompletedIndices(rest, |prefix| + 1);
    var p' := prefix + [Uncomplete(x)];
    RemovalOfCompletedHead(ts, |prefix|);
    RestoreStep(prefix + kept, x, removed, |prefix|, indices);
    InsertAfterPrefix(prefix, kept, Uncomplete(x));
    RestoreAfterRemoval(p', rest);
    assert ClearCompleted(ts) == [Uncomplete(x)] + ClearCompleted(rest);
    assert p' + ClearCompleted(rest) == prefix + ClearCompleted(ts);
  }

  /** The round trip when the first task was kept: it stays first after
      the prefix, and the later splices land behind it. */
  lemma {:induction false} RestoreAfterRemovalOfKept(prefix: seq<Task>, ts: seq<Task>)
    requires ts != [] && !ts[0].completed
    ensures Restore(prefix + KeptTasks(ts), CompletedTasks(ts), CompletedIndices(ts, |prefix|))
         == prefix + ClearCompleted(ts)
    decreases |ts|, 0
  {
    var x, rest := ts[0], ts[1..];
    var kept := KeptTasks(rest);
    var p' := prefix + [x];
    RemovalOfKeptHead(ts, |prefix|);
    assert prefix + KeptTasks(ts) == p' + kept;
    RestoreAfterRemoval(p', rest);
    assert ClearCompleted(ts) == [x] + ClearCompleted(rest);
    assert p' + ClearCompleted(rest) == prefix + ClearCompleted(ts);
  }

  /** Remove-then-undo round trip: undoing the batch that removal recorded,
      on the list removal left, yields the original list in its original
      order, with every task incomplete. */
  lemma UndoRestoresRemoved(ts: seq<Task>)
    ensures Restore(KeptTasks(ts), RemovedBatch(ts).tasks, RemovedBatch(ts).indices)
         == ClearCompleted(ts)
  {
    RestoreAfterRemoval([], ts);
    assert [] + KeptTasks(ts) == KeptTasks(ts);
    assert [] + ClearCompleted(ts) == ClearCompleted(ts);
  }

  // ---------------------------------------------------------------------
  // Derived metrics
  // ---------------------------------------------------------------------

  /** `tasks.filter(task => task.completed).length` */
  function CompletedCount(ts: seq<Task>): (n: nat)
    ensures n <= |ts|
    ensures n == 0 <==> forall i :: 0 <= i < |ts| ==> !ts[i].completed
  {
    NoCompletedTasks(ts);
    |CompletedTasks(ts)|
  }

  /** The `reduce` over all tasks of the time each one displays. */
  function TotalTime(ts: seq<Task>): (n: nat)
    ensures forall i :: 0 <= i < |ts| ==> DisplayedTime(ts[i]) <= n
  {
    if ts == [] then 0
    else
      assert forall i :: 1 <= i < |ts| ==> ts[i] == ts[1..][i - 1];
      DisplayedTime(ts[0]) + TotalTime(ts[1..])
  }

  /** Number of tasks whose timer is running. */
  function RunningCount(ts: seq<Task>): nat {
    if ts == [] then 0 else (if ts[0].timerRunning then 1 else 0) + RunningCount(ts[1..])
  }

  /** Sum of the displayed times of the tasks with id `id`. */
  function MatchingTime(ts: seq<Task>, id: int): nat {
    if ts == [] then 0
    else (if ts[0].id == id then DisplayedTime(ts[0]) else 0) + MatchingTime(ts[1..], id)
  }

  /** Lists that display the same time task by task have the same total. */
  lemma {:induction false} TotalTimeByDisplayed(a: seq<Task>, b: seq<Task>)
    requires |a| == |b|
    requires forall i :: 0 <= i < |a| ==> DisplayedTime(a[i]) == DisplayedTime(b[i])
    ensures TotalTime(a) == TotalTime(b)
    decreases |a|
  {
    if a != [] {
      TotalTimeByDisplayed(a[1..], b[1..]);
    }
  }

  /** Lists with the same completion flags task by task have the same
      completed count. */
  lemma {:induction false} CompletedCountByFlags(a: seq<Task>, b: seq<Task>)
    requires |a| == |b|
    requires forall i :: 0 <= i < |a| ==> a[i].completed == b[i].completed
    ensures CompletedCount(a) == CompletedCount(b)
    decreases |a|
  {
    if a != [] {
      CompletedCountByFlags(a[1..], b[1..]);
    }
  }

  // ---------------------------------------------------------------------
  // Properties of the operations
  // ---------------------------------------------------------------------

  lemma SetCompletedIdempotent(ts: seq<Task>, id: int, checked: bool)
    ensures SetCompleted(SetCompleted(ts, id, checked), id, checked) == SetCompleted(ts, id, checked)
  {
  }

  lemma SetTitleIdempotent(ts: seq<Task>, id: int, title: string)
    ensures SetTitle(SetTitle(ts, id, title), id, title) == SetTitle(ts, id, title)
  {
  }

  lemma ResetTimerIdempotent(ts: seq<Task>, id: int)
    ensures ResetTimer(ResetTimer(ts, id), id) == ResetTimer(ts, id)
  {
  }

  /** Completing, renaming and starting/stopping never change the total
      time shown. */
  lemma EditsKeepTotalTime(ts: seq<Task>, id: int, checked: bool, title: string)
    ensures TotalTime(SetCompleted(ts, id, checked)) == TotalTime(ts)
    ensures TotalTime(SetTitle(ts, id, title)) == TotalTime(ts)
    ensures TotalTime(ToggleTimer(ts, id)) == TotalTime(ts)
  {
    TotalTimeByDisplayed(SetCompleted(ts, id, checked), ts);
    TotalTimeByDisplayed(SetTitle(ts, id, title), ts);
    TotalTimeByDisplayed(ToggleTimer(ts, id), ts);
  }

  /** Timer actions, renames and ticks never change the completed count. */
  lemma TimerActionsKeepCompletedCount(ts: seq<Task>, id: int, title: string)
    ensures CompletedCount(SetTitle(ts, id, title)) == CompletedCount(ts)
    ensures CompletedCount(ToggleTimer(ts, id)) == CompletedCount(ts)
    ensures CompletedCount(ResetTimer(ts, id)) == CompletedCount(ts)
    ensures CompletedCount(Tick(ts)) == CompletedCount(ts)
  {
    CompletedCountByFlags(SetTitle(ts, id, title), ts);
    CompletedCountByFlags(ToggleTimer(ts, id), ts);
    CompletedCountByFlags(ResetTimer(ts, id), ts);
    CompletedCountByFlags(Tick(ts), ts);
  }

  /** A reset takes exactly the matching tasks' displayed time off the
      total. */
  lemma {:induction false} ResetTimerTotalTime(ts: seq<Task>, id: int)
    ensures TotalTime(ResetTimer(ts, id)) + MatchingTime(ts, id) == TotalTime(ts)
    decreases |ts|
  {
    if ts != [] {
      ResetTimerTotalTime(ts[1..], id);
      assert ResetTimer(ts, id)[1..] == ResetTimer(ts[1..], id);
    }
  }

  /** A tick raises the total time by the number of running timers. */
  lemma {:induction false} TickTotalTime(ts: seq<Task>)
    ensures TotalTime(Tick(ts)) == TotalTime(ts) + RunningCount(ts)
    decreases |ts|
  {
    if ts != [] {
      TickTotalTime(ts[1..]);
      assert Tick(ts)[1..] == Tick(ts[1..]);
    }
  }

  /** `n` ticks add `n` to the elapsed counter of each running task and
      change nothing else. */
  lemma {:induction false} TicksElapsed(ts: seq<Task>, n: nat)
    ensures |Ticks(ts, n)| == |ts|
    ensures forall i :: 0 <= i < |ts| ==>
      Ticks(ts, n)[i] == ts[i].(elapsedTime := ts[i].elapsedTime + if ts[i].timerRunning then n else 0)
  {
    if n > 0 {
      TicksElapsed(ts, n - 1);
    }
  }

  /** A stopwatch session: starting a stopped task's timer, letting `n`
      seconds pass and stopping it again adds `n` to its total and leaves
      it stopped with a zero running counter. */
  lemma StopwatchSession(ts: seq<Task>, id: int, n: nat, i: nat)
    requires i < |ts| && ts[i].id == id && !ts[i].timerRunning
    ensures |ToggleTimer(Ticks(ToggleTimer(ts, id), n), id)| == |ts|
    ensures ToggleTimer(Ticks(ToggleTimer(ts, id), n), id)[i]
         == ts[i].(totalDuration := ts[i].totalDuration + n, elapsedTime := 0)
  {
    TicksElapsed(ToggleTimer(ts, id), n);
  }

  // ---------------------------------------------------------------------
  // The metrics across creation, completion, removal and undo
  // ---------------------------------------------------------------------

  /** The total time of two lists put together is the sum of their totals. */
  lemma {:induction false} TotalTimeAppend(a: seq<Task>, b: seq<Task>)
    ensures TotalTime(a + b) == TotalTime(a) + TotalTime(b)
    decreases |a|
  {
    if a == [] {
      assert a + b == b;
    } else {
      TotalTimeAppend(a[1..], b);
      assert (a + b)[1..] == a[1..] + b;
    }
  }

  /** The filter distributes over putting two lists together. */
  lemma {:induction false} CompletedTasksAppend(a: seq<Task>, b: seq<Task>)
    ensures CompletedTasks(a + b) == CompletedTasks(a) + CompletedTasks(b)
    decreases |a|
  {
    if a == [] {
      assert a + b == b;
    } else {
      CompletedTasksAppend(a[1..], b);
      var x := if a[0].completed then [a[0]] else [];
      assert (a + b)[0] == a[0] && (a + b)[1..] == a[1..] + b;
      assert CompletedTasks(a + b) == x + (CompletedTasks(a[1..]) + CompletedTasks(b));
      assert CompletedTasks(a) == x + CompletedTasks(a[1..]);
      assert x + (CompletedTasks(a[1..]) + CompletedTasks(b)) == (x + CompletedTasks(a[1..])) + CompletedTasks(b);
    }
  }

  /** The completed count of two lists put together is the sum of their
      counts. */
  lemma CompletedCountAppend(a: seq<Task>, b: seq<Task>)
    ensures CompletedCount(a + b) == CompletedCount(a) + CompletedCount(b)
  {
    CompletedTasksAppend(a, b);
  }

  /** A new task is incomplete and shows no time, so creating one changes
      neither metric. */
  lemma CreateTaskMetrics(ts: seq<Task>, title: string)
    ensures CompletedCount(CreateTask(ts, title)) == CompletedCount(ts)
    ensures TotalTime(CreateTask(ts, title)) == TotalTime(ts)
  {
    var r := CreateTask(ts, title);
    if !IsBlank(title) {
      CompletedCountAppend([r[0]], ts);
      TotalTimeAppend([r[0]], ts);
      assert r == [r[0]] + ts;
    }
  }

  /** Number of tasks with id `id` whose completion flag is `flag`. */
  function MatchingWithFlag(ts: seq<Task>, id: int, flag: bool): nat {
    if ts == [] then 0
    else (if ts[0].id == id && ts[0].completed == flag then 1 else 0) + MatchingWithFlag(ts[1..], id, flag)
  }

  /** Ticking tasks off raises the completed count by the matching tasks
      that were still open; unticking lowers it by the matching tasks that
      were done. */
  lemma {:induction false} SetCompletedCount(ts: seq<Task>, id: int, checked: bool)
    ensures checked ==> CompletedCount(SetCompleted(ts, id, checked)) == CompletedCount(ts) + MatchingWithFlag(ts, id, false)
    ensures !checked ==> CompletedCount(SetCompleted(ts, id, checked)) + MatchingWithFlag(ts, id, true) == CompletedCount(ts)
    decreases |ts|
  {
    if ts != [] {
      SetCompletedCount(ts[1..], id, checked);
      var r := SetCompleted(ts, id, checked);
      assert r == [r[0]] + SetCompleted(ts[1..], id, checked);
      CompletedCountAppend([r[0]], SetCompleted(ts[1..], id, checked));
      CompletedCountAppend([ts[0]], ts[1..]);
      assert ts == [ts[0]] + ts[1..];
    }
  }

  /** After a removal no completed task is left, and the kept and removed
      tasks share the old total time between them. */
  lemma RemovalMetrics(ts: seq<Task>)
    ensures CompletedCount(KeptTasks(ts)) == 0
    ensures TotalTime(KeptTasks(ts)) + TotalTime(CompletedTasks(ts)) == TotalTime(ts)
  {
    RemovalSplitsByCompletion(ts);
    RemovalSplitsTotalTime(ts);
  }

  lemma {:induction false} RemovalSplitsTotalTime(ts: seq<Task>)
    ensures TotalTime(KeptTasks(ts)) + TotalTime(CompletedTasks(ts)) == TotalTime(ts)
    decreases |ts|
  {
    if ts != [] {
      RemovalSplitsTotalTime(ts[1..]);
      var x := if ts[0].completed then [ts[0]] else [];
      var y := if ts[0].completed then [] else [ts[0]];
      assert CompletedTasks(ts) == x + CompletedTasks(ts[1..]);
      assert KeptTasks(ts) == y + KeptTasks(ts[1..]);
      TotalTimeAppend(x, CompletedTasks(ts[1..]));
      TotalTimeAppend(y, KeptTasks(ts[1..]));
    }
  }

  /** A splice adds the inserted task's time to the total and counts it if
      it is completed. */
  lemma InsertMetrics(ts: seq<Task>, i: nat, t: Task)
    ensures TotalTime(Insert(ts, i, t)) == TotalTime(ts) + DisplayedTime(t)
    ensures CompletedCount(Insert(ts, i, t)) == CompletedCount(ts) + (if t.completed then 1 else 0)
  {
    var j := Min(i, |ts|);
    assert ts == ts[..j] + ts[j..];
    assert Insert(ts, i, t) == ts[..j] + ([t] + ts[j..]);
    TotalTimeAppend(ts[..j], [t] + ts[j..]);
    TotalTimeAppend([t], ts[j..]);
    TotalTimeAppend(ts[..j], ts[j..]);
    CompletedCountAppend(ts[..j], [t] + ts[j..]);
    CompletedCountAppend([t], ts[j..]);
    CompletedCountAppend(ts[..j], ts[j..]);
  }

  /** Undo brings back the batch's time and no completed task: the total
      time grows by the batch's total, the completed count stays. */
  lemma {:induction false} UndoMetrics(ts: seq<Task>, removed: seq<Task>, indices: seq<nat>)
    ensures TotalTime(Restore(ts, removed, indices)) == TotalTime(ts) + TotalTime(removed)
    ensures CompletedCount(Restore(ts, removed, indices)) == CompletedCount(ts)
    decreases |removed|
  {
    if removed != [] {
      var u := Uncomplete(removed[0]);
      var i := if indices == [] then 0 else indices[0];
      var rest := if indices == [] then [] else indices[1..];
      InsertMetrics(ts, i, u);
      UndoMetrics(Insert(ts, i, u), removed[1..], rest);
      assert Restore(ts, removed, indices) == Restore(Insert(ts, i, u), removed[1..], rest);
    }
  }
}
