# Task dashboard — a verified model

The task dashboard is a React component, `TaskDashboardComponent`. It holds a
list of task records and an undo history. Each task has:

- an id;
- a title (the source's `task` field);
- a completion flag;
- a stopwatch: a running flag, the seconds of the interval being timed now
  (`elapsedTime`), and the seconds of the intervals already stopped
  (`totalDuration`).

The user can:

- create a task;
- tick it off;
- rename it;
- start, stop and reset its stopwatch;
- remove every completed task at once;
- undo removals, one batch at a time.

Once a second, every running stopwatch advances. The page shows three derived
figures: the number of tasks, the number of completed tasks, and the total
time formatted as `HH:MM:SS`.

The model has three modules:

- `TaskList` (`task_list.dfy`) holds the records and the pure list
  transformations. These are:
  - the per-id `tasks.map` rebuilds of toggle completion, save title, toggle
    timer and reset timer;
  - the tick;
  - the id and title computation of task creation (including
    `String.prototype.trim`);
  - the kept/removed split of "remove completed", with the recorded indices;
  - the splice sequence of "undo";
  - the completed count and the total time.

  It proves:
  - the remove/undo round trip: splicing the removed tasks back at their
    recorded indices, in stored order, rebuilds the original list with every
    task incomplete;
  - the effect of each action on the completed count and the total time:
    - creating a task changes neither;
    - renaming changes neither, and a timer toggle changes neither;
    - ticking a task off or unticking it leaves the time and changes the
      count by the matching tasks whose flag flips;
    - a reset leaves the count and takes the reset tasks' time off the total;
    - a tick leaves the count and adds the number of running timers to the
      total;
    - a removal leaves no completed task and splits the total between the
      kept and the removed tasks;
    - undo adds back the batch's time and no completed task.

    The number of tasks follows from the length each action's contract
    states.
- `TimeFormat` (`time_format.dfy`) models `formatTime`:
  - the hours/minutes/seconds split, which is proved unique;
  - `toString` and `padStart(2, '0')`;
  - the shape of the resulting string: digits and two colons, two-digit
    minutes and seconds, and hours with no leading zero beyond the padding;
  - a round trip: parsing the string back gives the original number of
    seconds.
- `TaskDashboard` (`task_dashboard.dfy`) models the component's state.
  - It is a class `Dashboard` with the fields `tasks`, `history` and
    `editing`, which the actions reassign.
  - There is one method per action, and each is specified by the `TaskList`
    function it applies.
  - `RemoveCompletedTasks` runs the source's filter pass, `FilterCompleted`:
    a loop that accumulates the kept tasks, the removed tasks and their
    indices.
  - `UndoChanges` is written as the source's `forEach`/`splice` loop.
  - Both keep the store invariant `Valid()`. Every batch on the history:
    - is non-empty;
    - holds completed tasks only;
    - has exactly one index per task;
    - has strictly ascending indices.

Ids are not unique in general. A task created after a removal can receive the
id of a removed task, and undo then brings that task back beside it. For this
reason every per-id operation is specified for *every* task whose id matches.

`splice` at an index past the end of the list inserts at the end. An index
that is missing from the batch reads as `undefined`, which `splice` takes
as 0. `Insert` and `Restore` model both cases, so undo is total even on a
malformed batch. The store invariant rules such a batch out.

## Model

| member | source | states |
|---|---|---|
| TaskList.Trim | track-app/components/task-dashboard.tsx:150 | the trimmed title is a slice of the input with only whitespace before and after it; it has no whitespace at either end; it is empty exactly when every character of the input is whitespace |
| TaskList.TrimIdempotent | track-app/components/task-dashboard.tsx:150-153 | trimming the trimmed title again changes nothing |
| TaskList.SetCompleted | track-app/components/task-dashboard.tsx:72-84 | same length and order; each matching task has `completed` set to `checked`; every other field and every other task is unchanged |
| TaskList.SetCompletedIdempotent | track-app/components/task-dashboard.tsx:72-84 | toggling completion twice with the same arguments equals doing it once |
| TaskList.SetTitle | track-app/components/task-dashboard.tsx:123-128 | same length and order; each matching task gets the new title unchanged (not trimmed); everything else is unchanged |
| TaskList.SetTitleIdempotent | track-app/components/task-dashboard.tsx:123-128 | saving the same title twice equals saving it once |
| TaskList.DisplayedTime | track-app/components/task-dashboard.tsx:215 | a task displays at least its stopped total and at most the total plus the running interval; a stopped task displays just its total |
| TaskList.FlipTimer | track-app/components/task-dashboard.tsx:132-138 | the running flag flips and the running interval restarts at zero; id, title and completion are kept; the time the task displays is kept (stopping moves the elapsed seconds into the total) |
| TaskList.ToggleTimer | track-app/components/task-dashboard.tsx:130-141 | non-matching tasks are untouched; matching tasks flip their timer, get a zero elapsed counter and keep identity, completion and displayed time |
| TaskList.ResetTimer | track-app/components/task-dashboard.tsx:143-147 | matching tasks end stopped with both counters zero, whatever their prior state; non-matching tasks are untouched |
| TaskList.ResetTimerIdempotent | track-app/components/task-dashboard.tsx:143-147 | resetting twice equals resetting once |
| TaskList.Tick | track-app/components/task-dashboard.tsx:169-176 | each running task's elapsed counter goes up by exactly one; stopped tasks and all other fields are unchanged |
| TaskList.TicksElapsed | track-app/components/task-dashboard.tsx:169-176 | `n` ticks add `n` to the elapsed counter of every running task and change nothing else |
| TaskList.StopwatchSession | track-app/components/task-dashboard.tsx:130-141 | starting a stopped task, letting `n` seconds pass and stopping it again adds exactly `n` to its total and leaves a zero elapsed counter |
| TaskList.MaxId | track-app/components/task-dashboard.tsx:152 | `Math.max` of the ids of a non-empty list is one of the ids and no id exceeds it |
| TaskList.NextId | track-app/components/task-dashboard.tsx:152 | the new id exceeds every existing id; it is 1 for an empty list, otherwise one more than an existing id |
| TaskList.CreateTask | track-app/components/task-dashboard.tsx:149-163 | a title that trims to empty leaves the list unchanged; otherwise the list grows by one: a new head whose id is above every other id, with the non-empty trimmed title, both flags false and both counters zero, followed by the old list unchanged |
| TaskList.KeptTasks | track-app/components/task-dashboard.tsx:90-97 | the lengths of the kept and the removed tasks add up to the old length |
| TaskList.CompletedTasks | track-app/components/task-dashboard.tsx:90-97 | the removed tasks are at most as many as the old list |
| TaskList.RemovalPartitions | track-app/components/task-dashboard.tsx:86-102 | removal loses no task: kept plus removed equals the old list as a multiset |
| TaskList.RemovalSplitsByCompletion | track-app/components/task-dashboard.tsx:91-96 | every kept task is incomplete and every removed task is completed |
| TaskList.RemovalMetrics | track-app/components/task-dashboard.tsx:86-102 | after a removal no completed task is left, and the kept and removed tasks share the old total time between them |
| TaskList.CompletedIndices | track-app/components/task-dashboard.tsx:93 | at most one recorded index per task of the old list |
| TaskList.CompletedIndicesInRange | track-app/components/task-dashboard.tsx:93 | one recorded index per removed task, each below the old length |
| TaskList.CompletedIndicesAscending | track-app/components/task-dashboard.tsx:90-97 | the recorded indices strictly ascend |
| TaskList.CompletedIndicesPick | track-app/components/task-dashboard.tsx:92-93 | recorded index `k` points, in the old list, at the `k`-th removed task |
| TaskList.CompletedIndicesExact | track-app/components/task-dashboard.tsx:90-97 | a position is recorded exactly when the task there is completed |
| TaskList.NoCompletedTasks | track-app/components/task-dashboard.tsx:98 | nothing is removed exactly when no task is completed |
| TaskList.NothingRemovedKeepsAll | track-app/components/task-dashboard.tsx:90-101 | the filter keeps the whole list exactly when it removes nothing |
| TaskList.RemovedBatch | track-app/components/task-dashboard.tsx:99 | the pushed batch has one index per removed task, is no longer than the old list, and is empty exactly when nothing was completed |
| TaskList.Uncomplete | track-app/components/task-dashboard.tsx:111 | the restored copy is incomplete and differs from the removed task in the completion flag alone |
| TaskList.InsertMetrics | track-app/components/task-dashboard.tsx:111 | a splice adds the inserted task's displayed time to the total and raises the completed count only if that task is completed |
| TaskList.UndoMetrics | track-app/components/task-dashboard.tsx:105-117 | undo raises the total time by the batch's total and leaves the completed count as it was |
| TaskList.ClearCompleted | track-app/components/task-dashboard.tsx:111 | uncompleting every task keeps the length of the list |
| TaskList.ClearCompletedAt | track-app/components/task-dashboard.tsx:111 | position by position, the uncompleted list holds the same tasks with only `completed` cleared |
| TaskList.Insert | track-app/components/task-dashboard.tsx:111 | `splice(i, 0, t)` puts `t` at `i`, clamped to the length; everything before stays before it and everything after moves up by one |
| TaskList.InsertPermutation | track-app/components/task-dashboard.tsx:111 | a splice adds exactly the inserted task |
| TaskList.Restore | track-app/components/task-dashboard.tsx:109-113 | the restored list has one more task for each task of the batch |
| TaskList.RestorePermutation | track-app/components/task-dashboard.tsx:109-113 | undo adds exactly the batch's tasks, uncompleted, and loses none |
| TaskList.RestoreAfterRemoval | track-app/components/task-dashboard.tsx:86-117 | generalised round trip: with any prefix before the kept tasks and the indices offset by its length, undo rebuilds the prefix followed by the original list, uncompleted |
| TaskList.UndoRestoresRemoved | track-app/components/task-dashboard.tsx:86-117 | undoing the batch that removal recorded, on the list removal left, gives the original list in its original order with every task incomplete |
| TaskList.CompletedCount | track-app/components/task-dashboard.tsx:214 | the completed count is at most the number of tasks, and is zero exactly when no task is completed |
| TaskList.TotalTime | track-app/components/task-dashboard.tsx:215 | the total is at least the time each task displays |
| TaskList.TotalTimeByDisplayed | track-app/components/task-dashboard.tsx:215 | lists that display the same time task by task have the same total |
| TaskList.CompletedCountByFlags | track-app/components/task-dashboard.tsx:214 | lists with the same completion flags task by task have the same count |
| TaskList.CreateTaskMetrics | track-app/components/task-dashboard.tsx:149-163 | creating a task changes neither the completed count nor the total time |
| TaskList.SetCompletedCount | track-app/components/task-dashboard.tsx:72-84 | ticking off raises the completed count by the matching tasks that were open; unticking lowers it by the matching tasks that were done |
| TaskList.EditsKeepTotalTime | track-app/components/task-dashboard.tsx:72-84 | completing, renaming and starting or stopping a timer never change the total time |
| TaskList.TimerActionsKeepCompletedCount | track-app/components/task-dashboard.tsx:130-147 | renames, timer toggles, resets and ticks never change the completed count |
| TaskList.ResetTimerTotalTime | track-app/components/task-dashboard.tsx:143-147 | a reset takes exactly the matching tasks' displayed time off the total |
| TaskList.TickTotalTime | track-app/components/task-dashboard.tsx:169-176 | a tick raises the total time by exactly the number of running timers |
| TimeFormat.Split | track-app/components/task-dashboard.tsx:203-205 | hours·3600 + minutes·60 + seconds equals the input, with minutes and seconds below 60 |
| TimeFormat.SplitUnique | track-app/components/task-dashboard.tsx:203-205 | any other triple with that sum and minutes and seconds below 60 is the same triple |
| TimeFormat.Decimal | track-app/components/task-dashboard.tsx:206 | `toString` of a non-negative integer is all digits, with no leading zero (it starts with '0' only for 0), a single digit exactly below 10, at most two below 100 |
| TimeFormat.PadStart2 | track-app/components/task-dashboard.tsx:206 | `padStart(2, '0')` returns a string of two or more characters unchanged, and left-pads a shorter one with '0' to exactly two characters, the original at the end |
| TimeFormat.ParseDecimalOfDecimal | track-app/components/task-dashboard.tsx:206 | reading the decimal digits back gives the number |
| TimeFormat.PaddedValue | track-app/components/task-dashboard.tsx:206 | the leading pad zero does not change the value read back |
| TimeFormat.FormatTime | track-app/components/task-dashboard.tsx:202-207 | the formatted time has at least eight characters, with colons third- and sixth-from-last, and no leading zero when longer than eight; what each field holds is stated by `FormatTimeFields` |
| TimeFormat.FormatTimeShape | track-app/components/task-dashboard.tsx:202-207 | apart from its two colons the formatted time is all digits, and it is exactly eight characters ("HH:MM:SS") when the input is below 100 hours |
| TimeFormat.FormatTimeRoundTrip | track-app/components/task-dashboard.tsx:202-207 | reading the formatted string back gives the number of seconds it was made from |
| TimeFormat.FormatTimeFields | track-app/components/task-dashboard.tsx:202-207 | each field of the formatted time reads back as its part of the split: the text before the first colon is the hours, the two middle digits the minutes and the last two the seconds (so both below 60) |
| TaskDashboard.FilterCompleted | track-app/components/task-dashboard.tsx:88-97 | the loop of the filter pass returns exactly the kept tasks, the removed tasks and their indices in the old list |
| TaskDashboard.SeedTasks | track-app/components/task-dashboard.tsx:49-60 | ten seed tasks with ids 1 to 10, incomplete, stopped, with zero counters |
| TaskDashboard.RemovedBatchWellFormed | track-app/components/task-dashboard.tsx:98-99 | the batch recorded by a removal that removes something satisfies the history invariant |
| TaskDashboard.Dashboard.constructor | track-app/components/task-dashboard.tsx:49-62 | the initial state: the seed list, an empty history, nothing being edited |
| TaskDashboard.Dashboard.ToggleTaskCompletion | track-app/components/task-dashboard.tsx:72-84 | the list becomes `SetCompleted` of the old list; history and editing unchanged |
| TaskDashboard.Dashboard.RemoveCompletedTasks | track-app/components/task-dashboard.tsx:86-103 | the list becomes the incomplete tasks in order; when some task was completed, the completed tasks and their old indices are pushed as one batch, and otherwise list and history are unchanged; the history invariant is kept |
| TaskDashboard.Dashboard.UndoChanges | track-app/components/task-dashboard.tsx:105-117 | empty history: nothing changes; otherwise the splice loop gives `Restore` of the list with the last batch, that batch is popped and the list grows by its size; the invariant is kept |
| TaskDashboard.Dashboard.EditTask | track-app/components/task-dashboard.tsx:119-121 | the edited id is recorded; list and history unchanged |
| TaskDashboard.Dashboard.SaveTask | track-app/components/task-dashboard.tsx:123-128 | the list becomes `SetTitle` of the old list and editing ends |
| TaskDashboard.Dashboard.ToggleTimer | track-app/components/task-dashboard.tsx:130-141 | the list becomes `ToggleTimer` of the old list |
| TaskDashboard.Dashboard.ResetTimer | track-app/components/task-dashboard.tsx:143-147 | the list becomes `ResetTimer` of the old list |
| TaskDashboard.Dashboard.CreateNewTask | track-app/components/task-dashboard.tsx:149-163 | the list becomes `CreateTask` of the old list and the typed title |
| TaskDashboard.Dashboard.Tick | track-app/components/task-dashboard.tsx:169-176 | the list becomes `Tick` of the old list |
| TaskDashboard.RemoveThenUndo | track-app/components/task-dashboard.tsx:86-117 | "remove completed" followed directly by "undo" gives the original list with every task incomplete, and the history as it was |

Proof steps that state nothing about the dashboard by themselves, and so have
no row: `TaskList.TrimBothEnds` and `TaskList.InnerSliceOfSuffix` (for
`Trim`); `TaskList.RemovalOfCompletedHead` and `TaskList.RemovalOfKeptHead`
(one unfolding of the filter), `TaskDashboard.FilterStep` and
`TaskDashboard.FilterDone` (for the filter loop); `TaskList.RestoreStep` (one
splice of the undo loop), `TaskList.InsertAfterPrefix`,
`TaskList.RestoreAfterRemovalOfCompleted` and
`TaskList.RestoreAfterRemovalOfKept` (the two cases of the round trip);
`TimeFormat.RemainderOf` (for `Split`), `TimeFormat.FieldsLayout` (for the
colons of `FormatTime`), `TimeFormat.FieldSlices` (where each field sits) and
`TimeFormat.ParseFields` (for the `formatTime` round trip).

Pieces of the definitions that carry no row of their own: `TaskList.IsWhitespace`
(the ECMAScript white-space and line-terminator characters that `trim()`
strips); `TaskList.TrimStart`,
`TaskList.TrimEnd` and `TaskList.IsBlank` (the parts of `trim()` and of the
blank-title guard that `Trim` and `CreateTask` are stated with);
`TaskList.Ticks`, `TaskList.RunningCount`, `TaskList.MatchingTime` and
`TaskList.MatchingWithFlag` (counts and sums the metric lemmas are stated
with); and the metric steps `TaskList.TotalTimeAppend`,
`TaskList.CompletedTasksAppend`, `TaskList.CompletedCountAppend` and
`TaskList.RemovalSplitsTotalTime`. `TimeFormat.DigitChar`, `TimeFormat.IsDigit`
and `TimeFormat.DigitValue` are the digit characters and their values.
`TimeFormat.ParseDecimal` and `TimeFormat.ParseTime` are not part of the
dashboard: they are an independent reference reader of "H…H:MM:SS" strings,
defined here only so that the round trip and the field lemmas can be stated.

## Left out

- JSX rendering, the widget components, the logo and the styling are left out. They are presentation over UI libraries, not state.
- Confetti is left out. This is the `setConfetti`/`setTimeout` pair fired when a task is ticked off: a timer-driven visual effect that does not touch the task state.
- Dark mode is left out. It changes a class on the document element, which is DOM I/O.
- The page title, its editing, `currentDate`, its one-minute interval and `formatDate` are left out. They depend on the wall clock and a locale library.
- Input focus, `isCreatingTask` and `newTaskName` are left out. `CreateNewTask` takes the typed title as a parameter instead.
- The scheduling done by `setInterval`/`clearInterval` is not modelled. Nor is React's deferred and batched state updating. Each action and each tick is one atomic method call.
- `UndoChanges` reads the history batch from its current state. The source reads it from the render closure (line 106-107), so two undos within one render could pop twice while splicing the same batch twice. That interleaving is not modelled.
- TimeFormat.FormatTime: takes a natural number, since every caller passes a sum of non-negative counters. Negative and fractional inputs, and `Math.floor` on them, are not modelled.
- Ids, counters and lengths are unbounded integers. JavaScript's double-precision number limits are not modelled.
- TaskList.UndoRestoresRemoved: stated only for an undo that directly follows its removal. After intervening creates or removals the recorded indices point into a different list, and the model only says that `Restore` inserts at the clamped indices.
