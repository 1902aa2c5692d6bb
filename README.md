# Task tracker core, in Dafny

This project models the logic of the single-page task tracker in `app/page.tsx`
(the `TaskManager` React component) and proves properties of it.

- **Tasks.** A task has an id, a text, one of four statuses (today, next, hold,
  done), a creation time and an update time.
- **Editing the list.** The component adds a task from the input bar, changes a
  task's status and deletes a task.
- **Buttons.** A card's primary button marks its task done. Its secondary button
  moves the task around the cycle today → next → hold → today. A done task goes
  back to today.
- **Swipe gesture.** The gesture interpreter turns a horizontal drag on a card
  into a pending "complete" or "delete" action. The action is carried out only
  if the drag went beyond the commit threshold when the finger lifts.
- **Derived values.** On every render the component computes:
  - the case-insensitive search result;
  - the four status columns;
  - a card's "old" and "urgent" flags;
  - a card's "time ago" label.

## Modules

- `Sequences` (`sequences.dfy`): `Option` and the order-preserving `Filter`,
  with its membership, counting, idempotence and subsequence lemmas.
- `Text` (`text.dfy`): the string primitives the component calls:
  - `trim`, using the ECMAScript whitespace set;
  - `toLowerCase`, restricted to ASCII;
  - `includes`;
  - the decimal `toString` of a clock reading.
- `Tasks` (`tasks.dfy`): the task record, the advance rule and the three list
  updates handed to `setTasks`. It also defines the list invariants they
  preserve: unique ids, trimmed non-empty text, and no update before creation.
- `Gesture` (`gesture.dfy`): the swipe thresholds (20, 60 and 100 pixels), what
  a touch move does to the swipe state, what the end of a touch commits, and
  whole drags as sequences of moves.
- `Views` (`views.dfy`): `filteredTasks`, `tasksByStatus`, `getTaskPriority`
  and `getTimeAgo`.
- `Component` (`component.dfy`): the class `TaskManager`.
  - Its fields are the state hooks `tasks`, `newTask`, `searchQuery`,
    `touchStart` and `swipeAction`.
  - Its methods are the event handlers. Each method is proved to leave the
    state that the functions of `Tasks` and `Gesture` describe.
  - Client methods (`SwipeRightCompletes`, `SwipeLeftDeletes`,
    `SwipeInBandCommitsNothing`, `VerticalDragShowsNoSwipe`,
    `CancelledTouchScenario`) state in asserts what concrete touch sequences do
    to a one-task list.

Two things are parameters rather than reads of the browser:

- The clock is a parameter `now`, one reading per handler call. `addTask` reads
  `Date.now()` three times; the model uses one value for all three.
  `updateTaskStatus` reads it once per matching task, inside the `map` callback.
  When two tasks share an id, the source can therefore give them different
  update times, while the model gives them all the same `now`.
- Touch positions are plain integers `x` and `y`.

The model follows the code where its behaviour may surprise a reader:

- `deleteTask` removes every task that carries the id, not just one.
- Uniqueness of ids is not guaranteed. Two tasks added in the same millisecond
  share an id. `Tasks.AddTaskWellFormed` therefore assumes a fresh id, and
  `Tasks.IdsFromDistinctTimesDiffer` shows that distinct clock readings give
  distinct ids.
- A move that is not a swipe keeps the previous swipe. Dragging past the
  commit threshold and coming back into the dead zone still commits
  (`Gesture.StaleSwipeStillCommits`).
- `handleTouchStart` does not clear `swipeAction`, and the component has no
  touch-cancel handler. A swipe left over from a cancelled touch is therefore
  committed at the end of the next touch, even if that touch is a vertical drag
  on another card (`Component.CancelledTouchScenario`).

## Model

| member | source | states |
|---|---|---|
| Sequences.Filter | app/page.tsx:126 | `Array.prototype.filter`: the result is no longer than the input and holds only elements of the input that pass the predicate |
| Sequences.FilterMembership | app/page.tsx:126 | an element is in the filtered list if and only if it is in the input and passes the predicate |
| Sequences.FilterCount | app/page.tsx:296-299 | the filter keeps every occurrence of an element that passes and drops every occurrence of one that fails |
| Sequences.FilterConcat | app/page.tsx:126 | filtering a concatenation is concatenating the filtered parts, so no kept element changes place |
| Sequences.FilterKeepsAll | app/page.tsx:129 | the filter returns its input unchanged exactly when every element passes |
| Sequences.FilterIdempotent | app/page.tsx:126 | filtering twice with one predicate is filtering once |
| Sequences.FilterIsSubsequence | app/page.tsx:126 | the filter's result is an order-preserving subsequence of its input |
| Sequences.SubsequenceMembers | app/page.tsx:126 | every element of a subsequence is an element of the larger list |
| Text.TrimStart | app/page.tsx:57 | the result is the suffix of the input starting at its first non-whitespace character; everything dropped is whitespace |
| Text.TrimEnd | app/page.tsx:57 | the result is the prefix of the input ending at its last non-whitespace character; everything dropped is whitespace |
| Text.Trim | app/page.tsx:57 | `trim()` returns a contiguous piece of the input with only whitespace before and after it; the piece is empty exactly when the input is all whitespace, and otherwise neither starts nor ends with whitespace |
| Text.TrimEnds | app/page.tsx:57 | trimming the start and then the end yields the empty string exactly for blank input, and otherwise has no whitespace at either end |
| Text.TrimLocates | app/page.tsx:57 | trimming the start and then the end leaves the piece of the input between its leading and trailing whitespace, and drops nothing else |
| Text.TrimIdempotent | app/page.tsx:61 | trimming an already trimmed task text changes nothing |
| Text.Lower | app/page.tsx:129 | `toLowerCase()` keeps the length, turns each upper-case ASCII letter into the same letter in lower case, and changes no other character |
| Text.LowerIdempotent | app/page.tsx:129 | lower-casing twice is lower-casing once |
| Text.Includes | app/page.tsx:129 | `includes()` holds exactly when the needle occurs in the text at some position |
| Text.NatToString | app/page.tsx:60 | the decimal numeral of a natural number is non-empty, all digits, and a single digit exactly below ten |
| Text.IntToString | app/page.tsx:60 | `Date.now().toString()` is non-empty and starts with a minus sign exactly for negative readings |
| Text.NatToStringValue | app/page.tsx:60 | the numeral of a natural number, read as decimal digits most significant first, denotes that number |
| Text.NatToStringInjective | app/page.tsx:60 | different natural numbers have different numerals |
| Text.IntToStringInjective | app/page.tsx:60 | different clock readings have different numerals |
| Tasks.Advance | app/page.tsx:266-271 | the secondary button moves today to next, next to hold, hold to today and done to today: it never yields done and always moves a working status |
| Tasks.AdvanceCycle | app/page.tsx:266-271 | three advances from today, next or hold return to the start |
| Tasks.AdvanceReachesToday | app/page.tsx:266-271 | every status reaches today within three advances |
| Tasks.NewTask | app/page.tsx:57-65 | blank input makes no task; otherwise the task has the trimmed non-empty text, status today, the id of `now`, and equal creation and update times `now` |
| Tasks.AddTask | app/page.tsx:56-68 | blank input leaves the list unchanged; otherwise the new task is put in front of the unchanged old list |
| Tasks.SetStatus | app/page.tsx:119-123 | `updateTaskStatus` keeps the length and every id, text and creation time; tasks with the id get the new status and update time `now`; every other task is unchanged |
| Tasks.SetStatusAbsent | app/page.tsx:119-123 | a status change for an absent id leaves the list unchanged |
| Tasks.Delete | app/page.tsx:125-127 | `deleteTask` yields no longer a list, holding only tasks of the old list whose id differs |
| Tasks.DeleteKeepsOthers | app/page.tsx:125-127 | a task survives a delete exactly when it was in the list and has another id, and the survivors keep their relative order |
| Tasks.DeleteAbsent | app/page.tsx:125-127 | deleting an absent id leaves the list unchanged |
| Tasks.DeleteIdempotent | app/page.tsx:125-127 | deleting the same id twice is deleting it once |
| Tasks.DeleteRemovesOne | app/page.tsx:125-127 | when ids are unique and the id is present, deleting shortens the list by exactly one |
| Tasks.AddTaskWellFormed | app/page.tsx:56-68 | adding keeps ids unique and texts trimmed and non-empty, provided the new id is not in use |
| Tasks.IdsFromDistinctTimesDiffer | app/page.tsx:60 | tasks created at different clock readings get different ids |
| Tasks.SetStatusWellFormed | app/page.tsx:119-123 | a status change keeps the list invariants, provided `now` is not before the creation time of the tasks it touches |
| Tasks.DeleteWellFormed | app/page.tsx:125-127 | deleting keeps the list invariants |
| Tasks.SubsequenceKeepsUniqueIds | app/page.tsx:126 | every order-preserving subsequence of a list with unique ids has unique ids |
| Gesture.Abs | app/page.tsx:91 | `Math.abs` returns the value or its negation, and is never negative |
| Gesture.Classify | app/page.tsx:94-96 | the pending action is complete exactly beyond +60, delete exactly below -60, and none within 60 either way |
| Gesture.AfterMove | app/page.tsx:83-104 | without a touch, or for a move that is not mostly horizontal or stays within 20, the previous swipe is kept; otherwise the swipe names the touched task, with the horizontal travel as its offset and the action `Classify` gives that travel; a swipe a move sets is always outside the dead zone |
| Gesture.Commit | app/page.tsx:106-113 | the end of a touch marks done exactly a complete swipe beyond 100, deletes exactly a delete swipe beyond 100, acts on the swipe's own task and otherwise does nothing |
| Gesture.Apply | app/page.tsx:106-113 | a touch end that commits nothing leaves the list unchanged |
| Gesture.SwipeBeyondCommitActs | app/page.tsx:91-113 | a swipe move beyond 100 always carries an action, and ending the touch then completes (rightward) or deletes (leftward) the touched task |
| Gesture.CancelBand | app/page.tsx:94-113 | a swipe between 60 and 100 shows a pending action, yet ending the touch there commits nothing |
| Gesture.DragIgnoresNonSwipes | app/page.tsx:91 | moves that are not swipes leave the drag in the state the earlier moves put it in |
| Gesture.LastSwipeDecides | app/page.tsx:91-103 | the outcome of a drag is the swipe of its last qualifying move |
| Gesture.StaleSwipeStillCommits | app/page.tsx:91-113 | a drag to +150 and back to +5 still marks the task done |
| Views.FilterBySearch | app/page.tsx:129 | `filteredTasks` is no longer than the list and holds only tasks of the list whose lower-cased text contains the lower-cased query |
| Views.SearchKeepsMatches | app/page.tsx:129 | a task is in the search result exactly when it is in the list and the lower-cased query occurs in its lower-cased text; the result keeps list order |
| Views.EmptyQueryKeepsAll | app/page.tsx:129 | an empty query returns the whole list unchanged |
| Views.SearchIgnoresCase | app/page.tsx:129 | queries equal up to letter case find the same tasks |
| Views.GroupingPartitions | app/page.tsx:295-300 | the four columns together hold exactly the tasks of the filtered list, each as often as it occurs there |
| Views.ColumnsCount | app/page.tsx:295-300 | each task occurs in the four columns together as often as in the list |
| Views.GroupingSizes | app/page.tsx:295-300 | the column sizes add up to the length of the filtered list |
| Views.GroupingByStatus | app/page.tsx:295-300 | each column holds exactly the tasks of its status, as an order-preserving subsequence |
| Views.GetTaskPriority | app/page.tsx:132-137 | a task is old exactly when more than 86 400 000 ms have passed since creation, and urgent exactly when its lower-cased text contains "urgent" or its text contains "!" |
| Views.UrgencyIgnoresCase | app/page.tsx:135 | tasks whose texts are equal up to letter case are equally urgent |
| Views.GetTimeAgo | app/page.tsx:139-150 | the label is "just now" below a minute, then minutes below an hour, hours below a day, and days after that; each count is the elapsed time in that unit, rounded down |
| Component.TaskManager.constructor | app/page.tsx:21-27 | at mount the list, input bar, search box, touch and swipe are all empty |
| Component.TaskManager.AddTask | app/page.tsx:56-75 | the new list is `Tasks.AddTask` of the old list and input, and the input bar is cleared exactly when a task was added |
| Component.TaskManager.UpdateTaskStatus | app/page.tsx:119-123 | the new list is `Tasks.SetStatus` of the old one |
| Component.TaskManager.DeleteTask | app/page.tsx:125-127 | the new list is `Tasks.Delete` of the old one |
| Component.TaskManager.OnComplete | app/page.tsx:251-255 | the button, shown only on unfinished cards, sets the card's task to done at `now` |
| Component.TaskManager.OnAdvance | app/page.tsx:266-271 | the button sets the card's task to the advance of the status the card was drawn with |
| Component.TaskManager.HandleTouchStart | app/page.tsx:78-81 | the touch start is recorded with its card, and nothing else changes (the old swipe stays) |
| Component.TaskManager.HandleTouchMove | app/page.tsx:83-104 | only the swipe changes, and it becomes `Gesture.AfterMove` of the recorded touch start and the old swipe |
| Component.TaskManager.HandleTouchEnd | app/page.tsx:106-117 | the list becomes the update the old swipe commits, and the touch and the swipe are cleared |
| Component.TaskManager.FilteredTasks | app/page.tsx:129 | the visible tasks are exactly the stored tasks matching the search box, in list order |
| Component.TaskManager.TasksByStatus | app/page.tsx:295-300 | the columns are `Views.GroupByStatus` of the visible tasks: one status each, in list order, and together exactly the visible tasks |

## Left out

- Loading the list from `localStorage` and saving it back (app/page.tsx:31-43) are left out. They are browser storage and JSON I/O. A malformed saved payload makes `JSON.parse` throw at mount, and a payload of the wrong shape is accepted as is. So a loaded list need not satisfy `Tasks.WellFormed`, which is why the preservation lemmas take it as a hypothesis.
- `navigator.vibrate` (app/page.tsx:72-74) is left out: it is best-effort device output.
- The `isTyping` timer (app/page.tsx:46-53), `showKanban`, the input focus and the hover state of a card are left out: they are presentation state with no bearing on the task list.
- The `onChange` handlers of the input bar and the search box are left out. They are plain field writes, done by assigning `newTask` or `searchQuery` directly.
- JSX rendering, the three views, CSS classes, icons, the empty-state test (app/page.tsx:314) and the column headers are left out: they are presentation only.
- `preventDefault` and reading coordinates from touch events (app/page.tsx:79, 86, 92) are left out. They are host-event plumbing, so the handlers take integer coordinates.
- React's state scheduling is not modelled. Each handler sees the state the previous handler left, as when every event is followed by a render.
- Text.Lower: folds only ASCII letters, whereas `toLowerCase` folds all of Unicode.
- Text.IntToString: models integers only, and ignores the exponent notation `Number.prototype.toString` uses from 1e21 up. Clock readings are integers far below that.
- Numbers are unbounded integers rather than IEEE doubles. Millisecond timestamps are exact in both.
- Views.GetTimeAgo: returns the label's unit and count, not the formatted text ("5m ago").
- The clock is a parameter and is not assumed monotonic. An update time later than the creation time therefore holds only when `now` is at least the creation time (a hypothesis of `Tasks.SetStatusWellFormed`).
