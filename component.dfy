/** The `TaskManager` component as an object: its state hooks become fields and
    its event handlers become methods that update them. Each handler runs to
    completion before the next event, as the browser's event loop has it. */
module Component {
  import opened Sequences
  import opened Text
  import opened Tasks
  import opened Gesture
  import opened Views

  class TaskManager {
    /** The task list, newest first. */
    var tasks: seq<Task>
    /** The text of the input bar. */
    var newTask: string
    /** The text of the search box. */
    var searchQuery: string
    /** Where the touch in progress began, if any. */
    var touchStart: Option<TouchPoint>
    /** The swipe the last qualifying move produced, if any. */
    var swipeAction: Option<Swipe>

    /** The state at mount, before any saved list is loaded. */
    constructor ()
      ensures tasks == [] && newTask == "" && searchQuery == ""
      ensures touchStart == None && swipeAction == None
    {
      tasks := [];
      newTask := "";
      searchQuery := "";
      touchStart := None;
      swipeAction := None;
    }

    /** `addTask` at clock reading `now`: a blank input changes nothing; any
        other input becomes a new task in front of the list and the input bar
        is cleared. */
    method AddTask(now: int)
      modifies this`tasks, this`newTask
      ensures tasks == Tasks.AddTask(old(tasks), old(newTask), now)
      ensures newTask == if IsBlank(old(newTask)) then old(newTask) else ""
    {
      var text := Trim(newTask);
      if text == [] {
        return;
      }
      var task := Task(IdOf(now), text, Today, now, now);
      tasks := [task] + tasks;
      newTask := "";
    }

    /** `updateTaskStatus` at clock reading `now`. */
    method UpdateTaskStatus(taskId: string, newStatus: Status, now: int)
      modifies this`tasks
      ensures tasks == SetStatus(old(tasks), taskId, newStatus, now)
    {
      tasks := SetStatus(tasks, taskId, newStatus, now);
    }

    /** `deleteTask`. */
    method DeleteTask(taskId: string)
      modifies this`tasks
      ensures tasks == Delete(old(tasks), taskId)
    {
      tasks := Delete(tasks, taskId);
    }

    /** The primary button of a card: mark the task shown on it done. */
    method OnComplete(task: Task, now: int)
      requires task.status != Done
      modifies this`tasks
      ensures tasks == SetStatus(old(tasks), task.id, Done, now)
    {
      UpdateTaskStatus(task.id, Done, now);
    }

    /** The secondary button of a card: move the task shown on it to the next
        status. The status is the one the card was drawn with. */
    method OnAdvance(task: Task, now: int)
      modifies this`tasks
      ensures tasks == SetStatus(old(tasks), task.id, Advance(task.status), now)
    {
      if task.status == Today {
        UpdateTaskStatus(task.id, Next, now);
      } else if task.status == Next {
        UpdateTaskStatus(task.id, Hold, now);
      } else if task.status == Hold {
        UpdateTaskStatus(task.id, Today, now);
      } else {
        UpdateTaskStatus(task.id, Today, now);
      }
    }

    /** `handleTouchStart`: remember where the touch began and on which card.
        A swipe left over from an earlier touch is not cleared. */
    method HandleTouchStart(x: int, y: int, taskId: string)
      modifies this`touchStart
      ensures touchStart == Some(TouchPoint(x, y, taskId))
    {
      touchStart := Some(TouchPoint(x, y, taskId));
    }

    /** `handleTouchMove`: a move that is more horizontal than vertical and
        leaves the dead zone replaces the swipe; any other move, or a move with
        no touch in progress, leaves it as it was. */
    method HandleTouchMove(x: int, y: int)
      modifies this`swipeAction
      ensures swipeAction == AfterMove(touchStart, old(swipeAction), x, y)
    {
      if touchStart.None? {
        return;
      }
      var start := touchStart.value;
      var deltaX := x - start.x;
      var deltaY := y - start.y;
      if Abs(deltaX) > Abs(deltaY) && Abs(deltaX) > DeadZone {
        var action := NoAction;
        if deltaX > PreviewThreshold {
          action := CompleteAction;
        } else if deltaX < -PreviewThreshold {
          action := DeleteAction;
        }
        swipeAction := Some(Swipe(start.taskId, action, deltaX));
      }
    }

    /** `handleTouchEnd` at clock reading `now`: carry out the swipe if it went
        beyond the commit threshold, then forget the touch and the swipe. */
    method HandleTouchEnd(now: int)
      modifies this`tasks, this`touchStart, this`swipeAction
      ensures tasks == Apply(old(tasks), Commit(old(swipeAction)), now)
      ensures touchStart == None && swipeAction == None
    {
      if swipeAction.Some? && Abs(swipeAction.value.offset) > CommitThreshold {
        if swipeAction.value.action == CompleteAction {
          UpdateTaskStatus(swipeAction.value.taskId, Done, now);
        } else if swipeAction.value.action == DeleteAction {
          DeleteTask(swipeAction.value.taskId);
        }
      }
      touchStart := None;
      swipeAction := None;
    }

    /** `filteredTasks`: the tasks matching the search box, in list order. */
    function FilteredTasks(): (r: seq<Task>)
      reads this
      ensures forall t :: t in r <==> t in tasks && Matches(t, Lower(searchQuery))
      ensures Subsequence(r, tasks)
    {
      SearchKeepsMatches(tasks, searchQuery);
      FilterBySearch(tasks, searchQuery)
    }

    /** `tasksByStatus`: the matching tasks split into the four columns, which
        together hold each of them once per occurrence. */
    function TasksByStatus(): (b: Buckets)
      reads this
      ensures b == GroupByStatus(FilteredTasks())
      ensures ColumnsMultiset(b) == multiset(FilteredTasks())
    {
      GroupingPartitions(FilteredTasks());
      GroupByStatus(FilteredTasks())
    }
  }

  /** A fresh component holding one task, added at clock reading `now`. */
  method WithOneTask(now: int) returns (m: TaskManager, t: Task)
    ensures fresh(m)
    ensures m.tasks == [t] && t.id == IdOf(now) && t.status == Today
    ensures m.touchStart == None && m.swipeAction == None
  {
    m := new TaskManager();
    var input := "Write report";
    assert !IsWhitespace(input[0]);
    m.newTask := input;
    m.AddTask(now);
    t := m.tasks[0];
  }

  /** A drag far to the right marks the task done. */
  method SwipeRightCompletes(now: int)
  {
    var m, t := WithOneTask(now);
    m.HandleTouchStart(0, 0, t.id);
    m.HandleTouchMove(150, 5);
    m.HandleTouchEnd(now + 1);
    assert m.tasks == [t.(status := Done, updatedAt := now + 1)];
  }

  /** A drag far to the left deletes the task. */
  method SwipeLeftDeletes(now: int)
  {
    var m, t := WithOneTask(now);
    m.HandleTouchStart(0, 0, t.id);
    m.HandleTouchMove(-150, 5);
    m.HandleTouchEnd(now + 1);
    assert m.tasks == [];
  }

  /** A drag that stops between the preview and the commit thresholds shows
      the pending action but commits nothing. */
  method SwipeInBandCommitsNothing(now: int)
  {
    var m, t := WithOneTask(now);
    m.HandleTouchStart(0, 0, t.id);
    m.HandleTouchMove(80, 5);
    assert m.swipeAction == Some(Swipe(t.id, CompleteAction, 80));
    m.HandleTouchEnd(now + 1);
    assert m.tasks == [t];
  }

  /** A mostly vertical drag never shows a swipe. */
  method VerticalDragShowsNoSwipe(now: int)
  {
    var m, t := WithOneTask(now);
    m.HandleTouchStart(0, 0, t.id);
    m.HandleTouchMove(30, 40);
    assert m.swipeAction == None;
    m.HandleTouchEnd(now + 1);
    assert m.tasks == [t];
  }

  /** A touch that ends without a touch-end event (the component has no
      touch-cancel handler) leaves its swipe behind; the next touch does not
      clear it, and a purely vertical drag on another card then ends by
      completing the first card's task. */
  method CancelledTouchScenario(now: int, otherCard: string)
  {
    var m, t := WithOneTask(now);
    m.HandleTouchStart(0, 0, t.id);
    m.HandleTouchMove(150, 0);
    m.HandleTouchStart(0, 0, otherCard);
    m.HandleTouchMove(0, 200);
    assert m.swipeAction == Some(Swipe(t.id, CompleteAction, 150));
    m.HandleTouchEnd(now + 1);
    assert m.tasks == [t.(status := Done, updatedAt := now + 1)];
  }
}
