/** The swipe interpreter: what a touch move makes of the drag in progress, and
    what the end of the touch commits. The component's handlers (module
    Component) run these rules on its state. */
module Gesture {
  import opened Sequences
  import opened Tasks

  /** Horizontal travel at or below which a move is jitter, not a swipe. */
  const DeadZone := 20
  /** Horizontal travel beyond which a pending action is shown. */
  const PreviewThreshold := 60
  /** Horizontal travel beyond which the pending action is carried out. */
  const CommitThreshold := 100

  /** Where a touch began and on which task's card (`touchStart`). */
  datatype TouchPoint = TouchPoint(x: int, y: int, taskId: string)

  /** The pending action of a swipe: the strings "", "complete" and "delete". */
  datatype SwipeKind = NoAction | CompleteAction | DeleteAction

  /** The swipe in progress (`swipeAction`); `offset` is the horizontal travel. */
  datatype Swipe = Swipe(taskId: string, action: SwipeKind, offset: int)

  /** What the end of a touch does to the task list. */
  datatype Command = Nothing | MarkDone(id: string) | Remove(id: string)

  /** A position reported by a touch move. */
  datatype Point = Point(x: int, y: int)

  function Abs(n: int): (r: nat)
    ensures r == n || r == -n
  {
    if n < 0 then -n else n
  }

  /** The pending action for a horizontal travel of `dx`. */
  function Classify(dx: int): (k: SwipeKind)
    ensures k == CompleteAction <==> dx > PreviewThreshold
    ensures k == DeleteAction <==> dx < -PreviewThreshold
    ensures k == NoAction <==> Abs(dx) <= PreviewThreshold
  {
    if dx > PreviewThreshold then CompleteAction
    else if dx < -PreviewThreshold then DeleteAction
    else NoAction
  }

  /** A move to (x, y) counts as a swipe when it is more horizontal than
      vertical and leaves the dead zone. */
  predicate IsSwipe(start: TouchPoint, x: int, y: int) {
    Abs(x - start.x) > Abs(y - start.y) && Abs(x - start.x) > DeadZone
  }

  /** `handleTouchMove`'s state update: with no touch in progress or a move that
      is not a swipe, the previous swipe stays as it was; otherwise the swipe
      is replaced by one for the touched task, with the travel as its offset
      and the action the travel classifies to. */
  function AfterMove(start: Option<TouchPoint>, prev: Option<Swipe>, x: int, y: int): (r: Option<Swipe>)
    ensures start.None? || !IsSwipe(start.value, x, y) ==> r == prev
    ensures start.Some? && IsSwipe(start.value, x, y) ==>
      r.Some? && r.value.taskId == start.value.taskId && r.value.offset == x - start.value.x &&
      r.value.action == Classify(x - start.value.x)
    ensures r.Some? && r != prev ==> Abs(r.value.offset) > DeadZone
  {
    match start
    case None => prev
    case Some(p) =>
      var dx := x - p.x;
      if IsSwipe(p, x, y) then Some(Swipe(p.taskId, Classify(dx), dx)) else prev
  }

  /** `handleTouchEnd`'s decision: only a swipe that travelled beyond the commit
      threshold acts, marking its task done or deleting it. */
  function Commit(sw: Option<Swipe>): (c: Command)
    ensures c.MarkDone? <==>
      sw.Some? && Abs(sw.value.offset) > CommitThreshold && sw.value.action == CompleteAction
    ensures c.Remove? <==>
      sw.Some? && Abs(sw.value.offset) > CommitThreshold && sw.value.action == DeleteAction
    ensures c != Nothing ==> c.id == sw.value.taskId
  {
    match sw
    case Some(s) =>
      if Abs(s.offset) > CommitThreshold then
        match s.action
        case CompleteAction => MarkDone(s.taskId)
        case DeleteAction => Remove(s.taskId)
        case NoAction => Nothing
      else Nothing
    case None => Nothing
  }

  /** The list update a command stands for. */
  function Apply(ts: seq<Task>, c: Command, now: int): (r: seq<Task>)
    ensures c.Nothing? ==> r == ts
  {
    match c
    case Nothing => ts
    case MarkDone(id) => SetStatus(ts, id, Done, now)
    case Remove(id) => Delete(ts, id)
  }

  /** A swipe produced by a move and beyond the commit threshold always carries
      an action, and the end of the touch carries it out in the direction of
      the travel. */
  lemma SwipeBeyondCommitActs(start: TouchPoint, prev: Option<Swipe>, x: int, y: int)
    requires IsSwipe(start, x, y)
    requires Abs(x - start.x) > CommitThreshold
    ensures x > start.x ==> Commit(AfterMove(Some(start), prev, x, y)) == MarkDone(start.taskId)
    ensures x < start.x ==> Commit(AfterMove(Some(start), prev, x, y)) == Remove(start.taskId)
  {
  }

  /** In the band between the preview and the commit thresholds a pending action
      is shown, yet ending the touch there does nothing. */
  lemma CancelBand(start: TouchPoint, prev: Option<Swipe>, x: int, y: int)
    requires IsSwipe(start, x, y)
    requires PreviewThreshold < Abs(x - start.x) <= CommitThreshold
    ensures AfterMove(Some(start), prev, x, y).value.action != NoAction
    ensures Commit(AfterMove(Some(start), prev, x, y)) == Nothing
  {
  }

  /** A touch followed by a sequence of moves, from the swipe state `prev`. */
  function Drag(start: TouchPoint, prev: Option<Swipe>, moves: seq<Point>): (r: Option<Swipe>)
    decreases |moves|
  {
    if moves == [] then prev
    else
      var last := moves[|moves| - 1];
      AfterMove(Some(start), Drag(start, prev, moves[..|moves| - 1]), last.x, last.y)
  }

  /** Moves that are not swipes leave the drag where the earlier moves put it:
      the state remembers the last swipe, however far back it was. */
  lemma {:induction false} DragIgnoresNonSwipes(start: TouchPoint, prev: Option<Swipe>, moves: seq<Point>, k: nat)
    requires k <= |moves|
    requires forall j :: k <= j < |moves| ==> !IsSwipe(start, moves[j].x, moves[j].y)
    ensures Drag(start, prev, moves) == Drag(start, prev, moves[..k])
    decreases |moves|
  {
    if |moves| > k {
      var init := moves[..|moves| - 1];
      assert init[..k] == moves[..k];
      DragIgnoresNonSwipes(start, prev, init, k);
    } else {
      assert moves[..k] == moves;
    }
  }

  /** The outcome of a drag is decided by its last swipe move alone: when move
      `k` is a swipe and no later move is, the drag ends in that move's swipe. */
  lemma LastSwipeDecides(start: TouchPoint, prev: Option<Swipe>, moves: seq<Point>, k: nat)
    requires k < |moves| && IsSwipe(start, moves[k].x, moves[k].y)
    requires forall j :: k < j < |moves| ==> !IsSwipe(start, moves[j].x, moves[j].y)
    ensures var dx := moves[k].x - start.x;
      Drag(start, prev, moves) == Some(Swipe(start.taskId, Classify(dx), dx))
  {
    DragIgnoresNonSwipes(start, prev, moves, k + 1);
    assert moves[..k + 1][..k] == moves[..k];
  }

  /** Sliding 150 to the right and then back to 5 from the start still marks
      the task done: the return move is inside the dead zone and does not
      replace the earlier swipe. */
  lemma StaleSwipeStillCommits(start: TouchPoint)
    ensures var moves := [Point(start.x + 150, start.y + 5), Point(start.x + 5, start.y)];
      Commit(Drag(start, None, moves)) == MarkDone(start.taskId)
  {
    var moves := [Point(start.x + 150, start.y + 5), Point(start.x + 5, start.y)];
    assert moves[..1] == [moves[0]] && moves[..1][..0] == [];
  }
}
