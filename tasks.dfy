/** The task record, the status rule behind the "advance" button, and the three
    list transformations the component hands to `setTasks`: prepending a new
    task, mapping a status change over the list and filtering out an id. */
module Tasks {
  import opened Sequences
  import opened Text

  datatype Status = Today | Next | Hold | Done

  /** A task; `createdAt` and `updatedAt` are millisecond clock readings. */
  datatype Task = Task(id: string, text: string, status: Status, createdAt: int, updatedAt: int)

  /** The status the secondary button moves a task to: the three working
      statuses form a cycle, and a finished task goes back to the start. */
  function Advance(s: Status): (r: Status)
    ensures r != Done
    ensures s != Done ==> r != s
    ensures s == Today ==> r == Next
    ensures s == Next ==> r == Hold
    ensures s == Hold ==> r == Today
    ensures s == Done ==> r == Today
  {
    match s
    case Today => Next
    case Next => Hold
    case Hold => Today
    case Done => Today
  }

  /** Three advances bring a working status back to where it started. */
  lemma AdvanceCycle(s: Status)
    requires s != Done
    ensures Advance(Advance(Advance(s))) == s
  {
  }

  /** Every status reaches `Today` within three advances. */
  lemma AdvanceReachesToday(s: Status)
    ensures Today in {Advance(s), Advance(Advance(s)), Advance(Advance(Advance(s)))}
  {
  }

  /** The id of a task created at clock reading `now`: its decimal numeral. */
  function IdOf(now: int): string {
    IntToString(now)
  }

  /** The task built from the input field at time `now`, or nothing when the
      input is blank. */
  function NewTask(input: string, now: int): (r: Option<Task>)
    ensures r.None? <==> IsBlank(input)
    ensures r.Some? ==> r.value.text != [] && r.value.text == Trim(input)
    ensures r.Some? ==> r.value.status == Today && r.value.id == IdOf(now)
    ensures r.Some? ==> r.value.createdAt == now && r.value.updatedAt == now
  {
    var text := Trim(input);
    if text == [] then None else Some(Task(IdOf(now), text, Today, now, now))
  }

  /** `addTask`'s list update: a blank input leaves the list alone, any other
      input puts the new task in front of the unchanged old list. */
  function AddTask(ts: seq<Task>, input: string, now: int): (r: seq<Task>)
    ensures IsBlank(input) ==> r == ts
    ensures !IsBlank(input) ==> |r| == |ts| + 1 && r[1..] == ts && Some(r[0]) == NewTask(input, now)
  {
    match NewTask(input, now)
    case None => ts
    case Some(t) => [t] + ts
  }

  /** `updateTaskStatus`'s list update: every task with the id gets the new
      status and the time `now`; nothing else changes. */
  function SetStatus(ts: seq<Task>, id: string, st: Status, now: int): (r: seq<Task>)
    ensures |r| == |ts|
    ensures forall i :: 0 <= i < |ts| ==>
      r[i].id == ts[i].id && r[i].text == ts[i].text && r[i].createdAt == ts[i].createdAt
    ensures forall i :: 0 <= i < |ts| && ts[i].id == id ==> r[i].status == st && r[i].updatedAt == now
    ensures forall i :: 0 <= i < |ts| && ts[i].id != id ==> r[i] == ts[i]
  {
    seq(|ts|, i requires 0 <= i < |ts| =>
      if ts[i].id == id then ts[i].(status := st, updatedAt := now) else ts[i])
  }

  /** Whether any task in the list carries the id. */
  predicate HasId(ts: seq<Task>, id: string) {
    exists i :: 0 <= i < |ts| && ts[i].id == id
  }

  /** A status change for an id nobody has leaves the list as it was. */
  lemma SetStatusAbsent(ts: seq<Task>, id: string, st: Status, now: int)
    requires !HasId(ts, id)
    ensures SetStatus(ts, id, st, now) == ts
  {
  }

  /** The predicate `deleteTask` filters with. */
  function OtherId(id: string): Task -> bool {
    (t: Task) => t.id != id
  }

  /** `deleteTask`'s list update: the tasks whose id differs, in order. */
  function Delete(ts: seq<Task>, id: string): (r: seq<Task>)
    ensures |r| <= |ts|
    ensures forall t :: t in r ==> t in ts && t.id != id
  {
    Filter(OtherId(id), ts)
  }

  /** Deleting keeps exactly the tasks with another id, without reordering them. */
  lemma DeleteKeepsOthers(ts: seq<Task>, id: string)
    ensures forall t :: t in Delete(ts, id) <==> t in ts && t.id != id
    ensures Subsequence(Delete(ts, id), ts)
  {
    forall t ensures t in Delete(ts, id) <==> t in ts && t.id != id {
      FilterMembership(OtherId(id), ts, t);
    }
    FilterIsSubsequence(OtherId(id), ts);
  }

  /** Deleting an id nobody has leaves the list as it was. */
  lemma DeleteAbsent(ts: seq<Task>, id: string)
    requires !HasId(ts, id)
    ensures Delete(ts, id) == ts
  {
    FilterKeepsAll(OtherId(id), ts);
  }

  /** Deleting the same id twice is deleting it once. */
  lemma DeleteIdempotent(ts: seq<Task>, id: string)
    ensures Delete(Delete(ts, id), id) == Delete(ts, id)
  {
    FilterIdempotent(OtherId(id), ts);
  }

  /** No two tasks share an id. */
  predicate UniqueIds(ts: seq<Task>) {
    forall i, j :: 0 <= i < j < |ts| ==> ts[i].id != ts[j].id
  }

  /** With unique ids, deleting an id that is present removes exactly one task. */
  lemma {:induction false} DeleteRemovesOne(ts: seq<Task>, id: string)
    requires UniqueIds(ts) && HasId(ts, id)
    ensures |Delete(ts, id)| == |ts| - 1
    decreases |ts|
  {
    assert Delete(ts, id) == (if ts[0].id != id then [ts[0]] else []) + Delete(ts[1..], id);
    if ts[0].id == id {
      assert !HasId(ts[1..], id) by {
        forall i | 0 <= i < |ts[1..]| ensures ts[1..][i].id != id {
          assert ts[1..][i] == ts[i + 1];
        }
      }
      DeleteAbsent(ts[1..], id);
    } else {
      var k :| 0 <= k < |ts| && ts[k].id == id;
      assert ts[1..][k - 1].id == id;
      DeleteRemovesOne(ts[1..], id);
    }
  }

  /** The per-task invariants of the data model: non-blank trimmed text and an
      update time no earlier than the creation time. */
  predicate ValidTask(t: Task) {
    t.text != [] && Trim(t.text) == t.text && t.createdAt <= t.updatedAt
  }

  /** The list invariants of the data model: unique ids and valid tasks. */
  predicate WellFormed(ts: seq<Task>) {
    UniqueIds(ts) && forall t :: t in ts ==> ValidTask(t)
  }

  /** Adding keeps the list well formed as long as the new id is fresh; the
      clock reading alone does not guarantee that. */
  lemma AddTaskWellFormed(ts: seq<Task>, input: string, now: int)
    requires WellFormed(ts) && !HasId(ts, IdOf(now))
    ensures WellFormed(AddTask(ts, input, now))
  {
    if !IsBlank(input) {
      TrimIdempotent(input);
      var r := AddTask(ts, input, now);
      forall i, j | 0 <= i < j < |r| ensures r[i].id != r[j].id {
        assert r[j] == ts[j - 1];
        if i > 0 {
          assert r[i] == ts[i - 1];
        }
      }
    }
  }

  /** Ids made from two different clock readings differ. */
  lemma IdsFromDistinctTimesDiffer(a: int, b: int)
    requires a != b
    ensures IdOf(a) != IdOf(b)
  {
    if IdOf(a) == IdOf(b) {
      IntToStringInjective(a, b);
    }
  }

  /** A status change keeps the list well formed unless it would date a task's
      update before its creation. */
  lemma SetStatusWellFormed(ts: seq<Task>, id: string, st: Status, now: int)
    requires WellFormed(ts)
    requires forall i :: 0 <= i < |ts| && ts[i].id == id ==> ts[i].createdAt <= now
    ensures WellFormed(SetStatus(ts, id, st, now))
  {
    var r := SetStatus(ts, id, st, now);
    forall t | t in r ensures ValidTask(t) {
      var i :| 0 <= i < |r| && r[i] == t;
      assert ts[i] in ts;
    }
  }

  /** Deleting keeps the list well formed. */
  lemma DeleteWellFormed(ts: seq<Task>, id: string)
    requires WellFormed(ts)
    ensures WellFormed(Delete(ts, id))
  {
    DeleteKeepsOthers(ts, id);
    SubsequenceKeepsUniqueIds(Delete(ts, id), ts);
  }

  /** Every subsequence of a list with unique ids has unique ids. */
  lemma {:induction false} SubsequenceKeepsUniqueIds(a: seq<Task>, b: seq<Task>)
    requires Subsequence(a, b) && UniqueIds(b)
    ensures UniqueIds(a)
    decreases |b|
  {
    if a != [] {
      assert UniqueIds(b[1..]) by {
        forall i, j | 0 <= i < j < |b[1..]| ensures b[1..][i].id != b[1..][j].id {
          assert b[1..][i] == b[i + 1] && b[1..][j] == b[j + 1];
        }
      }
      if a[0] == b[0] && Subsequence(a[1..], b[1..]) {
        SubsequenceKeepsUniqueIds(a[1..], b[1..]);
        SubsequenceMembers(a[1..], b[1..]);
        forall i, j | 0 <= i < j < |a| ensures a[i].id != a[j].id {
          assert a[j] == a[1..][j - 1] && a[j] in b[1..];
          var k :| 0 <= k < |b[1..]| && b[1..][k] == a[j];
          if i == 0 {
            assert b[0].id != b[k + 1].id;
          } else {
            assert a[i] == a[1..][i - 1];
          }
        }
      } else {
        SubsequenceKeepsUniqueIds(a, b[1..]);
      }
    }
  }
}
