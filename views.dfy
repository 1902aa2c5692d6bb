/** The values the component derives from its task list on every render: the
    search result, the four status columns, the priority flags of a card and
    its "time ago" label. None of them is stored. */
module Views {
  import opened Sequences
  import opened Text
  import opened Tasks

  /** Whether the task's text contains the (already lower-cased) needle,
      ignoring case. */
  predicate Matches(t: Task, needle: string) {
    Includes(Lower(t.text), needle)
  }

  /** The predicate `filteredTasks` filters with. */
  function MatchesQuery(query: string): Task -> bool {
    var needle := Lower(query);
    (t: Task) => Matches(t, needle)
  }

  /** `filteredTasks`: the tasks whose text contains the query, ignoring case. */
  function FilterBySearch(ts: seq<Task>, query: string): (r: seq<Task>)
    ensures |r| <= |ts|
    ensures forall t :: t in r ==> t in ts && Matches(t, Lower(query))
  {
    Filter(MatchesQuery(query), ts)
  }

  /** The search keeps exactly the tasks whose lower-cased text has the
      lower-cased query at some position, in their original order. */
  lemma SearchKeepsMatches(ts: seq<Task>, query: string)
    ensures forall t :: t in FilterBySearch(ts, query) <==>
      t in ts && exists k :: OccursAt(Lower(t.text), Lower(query), k)
    ensures Subsequence(FilterBySearch(ts, query), ts)
  {
    forall t ensures t in FilterBySearch(ts, query) <==> t in ts && Matches(t, Lower(query)) {
      FilterMembership(MatchesQuery(query), ts, t);
    }
    FilterIsSubsequence(MatchesQuery(query), ts);
  }

  /** An empty query shows the whole list, in order. */
  lemma EmptyQueryKeepsAll(ts: seq<Task>)
    ensures FilterBySearch(ts, "") == ts
  {
    forall i | 0 <= i < |ts| ensures MatchesQuery("")(ts[i]) {
      assert OccursAt(Lower(ts[i].text), Lower(""), 0);
    }
    FilterKeepsAll(MatchesQuery(""), ts);
  }

  /** Queries that differ only in the case of their letters find the same tasks. */
  lemma SearchIgnoresCase(ts: seq<Task>, q1: string, q2: string)
    requires Lower(q1) == Lower(q2)
    ensures FilterBySearch(ts, q1) == FilterBySearch(ts, q2)
  {
  }

  /** The four columns of the board (`tasksByStatus`). */
  datatype Buckets = Buckets(today: seq<Task>, next: seq<Task>, hold: seq<Task>, done: seq<Task>)

  /** The predicate each column filters with. */
  function HasStatus(s: Status): Task -> bool {
    (t: Task) => t.status == s
  }

  /** `tasksByStatus`: the list split by status, each column in list order. */
  function GroupByStatus(ts: seq<Task>): Buckets {
    Buckets(Filter(HasStatus(Today), ts), Filter(HasStatus(Next), ts),
            Filter(HasStatus(Hold), ts), Filter(HasStatus(Done), ts))
  }

  /** The multiset union of the four columns. */
  function ColumnsMultiset(b: Buckets): multiset<Task> {
    multiset(b.today) + multiset(b.next) + multiset(b.hold) + multiset(b.done)
  }

  /** The columns partition the list: every task lands in exactly one column,
      as often as it occurs in the list. */
  lemma GroupingPartitions(ts: seq<Task>)
    ensures ColumnsMultiset(GroupByStatus(ts)) == multiset(ts)
  {
    forall x ensures ColumnsMultiset(GroupByStatus(ts))[x] == multiset(ts)[x] {
      ColumnsCount(ts, x);
    }
  }

  /** A task occurs in the columns together as often as in the list. */
  lemma ColumnsCount(ts: seq<Task>, x: Task)
    ensures ColumnsMultiset(GroupByStatus(ts))[x] == multiset(ts)[x]
  {
    FilterCount(HasStatus(Today), ts, x);
    FilterCount(HasStatus(Next), ts, x);
    FilterCount(HasStatus(Hold), ts, x);
    FilterCount(HasStatus(Done), ts, x);
  }

  /** The column sizes add up to the length of the list. */
  lemma GroupingSizes(ts: seq<Task>)
    ensures var b := GroupByStatus(ts);
      |b.today| + |b.next| + |b.hold| + |b.done| == |ts|
  {
    var b := GroupByStatus(ts);
    GroupingPartitions(ts);
    assert |ColumnsMultiset(b)| == |b.today| + |b.next| + |b.hold| + |b.done|;
  }

  /** Each column holds exactly the tasks of its status, in list order. */
  lemma GroupingByStatus(ts: seq<Task>, s: Status)
    ensures forall t :: t in Column(GroupByStatus(ts), s) <==> t in ts && t.status == s
    ensures Subsequence(Column(GroupByStatus(ts), s), ts)
  {
    forall t ensures t in Filter(HasStatus(s), ts) <==> t in ts && t.status == s {
      FilterMembership(HasStatus(s), ts, t);
    }
    FilterIsSubsequence(HasStatus(s), ts);
  }

  /** The column of a status. */
  function Column(b: Buckets, s: Status): seq<Task> {
    match s
    case Today => b.today
    case Next => b.next
    case Hold => b.hold
    case Done => b.done
  }

  /** Milliseconds in a minute, an hour and a day. */
  const MinuteMs := 1000 * 60
  const HourMs := 1000 * 60 * 60
  const DayMs := 1000 * 60 * 60 * 24

  /** The flags a card is highlighted by. */
  datatype Priority = Priority(isOld: bool, isUrgent: bool)

  /** `getTaskPriority`: a task is old once more than a day has passed since
      its creation, and urgent when its text mentions "urgent" in any case or
      contains an exclamation mark. */
  function GetTaskPriority(t: Task, now: int): (p: Priority)
    ensures p.isOld <==> now - t.createdAt > 86400000
    ensures p.isUrgent <==>
      (exists k :: OccursAt(Lower(t.text), "urgent", k)) || (exists k :: 0 <= k < |t.text| && t.text[k] == '!')
  {
    var age := now - t.createdAt;
    var urgent := Includes(Lower(t.text), "urgent") || Includes(t.text, "!");
    assert Includes(t.text, "!") <==> exists k :: 0 <= k < |t.text| && t.text[k] == '!' by {
      if Includes(t.text, "!") {
        var k :| OccursAt(t.text, "!", k);
        assert t.text[k] == t.text[k..k + 1][0];
      } else {
        forall k | 0 <= k < |t.text| ensures t.text[k] != '!' {
          assert t.text[k..k + 1] == [t.text[k]];
          assert !OccursAt(t.text, "!", k);
        }
      }
    }
    Priority(age > DayMs, urgent)
  }

  /** Urgency depends on the text only up to the case of its letters. */
  lemma UrgencyIgnoresCase(t1: Task, t2: Task, now: int)
    requires Lower(t1.text) == Lower(t2.text)
    ensures GetTaskPriority(t1, now).isUrgent == GetTaskPriority(t2, now).isUrgent
  {
    forall k | 0 <= k < |t1.text| ensures t1.text[k] == '!' <==> t2.text[k] == '!' {
      assert Lower(t1.text)[k] == Lower(t2.text)[k];
    }
  }

  /** The age label of a card, before it is formatted as text. */
  datatype TimeAgo = JustNow | MinutesAgo(minutes: int) | HoursAgo(hours: int) | DaysAgo(days: int)

  /** `getTimeAgo`: the elapsed time in the largest unit that is at least one,
      rounded down; less than a minute (a timestamp in the future included)
      is "just now". */
  function GetTimeAgo(timestamp: int, now: int): (r: TimeAgo)
    ensures var diff := now - timestamp;
      (r.JustNow? <==> diff < MinuteMs) &&
      (r.MinutesAgo? <==> MinuteMs <= diff < HourMs) &&
      (r.HoursAgo? <==> HourMs <= diff < DayMs) &&
      (r.DaysAgo? <==> DayMs <= diff)
    ensures r.MinutesAgo? ==>
              1 <= r.minutes < 60 && r.minutes * MinuteMs <= now - timestamp < (r.minutes + 1) * MinuteMs
    ensures r.HoursAgo? ==>
              1 <= r.hours < 24 && r.hours * HourMs <= now - timestamp < (r.hours + 1) * HourMs
    ensures r.DaysAgo? ==>
              1 <= r.days && r.days * DayMs <= now - timestamp < (r.days + 1) * DayMs
  {
    var diff := now - timestamp;
    var minutes := diff / MinuteMs;
    var hours := diff / HourMs;
    var days := diff / DayMs;
    if minutes < 1 then JustNow
    else if minutes < 60 then MinutesAgo(minutes)
    else if hours < 24 then HoursAgo(hours)
    else DaysAgo(days)
  }
}
