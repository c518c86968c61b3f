/** The `tasks` table and the queries of lib/models/task.ts, with the table as a
    sequence of rows and every query as a function from the table before to the
    rows returned (and the table after). Timestamps are milliseconds since the
    epoch; calendar dates (`lastCompleted`) are day numbers. */
module TaskModel {
  import opened Wrappers
  import opened Schema
  import Ordering

  /** A row as MySQL hands it back: BOOLEAN columns are 0/1 integers, the JSON text
      of `scheduledDays` is represented by the list it encodes, `DATETIME` columns
      hold whole seconds. */
  datatype TaskRow = TaskRow(
    id: string,
    userId: string,
    title: string,
    category: Option<string>,
    completed: int,
    durationMinutes: int,
    createdAt: int,
    updatedAt: int,
    isRecurring: int,
    scheduledTime: Option<TimeOfDay>,
    scheduledDays: Option<seq<string>>,
    lastCompleted: Option<int>,
    lastNotified: Option<int>)

  type Table = seq<TaskRow>

  function BoolColumn(b: bool): int {
    if b then 1 else 0
  }

  /** `toISOString().slice(0, 19)`: a timestamp stored in a `DATETIME` loses its milliseconds. */
  function WholeSeconds(ms: nat): (r: nat)
    ensures r <= ms < r + 1000 && r % 1000 == 0
  {
    ms - ms % 1000
  }

  /** The normalisation every read applies: `!!` on the boolean columns, the JSON
      list or null, the date or null. */
  function Normalize(r: TaskRow): Task {
    Task(r.id, r.userId, r.title, r.category, r.completed != 0, r.durationMinutes,
         r.createdAt, r.updatedAt, r.isRecurring != 0, r.scheduledTime, r.scheduledDays,
         r.lastCompleted, r.lastNotified)
  }

  /** The row a task is written as. */
  function Store(t: Task): TaskRow {
    TaskRow(t.id, t.userId, t.title, t.category, BoolColumn(t.completed), t.durationMinutes,
            t.createdAt, t.updatedAt, BoolColumn(t.isRecurring), t.scheduledTime, t.scheduledDays,
            t.lastCompleted, t.lastNotified)
  }

  /** A row whose boolean columns hold 0 or 1, as every write of this module leaves them. */
  predicate CanonicalRow(r: TaskRow) {
    (r.completed == 0 || r.completed == 1) && (r.isRecurring == 0 || r.isRecurring == 1)
  }

  /** Reading back what was written gives the same task, and a canonical row survives
      a read followed by a write unchanged. */
  lemma NormalizeRoundTrip(t: Task, r: TaskRow)
    ensures Normalize(Store(t)) == t
    ensures CanonicalRow(Store(t))
    ensures CanonicalRow(r) ==> Store(Normalize(r)) == r
  {
  }

  function NormalizeAll(rows: seq<TaskRow>): (ts: seq<Task>)
    ensures |ts| == |rows|
    ensures forall i :: 0 <= i < |rows| ==> ts[i] == Normalize(rows[i])
  {
    seq(|rows|, i requires 0 <= i < |rows| => Normalize(rows[i]))
  }

  function ByNewest(r: TaskRow): int {
    r.createdAt
  }

  function RowsOfUser(table: Table, userId: string): seq<TaskRow> {
    Ordering.Filter(table, (r: TaskRow) => r.userId == userId)
  }

  /** `getTasksByUserId`: all of that user's rows, newest `createdAt` first. */
  function GetTasksByUserId(table: Table, userId: string): (ts: seq<Task>)
    ensures |ts| == Ordering.Count(table, (r: TaskRow) => r.userId == userId)
    ensures forall i :: 0 <= i < |ts| ==> ts[i].userId == userId
    ensures forall i, j :: 0 <= i < j < |ts| ==> ts[i].createdAt >= ts[j].createdAt
    ensures forall i :: 0 <= i < |table| && table[i].userId == userId ==> Normalize(table[i]) in ts
  {
    UserTasksFacts(table, userId);
    NormalizeAll(Ordering.SortDesc(RowsOfUser(table, userId), ByNewest))
  }

  lemma UserTasksFacts(table: Table, userId: string)
    ensures var ts := NormalizeAll(Ordering.SortDesc(RowsOfUser(table, userId), ByNewest));
      && |ts| == Ordering.Count(table, (r: TaskRow) => r.userId == userId)
      && (forall i :: 0 <= i < |ts| ==> ts[i].userId == userId)
      && (forall i, j :: 0 <= i < j < |ts| ==> ts[i].createdAt >= ts[j].createdAt)
      && (forall i :: 0 <= i < |table| && table[i].userId == userId ==> Normalize(table[i]) in ts)
  {
    Ordering.CountIsFilterLength(table, (r: TaskRow) => r.userId == userId);
    SortedRowsOfUser(table, userId);
    SortedRowsComplete(table, userId);
  }

  /** The sorted rows all belong to the user, newest first. */
  lemma SortedRowsOfUser(table: Table, userId: string)
    ensures var sorted := Ordering.SortDesc(RowsOfUser(table, userId), ByNewest);
      && (forall i :: 0 <= i < |sorted| ==> sorted[i].userId == userId)
      && (forall i, j :: 0 <= i < j < |sorted| ==> sorted[i].createdAt >= sorted[j].createdAt)
  {
    var mine := RowsOfUser(table, userId);
    var sorted := Ordering.SortDesc(mine, ByNewest);
    forall i | 0 <= i < |sorted|
      ensures sorted[i].userId == userId
    {
      assert sorted[i] in multiset(mine);
      assert sorted[i] in mine;
    }
    forall i, j | 0 <= i < j < |sorted|
      ensures sorted[i].createdAt >= sorted[j].createdAt
    {
      assert ByNewest(sorted[i]) >= ByNewest(sorted[j]);
    }
  }

  /** Every row of the user appears among the sorted tasks. */
  lemma SortedRowsComplete(table: Table, userId: string)
    ensures var ts := NormalizeAll(Ordering.SortDesc(RowsOfUser(table, userId), ByNewest));
      forall i :: 0 <= i < |table| && table[i].userId == userId ==> Normalize(table[i]) in ts
  {
    var mine := RowsOfUser(table, userId);
    var sorted := Ordering.SortDesc(mine, ByNewest);
    var ts := NormalizeAll(sorted);
    forall i | 0 <= i < |table| && table[i].userId == userId
      ensures Normalize(table[i]) in ts
    {
      assert table[i] in mine;
      assert table[i] in multiset(sorted);
      var k :| 0 <= k < |sorted| && sorted[k] == table[i];
      assert ts[k] == Normalize(table[i]);
    }
  }

  /** `getTaskById`: the matching row, or null on an empty result. */
  function GetTaskById(table: Table, id: string): (t: Option<Task>)
    ensures t.None? <==> forall i :: 0 <= i < |table| ==> table[i].id != id
    ensures t.Some? ==> t.value.id == id && exists i :: 0 <= i < |table| && Normalize(table[i]) == t.value
  {
    match Ordering.First(table, (r: TaskRow) => r.id == id)
    case None => None
    case Some(r) => Some(Normalize(r))
  }

  /** `TaskInput`; `category` and the schedule fields may be absent or null (`None`). */
  datatype TaskInput = TaskInput(
    title: string,
    category: Option<string>,
    durationMinutes: int,
    isRecurring: Option<bool>,
    scheduledTime: Option<TimeOfDay>,
    scheduledDays: Option<seq<string>>)

  /** `createTask`: inserts one row and returns the task object built beside it. */
  function CreateTask(table: Table, userId: string, input: TaskInput, freshId: string, nowMs: nat)
    : (r: (Table, Task))
    ensures |r.0| == |table| + 1 && r.0[..|table|] == table
    ensures r.1.id == freshId && r.1.userId == userId && r.1.title == input.title
    ensures !r.1.completed && r.1.lastCompleted.None? && r.1.lastNotified.None?
    ensures r.1.category == if Truthy(input.category) then input.category else None
    ensures r.1.durationMinutes == if input.durationMinutes == 0 then 25 else input.durationMinutes
    ensures r.1.isRecurring <==> input.isRecurring == Some(true)
    ensures r.1.scheduledTime == input.scheduledTime && r.1.scheduledDays == input.scheduledDays
    ensures r.1.createdAt == r.1.updatedAt == nowMs
    // the stored row reads back as the returned task, up to the dropped milliseconds
    ensures Normalize(r.0[|table|]) == r.1.(createdAt := WholeSeconds(nowMs), updatedAt := WholeSeconds(nowMs))
  {
    var category := if Truthy(input.category) then input.category else None;
    var duration := if input.durationMinutes == 0 then 25 else input.durationMinutes;
    var recurring := input.isRecurring.GetOr(false);
    var stamp := WholeSeconds(nowMs);
    var row := TaskRow(freshId, userId, input.title, category, BoolColumn(false), duration,
                       stamp, stamp, BoolColumn(recurring), input.scheduledTime,
                       input.scheduledDays, None, None);
    var task := Task(freshId, userId, input.title, category, false, duration, nowMs, nowMs,
                     recurring, input.scheduledTime, input.scheduledDays, None, None);
    (table + [row], task)
  }

  /** `TaskUpdateInput`: the outer `None` is an undefined field, `Some(None)` an explicit null. */
  datatype TaskUpdateInput = TaskUpdateInput(
    title: Option<string>,
    category: Option<Option<string>>,
    completed: Option<bool>,
    durationMinutes: Option<int>,
    isRecurring: Option<bool>,
    scheduledTime: Option<Option<TimeOfDay>>,
    scheduledDays: Option<Option<seq<string>>>,
    lastCompleted: Option<Option<int>>,
    lastNotified: Option<Option<int>>)

  /** One `column = ?` clause of the `SET` list with its bound value. */
  datatype Assignment =
    | SetTitle(title: string)
    | SetCategory(category: Option<string>)
    | SetCompleted(done: bool)
    | StampCompletion(stampDay: int)
    | SetDuration(minutes: int)
    | SetRecurring(recurring: bool)
    | SetScheduledTime(time: Option<TimeOfDay>)
    | SetScheduledDays(days: Option<seq<string>>)
    | SetLastCompleted(completedDay: Option<int>)
    | SetUpdatedAt(stamp: int)

  function Column(a: Assignment): string {
    match a
    case SetTitle(_) => "title"
    case SetCategory(_) => "category"
    case SetCompleted(_) => "completed"
    case StampCompletion(_) => "lastCompleted"
    case SetDuration(_) => "durationMinutes"
    case SetRecurring(_) => "isRecurring"
    case SetScheduledTime(_) => "scheduledTime"
    case SetScheduledDays(_) => "scheduledDays"
    case SetLastCompleted(_) => "lastCompleted"
    case SetUpdatedAt(_) => "updatedAt"
  }

  /** Position of a clause in the order `updateTask` tests the input fields. */
  function Rank(a: Assignment): (k: nat)
    ensures k <= 9
  {
    match a
    case SetTitle(_) => 0
    case SetCategory(_) => 1
    case SetCompleted(_) => 2
    case StampCompletion(_) => 3
    case SetDuration(_) => 4
    case SetRecurring(_) => 5
    case SetScheduledTime(_) => 6
    case SetScheduledDays(_) => 7
    case SetLastCompleted(_) => 8
    case SetUpdatedAt(_) => 9
  }

  /** Some field other than `lastNotified` is defined. */
  predicate HasRecognisedField(d: TaskUpdateInput) {
    d.title.Some? || d.category.Some? || d.completed.Some? || d.durationMinutes.Some?
    || d.isRecurring.Some? || d.scheduledTime.Some? || d.scheduledDays.Some? || d.lastCompleted.Some?
  }

  /** The clause `a` belongs to the input: its field is defined with that value, the
      completion date accompanies `completed: true`, and `updatedAt` is always the
      current time in whole seconds. */
  predicate Chosen(d: TaskUpdateInput, todayUtc: int, nowMs: nat, a: Assignment) {
    match a
    case SetTitle(v) => d.title == Some(v)
    case SetCategory(v) => d.category == Some(v)
    case SetCompleted(v) => d.completed == Some(v)
    case StampCompletion(v) => d.completed == Some(true) && v == todayUtc
    case SetDuration(v) => d.durationMinutes == Some(v)
    case SetRecurring(v) => d.isRecurring == Some(v)
    case SetScheduledTime(v) => d.scheduledTime == Some(v)
    case SetScheduledDays(v) => d.scheduledDays == Some(v)
    case SetLastCompleted(v) => d.lastCompleted == Some(v)
    case SetUpdatedAt(v) => v == WholeSeconds(nowMs)
  }

  /** The clause contributed by the field `updateTask` tests in position `k`:
      title, category, completed, the completion date when `completed` is true,
      duration, recurrence, time, days, last completion, and `updatedAt` always. */
  function ClauseAt(d: TaskUpdateInput, k: nat, todayUtc: int, nowMs: nat): (c: Option<Assignment>)
    ensures c.Some? ==> Rank(c.value) == k && Chosen(d, todayUtc, nowMs, c.value)
    ensures k == 9 <==> c == Some(SetUpdatedAt(WholeSeconds(nowMs)))
  {
    if k == 0 then (if d.title.Some? then Some(SetTitle(d.title.value)) else None)
    else if k == 1 then (if d.category.Some? then Some(SetCategory(d.category.value)) else None)
    else if k == 2 then (if d.completed.Some? then Some(SetCompleted(d.completed.value)) else None)
    else if k == 3 then (if d.completed == Some(true) then Some(StampCompletion(todayUtc)) else None)
    else if k == 4 then (if d.durationMinutes.Some? then Some(SetDuration(d.durationMinutes.value)) else None)
    else if k == 5 then (if d.isRecurring.Some? then Some(SetRecurring(d.isRecurring.value)) else None)
    else if k == 6 then (if d.scheduledTime.Some? then Some(SetScheduledTime(d.scheduledTime.value)) else None)
    else if k == 7 then (if d.scheduledDays.Some? then Some(SetScheduledDays(d.scheduledDays.value)) else None)
    else if k == 8 then (if d.lastCompleted.Some? then Some(SetLastCompleted(d.lastCompleted.value)) else None)
    else if k == 9 then Some(SetUpdatedAt(WholeSeconds(nowMs)))
    else None
  }

  /** A clause that belongs to the input is the one its position contributes. */
  lemma ChosenIsClause(d: TaskUpdateInput, todayUtc: int, nowMs: nat, a: Assignment)
    requires Chosen(d, todayUtc, nowMs, a)
    ensures ClauseAt(d, Rank(a), todayUtc, nowMs) == Some(a)
  {
    match a
    case SetTitle(_) =>
    case SetCategory(_) =>
    case SetCompleted(_) =>
    case StampCompletion(_) =>
    case SetDuration(_) =>
    case SetRecurring(_) =>
    case SetScheduledTime(_) =>
    case SetScheduledDays(_) =>
    case SetLastCompleted(_) =>
    case SetUpdatedAt(_) =>
  }

  /** Clauses are listed in strictly increasing rank, so no column is set twice by the same field. */
  predicate RankSorted(sets: seq<Assignment>) {
    forall i, j :: 0 <= i < j < |sets| ==> Rank(sets[i]) < Rank(sets[j])
  }

  /** The clauses of positions `k` and later, in order. */
  function CollectFrom(d: TaskUpdateInput, k: nat, todayUtc: int, nowMs: nat): (sets: seq<Assignment>)
    requires k <= 10
    ensures forall j :: 0 <= j < |sets| ==> k <= Rank(sets[j])
    decreases 10 - k
  {
    if k == 10 then []
    else
      var rest := CollectFrom(d, k + 1, todayUtc, nowMs);
      match ClauseAt(d, k, todayUtc, nowMs)
      case None => rest
      case Some(a) => [a] + rest
  }

  /** The clauses from position `k` on are rank-ordered. */
  lemma {:induction false} CollectFromSorted(d: TaskUpdateInput, k: nat, todayUtc: int, nowMs: nat)
    requires k <= 10
    ensures RankSorted(CollectFrom(d, k, todayUtc, nowMs))
    decreases 10 - k
  {
    if k < 10 {
      CollectFromSorted(d, k + 1, todayUtc, nowMs);
      var rest := CollectFrom(d, k + 1, todayUtc, nowMs);
      var c := ClauseAt(d, k, todayUtc, nowMs);
      if c.Some? {
        var sets := [c.value] + rest;
        assert CollectFrom(d, k, todayUtc, nowMs) == sets;
        forall i, j | 0 <= i < j < |sets|
          ensures Rank(sets[i]) < Rank(sets[j])
        {
          assert sets[j] == rest[j - 1];
          if i > 0 {
            assert sets[i] == rest[i - 1];
          }
        }
      }
    }
  }

  /** The clauses from position `k` on are exactly the chosen ones of rank `k` or more. */
  lemma {:induction false} CollectFromMembers(d: TaskUpdateInput, k: nat, todayUtc: int, nowMs: nat, a: Assignment)
    requires k <= 10
    ensures a in CollectFrom(d, k, todayUtc, nowMs) <==> k <= Rank(a) && Chosen(d, todayUtc, nowMs, a)
    decreases 10 - k
  {
    if k < 10 {
      CollectFromMembers(d, k + 1, todayUtc, nowMs, a);
      var rest := CollectFrom(d, k + 1, todayUtc, nowMs);
      var c := ClauseAt(d, k, todayUtc, nowMs);
      if Chosen(d, todayUtc, nowMs, a) && Rank(a) == k {
        ChosenIsClause(d, todayUtc, nowMs, a);
        assert c == Some(a);
      }
      if c.Some? {
        assert CollectFrom(d, k, todayUtc, nowMs) == [c.value] + rest;
      } else {
        assert CollectFrom(d, k, todayUtc, nowMs) == rest;
      }
    }
  }

  /** All of the list's properties for the whole input. */
  lemma CollectFacts(d: TaskUpdateInput, todayUtc: int, nowMs: nat)
    ensures var sets := CollectFrom(d, 0, todayUtc, nowMs);
      && RankSorted(sets)
      && forall a {:trigger a in sets} :: a in sets <==> Chosen(d, todayUtc, nowMs, a)
  {
    CollectFromSorted(d, 0, todayUtc, nowMs);
    forall a
      ensures a in CollectFrom(d, 0, todayUtc, nowMs) <==> Chosen(d, todayUtc, nowMs, a)
    {
      CollectFromMembers(d, 0, todayUtc, nowMs, a);
    }
  }

  /** What the `SET` list of an input must be: rank-ordered, holding exactly the clauses
      that belong to the input, ending with `updatedAt`, and of length one exactly when no
      recognised field was given. */
  ghost predicate IsClauseList(d: TaskUpdateInput, todayUtc: int, nowMs: nat, sets: seq<Assignment>) {
    && RankSorted(sets)
    && (forall a {:trigger a in sets} :: a in sets <==> Chosen(d, todayUtc, nowMs, a))
    && |sets| >= 1 && sets[|sets| - 1] == SetUpdatedAt(WholeSeconds(nowMs))
    && (|sets| == 1 <==> !HasRecognisedField(d))
  }

  /** The `SET` list `updateTask` builds: exactly the clauses of the defined fields, in
      the order the fields are tested, ending with `updatedAt`; a list of one clause
      means no recognised field was given. */
  function BuildAssignments(d: TaskUpdateInput, todayUtc: int, nowMs: nat): (sets: seq<Assignment>)
    ensures IsClauseList(d, todayUtc, nowMs, sets)
  {
    AssignmentFacts(d, todayUtc, nowMs);
    CollectFrom(d, 0, todayUtc, nowMs)
  }

  lemma AssignmentFacts(d: TaskUpdateInput, todayUtc: int, nowMs: nat)
    ensures IsClauseList(d, todayUtc, nowMs, CollectFrom(d, 0, todayUtc, nowMs))
  {
    CollectFacts(d, todayUtc, nowMs);
    LastClauseIsStamp(d, todayUtc, nowMs);
    SingleClauseIffNoField(d, todayUtc, nowMs);
  }

  lemma LastClauseIsStamp(d: TaskUpdateInput, todayUtc: int, nowMs: nat)
    ensures var sets := CollectFrom(d, 0, todayUtc, nowMs);
      |sets| >= 1 && sets[|sets| - 1] == SetUpdatedAt(WholeSeconds(nowMs))
  {
    CollectFacts(d, todayUtc, nowMs);
    var sets := CollectFrom(d, 0, todayUtc, nowMs);
    var last := SetUpdatedAt(WholeSeconds(nowMs));
    assert last in sets;
    var n := |sets|;
    assert Rank(sets[n - 1]) <= 9;
    var j :| 0 <= j < n && sets[j] == last;
    assert j == n - 1;
  }

  lemma SingleClauseIffNoField(d: TaskUpdateInput, todayUtc: int, nowMs: nat)
    ensures |CollectFrom(d, 0, todayUtc, nowMs)| == 1 <==> !HasRecognisedField(d)
  {
    CollectFacts(d, todayUtc, nowMs);
    var sets := CollectFrom(d, 0, todayUtc, nowMs);
    var last := SetUpdatedAt(WholeSeconds(nowMs));
    assert last in sets;
    if |sets| >= 2 {
      var a := sets[0];
      assert a in sets;
      assert Rank(a) < Rank(sets[1]) <= 9;
      assert Chosen(d, todayUtc, nowMs, a);
    }
    if HasRecognisedField(d) {
      var k := RecognisedClause(d, todayUtc, nowMs);
      var a := ClauseAt(d, k, todayUtc, nowMs).value;
      assert a in sets && a != last;
    }
  }

  /** A recognised field yields a clause before `updatedAt`. */
  lemma RecognisedClause(d: TaskUpdateInput, todayUtc: int, nowMs: nat) returns (k: nat)
    requires HasRecognisedField(d)
    ensures k < 9 && ClauseAt(d, k, todayUtc, nowMs).Some?
  {
    if d.title.Some? { k := 0; }
    else if d.category.Some? { k := 1; }
    else if d.completed.Some? { k := 2; }
    else if d.durationMinutes.Some? { k := 4; }
    else if d.isRecurring.Some? { k := 5; }
    else if d.scheduledTime.Some? { k := 6; }
    else if d.scheduledDays.Some? { k := 7; }
    else { k := 8; }
  }

  /** Without a recognised field every clause position before `updatedAt` is empty. */
  lemma NoFieldNoClause(d: TaskUpdateInput, todayUtc: int, nowMs: nat, k: nat)
    requires !HasRecognisedField(d) && k < 9
    ensures ClauseAt(d, k, todayUtc, nowMs).None?
  {
  }

  /** Each defined field contributes its own clause, and `completed: true` also the date. */
  lemma AssignmentsPerField(d: TaskUpdateInput, todayUtc: int, nowMs: nat)
    ensures var sets := BuildAssignments(d, todayUtc, nowMs);
      && (d.title.Some? <==> SetTitle(d.title.GetOr("")) in sets)
      && (d.category.Some? <==> SetCategory(d.category.GetOr(None)) in sets)
      && (d.completed.Some? <==> SetCompleted(d.completed.GetOr(false)) in sets)
      && (d.completed == Some(true) <==> StampCompletion(todayUtc) in sets)
      && (d.durationMinutes.Some? <==> SetDuration(d.durationMinutes.GetOr(0)) in sets)
      && (d.isRecurring.Some? <==> SetRecurring(d.isRecurring.GetOr(false)) in sets)
      && (d.scheduledTime.Some? <==> SetScheduledTime(d.scheduledTime.GetOr(None)) in sets)
      && (d.scheduledDays.Some? <==> SetScheduledDays(d.scheduledDays.GetOr(None)) in sets)
      && (d.lastCompleted.Some? <==> SetLastCompleted(d.lastCompleted.GetOr(None)) in sets)
  {
  }

  lemma TailMembers(xs: seq<Assignment>, a: Assignment)
    requires RankSorted(xs) && |xs| > 0
    ensures a in xs[1..] <==> a in xs && a != xs[0]
  {
    assert xs == [xs[0]] + xs[1..];
    if a in xs[1..] {
      var j :| 0 <= j < |xs[1..]| && xs[1..][j] == a;
      assert xs[j + 1] == a;
    }
  }

  /** A rank-ordered clause list is determined by its set of clauses. */
  lemma {:induction false} SameClauses(xs: seq<Assignment>, ys: seq<Assignment>)
    requires RankSorted(xs) && RankSorted(ys)
    requires forall a :: a in xs <==> a in ys
    ensures xs == ys
    decreases |xs|
  {
    if |xs| > 0 {
      assert xs[0] in ys;
    }
    if |ys| > 0 {
      assert ys[0] in xs;
    }
    if |xs| > 0 && |ys| > 0 {
      var i :| 0 <= i < |xs| && xs[i] == ys[0];
      var j :| 0 <= j < |ys| && ys[j] == xs[0];
      assert i == 0 && j == 0 by {
        assert Rank(xs[0]) <= Rank(xs[i]);
        assert Rank(ys[0]) <= Rank(ys[j]);
      }
      forall a
        ensures a in xs[1..] <==> a in ys[1..]
      {
        TailMembers(xs, a);
        TailMembers(ys, a);
      }
      SameClauses(xs[1..], ys[1..]);
      assert xs == [xs[0]] + xs[1..];
      assert ys == [ys[0]] + ys[1..];
    }
  }

  function Apply(r: TaskRow, a: Assignment): TaskRow {
    match a
    case SetTitle(v) => r.(title := v)
    case SetCategory(v) => r.(category := v)
    case SetCompleted(v) => r.(completed := BoolColumn(v))
    case StampCompletion(v) => r.(lastCompleted := Some(v))
    case SetDuration(v) => r.(durationMinutes := v)
    case SetRecurring(v) => r.(isRecurring := BoolColumn(v))
    case SetScheduledTime(v) => r.(scheduledTime := v)
    case SetScheduledDays(v) => r.(scheduledDays := v)
    case SetLastCompleted(v) => r.(lastCompleted := v)
    case SetUpdatedAt(v) => r.(updatedAt := v)
  }

  /** MySQL applies the clauses of one `UPDATE` left to right. */
  function ApplyAll(r: TaskRow, sets: seq<Assignment>): (r': TaskRow)
    ensures r'.id == r.id && r'.userId == r.userId && r'.createdAt == r.createdAt
    ensures r'.lastNotified == r.lastNotified
    ensures CanonicalRow(r) ==> CanonicalRow(r')
    decreases |sets|
  {
    if |sets| == 0 then r else ApplyAll(Apply(r, sets[0]), sets[1..])
  }

  datatype UpdateOutcome = UpdateOutcome(updated: bool, table: Table, statement: Option<seq<Assignment>>)

  /** `updateTask`: with no recognised field it returns false and issues nothing;
      otherwise it runs the `UPDATE ... WHERE id = ?` and reports whether a row matched. */
  function UpdateTask(table: Table, id: string, d: TaskUpdateInput, todayUtc: int, nowMs: nat)
    : (r: UpdateOutcome)
    ensures r.statement.None? <==> !HasRecognisedField(d)
    ensures r.statement.None? ==> !r.updated && r.table == table
    ensures r.statement.Some? ==> r.statement.value == BuildAssignments(d, todayUtc, nowMs)
    ensures r.statement.Some? ==> (r.updated <==> exists i :: 0 <= i < |table| && table[i].id == id)
    ensures |r.table| == |table|
    ensures forall i :: 0 <= i < |table| && table[i].id != id ==> r.table[i] == table[i]
    ensures forall i :: 0 <= i < |table| && r.statement.Some? && table[i].id == id ==>
              r.table[i] == ApplyAll(table[i], r.statement.value)
    ensures forall i :: 0 <= i < |table| ==> r.table[i].lastNotified == table[i].lastNotified
  {
    var sets := BuildAssignments(d, todayUtc, nowMs);
    if |sets| == 1 then UpdateOutcome(false, table, None)
    else
      var table' := seq(|table|, i requires 0 <= i < |table| =>
                          if table[i].id == id then ApplyAll(table[i], sets) else table[i]);
      var matched := Ordering.Count(table, (row: TaskRow) => row.id == id);
      UpdateOutcome(matched > 0, table', Some(sets))
  }

  function OnlyCompleted(done: bool): TaskUpdateInput {
    TaskUpdateInput(None, None, Some(done), None, None, None, None, None, None)
  }

  /** The clause list of a given input, once its clauses are known. */
  lemma BuildIs(d: TaskUpdateInput, todayUtc: int, nowMs: nat, expected: seq<Assignment>)
    requires RankSorted(expected)
    requires forall a {:trigger a in expected} :: a in expected <==> Chosen(d, todayUtc, nowMs, a)
    ensures BuildAssignments(d, todayUtc, nowMs) == expected
  {
    SameClauses(BuildAssignments(d, todayUtc, nowMs), expected);
  }

  /** Applying a list of clauses is applying the first, then the rest. */
  lemma ApplyCons(r: TaskRow, a: Assignment, rest: seq<Assignment>)
    ensures ApplyAll(r, [a] + rest) == ApplyAll(Apply(r, a), rest)
  {
    assert ([a] + rest)[1..] == rest;
  }

  /** The clause list of `{completed: done}`. */
  lemma OnlyCompletedClauses(done: bool, todayUtc: int, nowMs: nat)
    ensures BuildAssignments(OnlyCompleted(done), todayUtc, nowMs)
      == if done then [SetCompleted(true), StampCompletion(todayUtc), SetUpdatedAt(WholeSeconds(nowMs))]
         else [SetCompleted(false), SetUpdatedAt(WholeSeconds(nowMs))]
  {
    var d := OnlyCompleted(done);
    var stamp := SetUpdatedAt(WholeSeconds(nowMs));
    var expected := if done then [SetCompleted(true), StampCompletion(todayUtc), stamp]
                    else [SetCompleted(false), stamp];
    forall a
      ensures a in expected <==> Chosen(d, todayUtc, nowMs, a)
    {
      match a
      case SetCompleted(_) =>
      case StampCompletion(_) =>
      case SetUpdatedAt(_) =>
      case _ =>
    }
    BuildIs(d, todayUtc, nowMs, expected);
  }

  /** Marking a task completed also stamps today's UTC date; un-marking touches only
      `completed` (besides `updatedAt`). */
  lemma CompletedFlagEffects(table: Table, id: string, todayUtc: int, nowMs: nat, i: nat)
    requires i < |table| && table[i].id == id
    ensures var r := UpdateTask(table, id, OnlyCompleted(true), todayUtc, nowMs).table[i];
      r == table[i].(completed := 1, lastCompleted := Some(todayUtc), updatedAt := WholeSeconds(nowMs))
    ensures var r := UpdateTask(table, id, OnlyCompleted(false), todayUtc, nowMs).table[i];
      r == table[i].(completed := 0, updatedAt := WholeSeconds(nowMs))
  {
    var row := table[i];
    var stamp := SetUpdatedAt(WholeSeconds(nowMs));
    OnlyCompletedClauses(true, todayUtc, nowMs);
    var r1 := Apply(row, SetCompleted(true));
    var r2 := Apply(r1, StampCompletion(todayUtc));
    ApplyCons(r2, stamp, []);
    ApplyCons(r1, StampCompletion(todayUtc), [stamp]);
    ApplyCons(row, SetCompleted(true), [StampCompletion(todayUtc), stamp]);
    assert [SetCompleted(true)] + [StampCompletion(todayUtc), stamp] == [SetCompleted(true), StampCompletion(todayUtc), stamp];
    OnlyCompletedClauses(false, todayUtc, nowMs);
    var s1 := Apply(row, SetCompleted(false));
    ApplyCons(s1, stamp, []);
    ApplyCons(row, SetCompleted(false), [stamp]);
  }

  /** `deleteTask`: removes the rows with that id and reports whether there was one. */
  function DeleteTask(table: Table, id: string): (r: (bool, Table))
    ensures r.0 <==> exists i :: 0 <= i < |table| && table[i].id == id
    ensures forall i :: 0 <= i < |r.1| ==> r.1[i].id != id
    ensures Ordering.IsSubsequence(r.1, table)
    ensures forall i :: 0 <= i < |table| && table[i].id != id ==> table[i] in r.1
  {
    (Ordering.Count(table, (row: TaskRow) => row.id == id) > 0,
     Ordering.Filter(table, (row: TaskRow) => row.id != id))
  }

  /** `completeTask`: `updateTask` with `completed: true` and `lastCompleted` set to the UTC
      date at the moment of the call (`callDay`); `todayUtc` is the date read inside
      `updateTask`. Both clauses name `lastCompleted`, and the later one wins. */
  function CompleteTask(table: Table, id: string, callDay: int, todayUtc: int, nowMs: nat)
    : (r: UpdateOutcome)
    ensures r.statement.Some?
    ensures r.updated <==> exists i :: 0 <= i < |table| && table[i].id == id
    ensures |r.table| == |table|
    ensures forall i :: 0 <= i < |table| && table[i].id != id ==> r.table[i] == table[i]
    ensures forall i :: 0 <= i < |table| && table[i].id == id ==>
      r.table[i] == table[i].(completed := 1, lastCompleted := Some(callDay), updatedAt := WholeSeconds(nowMs))
  {
    CompletedRows(table, id, callDay, todayUtc, nowMs);
    UpdateTask(table, id, CompletionInput(callDay), todayUtc, nowMs)
  }

  lemma CompletedRows(table: Table, id: string, callDay: int, todayUtc: int, nowMs: nat)
    ensures forall i :: 0 <= i < |table| && table[i].id == id ==>
      UpdateTask(table, id, CompletionInput(callDay), todayUtc, nowMs).table[i]
      == table[i].(completed := 1, lastCompleted := Some(callDay), updatedAt := WholeSeconds(nowMs))
  {
    forall i | 0 <= i < |table| && table[i].id == id
      ensures UpdateTask(table, id, CompletionInput(callDay), todayUtc, nowMs).table[i]
        == table[i].(completed := 1, lastCompleted := Some(callDay), updatedAt := WholeSeconds(nowMs))
    {
      CompletedRow(table, id, callDay, todayUtc, nowMs, i);
    }
  }

  lemma CompletedRow(table: Table, id: string, callDay: int, todayUtc: int, nowMs: nat, i: nat)
    requires i < |table| && table[i].id == id
    ensures UpdateTask(table, id, CompletionInput(callDay), todayUtc, nowMs).table[i]
      == table[i].(completed := 1, lastCompleted := Some(callDay), updatedAt := WholeSeconds(nowMs))
  {
    CompletionClauses(callDay, todayUtc, nowMs);
    CompletionEffect(table[i], callDay, todayUtc, nowMs);
    var r := UpdateTask(table, id, CompletionInput(callDay), todayUtc, nowMs);
    assert r.statement == Some(CompletionSets(callDay, todayUtc, nowMs));
  }

  function CompletionInput(callDay: int): TaskUpdateInput {
    TaskUpdateInput(None, None, Some(true), None, None, None, None, Some(Some(callDay)), None)
  }

  /** The statement `completeTask` issues sets `completed`, then `lastCompleted` twice
      (the automatic stamp, then the caller's date), then `updatedAt`; the caller's date wins. */
  function CompletionSets(callDay: int, todayUtc: int, nowMs: nat): seq<Assignment> {
    [SetCompleted(true), StampCompletion(todayUtc), SetLastCompleted(Some(callDay)),
     SetUpdatedAt(WholeSeconds(nowMs))]
  }

  lemma CompletionClauses(callDay: int, todayUtc: int, nowMs: nat)
    ensures BuildAssignments(CompletionInput(callDay), todayUtc, nowMs) == CompletionSets(callDay, todayUtc, nowMs)
  {
    var d := CompletionInput(callDay);
    var sets := CompletionSets(callDay, todayUtc, nowMs);
    forall a
      ensures a in sets <==> Chosen(d, todayUtc, nowMs, a)
    {
      match a
      case SetCompleted(_) =>
      case StampCompletion(_) =>
      case SetLastCompleted(_) =>
      case SetUpdatedAt(_) =>
      case _ =>
    }
    BuildIs(d, todayUtc, nowMs, sets);
  }

  /** Of the two `lastCompleted` clauses the later one, the caller's date, wins. */
  lemma CompletionEffect(row: TaskRow, callDay: int, todayUtc: int, nowMs: nat)
    ensures ApplyAll(row, CompletionSets(callDay, todayUtc, nowMs))
      == row.(completed := 1, lastCompleted := Some(callDay), updatedAt := WholeSeconds(nowMs))
  {
    var a0, a1, a2, a3 := SetCompleted(true), StampCompletion(todayUtc), SetLastCompleted(Some(callDay)),
                          SetUpdatedAt(WholeSeconds(nowMs));
    assert CompletionSets(callDay, todayUtc, nowMs) == [a0] + ([a1] + ([a2] + [a3]));
    var r1 := Apply(row, a0);
    var r2 := Apply(r1, a1);
    var r3 := Apply(r2, a2);
    ApplyCons(r3, a3, []);
    ApplyCons(r2, a2, [a3]);
    ApplyCons(r1, a1, [a2] + [a3]);
    ApplyCons(row, a0, [a1] + ([a2] + [a3]));
  }

  /** The `WHERE` of `resetRecurringTasks`: recurring and not completed today or later. */
  predicate NeedsReset(r: TaskRow, today: int) {
    r.isRecurring == 1 && (r.lastCompleted.None? || r.lastCompleted.value < today)
  }

  function ResetRow(r: TaskRow, today: int): TaskRow {
    if NeedsReset(r, today) then r.(completed := 0) else r
  }

  /** `resetRecurringTasks`: clears `completed` exactly on the matched rows and returns
      how many rows matched. `today` is `CURDATE()`, the date in the database session's
      zone, which need not be the UTC date `lastCompleted` is written in. */
  function ResetRecurringTasks(table: Table, today: int): (r: (Table, nat))
    ensures |r.0| == |table|
    ensures forall i :: 0 <= i < |table| && NeedsReset(table[i], today) ==>
              r.0[i] == table[i].(completed := 0)
    ensures forall i :: 0 <= i < |table| && !NeedsReset(table[i], today) ==> r.0[i] == table[i]
    ensures r.1 == Ordering.Count(table, (row: TaskRow) => NeedsReset(row, today))
  {
    (seq(|table|, i requires 0 <= i < |table| => ResetRow(table[i], today)),
     Ordering.Count(table, (row: TaskRow) => NeedsReset(row, today)))
  }

  /** Resetting twice on the same day changes nothing more, and afterwards no
      recurring task completed before today is still marked completed. */
  lemma ResetIdempotent(table: Table, today: int)
    ensures var once := ResetRecurringTasks(table, today).0;
      ResetRecurringTasks(once, today).0 == once
      && forall i :: 0 <= i < |once| && NeedsReset(once[i], today) ==> once[i].completed == 0
  {
  }

  /** `JSON_CONTAINS(scheduledDays, '"day"')`: false for a NULL column. */
  predicate DaysContain(days: Option<seq<string>>, day: string) {
    days.Some? && day in days.value
  }

  /** `getScheduledTasksForNow`: recurring rows scheduled exactly at `now` on `dayName`. */
  function GetScheduledTasksForNow(table: Table, dayName: string, now: TimeOfDay): (ts: seq<Task>)
    ensures forall i :: 0 <= i < |ts| ==>
      ts[i].isRecurring && ts[i].scheduledTime.Some?
      && SecondsOfDay(ts[i].scheduledTime.value) == SecondsOfDay(now)
      && DaysContain(ts[i].scheduledDays, dayName)
    ensures forall i :: 0 <= i < |table| && ExactMatch(table[i], dayName, now) ==> Normalize(table[i]) in ts
    ensures forall i :: 0 <= i < |ts| ==>
              exists j :: 0 <= j < |table| && Normalize(table[j]) == ts[i] && ExactMatch(table[j], dayName, now)
    ensures |ts| == Ordering.Count(table, (r: TaskRow) => ExactMatch(r, dayName, now))
  {
    var rows := Ordering.Filter(table, (r: TaskRow) => ExactMatch(r, dayName, now));
    assert forall i :: 0 <= i < |rows| ==> rows[i] in table;
    Ordering.CountIsFilterLength(table, (r: TaskRow) => ExactMatch(r, dayName, now));
    NormalizeAll(rows)
  }

  predicate ExactMatch(r: TaskRow, dayName: string, now: TimeOfDay) {
    r.isRecurring == 1 && r.scheduledTime.Some?
    && SecondsOfDay(r.scheduledTime.value) == SecondsOfDay(now)
    && DaysContain(r.scheduledDays, dayName)
  }

  /** The `BETWEEN` bounds of `getTasksForNotification`: the five-minute bucket of
      `now`, from `:00` of its first minute to `:59` of its last. */
  function NotificationWindow(now: TimeOfDay): (w: (TimeOfDay, TimeOfDay))
    ensures w.0.hour == now.hour && w.1.hour == now.hour
    ensures w.0.minute % 5 == 0 && w.0.minute <= now.minute < w.0.minute + 5
    ensures w.1.minute == w.0.minute + 4 && w.0.second == 0 && w.1.second == 59
    ensures 0 <= now.minute < 60 ==> 0 <= w.0.minute && w.1.minute <= 59
  {
    var start := (now.minute / 5) * 5;
    (TimeOfDay(now.hour, start, 0), TimeOfDay(now.hour, start + 4, 59))
  }

  predicate InWindow(t: TimeOfDay, now: TimeOfDay) {
    var w := NotificationWindow(now);
    SecondsOfDay(w.0) <= SecondsOfDay(t) <= SecondsOfDay(w.1)
  }

  predicate NotificationMatch(r: TaskRow, userIds: set<string>, dayName: string, now: TimeOfDay) {
    r.userId in userIds && r.isRecurring == 1 && r.scheduledTime.Some?
    && InWindow(r.scheduledTime.value, now) && DaysContain(r.scheduledDays, dayName)
  }

  /** `getTasksForNotification`: recurring rows of existing users whose time falls in
      the five-minute bucket of `now` and whose days contain `dayName`. */
  function GetTasksForNotification(table: Table, userIds: set<string>, dayName: string, now: TimeOfDay)
    : (ts: seq<Task>)
    ensures forall i :: 0 <= i < |ts| ==> ts[i].isRecurring && DaysContain(ts[i].scheduledDays, dayName)
    ensures forall i :: 0 <= i < |ts| ==>
              exists j :: 0 <= j < |table| && Normalize(table[j]) == ts[i]
                          && NotificationMatch(table[j], userIds, dayName, now)
    ensures forall j :: 0 <= j < |table| && NotificationMatch(table[j], userIds, dayName, now) ==>
              Normalize(table[j]) in ts
  {
    var rows := Ordering.Filter(table, (r: TaskRow) => NotificationMatch(r, userIds, dayName, now));
    assert forall i :: 0 <= i < |rows| ==> rows[i] in table;
    NormalizeAll(rows)
  }

  /** For well-formed times the window holds exactly the times of the same hour whose
      minute falls in the same five-minute bucket; it never reaches into the next hour. */
  lemma WindowIsBucket(t: TimeOfDay, now: TimeOfDay)
    requires ValidTime(t)
    requires 0 <= now.minute < 60
    ensures InWindow(t, now) <==> t.hour == now.hour && t.minute / 5 == now.minute / 5
  {
    var q := now.minute / 5;
    var k := t.hour - now.hour;
    assert SecondsOfDay(t) - SecondsOfDay(NotificationWindow(now).0)
           == k * 3600 + (t.minute - 5 * q) * 60 + t.second;
    if k >= 1 {
      assert k * 3600 >= 3600;
    } else if k <= -1 {
      assert k * 3600 <= -3600;
    }
  }

  /** A task due at exactly this second is also in this second's notification bucket. */
  lemma ExactMatchIsInWindow(r: TaskRow, userIds: set<string>, dayName: string, now: TimeOfDay)
    requires ValidTime(now) && r.userId in userIds
    requires r.scheduledTime.Some? && ValidTime(r.scheduledTime.value)
    requires ExactMatch(r, dayName, now)
    ensures NotificationMatch(r, userIds, dayName, now)
  {
    var t := r.scheduledTime.value;
    assert t.hour == now.hour && t.minute == now.minute by {
      TimeEqualBySeconds(t, now);
    }
    WindowIsBucket(t, now);
  }

  lemma TimeEqualBySeconds(a: TimeOfDay, b: TimeOfDay)
    requires ValidTime(a) && ValidTime(b) && SecondsOfDay(a) == SecondsOfDay(b)
    ensures a == b
  {
  }
}
