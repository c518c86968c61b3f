/** One row of the activity list, components/TimerView/Activity.tsx: the scheduled time
    and days as labels, the "completed today" test, the category colour and icon, and
    the select/deselect toggle. */
module Activity {
  import opened Wrappers
  import opened Schema
  import opened Text
  import Ordering
  import ActivityForm
  import TaskModel

  /** `formatTime`: null for a missing or empty time; otherwise "h:MM AM|PM" where the
      hour is `h % 12 || 12` and the period is PM iff `h >= 12`. A NaN hour fails both
      tests and shows as 12 AM. A text without ':' has no minutes, and calling
      `toString` on them throws. */
  function FormatTime(timeString: Option<string>): (r: Result<Option<string>>)
    ensures !Truthy(timeString) ==> r == Success(None)
    ensures Truthy(timeString) ==> (r.Failure? <==> ':' !in timeString.value)
    ensures r.Success? && Truthy(timeString) ==> r.value.Some?
  {
    if !Truthy(timeString) then Success(None)
    else
      var parts := Split(timeString.value, ':');
      if |parts| < 2 then
        Failure("TypeError: minutes is undefined")
      else
        var hours := JsNumber(parts[0]);
        var minutes := JsNumber(parts[1]);
        var period := if hours.Some? && hours.value >= 12 then "PM" else "AM";
        var shown := if hours.Some? && hours.value % 12 != 0 then hours.value % 12 else 12;
        Success(Some(NatToString(shown) + ":" + Pad2(ShowNumber(minutes)) + " " + period))
  }

  /** A time text with hour and minute fields that `Number` reads as `h` and `m`. */
  lemma FormatClockFields(s: string, hh: string, mm: string, rest: seq<string>, h: nat, m: nat)
    requires |s| > 0 && Split(s, ':') == [hh, mm] + rest
    requires JsNumber(hh) == Some(h) && JsNumber(mm) == Some(m)
    ensures FormatTime(Some(s)) == Success(Some(NatToString(if h % 12 != 0 then h % 12 else 12)
                                                + ":" + Pad2(NatToString(m)) + " "
                                                + (if h >= 12 then "PM" else "AM")))
  {
    assert ':' in s by {
      if ':' !in s {
        SplitWithoutSeparator(s, ':');
      }
    }
  }

  /** A stored time of day shows with the same hour and minutes as the form's time field,
      the period in capitals. */
  lemma FormatTimeMatchesForm(h: nat, m: nat)
    requires h < 24 && m < 60
    ensures FormatTime(Some(ActivityForm.TimeText(h, m)))
      == Success(Some(NatToString(ActivityForm.To12Hour(h).0) + ":" + Pad2(NatToString(m)) + " "
                      + (if h < 12 then "AM" else "PM")))
  {
    FormatTimeOfText(h, m);
    TwelveHourShown(h);
  }

  /** `formatTime` of the text the form stores, in terms of the hour and minutes. */
  lemma FormatTimeOfText(h: nat, m: nat)
    requires h < 24 && m < 60
    ensures FormatTime(Some(ActivityForm.TimeText(h, m)))
      == Success(Some(NatToString(if h % 12 != 0 then h % 12 else 12) + ":" + Pad2(NatToString(m)) + " "
                      + (if h >= 12 then "PM" else "AM")))
  {
    var t := ActivityForm.TimeText(h, m);
    var hh, mm := Pad2(NatToString(h)), Pad2(NatToString(m));
    ActivityForm.SplitTimeText(h, m);
    assert Split(t, ':') == [hh, mm] + ["00"];
    NumberOfPad2(h);
    NumberOfPad2(m);
    assert |t| > 0 by {
      assert t == hh + ":" + mm + ":00";
    }
    FormatClockFields(t, hh, mm, ["00"], h, m);
  }

  lemma TwelveHourShown(h: nat)
    requires h < 24
    ensures (if h % 12 != 0 then h % 12 else 12) == ActivityForm.To12Hour(h).0
  {
  }

  predicate ContainsAll(days: seq<string>, names: seq<string>) {
    forall i :: 0 <= i < |names| ==> names[i] in days
  }

  predicate ContainsNone(days: seq<string>, names: seq<string>) {
    forall i :: 0 <= i < |names| ==> names[i] !in days
  }

  /** `day.substring(0, 3)` for every day, in order. */
  function Abbreviate(days: seq<string>): (r: seq<string>)
    ensures |r| == |days| && forall i :: 0 <= i < |days| ==> r[i] == Take(days[i], 3)
  {
    seq(|days|, i requires 0 <= i < |days| => Take(days[i], 3))
  }

  /** The whole-list labels. */
  predicate IsEveryday(d: seq<string>) {
    |d| == 7 && ContainsAll(d, WEEKDAYS + WEEKEND)
  }

  predicate IsWeekdays(d: seq<string>) {
    |d| == 5 && ContainsAll(d, WEEKDAYS) && ContainsNone(d, WEEKEND)
  }

  predicate IsWeekend(d: seq<string>) {
    |d| == 2 && ContainsAll(d, WEEKEND) && ContainsNone(d, WEEKDAYS)
  }

  /** `formatScheduledDays`, checked in the source's order. */
  function FormatScheduledDays(days: Option<seq<string>>): string {
    if days.None? || |days.value| == 0 then "Recurring"
    else if IsEveryday(days.value) then "Everyday"
    else if IsWeekdays(days.value) then "Weekdays"
    else if IsWeekend(days.value) then "Weekend"
    else Join(Abbreviate(days.value), ", ")
  }

  /** A joined list of at most three-letter abbreviations is never one of the labels. */
  lemma {:induction false} ShortJoinIsNoLabel(parts: seq<string>)
    requires |parts| >= 1
    requires forall i :: 0 <= i < |parts| ==> |parts[i]| <= 3
    ensures Join(parts, ", ") != "Recurring" && Join(parts, ", ") != "Everyday"
    ensures Join(parts, ", ") != "Weekdays" && Join(parts, ", ") != "Weekend"
  {
    var r := Join(parts, ", ");
    if |parts| == 1 {
      assert |r| <= 3;
    } else {
      assert r == parts[0] + ", " + Join(parts[1..], ", ");
      assert r[|parts[0]|] == ',';
      assert forall k :: 0 <= k < |"Recurring"| ==> "Recurring"[k] != ',';
      assert forall k :: 0 <= k < |"Everyday"| ==> "Everyday"[k] != ',';
      assert forall k :: 0 <= k < |"Weekdays"| ==> "Weekdays"[k] != ',';
      assert forall k :: 0 <= k < |"Weekend"| ==> "Weekend"[k] != ',';
    }
  }

  /** Each label is shown exactly when its condition holds, and any other non-empty list
      shows its days' three-letter prefixes joined in input order. */
  lemma ScheduledDaysLabels(days: Option<seq<string>>)
    ensures FormatScheduledDays(days) == "Recurring" <==> days.None? || |days.value| == 0
    ensures FormatScheduledDays(days) == "Everyday" <==> days.Some? && IsEveryday(days.value)
    ensures FormatScheduledDays(days) == "Weekdays" <==> days.Some? && IsWeekdays(days.value)
    ensures FormatScheduledDays(days) == "Weekend" <==> days.Some? && IsWeekend(days.value)
    ensures days.Some? && |days.value| > 0 && !IsEveryday(days.value) && !IsWeekdays(days.value)
            && !IsWeekend(days.value) ==>
      FormatScheduledDays(days) == Join(Abbreviate(days.value), ", ")
  {
    if days.Some? && |days.value| > 0 {
      var d := days.value;
      if !IsEveryday(d) && !IsWeekdays(d) && !IsWeekend(d) {
        ShortJoinIsNoLabel(Abbreviate(d));
      }
      assert IsWeekdays(d) ==> !IsEveryday(d);
      assert IsWeekend(d) ==> !IsEveryday(d) && !IsWeekdays(d);
    }
  }

  /** All seven day names, in any order and however the form produced them, read
      "Everyday"; the form's Monday-to-Friday buttons read "Weekdays". */
  lemma FormDaysLabels()
    ensures FormatScheduledDays(Some(ActivityForm.MapDays(["Mon", "Tue", "Wed", "Thu", "Fri"]))) == "Weekdays"
    ensures FormatScheduledDays(Some(ActivityForm.MapDays(["Sat", "Sun"]))) == "Weekend"
    ensures FormatScheduledDays(Some(DAY_NAMES)) == "Everyday"
  {
    WeekdayButtons();
    WeekendButtons();
    assert ContainsAll(DAY_NAMES, WEEKDAYS + WEEKEND);
  }

  lemma WeekdayButtons()
    ensures IsWeekdays(ActivityForm.MapDays(["Mon", "Tue", "Wed", "Thu", "Fri"]))
    ensures !IsEveryday(ActivityForm.MapDays(["Mon", "Tue", "Wed", "Thu", "Fri"]))
  {
    assert ActivityForm.MapDays(["Mon", "Tue", "Wed", "Thu", "Fri"]) == WEEKDAYS;
    WeekendIsNoWeekday();
  }

  lemma WeekendButtons()
    ensures IsWeekend(ActivityForm.MapDays(["Sat", "Sun"]))
  {
    assert ActivityForm.MapDays(["Sat", "Sun"]) == WEEKEND;
    WeekendIsNoWeekday();
  }

  /** Only the weekend days start with 's'. */
  lemma WeekendIsNoWeekday()
    ensures ContainsNone(WEEKDAYS, WEEKEND) && ContainsNone(WEEKEND, WEEKDAYS)
  {
    assert forall i :: 0 <= i < |WEEKDAYS| ==> |WEEKDAYS[i]| > 0 && WEEKDAYS[i][0] != 's';
    assert forall i :: 0 <= i < |WEEKEND| ==> |WEEKEND[i]| > 0 && WEEKEND[i][0] == 's';
  }

  /** The UTC date of the `Date` a stored `lastCompleted` reaches the card as. The driver
      builds it at local midnight of the stored day; east of UTC (`eastOfUtc`) that
      instant still lies in the previous UTC day, on UTC or west of it in the same one. */
  function ReadBackDay(stored: int, eastOfUtc: bool): (d: int)
    ensures d == stored || d == stored - 1
    ensures d == stored <==> !eastOfUtc
  {
    if eastOfUtc then stored - 1 else stored
  }

  /** `isCompletedToday`: completed, with a `lastCompleted` whose UTC date is today's UTC
      date. */
  predicate IsCompletedToday(t: Task, todayUtc: int, eastOfUtc: bool) {
    t.completed && t.lastCompleted.Some? && ReadBackDay(t.lastCompleted.value, eastOfUtc) == todayUtc
  }

  /** A task completed today (its `lastCompleted` written as today's UTC date) reads back
      as completed today exactly when the server is not east of UTC. */
  lemma CompletionShowsToday(table: TaskModel.Table, id: string, todayUtc: int, nowMs: nat,
                             eastOfUtc: bool, i: nat)
    requires i < |table| && table[i].id == id
    ensures var t := TaskModel.Normalize(TaskModel.CompleteTask(table, id, todayUtc, todayUtc, nowMs).table[i]);
      IsCompletedToday(t, todayUtc, eastOfUtc) <==> !eastOfUtc
  {
  }

  /** East of UTC the card never shows a task completed today as completed today, and a
      task completed yesterday (UTC) that is still flagged shows as completed today. */
  lemma EastOfUtcHidesCompletion(t: Task, todayUtc: int)
    ensures t.completed && t.lastCompleted == Some(todayUtc) ==> !IsCompletedToday(t, todayUtc, true)
    ensures t.completed && t.lastCompleted == Some(todayUtc + 1) ==> IsCompletedToday(t, todayUtc, true)
  {
  }

  /** The check the card evidently means: the stored completion date is today's UTC date,
      the date `completeTask` writes, wherever the server lies. */
  predicate IntendedCompletedToday(t: Task, todayUtc: int) {
    t.completed && t.lastCompleted == Some(todayUtc)
  }

  /** With the intended check a task completed today shows as completed today in every
      zone, and the two checks agree on a server on UTC or west of it. */
  lemma IntendedCompletionShowsToday(table: TaskModel.Table, id: string, todayUtc: int, nowMs: nat,
                                     eastOfUtc: bool, i: nat)
    requires i < |table| && table[i].id == id
    ensures IntendedCompletedToday(
      TaskModel.Normalize(TaskModel.CompleteTask(table, id, todayUtc, todayUtc, nowMs).table[i]), todayUtc)
    ensures forall t: Task :: IsCompletedToday(t, todayUtc, false) <==> IntendedCompletedToday(t, todayUtc)
  {
  }

  /** After the daily reset (`curDate` being `CURDATE()`, the date in the database
      session's zone), a recurring task shows as completed today exactly when it was
      completed on `curDate` or later and its stored date reads back as today's UTC date;
      with the session date equal to the UTC date and the server not east of UTC, exactly
      when it was completed with today's date. */
  lemma ResetLeavesOnlyToday(table: TaskModel.Table, curDate: int, todayUtc: int, eastOfUtc: bool, i: nat)
    requires i < |table| && table[i].isRecurring == 1
    ensures IsCompletedToday(TaskModel.Normalize(TaskModel.ResetRecurringTasks(table, curDate).0[i]),
                             todayUtc, eastOfUtc)
      <==> table[i].completed != 0 && table[i].lastCompleted.Some?
           && curDate <= table[i].lastCompleted.value
           && ReadBackDay(table[i].lastCompleted.value, eastOfUtc) == todayUtc
    ensures curDate == todayUtc && !eastOfUtc ==>
      (IsCompletedToday(TaskModel.Normalize(TaskModel.ResetRecurringTasks(table, curDate).0[i]),
                        todayUtc, eastOfUtc)
       <==> table[i].completed != 0 && table[i].lastCompleted == Some(todayUtc))
  {
  }

  const FALLBACK_COLOR: string := "bg-slate-600"
  const FALLBACK_ICON: string := "\U{1F539}"

  predicate Known(category: string) {
    exists i :: 0 <= i < |TASK_CATEGORIES| && TASK_CATEGORIES[i].name == category
  }

  /** `TASK_CATEGORIES.find` by exact name. */
  function FindCategory(category: string): (c: Option<Category>)
    ensures c.None? <==> !Known(category)
    ensures forall i :: 0 <= i < |TASK_CATEGORIES| && TASK_CATEGORIES[i].name == category ==>
      c == Some(TASK_CATEGORIES[i])
  {
    CategoryNamesDistinct();
    Ordering.First(TASK_CATEGORIES, (k: Category) => k.name == category)
  }

  /** The category names start with six different letters. */
  lemma CategoryNamesDistinct()
    ensures forall i, j :: 0 <= i < j < |TASK_CATEGORIES| ==>
      TASK_CATEGORIES[i].name != TASK_CATEGORIES[j].name
  {
    var initials := "RCEWMD";
    assert forall i :: 0 <= i < |TASK_CATEGORIES| ==>
      |TASK_CATEGORIES[i].name| > 0 && TASK_CATEGORIES[i].name[0] == initials[i];
  }

  /** `getCategoryColor`, called with `task.category || ""`. */
  function GetCategoryColor(category: string): (r: string)
    ensures forall i :: 0 <= i < |TASK_CATEGORIES| && TASK_CATEGORIES[i].name == category ==>
      r == TASK_CATEGORIES[i].color
    ensures !Known(category) ==> r == FALLBACK_COLOR
  {
    match FindCategory(category)
    case Some(c) => if c.color != "" then c.color else FALLBACK_COLOR
    case None => FALLBACK_COLOR
  }

  /** `getCategoryIcon`, called with `task.category || ""`. */
  function GetCategoryIcon(category: string): (r: string)
    ensures forall i :: 0 <= i < |TASK_CATEGORIES| && TASK_CATEGORIES[i].name == category ==>
      r == TASK_CATEGORIES[i].icon
    ensures !Known(category) ==> r == FALLBACK_ICON
  {
    match FindCategory(category)
    case Some(c) => if c.icon != "" then c.icon else FALLBACK_ICON
    case None => FALLBACK_ICON
  }

  /** The fallbacks are distinguishable: the colour and the icon fall back exactly for a
      name that is not in the table, so a missing or unknown category is always visible. */
  lemma FallbackIffUnknown(category: string)
    ensures GetCategoryColor(category) == FALLBACK_COLOR <==> !Known(category)
    ensures GetCategoryIcon(category) == FALLBACK_ICON <==> !Known(category)
  {
    if Known(category) {
      var i :| 0 <= i < |TASK_CATEGORIES| && TASK_CATEGORIES[i].name == category;
      assert TASK_CATEGORIES[i].color != FALLBACK_COLOR;
      assert TASK_CATEGORIES[i].icon != FALLBACK_ICON;
    }
  }

  /** What `handleTaskSelection` hands to `onTaskSelect`: nothing without a callback,
      null for the selected task, the task otherwise. */
  datatype SelectionCall = NoCall | Emit(selection: Option<Task>)

  function HandleTaskSelection(selectedTaskId: Option<string>, hasCallback: bool, t: Task)
    : (c: SelectionCall)
    ensures !hasCallback <==> c == NoCall
    ensures hasCallback && selectedTaskId == Some(t.id) ==> c == Emit(None)
    ensures hasCallback && selectedTaskId != Some(t.id) ==> c == Emit(Some(t))
  {
    if !hasCallback then NoCall
    else if selectedTaskId == Some(t.id) then Emit(None)
    else Emit(Some(t))
  }

  /** The selection after a click, when the parent stores what it is handed. */
  function Selected(selectedTaskId: Option<string>, c: SelectionCall): Option<string> {
    match c
    case NoCall => selectedTaskId
    case Emit(s) => if s.Some? then Some(s.value.id) else None
  }

  /** Clicking a task twice returns to the selection before the first click when nothing
      or this task was selected, and to nothing otherwise. */
  lemma SelectionToggles(selectedTaskId: Option<string>, t: Task)
    ensures var once := Selected(selectedTaskId, HandleTaskSelection(selectedTaskId, true, t));
      once == (if selectedTaskId == Some(t.id) then None else Some(t.id))
      && Selected(once, HandleTaskSelection(once, true, t))
         == (if selectedTaskId == Some(t.id) then Some(t.id) else None)
  {
  }
}
