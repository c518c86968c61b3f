/** The new-activity form of components/TimerView/ActivityForm.tsx: day abbreviations,
    the day toggle, the 12-hour text shown in the time field and its conversion back to
    `HH:MM:00`, and the validation and payload built on submit. */
module ActivityForm {
  import opened Wrappers
  import opened Schema
  import opened Text
  import Ordering

  /** The day buttons, in the order they are drawn. */
  const DAY_ABBREVIATIONS: seq<string> := ["Sun", "Mon", "Tue", "Wed", "Thu", "Fri", "Sat"]

  /** `mapDayToFull`: a known abbreviation becomes its lower-case full name; anything else
      is only lower-cased. */
  function MapDayToFull(day: string): (r: string)
    ensures forall i :: 0 <= i < 7 && day == DAY_ABBREVIATIONS[i] ==> r == DAY_NAMES[i]
    ensures day !in DAY_ABBREVIATIONS ==> r == ToLower(day)
  {
    if day == "Sun" then "sunday"
    else if day == "Mon" then "monday"
    else if day == "Tue" then "tuesday"
    else if day == "Wed" then "wednesday"
    else if day == "Thu" then "thursday"
    else if day == "Fri" then "friday"
    else if day == "Sat" then "saturday"
    else ToLower(day)
  }

  /** The buttons map onto the names the store matches on, one to one. */
  lemma AbbreviationsMapOntoDayNames()
    ensures forall i :: 0 <= i < 7 ==> MapDayToFull(DAY_ABBREVIATIONS[i]) == DAY_NAMES[i]
  {
  }

  /** `toggleDay`: removes every copy of a selected day, otherwise appends it. */
  function ToggleDay(selected: seq<string>, day: string): (r: seq<string>)
    ensures day in r <==> day !in selected
    ensures forall x :: x != day ==> (x in r <==> x in selected)
    ensures day !in selected ==> r == selected + [day]
    ensures day in selected ==> Ordering.IsSubsequence(r, selected) && |r| < |selected|
  {
    if day in selected then
      var r := Ordering.Filter(selected, (d: string) => d != day);
      assert forall x :: x != day && x in selected ==> x in r by {
        forall x | x != day && x in selected
          ensures x in r
        {
          var i :| 0 <= i < |selected| && selected[i] == x;
        }
      }
      r
    else selected + [day]
  }

  /** Toggling the same day twice restores which days are selected, and restores the
      list itself when the day was not selected. */
  lemma ToggleTwice(selected: seq<string>, day: string)
    ensures forall x :: x in ToggleDay(ToggleDay(selected, day), day) <==> x in selected
    ensures day !in selected ==> ToggleDay(ToggleDay(selected, day), day) == selected
  {
    if day !in selected {
      var once := selected + [day];
      var twice := ToggleDay(once, day);
      assert twice == Ordering.Filter(once, (d: string) => d != day);
      FilterDropsAppended(selected, day);
    }
  }

  lemma {:induction false} FilterDropsAppended(xs: seq<string>, day: string)
    requires day !in xs
    ensures Ordering.Filter(xs + [day], (d: string) => d != day) == xs
    decreases |xs|
  {
    if |xs| > 0 {
      assert (xs + [day])[1..] == xs[1..] + [day];
      FilterDropsAppended(xs[1..], day);
    }
  }

  /** `parts[i]`, undefined past the end. */
  function Part(parts: seq<string>, i: nat): Option<string> {
    if i < |parts| then Some(parts[i]) else None
  }

  /** `parseInt` of a possibly undefined string; undefined parses to NaN. */
  function ParseOpt(s: Option<string>): Option<nat> {
    match s
    case None => None
    case Some(t) => ParseDecimal(t)
  }

  /** How an optional string is interpolated into a template (`undefined` when absent). */
  function ShowPart(s: Option<string>): string {
    match s
    case None => "undefined"
    case Some(t) => t
  }

  /** The 24-hour hour a 12-hour reading denotes: a p.m. hour below 12 gains 12 and
      12 a.m. is midnight; every other reading, NaN included, is kept. */
  function To24Hour(hours: Option<nat>, period: Option<string>): (r: Option<nat>)
    ensures r.None? <==> hours.None?
    ensures r.Some? && period == Some("p.m.") && hours.value <= 12 ==> 12 <= r.value <= 23
    ensures r.Some? && period == Some("a.m.") && 1 <= hours.value <= 12 ==> r.value <= 11
    ensures r.Some? && period == Some("a.m.") ==> r.value % 12 == hours.value % 12
    ensures r.Some? && period == Some("p.m.") ==> r.value % 12 == hours.value % 12
  {
    if period == Some("p.m.") && hours.Some? && hours.value < 12 then Some(hours.value + 12)
    else if period == Some("a.m.") && hours == Some(12) then Some(0)
    else hours
  }

  /** The hour shown for a 24-hour hour and its period: 0 shows as 12 a.m., 12 as 12 p.m. */
  function To12Hour(h: nat): (r: (nat, string))
    ensures r.1 == (if h < 12 then "a.m." else "p.m.")
    ensures h < 24 ==> 1 <= r.0 <= 12
    ensures r.0 % 12 == h % 12
  {
    if h == 0 then (12, "a.m.")
    else if h < 12 then (h, "a.m.")
    else if h == 12 then (12, "p.m.")
    else (h - 12, "p.m.")
  }

  /** Reading back the shown hour and period gives the hour of the day. */
  lemma HourRoundTrip(h: nat)
    requires h < 24
    ensures To24Hour(Some(To12Hour(h).0), Some(To12Hour(h).1)) == Some(h)
  {
  }

  /** `handleTimeChange`: "h:mm a.m." / "h:mm p.m." to "HH:MM:00"; a number that does not
      parse prints as `NaN`. */
  function HandleTimeChange(value: string): string {
    var parts := Split(value, ' ');
    var clock := Split(parts[0], ':');
    var hours := To24Hour(ParseOpt(Part(clock, 0)), Part(parts, 1));
    Pad2(ShowNumber(hours)) + ":" + Pad2(ShowNumber(ParseOpt(Part(clock, 1)))) + ":00"
  }

  /** `formatTimeForDisplay`: "HH:MM:SS" as 12-hour text, the minutes text kept as written;
      an hour that does not parse shows as "NaN" with "p.m.". */
  function FormatTimeForDisplay(time: string): string {
    var parts := Split(time, ':');
    var minutes := ShowPart(Part(parts, 1));
    match ParseOpt(Part(parts, 0))
    case None => "NaN:" + minutes + " p.m."
    case Some(h) => NatToString(To12Hour(h).0) + ":" + minutes + " " + To12Hour(h).1
  }

  /** The stored text of a time of day with zero seconds. */
  function TimeText(h: nat, m: nat): string {
    Pad2(NatToString(h)) + ":" + Pad2(NatToString(m)) + ":00"
  }

  /** The 12-hour text the field shows for `TimeText(h, m)`. */
  function DisplayText(h: nat, m: nat): string {
    NatToString(To12Hour(h).0) + ":" + Pad2(NatToString(m)) + " " + To12Hour(h).1
  }

  lemma NoSeparatorInDigits(s: string, c: char)
    requires AllDigits(s) && !IsDigit(c)
    ensures c !in s
  {
  }

  /** A two-digit field never holds the ':' separator. */
  lemma PaddedHasNoColon(n: nat)
    requires n < 100
    ensures ':' !in Pad2(NatToString(n))
  {
    ParsePad2(n, "");
    NoSeparatorInDigits(Pad2(NatToString(n)), ':');
  }

  /** The stored time splits into its hour, minute and second texts. */
  lemma SplitTimeText(h: nat, m: nat)
    requires h < 24 && m < 60
    ensures Split(TimeText(h, m), ':') == [Pad2(NatToString(h)), Pad2(NatToString(m)), "00"]
  {
    var hh := Pad2(NatToString(h));
    var mm := Pad2(NatToString(m));
    PaddedHasNoColon(h);
    PaddedHasNoColon(m);
    var tail := mm + [':'] + "00";
    assert TimeText(h, m) == hh + [':'] + tail;
    SplitAtFirst(hh, ':', tail);
    SplitAtFirst(mm, ':', "00");
    SplitWithoutSeparator("00", ':');
  }

  /** The field shows the stored time as its 12-hour text. */
  lemma FormatShowsTwelveHour(h: nat, m: nat)
    requires h < 24 && m < 60
    ensures FormatTimeForDisplay(TimeText(h, m)) == DisplayText(h, m)
  {
    SplitTimeText(h, m);
    ParsePad2(h, "");
    assert Pad2(NatToString(h)) + "" == Pad2(NatToString(h));
  }

  /** A 12-hour text "H:MM period" splits into the hour, the minutes and the period. */
  lemma SplitClockText(hour12: string, mm: string, period: string)
    requires AllDigits(hour12) && AllDigits(mm) && ' ' !in period
    ensures Split(hour12 + ":" + mm + " " + period, ' ') == [hour12 + [':'] + mm, period]
    ensures Split(hour12 + [':'] + mm, ':') == [hour12, mm]
  {
    NoSeparatorInDigits(hour12, ':');
    NoSeparatorInDigits(hour12, ' ');
    NoSeparatorInDigits(mm, ':');
    NoSeparatorInDigits(mm, ' ');
    var clock := hour12 + [':'] + mm;
    assert ' ' !in clock by {
      assert forall i :: 0 <= i < |clock| ==> clock[i] != ' ';
    }
    assert hour12 + ":" + mm + " " + period == clock + [' '] + period;
    SplitAtFirst(clock, ' ', period);
    SplitWithoutSeparator(period, ' ');
    SplitAtFirst(hour12, ':', mm);
    SplitWithoutSeparator(mm, ':');
  }

  /** Writing the 12-hour text back yields the stored time. */
  lemma HandleReadsTwelveHour(h: nat, m: nat)
    requires h < 24 && m < 60
    ensures HandleTimeChange(DisplayText(h, m)) == TimeText(h, m)
  {
    DisplayFields(h, m);
    HourRoundTrip(h);
  }

  /** The fields `handleTimeChange` cuts out of the 12-hour text, and what they parse to. */
  lemma DisplayFields(h: nat, m: nat)
    requires h < 24 && m < 60
    ensures var parts := Split(DisplayText(h, m), ' ');
      var clock := Split(parts[0], ':');
      && Part(parts, 1) == Some(To12Hour(h).1)
      && ParseOpt(Part(clock, 0)) == Some(To12Hour(h).0)
      && ParseOpt(Part(clock, 1)) == Some(m)
  {
    var n12 := To12Hour(h).0;
    ParsePad2(m, "");
    SplitClockText(NatToString(n12), Pad2(NatToString(m)), To12Hour(h).1);
    ParseNatToString(n12, "");
    assert NatToString(n12) + "" == NatToString(n12);
    assert Pad2(NatToString(m)) + "" == Pad2(NatToString(m));
  }

  /** The text field shows `formatTimeForDisplay(scheduledTime)` and writes back through
      `handleTimeChange`: every time of day survives the round trip unchanged. */
  lemma TimeFieldRoundTrip(h: nat, m: nat)
    requires h < 24 && m < 60
    ensures HandleTimeChange(FormatTimeForDisplay(TimeText(h, m))) == TimeText(h, m)
  {
    FormatShowsTwelveHour(h, m);
    HandleReadsTwelveHour(h, m);
  }

  /** The form fields that take part in a submission. */
  datatype FormState = FormState(
    title: string,
    category: string,
    duration: int,
    isScheduled: bool,
    scheduledTime: string,
    selectedDays: seq<string>)

  /** The `TaskInput` the form sends. */
  datatype FormTaskData = FormTaskData(
    title: string,
    durationMinutes: int,
    category: string,
    isRecurring: bool,
    scheduledTime: Option<string>,
    scheduledDays: Option<seq<string>>)

  datatype SubmitDecision = Rejected(error: string) | Submit(data: FormTaskData)

  function MapDays(days: seq<string>): (r: seq<string>)
    ensures |r| == |days| && forall i :: 0 <= i < |days| ==> r[i] == MapDayToFull(days[i])
  {
    seq(|days|, i requires 0 <= i < |days| => MapDayToFull(days[i]))
  }

  /** `handleSubmit` up to the server call: an empty title and a schedule without days are
      refused before anything is sent. */
  function HandleSubmit(f: FormState): (d: SubmitDecision)
    ensures d == Rejected("Activity name is required") <==> TrimIsEmpty(f.title)
    ensures d == Rejected("Please select at least one day for scheduled activity")
            <==> !TrimIsEmpty(f.title) && f.isScheduled && |f.selectedDays| == 0
    ensures d.Submit? ==> d.data.title == f.title && d.data.category == f.category
                          && d.data.durationMinutes == f.duration
    ensures d.Submit? ==> (d.data.isRecurring <==> f.isScheduled)
    ensures d.Submit? ==> (d.data.scheduledTime.Some? <==> f.isScheduled)
                          && (d.data.scheduledDays.Some? <==> f.isScheduled)
    ensures d.Submit? && f.isScheduled ==>
      d.data.scheduledTime == Some(f.scheduledTime) && d.data.scheduledDays == Some(MapDays(f.selectedDays))
      && |d.data.scheduledDays.value| > 0
  {
    if TrimIsEmpty(f.title) then Rejected("Activity name is required")
    else if f.isScheduled && |f.selectedDays| == 0 then
      Rejected("Please select at least one day for scheduled activity")
    else
      Submit(FormTaskData(
        f.title, f.duration, f.category,
        f.isScheduled && |f.selectedDays| > 0,
        if f.isScheduled then Some(f.scheduledTime) else None,
        if f.isScheduled then Some(MapDays(f.selectedDays)) else None))
  }

  /** The answer of `createTaskAction` as the form sees it; `Threw` is a rejected promise. */
  datatype CreateReply = Created(task: Option<Task>) | NotCreated(error: Option<string>) | Threw

  datatype FormOutcome = FormOutcome(tasks: seq<Task>, error: Option<string>, closed: bool)

  /** What the form does with the answer: on success it appends the returned task to the
      parent's list (when both exist) and closes; otherwise it shows an error and stays. */
  function AfterCreate(tasks: seq<Task>, hasSetTasks: bool, reply: CreateReply): (o: FormOutcome)
    ensures o.closed <==> reply.Created?
    ensures o.closed ==> o.error.None?
    ensures reply.Created? && hasSetTasks && reply.task.Some? ==> o.tasks == tasks + [reply.task.value]
    ensures !(reply.Created? && hasSetTasks && reply.task.Some?) ==> o.tasks == tasks
    ensures reply.NotCreated? ==>
      o.error == Some(if reply.error.Some? && reply.error.value != "" then reply.error.value
                      else "Failed to create activity")
    ensures reply.Threw? ==> o.error == Some("An unexpected error occurred")
  {
    match reply
    case Created(t) =>
      FormOutcome(if hasSetTasks && t.Some? then tasks + [t.value] else tasks, None, true)
    case NotCreated(e) =>
      FormOutcome(tasks, Some(if Truthy(e) then e.value else "Failed to create activity"), false)
    case Threw => FormOutcome(tasks, Some("An unexpected error occurred"), false)
  }
}
