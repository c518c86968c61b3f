/** The month view of components/StreakCalendar.tsx: which days of the shown month are
    marked as part of the streak span (from `startDate` to the last activity), the
    Monday-first grid offset, the month navigation guards, the shape of each marked day
    and the two circled days. Months are 0-based as `Date.prototype.getMonth` counts them. */
module StreakCalendar {
  import opened Wrappers

  datatype YearMonth = YearMonth(year: int, month: int)

  datatype CalendarDate = CalendarDate(year: int, month: int, day: int)

  predicate IsLeapYear(y: int) {
    y % 4 == 0 && (y % 100 != 0 || y % 400 == 0)
  }

  /** `new Date(year, month + 1, 0).getDate()`: the length of a Gregorian month. */
  function DaysInMonth(year: int, month: int): (n: int)
    requires 0 <= month < 12
    ensures 28 <= n <= 31
    ensures month == 1 ==> (n == 29 <==> IsLeapYear(year))
  {
    if month == 1 then (if IsLeapYear(year) then 29 else 28)
    else if month == 3 || month == 5 || month == 8 || month == 10 then 30
    else 31
  }

  predicate ValidMonth(m: YearMonth) {
    0 <= m.month < 12
  }

  predicate ValidDate(d: CalendarDate) {
    0 <= d.month < 12 && 1 <= d.day <= DaysInMonth(d.year, d.month)
  }

  function MonthOf(d: CalendarDate): YearMonth {
    YearMonth(d.year, d.month)
  }

  /** The lexicographic (year, month) comparison the navigation guards spell out. */
  predicate MonthBefore(a: YearMonth, b: YearMonth) {
    a.year < b.year || (a.year == b.year && a.month < b.month)
  }

  predicate DateLe(a: CalendarDate, b: CalendarDate) {
    a.year < b.year || (a.year == b.year && (a.month < b.month || (a.month == b.month && a.day <= b.day)))
  }

  /** Months counted from year 0; `MonthBefore` is the order of these numbers. */
  function MonthIndex(m: YearMonth): int {
    m.year * 12 + m.month
  }

  lemma MonthBeforeIsIndexOrder(a: YearMonth, b: YearMonth)
    requires ValidMonth(a) && ValidMonth(b)
    ensures MonthBefore(a, b) <==> MonthIndex(a) < MonthIndex(b)
    ensures a == b <==> MonthIndex(a) == MonthIndex(b)
  {
    var d := a.year - b.year;
    if d >= 1 {
      assert d * 12 >= 12;
    } else if d <= -1 {
      assert d * 12 <= -12;
    }
  }

  /** The days `lo..hi` in ascending order, empty when `lo > hi`. */
  function Range(lo: int, hi: int): (r: seq<int>)
    ensures |r| == if lo <= hi then hi - lo + 1 else 0
    ensures forall i :: 0 <= i < |r| ==> r[i] == lo + i
    ensures forall x :: x in r <==> lo <= x <= hi
    decreases hi - lo
  {
    if lo > hi then [] else [lo] + Range(lo + 1, hi)
  }

  /** A contiguous ascending run of integers. */
  predicate IsRun(r: seq<int>) {
    forall i :: 0 <= i < |r| ==> r[i] == r[0] + i
  }

  /** `calculateCompletedDays` for the shown month; `last` is the last activity date, or
      today when there is none. */
  function CompletedDays(shown: YearMonth, start: CalendarDate, last: CalendarDate): (r: seq<int>)
    requires ValidMonth(shown) && ValidDate(start) && ValidDate(last)
    ensures IsRun(r)
    ensures MonthOf(start) == shown && MonthOf(last) == shown ==> r == Range(start.day, last.day)
    ensures MonthOf(start) != shown && MonthOf(last) == shown ==> r == Range(1, last.day)
    ensures MonthOf(start) == shown && MonthOf(last) != shown ==>
              r == Range(start.day, DaysInMonth(shown.year, shown.month))
    ensures MonthOf(start) != shown && MonthOf(last) != shown ==>
              r == if MonthBefore(MonthOf(start), shown) && MonthBefore(shown, MonthOf(last))
                   then Range(1, DaysInMonth(shown.year, shown.month)) else []
  {
    var isStartMonth := MonthOf(start) == shown;
    var isEndMonth := MonthOf(last) == shown;
    if isStartMonth && isEndMonth then Range(start.day, last.day)
    else if isEndMonth then Range(1, last.day)
    else if isStartMonth then Range(start.day, DaysInMonth(start.year, start.month))
    else if MonthBefore(MonthOf(start), shown) && MonthBefore(shown, MonthOf(last)) then
      Range(1, DaysInMonth(shown.year, shown.month))
    else []
  }

  /** For a span that does not end before it starts, a day of the shown month is marked
      exactly when it lies between the start date and the last activity date. */
  lemma CompletedDaysIsSpan(shown: YearMonth, start: CalendarDate, last: CalendarDate, day: int)
    requires ValidMonth(shown) && ValidDate(start) && ValidDate(last)
    requires DateLe(start, last)
    requires 1 <= day <= DaysInMonth(shown.year, shown.month)
    ensures day in CompletedDays(shown, start, last)
            <==> DateLe(start, CalendarDate(shown.year, shown.month, day))
                 && DateLe(CalendarDate(shown.year, shown.month, day), last)
  {
  }

  /** `adjustedFirstDay`: the Monday-first column of the 1st, from its Sunday-based weekday. */
  function AdjustedFirstDay(firstDow: int): (c: int)
    requires 0 <= firstDow < 7
    ensures 0 <= c < 7
    ensures (c + 1) % 7 == firstDow
  {
    if firstDow == 0 then 6 else firstDow - 1
  }

  /** The grid cells: `adjustedFirstDay` blanks, then the days of the month. */
  function Grid(shown: YearMonth, firstDow: int): (cells: seq<Option<int>>)
    requires ValidMonth(shown) && 0 <= firstDow < 7
    ensures |cells| == AdjustedFirstDay(firstDow) + DaysInMonth(shown.year, shown.month)
    ensures forall i :: 0 <= i < AdjustedFirstDay(firstDow) ==> cells[i].None?
    ensures forall d :: 1 <= d <= DaysInMonth(shown.year, shown.month) ==>
              cells[AdjustedFirstDay(firstDow) + d - 1] == Some(d)
  {
    var blanks := AdjustedFirstDay(firstDow);
    var n := DaysInMonth(shown.year, shown.month);
    seq(blanks, _ => None) + seq(n, i => Some(i + 1))
  }

  /** The column of day `d`, as `getStreakPosition` computes it. */
  function Column(adjusted: int, d: int): int {
    (adjusted + d - 1) % 7
  }

  /** Column 0 holds the Mondays and column 6 the Sundays: if the 1st falls on weekday
      `firstDow` (0 = Sunday), day `d` falls on `(firstDow + d - 1) % 7`. */
  lemma ColumnsStartOnMonday(firstDow: int, d: int)
    requires 0 <= firstDow < 7 && d >= 1
    ensures Column(AdjustedFirstDay(firstDow), d) == 0 <==> (firstDow + d - 1) % 7 == 1
    ensures Column(AdjustedFirstDay(firstDow), d) == 6 <==> (firstDow + d - 1) % 7 == 0
  {
  }

  /** `canGoToPreviousMonth`. */
  predicate CanGoPrevious(shown: YearMonth, start: CalendarDate) {
    MonthBefore(MonthOf(start), shown)
  }

  /** `canGoToNextMonth`. */
  predicate CanGoNext(shown: YearMonth, last: CalendarDate) {
    MonthBefore(shown, MonthOf(last))
  }

  /** `new Date(year, month + delta, 1)` for `delta` of ±1: the month rolls over the year. */
  function ShiftMonth(m: YearMonth, delta: int): (r: YearMonth)
    requires ValidMonth(m) && (delta == 1 || delta == -1)
    ensures ValidMonth(r)
    ensures MonthIndex(r) == MonthIndex(m) + delta
  {
    var k := m.month + delta;
    if k < 0 then YearMonth(m.year - 1, 11)
    else if k > 11 then YearMonth(m.year + 1, 0)
    else YearMonth(m.year, k)
  }

  /** `previousMonth`: a step back when allowed, otherwise no change. */
  function PreviousMonth(shown: YearMonth, start: CalendarDate): (r: YearMonth)
    requires ValidMonth(shown)
    ensures ValidMonth(r)
    ensures CanGoPrevious(shown, start) ==> MonthIndex(r) == MonthIndex(shown) - 1
    ensures !CanGoPrevious(shown, start) ==> r == shown
  {
    if CanGoPrevious(shown, start) then ShiftMonth(shown, -1) else shown
  }

  /** `nextMonth`: a step forward when allowed, otherwise no change. */
  function NextMonth(shown: YearMonth, last: CalendarDate): (r: YearMonth)
    requires ValidMonth(shown)
    ensures ValidMonth(r)
    ensures CanGoNext(shown, last) ==> MonthIndex(r) == MonthIndex(shown) + 1
    ensures !CanGoNext(shown, last) ==> r == shown
  {
    if CanGoNext(shown, last) then ShiftMonth(shown, 1) else shown
  }

  /** The view never leaves the months of the span: starting between the start month and
      the last activity month, both buttons keep it there; and a step back undone by a
      step forward returns to the same month. */
  lemma NavigationStaysInSpan(shown: YearMonth, start: CalendarDate, last: CalendarDate)
    requires ValidMonth(shown) && ValidDate(start) && ValidDate(last)
    requires MonthIndex(MonthOf(start)) <= MonthIndex(shown) <= MonthIndex(MonthOf(last))
    ensures var p := PreviousMonth(shown, start);
      MonthIndex(MonthOf(start)) <= MonthIndex(p) <= MonthIndex(MonthOf(last))
    ensures var n := NextMonth(shown, last);
      MonthIndex(MonthOf(start)) <= MonthIndex(n) <= MonthIndex(MonthOf(last))
    ensures CanGoPrevious(shown, start) ==> NextMonth(PreviousMonth(shown, start), last) == shown
  {
    MonthBeforeIsIndexOrder(MonthOf(start), shown);
    MonthBeforeIsIndexOrder(shown, MonthOf(last));
    if CanGoPrevious(shown, start) {
      var p := PreviousMonth(shown, start);
      MonthBeforeIsIndexOrder(p, MonthOf(last));
      MonthBeforeIsIndexOrder(ShiftMonth(p, 1), shown);
    }
  }

  /** The shape drawn behind a day. */
  datatype Position = NotInStreak | Middle | End | EndMid | Start | StartMid | Single

  /** `getStreakPosition`. */
  function GetStreakPosition(completed: seq<int>, day: int, adjusted: int): (p: Position)
    ensures p == NotInStreak <==> day !in completed
    ensures p == Middle <==> day in completed && day - 1 in completed && day + 1 in completed
    ensures p == Single <==> day in completed && day - 1 !in completed && day + 1 !in completed
    ensures (p == End || p == EndMid) <==> day in completed && day - 1 in completed && day + 1 !in completed
    ensures (p == Start || p == StartMid) <==> day in completed && day - 1 !in completed && day + 1 in completed
    ensures p == End ==> Column(adjusted, day) == 6
    ensures p == Start ==> Column(adjusted, day) == 0
  {
    if day !in completed then NotInStreak
    else
      var prev := day - 1 in completed;
      var next := day + 1 in completed;
      var column := Column(adjusted, day);
      if prev && next then Middle
      else if prev then (if column == 6 then End else EndMid)
      else if next then (if column == 0 then Start else StartMid)
      else Single
  }

  /** On a run `lo..hi`, the first day opens the band, the last day closes it, the days in
      between are middles, and a one-day run is a single. */
  lemma PositionOnRun(lo: int, hi: int, day: int, adjusted: int)
    requires lo <= day <= hi
    ensures var p := GetStreakPosition(Range(lo, hi), day, adjusted);
      && (p == Middle <==> lo < day < hi)
      && (p == Single <==> lo == day == hi)
      && ((p == Start || p == StartMid) <==> lo == day < hi)
      && ((p == End || p == EndMid) <==> lo < day == hi)
  {
  }

  /** `shouldHaveOrangeCircle`: the start date and the last activity date, in their months. */
  function ShouldHaveOrangeCircle(shown: YearMonth, start: CalendarDate, last: CalendarDate, day: int)
    : (b: bool)
    ensures b <==> (MonthOf(start) == shown && day == start.day) || (MonthOf(last) == shown && day == last.day)
  {
    if shown.month == start.month && shown.year == start.year && day == start.day then true
    else shown.month == last.month && shown.year == last.year && day == last.day
  }

  /** Both circled days are marked days of the span. */
  lemma CirclesAreMarked(shown: YearMonth, start: CalendarDate, last: CalendarDate, day: int)
    requires ValidMonth(shown) && ValidDate(start) && ValidDate(last) && DateLe(start, last)
    requires ShouldHaveOrangeCircle(shown, start, last, day)
    ensures day in CompletedDays(shown, start, last)
  {
    CompletedDaysIsSpan(shown, start, last, day);
  }
}
