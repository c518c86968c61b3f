/** The `streaks` table of lib/models/streak.ts. Dates are day numbers: `today` is the
    local calendar date the completion happens on, `todayUtc` the UTC date
    `createStreak` stamps as `startDate`. */
module StreakModel {
  import opened Wrappers
  import Ordering

  datatype Streak = Streak(
    id: string,
    userId: string,
    currentStreak: int,
    longestStreak: int,
    lastActivityDate: Option<int>,
    startDate: int)

  type Table = seq<Streak>

  predicate OfUser(s: Streak, userId: string) {
    s.userId == userId
  }

  /** `getStreakByUserId`: the first row of that user, or null. */
  function GetStreakByUserId(table: Table, userId: string): (r: Option<Streak>)
    ensures r.None? <==> forall i :: 0 <= i < |table| ==> table[i].userId != userId
    ensures r.Some? ==> r.value.userId == userId && r.value in table
  {
    Ordering.First(table, (s: Streak) => OfUser(s, userId))
  }

  /** `createStreak`: inserts a row with both counters at 0 and today's UTC date as start,
      then returns what a re-read finds for the user. */
  function CreateStreak(table: Table, userId: string, freshId: string, todayUtc: int)
    : (r: (Table, Streak))
    ensures r.0 == table + [Streak(freshId, userId, 0, 0, None, todayUtc)]
    ensures r.1.userId == userId && GetStreakByUserId(r.0, userId) == Some(r.1)
    ensures (forall i :: 0 <= i < |table| ==> table[i].userId != userId) ==>
              r.1 == Streak(freshId, userId, 0, 0, None, todayUtc)
  {
    var table' := table + [Streak(freshId, userId, 0, 0, None, todayUtc)];
    var reread := GetStreakByUserId(table', userId);
    assert table'[|table|] == Streak(freshId, userId, 0, 0, None, todayUtc);
    (table', reread.value)
  }

  /** `getOrCreateStreak`: an existing streak is returned unchanged and nothing is written. */
  function GetOrCreateStreak(table: Table, userId: string, freshId: string, todayUtc: int)
    : (r: (Table, Streak))
    ensures r.1.userId == userId && GetStreakByUserId(r.0, userId) == Some(r.1)
    ensures GetStreakByUserId(table, userId).Some? ==>
              r == (table, GetStreakByUserId(table, userId).value)
    ensures GetStreakByUserId(table, userId).None? ==>
              r.0 == table + [r.1] && r.1 == Streak(freshId, userId, 0, 0, None, todayUtc)
  {
    match GetStreakByUserId(table, userId)
    case Some(s) => (table, s)
    case None => CreateStreak(table, userId, freshId, todayUtc)
  }

  /** The five cases of `updateStreakAfterCompletion`. */
  datatype Step = FirstActivity | SameDay | Consecutive | Broken | NonPositiveGap

  /** The `diffDays` the comparison computes. `today` is the server's local date, which
      `new Date(today)` reads back as midnight UTC; `setHours(0, 0, 0, 0)` then moves that
      instant to the start of its local day, which is the day before when the server's
      zone lies west of UTC (`westOfUtc`, as America/Mexico_City, the default zone of the
      users table, does). The stored `DATE` comes back from the driver as a local-midnight
      `Date` and keeps its day. The result is whole days, so the hour a daylight-saving
      change adds or removes is already rounded away. */
  function Gap(last: int, today: int, westOfUtc: bool): (g: int)
    ensures !westOfUtc ==> g == today - last
    ensures westOfUtc ==> g == today - last - 1
  {
    (if westOfUtc then today - 1 else today) - last
  }

  function Classify(last: Option<int>, today: int, westOfUtc: bool): (k: Step)
    ensures k == FirstActivity <==> last.None?
    ensures k == SameDay <==> last == Some(today)
    ensures k == Consecutive <==> last.Some? && last.value != today && Gap(last.value, today, westOfUtc) == 1
    ensures k == Broken <==> last.Some? && last.value != today && Gap(last.value, today, westOfUtc) > 1
    ensures k == NonPositiveGap <==> last.Some? && last.value != today && Gap(last.value, today, westOfUtc) < 1
  {
    match last
    case None => FirstActivity
    case Some(d) =>
      if d == today then SameDay
      else
        var diff := Gap(d, today, westOfUtc);
        if diff == 1 then Consecutive
        else if diff > 1 then Broken
        else NonPositiveGap
  }

  /** West of UTC every gap is read one day short: the day after the last activity falls
      into the non-positive case, a skipped day passes for a consecutive one, and only a
      gap of three days or more breaks the streak. East of UTC or on it the gap is exact. */
  lemma WestOfUtcShiftsGap(last: int, today: int)
    ensures today - last == 1 ==> Classify(Some(last), today, true) == NonPositiveGap
    ensures today - last == 2 ==> Classify(Some(last), today, true) == Consecutive
    ensures Classify(Some(last), today, true) == Broken <==> today - last >= 3
    ensures Classify(Some(last), today, false) == Broken <==> today - last >= 2
  {
  }

  function Max(a: int, b: int): int {
    if a >= b then a else b
  }

  /** The values the `UPDATE` of each case writes, computed from the streak read first. */
  function Advance(s: Streak, today: int, westOfUtc: bool): (s': Streak)
    ensures s'.id == s.id && s'.userId == s.userId && s'.startDate == s.startDate
    ensures s'.lastActivityDate == Some(today)
  {
    match Classify(s.lastActivityDate, today, westOfUtc)
    case FirstActivity => s.(currentStreak := 1, lastActivityDate := Some(today))
    case SameDay => s
    case Broken => s.(currentStreak := 1, lastActivityDate := Some(today))
    case _ =>
      var c := s.currentStreak + 1;
      s.(currentStreak := c, longestStreak := Max(c, s.longestStreak), lastActivityDate := Some(today))
  }

  /** Whether the case's `UPDATE` sets `longestStreak`: the first activity and a broken
      streak set only the current run and the date. */
  predicate SetsLongest(k: Step) {
    k == Consecutive || k == NonPositiveGap
  }

  /** The `UPDATE ... WHERE userId = ?` of a case: every row of the user receives the
      columns that case sets, with the values computed from the streak read first. */
  function WriteAll(table: Table, userId: string, s: Streak, today: int, westOfUtc: bool): (t: Table)
    ensures |t| == |table|
    ensures forall i :: 0 <= i < |table| && table[i].userId != userId ==> t[i] == table[i]
    ensures forall i :: 0 <= i < |table| && table[i].userId == userId ==>
      var a := Advance(s, today, westOfUtc);
      t[i].id == table[i].id && t[i].userId == userId && t[i].startDate == table[i].startDate
      && t[i].currentStreak == a.currentStreak && t[i].lastActivityDate == Some(today)
      && t[i].longestStreak == (if SetsLongest(Classify(s.lastActivityDate, today, westOfUtc))
                                then a.longestStreak else table[i].longestStreak)
  {
    var k := Classify(s.lastActivityDate, today, westOfUtc);
    var a := Advance(s, today, westOfUtc);
    seq(|table|, i requires 0 <= i < |table| =>
      if table[i].userId != userId then table[i]
      else if !SetsLongest(k)
      then table[i].(currentStreak := a.currentStreak, lastActivityDate := a.lastActivityDate)
      else table[i].(currentStreak := a.currentStreak, longestStreak := a.longestStreak,
                     lastActivityDate := a.lastActivityDate))
  }

  /** `updateStreakAfterCompletion`: the same-day case writes nothing and returns the
      stored streak; every other case writes the user's rows and returns the re-read
      streak, which is the stored one advanced to `today`. Other users' rows stay. */
  function UpdateStreakAfterCompletion(table: Table, userId: string, freshId: string,
                                       todayUtc: int, today: int, westOfUtc: bool)
    : (r: (Table, Streak))
    ensures var (t0, s) := GetOrCreateStreak(table, userId, freshId, todayUtc);
      r.1 == Advance(s, today, westOfUtc)
      && |r.0| == |t0|
      && (forall i :: 0 <= i < |t0| && t0[i].userId != userId ==> r.0[i] == t0[i])
      && (Classify(s.lastActivityDate, today, westOfUtc) == SameDay ==> r.0 == t0)
      && (Classify(s.lastActivityDate, today, westOfUtc) != SameDay ==>
            r.0 == WriteAll(t0, userId, s, today, westOfUtc))
    ensures r.1.userId == userId && r.1.lastActivityDate == Some(today)
    ensures GetStreakByUserId(r.0, userId) == Some(r.1)
  {
    var (t0, s) := GetOrCreateStreak(table, userId, freshId, todayUtc);
    if Classify(s.lastActivityDate, today, westOfUtc) == SameDay then (t0, s)
    else
      var t1 := WriteAll(t0, userId, s, today, westOfUtc);
      FirstRowAdvanced(t0, userId, s, today, westOfUtc);
      (t1, GetStreakByUserId(t1, userId).value)
  }

  /** The re-read after the write finds the first row of the user, now advanced. */
  lemma FirstRowAdvanced(t0: Table, userId: string, s: Streak, today: int, westOfUtc: bool)
    requires GetStreakByUserId(t0, userId) == Some(s)
    ensures GetStreakByUserId(WriteAll(t0, userId, s, today, westOfUtc), userId)
            == Some(Advance(s, today, westOfUtc))
  {
    var t1 := WriteAll(t0, userId, s, today, westOfUtc);
    var i :| 0 <= i < |t0| && t0[i] == s && OfUser(t0[i], userId)
             && forall j :: 0 <= j < i ==> !OfUser(t0[j], userId);
    assert t1[i] == Advance(s, today, westOfUtc);
    Ordering.FirstAt(t1, (x: Streak) => OfUser(x, userId), i);
  }

  /** A streak as the transitions keep it: counters non-negative and the current run no
      longer than the longest one, except for the run of 1 that the first activity and a
      broken streak start without touching `longestStreak`. */
  predicate WellFormed(s: Streak) {
    0 <= s.currentStreak && 0 <= s.longestStreak
    && (s.currentStreak <= s.longestStreak || s.currentStreak == 1)
  }

  /** Every transition keeps the streak well formed and never lowers the longest run. */
  lemma AdvancePreserves(s: Streak, today: int, westOfUtc: bool)
    requires WellFormed(s)
    ensures WellFormed(Advance(s, today, westOfUtc))
    ensures Advance(s, today, westOfUtc).longestStreak >= s.longestStreak
  {
  }

  /** A consecutive day (and the non-positive gap treated like one) grows the run by one
      and lifts the longest run to at least the new value. */
  lemma ConsecutiveGrows(s: Streak, today: int, westOfUtc: bool)
    requires s.lastActivityDate.Some? && s.lastActivityDate.value != today
    requires Gap(s.lastActivityDate.value, today, westOfUtc) <= 1
    ensures Advance(s, today, westOfUtc).currentStreak == s.currentStreak + 1
    ensures Advance(s, today, westOfUtc).longestStreak == Max(s.currentStreak + 1, s.longestStreak)
  {
  }

  /** Completing a second task on the same day changes nothing more. */
  lemma AdvanceIdempotent(s: Streak, today: int, westOfUtc: bool)
    ensures Advance(Advance(s, today, westOfUtc), today, westOfUtc) == Advance(s, today, westOfUtc)
  {
  }

  /** The first activity of a fresh streak makes the current run exceed the longest one,
      which stays 0 until a consecutive day. */
  lemma FirstActivityLeavesLongest(userId: string, freshId: string, todayUtc: int, today: int,
                                   westOfUtc: bool)
    ensures var s := Advance(Streak(freshId, userId, 0, 0, None, todayUtc), today, westOfUtc);
      s.currentStreak == 1 && s.longestStreak == 0
  {
  }

  /** Whole days between the last activity and today, as `checkLostStreak` counts them:
      both dates are local midnights there, so no zone shift enters. */
  function DaysSince(last: int, today: int): int {
    today - last
  }

  /** `checkLostStreak`: with an active streak whose last activity is two or more days
      back, zeroes the current run of every row of the user and reports the loss. */
  function CheckLostStreak(table: Table, userId: string, today: int): (r: (Table, bool))
    ensures |r.0| == |table|
    ensures !r.1 ==> r.0 == table
    ensures r.1 <==> match GetStreakByUserId(table, userId)
                     case None => false
                     case Some(s) => s.lastActivityDate.Some? && s.currentStreak != 0
                                     && DaysSince(s.lastActivityDate.value, today) >= 2
    ensures r.1 ==> forall i :: 0 <= i < |table| ==>
      r.0[i] == if table[i].userId == userId then table[i].(currentStreak := 0) else table[i]
  {
    match GetStreakByUserId(table, userId)
    case None => (table, false)
    case Some(s) =>
      if s.lastActivityDate.None? || s.currentStreak == 0 then (table, false)
      else if DaysSince(s.lastActivityDate.value, today) >= 2 then
        (seq(|table|, i requires 0 <= i < |table| =>
               if table[i].userId == userId then table[i].(currentStreak := 0) else table[i]),
         true)
      else (table, false)
  }

  /** After a loss is recorded, a second check the same day finds nothing more to reset. */
  lemma CheckLostIdempotent(table: Table, userId: string, today: int)
    ensures var t := CheckLostStreak(table, userId, today).0;
      CheckLostStreak(t, userId, today) == (t, false)
  {
    var (t, lost) := CheckLostStreak(table, userId, today);
    if lost {
      var s := GetStreakByUserId(table, userId).value;
      var i :| 0 <= i < |table| && table[i] == s && OfUser(table[i], userId)
               && forall j :: 0 <= j < i ==> !OfUser(table[j], userId);
      Ordering.FirstAt(t, (x: Streak) => OfUser(x, userId), i);
    }
  }

  /** Recording a loss keeps every row well formed. */
  lemma CheckLostPreserves(table: Table, userId: string, today: int)
    requires forall i :: 0 <= i < |table| ==> WellFormed(table[i])
    ensures var t := CheckLostStreak(table, userId, today).0;
      forall i :: 0 <= i < |t| ==> WellFormed(t[i])
  {
  }
}
