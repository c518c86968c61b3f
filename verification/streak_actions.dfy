/** The server actions of lib/actions/streak.ts. A missing session makes every action
    throw "No autenticado" (a `Failure`), except `getCurrentStreak`, which answers null.
    `getUserStreak` tests only for a session; the others also need a non-empty user id. */
module StreakActions {
  import opened Wrappers
  import opened Schema
  import opened StreakModel
  import Ordering

  const NOT_AUTHENTICATED: string := "No autenticado"

  /** `user?.id` is truthy. */
  predicate HasUserId(session: Option<SessionUser>) {
    session.Some? && session.value.id != ""
  }

  /** `getUserStreak`. */
  function GetUserStreak(session: Option<SessionUser>, table: Table): (r: Result<Option<Streak>>)
    ensures r.Failure? <==> session.None?
    ensures r.Failure? ==> r.error == NOT_AUTHENTICATED
    ensures r.Success? ==> r.value == GetStreakByUserId(table, session.value.id)
  {
    if session.None? then Failure(NOT_AUTHENTICATED)
    else Success(GetStreakByUserId(table, session.value.id))
  }

  /** `initUserStreak`: the user's streak, created when missing. */
  function InitUserStreak(session: Option<SessionUser>, table: Table, freshId: string, todayUtc: int)
    : (r: Result<(Table, Streak)>)
    ensures r.Failure? <==> !HasUserId(session)
    ensures r.Failure? ==> r.error == NOT_AUTHENTICATED
    ensures r.Success? ==> r.value.1.userId == session.value.id
    ensures r.Success? && GetStreakByUserId(table, session.value.id).Some? ==> r.value.0 == table
  {
    if !HasUserId(session) then Failure(NOT_AUTHENTICATED)
    else Success(GetOrCreateStreak(table, session.value.id, freshId, todayUtc))
  }

  /** The three fields `updateStreakOnTaskCompletion` hands back. */
  datatype StreakSummary = StreakSummary(currentStreak: int, longestStreak: int, lastActivityDate: Option<int>)

  /** `updateStreakOnTaskCompletion`: the table the model leaves and the counters and
      date of the advanced streak, nothing else. */
  function UpdateStreakOnTaskCompletion(session: Option<SessionUser>, table: Table, freshId: string,
                                        todayUtc: int, today: int, westOfUtc: bool)
    : (r: Result<(Table, StreakSummary)>)
    ensures r.Failure? <==> !HasUserId(session)
    ensures r.Failure? ==> r.error == NOT_AUTHENTICATED
    ensures r.Success? ==>
      r.value.0 == UpdateStreakAfterCompletion(table, session.value.id, freshId, todayUtc, today, westOfUtc).0
    ensures r.Success? ==>
      var s := Advance(GetOrCreateStreak(table, session.value.id, freshId, todayUtc).1, today, westOfUtc);
      r.value.1 == StreakSummary(s.currentStreak, s.longestStreak, Some(today))
  {
    if !HasUserId(session) then Failure(NOT_AUTHENTICATED)
    else
      var (table', s) := UpdateStreakAfterCompletion(table, session.value.id, freshId, todayUtc, today, westOfUtc);
      Success((table', StreakSummary(s.currentStreak, s.longestStreak, s.lastActivityDate)))
  }

  datatype Verification = Verification(streakLost: bool, streak: Option<Streak>)

  /** `verifyUserStreak`: the loss flag of `checkLostStreak` with the streak read after it. */
  function VerifyUserStreak(session: Option<SessionUser>, table: Table, today: int)
    : (r: Result<(Table, Verification)>)
    ensures r.Failure? <==> !HasUserId(session)
    ensures r.Failure? ==> r.error == NOT_AUTHENTICATED
    ensures r.Success? ==>
      var (t, lost) := CheckLostStreak(table, session.value.id, today);
      r.value == (t, Verification(lost, GetStreakByUserId(t, session.value.id)))
    ensures r.Success? && r.value.1.streakLost ==> r.value.1.streak.value.currentStreak == 0
  {
    if !HasUserId(session) then Failure(NOT_AUTHENTICATED)
    else
      var userId := session.value.id;
      var (t, lost) := CheckLostStreak(table, userId, today);
      LostStreakRereadsZero(table, userId, today);
      Success((t, Verification(lost, GetStreakByUserId(t, userId))))
  }

  /** After a loss is recorded the re-read streak has a current run of 0. */
  lemma LostStreakRereadsZero(table: Table, userId: string, today: int)
    ensures var (t, lost) := CheckLostStreak(table, userId, today);
      lost ==> GetStreakByUserId(t, userId).Some? && GetStreakByUserId(t, userId).value.currentStreak == 0
  {
    var (t, lost) := CheckLostStreak(table, userId, today);
    if lost {
      var s := GetStreakByUserId(table, userId).value;
      var i :| 0 <= i < |table| && table[i] == s && OfUser(table[i], userId)
               && forall j :: 0 <= j < i ==> !OfUser(table[j], userId);
      Ordering.FirstAt(t, (x: Streak) => OfUser(x, userId), i);
    }
  }

  /** Days left before the streak is lost: 1 if the last activity was today, 0 if it was
      yesterday, none once it is older or there is no active streak. */
  function DaysUntilLost(s: Streak, today: int): (r: Option<int>)
    ensures r.Some? <==> s.lastActivityDate.Some? && s.currentStreak > 0
                         && DaysSince(s.lastActivityDate.value, today) <= 1
    ensures r.Some? ==> r.value >= 0 && r.value + DaysSince(s.lastActivityDate.value, today) == 1
  {
    if s.lastActivityDate.Some? && s.currentStreak > 0 then
      var diff := DaysSince(s.lastActivityDate.value, today);
      if diff <= 1 then Some(1 - diff) else None
    else None
  }

  datatype StreakStats = StreakStats(currentStreak: int, longestStreak: int,
                                     lastActivityDate: Option<int>, daysUntilLost: Option<int>)

  /** `getStreakStats`: zeros and nulls without a stored streak. */
  function GetStreakStats(session: Option<SessionUser>, table: Table, today: int): (r: Result<StreakStats>)
    ensures r.Failure? <==> !HasUserId(session)
    ensures r.Failure? ==> r.error == NOT_AUTHENTICATED
    ensures r.Success? && GetStreakByUserId(table, session.value.id).None? ==>
      r.value == StreakStats(0, 0, None, None)
    ensures r.Success? && GetStreakByUserId(table, session.value.id).Some? ==>
      var s := GetStreakByUserId(table, session.value.id).value;
      r.value == StreakStats(s.currentStreak, s.longestStreak, s.lastActivityDate, DaysUntilLost(s, today))
  {
    if !HasUserId(session) then Failure(NOT_AUTHENTICATED)
    else match GetStreakByUserId(table, session.value.id)
      case None => Success(StreakStats(0, 0, None, None))
      case Some(s) =>
        Success(StreakStats(s.currentStreak, s.longestStreak, s.lastActivityDate, DaysUntilLost(s, today)))
  }

  /** `getCurrentStreak`: null instead of an error without a user id. */
  function GetCurrentStreak(session: Option<SessionUser>, table: Table): (r: Option<Streak>)
    ensures !HasUserId(session) ==> r.None?
    ensures HasUserId(session) ==> r == GetStreakByUserId(table, session.value.id)
  {
    if !HasUserId(session) then None else GetStreakByUserId(table, session.value.id)
  }

  /** The stats and the loss check agree on a well-formed streak: `daysUntilLost` is null
      exactly when there is no active streak or `checkLostStreak` would record a loss. */
  lemma DaysUntilLostAgreesWithLoss(table: Table, userId: string, today: int)
    requires GetStreakByUserId(table, userId).Some?
    requires WellFormed(GetStreakByUserId(table, userId).value)
    ensures var s := GetStreakByUserId(table, userId).value;
      CheckLostStreak(table, userId, today).1
      <==> s.lastActivityDate.Some? && s.currentStreak > 0 && DaysUntilLost(s, today).None?
  {
  }
}
