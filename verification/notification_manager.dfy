/** The browser-side reminder scheduler of lib/notification-manager.ts: the decision each
    run of `checkAndSchedule` takes, the table of pending timers keyed by task id, the
    notification id and its decoding in `cancelNotification`, and the permission guard
    of `sendNotification`. The clock is a parameter; timers are recorded, not run. */
module NotificationManager {
  import opened Wrappers
  import opened Text
  import ActivityForm

  const HOUR_MS: int := 3_600_000
  const MINUTE_MS: int := 60_000
  const DAY_MS: int := 86_400_000

  /** The local-time getters of `new Date()`: `getDay()` (0 = Sunday), hours, minutes,
      seconds and milliseconds. */
  datatype Clock = Clock(day: int, hours: int, minutes: int, seconds: int, millis: int)

  predicate ValidClock(c: Clock) {
    0 <= c.day < 7 && 0 <= c.hours < 24 && 0 <= c.minutes < 60 && 0 <= c.seconds < 60
    && 0 <= c.millis < 1000
  }

  /** Milliseconds since local midnight. */
  function MsOfDay(c: Clock): int {
    c.hours * HOUR_MS + c.minutes * MINUTE_MS + c.seconds * 1000 + c.millis
  }

  /** The delay of a recheck: to the next midnight counted in whole seconds, plus one
      second; the check lands at 00:00:01 of the next day, with today's milliseconds. */
  function NextCheckDelay(c: Clock): (d: int)
    requires ValidClock(c)
    ensures 2000 <= d <= 86_401_000
    ensures MsOfDay(c) + d == DAY_MS + 1000 + c.millis
  {
    24 * 60 * 60 * 1000 - (c.hours * 60 * 60 * 1000 + c.minutes * 60 * 1000 + c.seconds * 1000) + 1000
  }

  /** `time.split(":").map(Number)` followed by `setHours(hours, minutes, 0, 0)`: the
      milliseconds after midnight of the scheduled instant, or none when either field is
      NaN (an invalid date). */
  function ScheduledMs(time: string): (r: Option<int>)
    ensures r.Some? ==> r.value >= 0
  {
    var parts := Split(time, ':');
    var hours := JsNumber(parts[0]);
    var minutes := if |parts| > 1 then JsNumber(parts[1]) else None;
    if hours.Some? && minutes.Some? then Some(hours.value * HOUR_MS + minutes.value * MINUTE_MS)
    else None
  }

  /** What one run of `checkAndSchedule` registers for the task. */
  datatype Decision = Fire(delay: int) | Recheck(delay: int)

  /** `checkAndSchedule`: on a day not in `days`, or once today's time has passed, check
      again just after midnight; otherwise fire at the scheduled time. A NaN delay is
      taken by `setTimeout` as 0. */
  function CheckAndSchedule(days: seq<int>, time: string, now: Clock): (d: Decision)
    requires ValidClock(now)
    ensures now.day !in days ==> d == Recheck(NextCheckDelay(now))
    ensures now.day in days && ScheduledMs(time).None? ==> d == Fire(0)
    ensures now.day in days && ScheduledMs(time).Some? ==>
      (d.Fire? <==> ScheduledMs(time).value >= MsOfDay(now))
    ensures d.Recheck? ==> d == Recheck(NextCheckDelay(now))
    ensures d.Fire? && ScheduledMs(time).Some? ==> MsOfDay(now) + d.delay == ScheduledMs(time).value
    ensures d.Fire? ==> d.delay >= 0
  {
    if now.day in days then
      match ScheduledMs(time)
      case None => Fire(0)
      case Some(at) =>
        var until := at - MsOfDay(now);
        if until < 0 then Recheck(NextCheckDelay(now)) else Fire(until)
    else Recheck(NextCheckDelay(now))
  }

  /** For a stored `HH:MM:SS` time, every decision lands inside a known window: a firing
      is today at exactly HH:MM:00.000, a recheck is within the second that starts at
      00:00:01 of the next day, and every recheck waits between 2 and 86 401 seconds. */
  lemma DecisionBounds(days: seq<int>, h: nat, m: nat, now: Clock)
    requires ValidClock(now) && h < 24 && m < 60
    ensures var d := CheckAndSchedule(days, ActivityForm.TimeText(h, m), now);
      && (d.Fire? ==> now.day in days && MsOfDay(now) + d.delay == h * HOUR_MS + m * MINUTE_MS
                      && d.delay < DAY_MS)
      && (d.Recheck? ==> 2000 <= d.delay <= 86_401_000
                         && DAY_MS + 1000 <= MsOfDay(now) + d.delay < DAY_MS + 2000)
  {
    ScheduledTimeText(h, m);
    DecisionWindow(days, ActivityForm.TimeText(h, m), h * HOUR_MS + m * MINUTE_MS, now);
  }

  /** The same windows for any time text read as an instant `at` of the day. */
  lemma DecisionWindow(days: seq<int>, time: string, at: int, now: Clock)
    requires ValidClock(now) && ScheduledMs(time) == Some(at) && at < DAY_MS
    ensures var d := CheckAndSchedule(days, time, now);
      && (d.Fire? ==> now.day in days && MsOfDay(now) + d.delay == at && d.delay < DAY_MS)
      && (d.Recheck? ==> 2000 <= d.delay <= 86_401_000
                         && DAY_MS + 1000 <= MsOfDay(now) + d.delay < DAY_MS + 2000)
  {
    assert 0 <= MsOfDay(now);
  }

  /** The stored time text is read as its hour and minute. */
  lemma ScheduledTimeText(h: nat, m: nat)
    requires h < 24 && m < 60
    ensures ScheduledMs(ActivityForm.TimeText(h, m)) == Some(h * HOUR_MS + m * MINUTE_MS)
  {
    var parts := Split(ActivityForm.TimeText(h, m), ':');
    ActivityForm.SplitTimeText(h, m);
    assert |parts| > 1 && parts[0] == Pad2(NatToString(h)) && parts[1] == Pad2(NatToString(m));
    NumberOfPad2(h);
    NumberOfPad2(m);
    assert JsNumber(parts[0]) == Some(h) && JsNumber(parts[1]) == Some(m);
  }

  /** The `NotificationOptions` a firing shows. */
  datatype Options = Options(body: string, tag: string, taskId: string, scheduledTime: string)

  function FireOptions(taskId: string, time: string, category: string): Options {
    Options("Time to work on your " + category + " activity!", taskId, taskId, time)
  }

  /** A registered timer: what it will do and what it will show. */
  datatype Timer = Timer(decision: Decision, title: string, options: Options)

  type Timers = map<string, Timer>

  /** `notification_${taskId}_${Date.now()}`. */
  function NotificationId(taskId: string, nowMs: nat): string {
    "notification_" + taskId + "_" + NatToString(nowMs)
  }

  datatype Scheduled = Scheduled(timers: Timers, id: string, cleared: Option<Timer>)

  /** `scheduleNotification` with its first `checkAndSchedule` run: the old timer of the
      task, if any, is cleared and replaced; every other task's timer stays. */
  function ScheduleNotification(timers: Timers, taskId: string, title: string, time: string,
                                days: seq<int>, category: string, now: Clock, nowMs: nat)
    : (r: Scheduled)
    requires ValidClock(now)
    ensures r.id == NotificationId(taskId, nowMs)
    ensures r.cleared == (if taskId in timers then Some(timers[taskId]) else None)
    ensures r.timers.Keys == timers.Keys + {taskId}
    ensures forall k :: k in timers && k != taskId ==> r.timers[k] == timers[k]
    ensures r.timers[taskId].decision == CheckAndSchedule(days, time, now)
    ensures r.timers[taskId].options.tag == taskId
    ensures r.timers[taskId].title == title
    ensures r.timers[taskId].options.taskId == taskId && r.timers[taskId].options.scheduledTime == time
    ensures r.timers[taskId].options.body == "Time to work on your " + category + " activity!"
  {
    var cleared := if taskId in timers then Some(timers[taskId]) else None;
    var rest := timers - {taskId};
    var timer := Timer(CheckAndSchedule(days, time, now), title, FireOptions(taskId, time, category));
    Scheduled(rest[taskId := timer], NotificationId(taskId, nowMs), cleared)
  }

  /** The key `cancelNotification` looks up: `split("_")[1]`, or the text "undefined"
      that an absent element becomes as a property key. */
  function CancelKey(notificationId: string): string {
    var parts := Split(notificationId, '_');
    if |parts| > 1 then parts[1] else "undefined"
  }

  /** `cancelNotification`: removes the timer under the decoded key, reporting whether
      there was one. */
  function CancelNotification(timers: Timers, notificationId: string): (r: (Timers, bool))
    ensures r.1 <==> CancelKey(notificationId) in timers
    ensures r.0 == timers - {CancelKey(notificationId)}
    ensures !r.1 ==> r.0 == timers
  {
    var key := CancelKey(notificationId);
    if key in timers then (timers - {key}, true) else (timers, false)
  }

  /** The id decodes to the task id exactly when the task id has no underscore. */
  lemma CancelKeyRecoversTaskId(taskId: string, nowMs: nat)
    ensures CancelKey(NotificationId(taskId, nowMs)) == taskId <==> '_' !in taskId
  {
    var ts := NatToString(nowMs);
    var id := NotificationId(taskId, nowMs);
    assert '_' !in "notification" by {
      assert forall k :: 0 <= k < |"notification"| ==> "notification"[k] != '_';
    }
    assert id == "notification" + ['_'] + (taskId + ['_'] + ts);
    SplitAtFirst("notification", '_', taskId + ['_'] + ts);
    var parts := Split(id, '_');
    assert parts[1] == Split(taskId + ['_'] + ts, '_')[0];
    if '_' !in taskId {
      SplitAtFirst(taskId, '_', ts);
    } else {
      var p :| 0 <= p < |taskId| && taskId[p] == '_';
      assert (taskId + ['_'] + ts)[p] == '_';
      SplitHeadBeforeSeparator(taskId + ['_'] + ts, '_', p);
    }
  }

  /** Cancelling with the id `scheduleNotification` returned stops that task's timer and
      leaves the others, for every task id without an underscore. */
  lemma ScheduleThenCancel(timers: Timers, taskId: string, title: string, time: string,
                           days: seq<int>, category: string, now: Clock, nowMs: nat)
    requires ValidClock(now) && '_' !in taskId
    ensures var s := ScheduleNotification(timers, taskId, title, time, days, category, now, nowMs);
      CancelNotification(s.timers, s.id) == (timers - {taskId}, true)
  {
    CancelKeyRecoversTaskId(taskId, nowMs);
    var s := ScheduleNotification(timers, taskId, title, time, days, category, now, nowMs);
    assert s.timers - {taskId} == timers - {taskId};
  }

  /** `hasNotificationPermission`. */
  predicate HasPermission(supported: bool, permission: string) {
    supported && permission == "granted"
  }

  /** `sendNotification`: false without permission or when the constructor throws. */
  function SendNotification(supported: bool, permission: string, constructorThrows: bool): (sent: bool)
    ensures sent ==> HasPermission(supported, permission)
    ensures HasPermission(supported, permission) ==> (sent <==> !constructorThrows)
  {
    if !HasPermission(supported, permission) then false else !constructorThrows
  }
}
