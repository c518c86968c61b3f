/** The server actions of lib/actions/task.ts: the session-guarded wrappers around the
    task store, the notification poll `checkScheduledTasks` with its message text,
    and the `completeTask` action. The session, the candidate source, the push
    transport and `Math.random` are parameters; a thrown exception is a `Failure`. */
module TaskActions {
  import opened Wrappers
  import opened Schema
  import TaskModel
  import Ordering

  /** The `{ success, ... }` object an action answers with. */
  datatype Reply<T> = Succeeded(value: T) | Refused(error: string)

  const AUTH_REQUIRED: string := "authentication_required"
  const SERVER_ERROR: string := "server_error"

  /** What a guarded action can do once it has a signed-in user and a working store. */
  predicate SignedIn(session: Result<Option<SessionUser>>) {
    session.Success? && session.value.Some?
  }

  /** The outcome shared by all four store actions: a failed session lookup or store call
      is a server error, a missing session asks for authentication. */
  function Guard(session: Result<Option<SessionUser>>, storeThrows: bool): (e: Option<string>)
    ensures e.None? <==> SignedIn(session) && !storeThrows
    ensures session == Success(None) ==> e == Some(AUTH_REQUIRED)
    ensures session.Failure? || (SignedIn(session) && storeThrows) ==> e == Some(SERVER_ERROR)
  {
    match session
    case Failure(_) => Some(SERVER_ERROR)
    case Success(None) => Some(AUTH_REQUIRED)
    case Success(Some(_)) => if storeThrows then Some(SERVER_ERROR) else None
  }

  /** `getTasksAction`: the signed-in user's tasks. */
  function GetTasksAction(session: Result<Option<SessionUser>>, table: TaskModel.Table, storeThrows: bool)
    : (r: Reply<seq<Task>>)
    ensures r.Succeeded? <==> SignedIn(session) && !storeThrows
    ensures r.Succeeded? ==> r.value == TaskModel.GetTasksByUserId(table, session.value.value.id)
    ensures r.Succeeded? ==> forall i :: 0 <= i < |r.value| ==> r.value[i].userId == session.value.value.id
    ensures r.Refused? ==> r.error == Guard(session, storeThrows).value
  {
    match Guard(session, storeThrows)
    case Some(e) => Refused(e)
    case None => Succeeded(TaskModel.GetTasksByUserId(table, session.value.value.id))
  }

  /** `createTaskAction`: inserts for the signed-in user; a refusal leaves the table as it was. */
  function CreateTaskAction(session: Result<Option<SessionUser>>, table: TaskModel.Table,
                            input: TaskModel.TaskInput, freshId: string, nowMs: nat, storeThrows: bool)
    : (r: (Reply<Task>, TaskModel.Table))
    ensures r.0.Succeeded? <==> SignedIn(session) && !storeThrows
    ensures r.0.Refused? ==> r.1 == table && r.0.error == Guard(session, storeThrows).value
    ensures r.0.Succeeded? ==>
      r.0.value.userId == session.value.value.id && |r.1| == |table| + 1 && r.1[..|table|] == table
    ensures r.0.Succeeded? ==>
      (r.1, r.0.value) == TaskModel.CreateTask(table, session.value.value.id, input, freshId, nowMs)
    ensures r.0.Succeeded? ==>
      r.0.value.title == input.title && !r.0.value.completed
      && r.0.value.durationMinutes == if input.durationMinutes == 0 then 25 else input.durationMinutes
  {
    match Guard(session, storeThrows)
    case Some(e) => (Refused(e), table)
    case None =>
      var (table', task) := TaskModel.CreateTask(table, session.value.value.id, input, freshId, nowMs);
      (Succeeded(task), table')
  }

  /** `updateTaskAction`: updates by id alone; the signed-in user is not compared with the
      task's owner. */
  function UpdateTaskAction(session: Result<Option<SessionUser>>, table: TaskModel.Table, id: string,
                            d: TaskModel.TaskUpdateInput, todayUtc: int, nowMs: nat, storeThrows: bool)
    : (r: (Reply<bool>, TaskModel.Table))
    ensures r.0.Succeeded? <==> SignedIn(session) && !storeThrows
    ensures r.0.Refused? ==> r.1 == table && r.0.error == Guard(session, storeThrows).value
    ensures r.0.Succeeded? ==>
      var u := TaskModel.UpdateTask(table, id, d, todayUtc, nowMs);
      r.0.value == u.updated && r.1 == u.table
  {
    match Guard(session, storeThrows)
    case Some(e) => (Refused(e), table)
    case None =>
      var u := TaskModel.UpdateTask(table, id, d, todayUtc, nowMs);
      (Succeeded(u.updated), u.table)
  }

  /** `deleteTaskAction`: deletes by id alone, whoever owns the task. */
  function DeleteTaskAction(session: Result<Option<SessionUser>>, table: TaskModel.Table, id: string,
                            storeThrows: bool)
    : (r: (Reply<bool>, TaskModel.Table))
    ensures r.0.Succeeded? <==> SignedIn(session) && !storeThrows
    ensures r.0.Refused? ==> r.1 == table && r.0.error == Guard(session, storeThrows).value
    ensures r.0.Succeeded? ==> forall i :: 0 <= i < |r.1| ==> r.1[i].id != id
    ensures r.0.Succeeded? ==> (r.0.value <==> exists i :: 0 <= i < |table| && table[i].id == id)
    ensures r.0.Succeeded? ==> (r.0.value, r.1) == TaskModel.DeleteTask(table, id)
    ensures r.0.Succeeded? ==> forall i :: 0 <= i < |table| && table[i].id != id ==> table[i] in r.1
    ensures r.0.Succeeded? ==> Ordering.IsSubsequence(r.1, table)
  {
    match Guard(session, storeThrows)
    case Some(e) => (Refused(e), table)
    case None =>
      var (deleted, table') := TaskModel.DeleteTask(table, id);
      (Succeeded(deleted), table')
  }

  /** Updating and deleting depend on the session only through "is anyone signed in":
      any signed-in user changes any user's task. */
  lemma MutationsIgnoreOwner(a: SessionUser, b: SessionUser, table: TaskModel.Table, id: string,
                             d: TaskModel.TaskUpdateInput, todayUtc: int, nowMs: nat)
    ensures UpdateTaskAction(Success(Some(a)), table, id, d, todayUtc, nowMs, false)
         == UpdateTaskAction(Success(Some(b)), table, id, d, todayUtc, nowMs, false)
    ensures DeleteTaskAction(Success(Some(a)), table, id, false)
         == DeleteTaskAction(Success(Some(b)), table, id, false)
  {
  }

  // ---------------------------------------------------------------------------
  // The notification poll

  const EMOJI_WORK: string := "\U{1F4BC}"
  const EMOJI_STUDY: string := "\U{1F4DA}"
  const EMOJI_FITNESS: string := "\U{1F4AA}"
  const EMOJI_FAMILY: string := "\U{1F468}\U{200D}\U{1F469}\U{200D}\U{1F467}"
  const EMOJI_DEFAULT: string := "\U{2705}"

  /** `getTaskEmoji`: the emoji of the four known keys, the check mark for every other key. */
  function GetTaskEmoji(category: string): (e: string)
    ensures e == EMOJI_WORK <==> category == "work"
    ensures e == EMOJI_STUDY <==> category == "study"
    ensures e == EMOJI_FITNESS <==> category == "fitness"
    ensures e == EMOJI_FAMILY <==> category == "family"
    ensures e == EMOJI_DEFAULT <==> category !in {"work", "study", "fitness", "family"}
  {
    if category == "work" then EMOJI_WORK
    else if category == "study" then EMOJI_STUDY
    else if category == "fitness" then EMOJI_FITNESS
    else if category == "family" then EMOJI_FAMILY
    else EMOJI_DEFAULT
  }

  /** The emoji a task gets: a missing or empty category is looked up as `'default'`. */
  function TaskEmoji(t: Task): string {
    GetTaskEmoji(if Truthy(t.category) then t.category.value else "default")
  }

  /** The category names the form offers are capitalised English words, none of them a key
      of the emoji table, so every task created through the form is announced with the
      check mark. */
  lemma FormCategoriesGetCheckMark(t: Task)
    requires t.category.None? || exists c :: c in TASK_CATEGORIES && t.category == Some(c.name)
    ensures TaskEmoji(t) == EMOJI_DEFAULT
  {
  }

  const MOTIVATION_PHRASES: seq<string> := [
    "\U{00A1}T\U{00FA} puedes lograrlo!",
    "\U{00A1}A por ello!",
    "Un paso m\U{00E1}s hacia tus metas",
    "Enf\U{00F3}cate y triunfa",
    "El momento es ahora"
  ]

  /** `getRandomMotivation`: always one of the five phrases. */
  function GetRandomMotivation(roll: real): (p: string)
    requires 0.0 <= roll < 1.0
    ensures p in MOTIVATION_PHRASES
  {
    MOTIVATION_PHRASES[Ordering.RandomIndex(roll, |MOTIVATION_PHRASES|)]
  }

  /** The text announcing a task, ending in the drawn phrase. */
  function Message(t: Task, phrase: string): string {
    TaskEmoji(t) + " \U{00A1}Es hora de tu tarea: " + t.title + "! " + phrase
  }

  /** One call of `sendTaskNotification(taskId, userId, message)`. */
  datatype Dispatch = Dispatch(taskId: string, userId: string, message: string)

  /** The call made for a task when `roll` is the value drawn for its phrase. */
  function DispatchFor(t: Task, roll: real): Dispatch
    requires 0.0 <= roll < 1.0
  {
    Dispatch(t.id, t.userId, Message(t, GetRandomMotivation(roll)))
  }

  /** The calls for a list of tasks, the `i`-th with the `i`-th drawn value. */
  function Dispatches(tasks: seq<Task>, rolls: nat -> real): (ds: seq<Dispatch>)
    requires forall i :: 0.0 <= rolls(i) < 1.0
    ensures |ds| == |tasks|
    ensures forall i :: 0 <= i < |tasks| ==> ds[i] == DispatchFor(tasks[i], rolls(i))
  {
    seq(|tasks|, i requires 0 <= i < |tasks| => DispatchFor(tasks[i], rolls(i)))
  }

  /** The object `checkScheduledTasks` returns; `timestamp` is the start time of the poll. */
  datatype PollSummary = PollSummary(processed: nat, notified: nat, failed: nat, timestamp: int)

  /** What the awaited `sendTaskNotification(...)` answers: `Success(b)` when it resolves,
      `b` being the truthiness of its `success` field, and `Failure` when it rejects. */
  type Outcomes = (nat, Dispatch) -> Result<bool>

  /** How many of the calls resolved with a truthy `success`; `outcomes(i, d)` is the
      answer to the `i`-th call. */
  function Delivered(sent: seq<Dispatch>, outcomes: Outcomes): (n: nat)
    ensures n <= |sent|
  {
    if |sent| == 0 then 0
    else Delivered(sent[..|sent| - 1], outcomes)
         + (if outcomes(|sent| - 1, sent[|sent| - 1]) == Success(true) then 1 else 0)
  }

  /** One more call adds one to the count exactly when it resolves with success. */
  lemma DeliveredAppend(sent: seq<Dispatch>, d: Dispatch, outcomes: Outcomes)
    ensures Delivered(sent + [d], outcomes)
            == Delivered(sent, outcomes) + (if outcomes(|sent|, d) == Success(true) then 1 else 0)
  {
    assert (sent + [d])[..|sent|] == sent;
  }

  /** Every one of the calls resolved. */
  predicate AllResolve(calls: seq<Dispatch>, outcomes: Outcomes) {
    forall i :: 0 <= i < |calls| ==> outcomes(i, calls[i]).Success?
  }

  /** `checkScheduledTasks`: one dispatch per candidate, in order, counting successes and
      failures. A failure of the candidate source is rethrown before anything is sent; a
      send that rejects leaves the loop at once, after the calls already made, and its
      error is rethrown. `rolls(i)` is the `Math.random()` value drawn for the `i`-th
      message. */
  method CheckScheduledTasks(candidates: Result<seq<Task>>, outcomes: Outcomes,
                             rolls: nat -> real, nowMs: int)
    returns (r: Result<PollSummary>, sent: seq<Dispatch>)
    requires forall i :: 0.0 <= rolls(i) < 1.0
    ensures candidates.Failure? ==> r == Failure(candidates.error) && sent == []
    ensures candidates.Success? ==>
      var ds := Dispatches(candidates.value, rolls);
      |sent| <= |ds| && sent == ds[..|sent|]
      && (r.Success? <==> AllResolve(ds, outcomes))
    ensures candidates.Success? && r.Failure? ==>
      0 < |sent| && outcomes(|sent| - 1, sent[|sent| - 1]) == Failure(r.error)
      && AllResolve(sent[..|sent| - 1], outcomes)
    ensures r.Success? ==> |sent| == |candidates.value|
    ensures r.Success? ==> r.value.processed == |sent| && r.value.timestamp == nowMs
    ensures r.Success? ==> r.value.notified == Delivered(sent, outcomes)
    ensures r.Success? ==> r.value.notified + r.value.failed == r.value.processed
  {
    if candidates.Failure? {
      return Failure(candidates.error), [];
    }
    var tasks := candidates.value;
    var ds := Dispatches(tasks, rolls);
    var counts, made := Tally(ds, outcomes);
    sent := ds[..made];
    if counts.Failure? {
      assert sent[made - 1] == ds[made - 1] && sent[..made - 1] == ds[..made - 1];
      return Failure(counts.error), sent;
    }
    assert sent == ds;
    r := Success(PollSummary(|tasks|, counts.value.0, counts.value.1, nowMs));
  }

  /** The loop of `checkScheduledTasks`: the calls are awaited in order, each adding to
      `notified` or to `failed`, until one rejects; `made` is how many calls were made. */
  method Tally(calls: seq<Dispatch>, outcomes: Outcomes) returns (counts: Result<(nat, nat)>, made: nat)
    ensures made <= |calls|
    ensures counts.Success? <==> AllResolve(calls, outcomes)
    ensures counts.Success? ==> made == |calls|
    ensures counts.Success? ==> counts.value.0 == Delivered(calls, outcomes)
    ensures counts.Success? ==> counts.value.0 + counts.value.1 == |calls|
    ensures counts.Failure? ==>
      0 < made && outcomes(made - 1, calls[made - 1]) == Failure(counts.error)
      && AllResolve(calls[..made - 1], outcomes)
  {
    var notified, failed := 0, 0;
    for i := 0 to |calls|
      invariant notified == Delivered(calls[..i], outcomes)
      invariant notified + failed == i
      invariant AllResolve(calls[..i], outcomes)
    {
      assert calls[..i + 1] == calls[..i] + [calls[i]];
      DeliveredAppend(calls[..i], calls[i], outcomes);
      match outcomes(i, calls[i])
      case Failure(e) =>
        return Failure(e), i + 1;
      case Success(true) =>
        notified := notified + 1;
      case Success(false) =>
        failed := failed + 1;
    }
    assert calls[..|calls|] == calls;
    counts, made := Success((notified, failed)), |calls|;
  }

  /** When every call resolves with success, every candidate counts as notified. */
  lemma {:induction false} AllDeliveredWhenTransportSucceeds(sent: seq<Dispatch>, outcomes: Outcomes)
    requires forall i :: 0 <= i < |sent| ==> outcomes(i, sent[i]) == Success(true)
    ensures Delivered(sent, outcomes) == |sent|
  {
    if |sent| > 0 {
      AllDeliveredWhenTransportSucceeds(sent[..|sent| - 1], outcomes);
    }
  }

  // ---------------------------------------------------------------------------
  // The `completeTask` action

  datatype Completion = Completed | NotCompleted(error: string)

  /** `completeTask(taskId)`: `lookup` is the answer of the owner-checked lookup and `mark`
      the answer of the update, each `Failure` when that call throws. */
  function CompleteTaskAction(session: Result<Option<SessionUser>>, lookup: Result<Option<Task>>,
                              mark: Result<bool>): (r: Completion)
    ensures r.Completed? <==>
      SignedIn(session) && session.value.value.id != ""
      && lookup.Success? && lookup.value.Some? && mark == Success(true)
    ensures session.Success? && (session.value.None? || session.value.value.id == "")
      ==> r == NotCompleted("No autorizado")
    ensures SignedIn(session) && session.value.value.id != "" && lookup == Success(None)
      ==> r == NotCompleted("Tarea no encontrada")
    ensures SignedIn(session) && session.value.value.id != "" && lookup.Success?
            && lookup.value.Some? && mark == Success(false)
            ==> r == NotCompleted("Error al actualizar la tarea")
    ensures session.Failure? ==> r == NotCompleted("Error al completar la tarea")
    ensures SignedIn(session) && session.value.value.id != ""
            && (lookup.Failure? || (lookup.Success? && lookup.value.Some? && mark.Failure?))
            ==> r == NotCompleted("Error al completar la tarea")
  {
    match session
    case Failure(_) => NotCompleted("Error al completar la tarea")
    case Success(user) =>
      if user.None? || user.value.id == "" then NotCompleted("No autorizado")
      else match lookup
        case Failure(_) => NotCompleted("Error al completar la tarea")
        case Success(None) => NotCompleted("Tarea no encontrada")
        case Success(Some(_)) =>
          match mark
          case Failure(_) => NotCompleted("Error al completar la tarea")
          case Success(false) => NotCompleted("Error al actualizar la tarea")
          case Success(true) => Completed
  }
}
