/** The screen state of components/TimerView/TimerView.tsx: the task list loaded on
    mount, the selected task, and the list update after a delete. The server actions
    it calls are those of lib/actions/task.ts. */
module TimerView {
  import opened Wrappers
  import opened Schema
  import Ordering
  import TaskModel
  import TaskActions
  import TimerSection

  datatype ViewState = ViewState(
    tasks: seq<Task>,
    selected: Option<Task>,
    isLoading: bool,
    error: Option<string>)

  /** The answer of `getTasksAction` as the screen reads it; `LoadThrew` is a rejected call. */
  datatype LoadReply = LoadOk(tasks: Option<seq<Task>>) | LoadFailed(error: Option<string>) | LoadThrew

  /** The load effect on mount. */
  function LoadTasks(s: ViewState, reply: LoadReply): (s': ViewState)
    ensures !s'.isLoading && s'.selected == s.selected
    ensures reply.LoadOk? ==>
      s'.error.None? && s'.tasks == (if reply.tasks.Some? then reply.tasks.value else [])
    ensures reply.LoadFailed? ==>
      s'.tasks == s.tasks && s'.error == Some(if Truthy(reply.error) then reply.error.value else "Failed to load tasks")
    ensures reply.LoadThrew? ==> s'.tasks == s.tasks && s'.error == Some("An unexpected error occurred")
  {
    match reply
    case LoadOk(ts) => s.(tasks := if ts.Some? then ts.value else [], isLoading := false, error := None)
    case LoadFailed(e) =>
      s.(isLoading := false, error := Some(if Truthy(e) then e.value else "Failed to load tasks"))
    case LoadThrew => s.(isLoading := false, error := Some("An unexpected error occurred"))
  }

  function FromGetTasks(r: TaskActions.Reply<seq<Task>>): LoadReply {
    match r
    case Succeeded(ts) => LoadOk(Some(ts))
    case Refused(e) => LoadFailed(Some(e))
  }

  /** Wired to `getTasksAction`, the screen lists exactly the signed-in user's stored tasks,
      newest first, or shows the action's error code. */
  lemma LoadShowsStoredTasks(s: ViewState, session: Result<Option<SessionUser>>, table: TaskModel.Table,
                             storeThrows: bool)
    ensures var s' := LoadTasks(s, FromGetTasks(TaskActions.GetTasksAction(session, table, storeThrows)));
      && (TaskActions.SignedIn(session) && !storeThrows ==>
            s'.error.None? && s'.tasks == TaskModel.GetTasksByUserId(table, session.value.value.id))
      && (!(TaskActions.SignedIn(session) && !storeThrows) ==>
            s'.error == TaskActions.Guard(session, storeThrows) && s'.tasks == s.tasks)
  {
  }

  /** The answer of `deleteTaskAction`: any `success: true`, whether or not a row went. */
  datatype DeleteReply = DeleteOk | DeleteFailed | DeleteThrew

  function FromDeleteTask(r: TaskActions.Reply<bool>): DeleteReply {
    if r.Succeeded? then DeleteOk else DeleteFailed
  }

  /** `handleTaskDelete`: the selection is dropped before the call whatever its outcome;
      only a successful call removes tasks from the list. */
  function HandleTaskDelete(s: ViewState, taskId: string, reply: DeleteReply): (s': ViewState)
    ensures s'.selected == (if s.selected.Some? && s.selected.value.id == taskId then None else s.selected)
    ensures s'.isLoading == s.isLoading && s'.error == s.error
    ensures reply == DeleteOk ==> forall i :: 0 <= i < |s'.tasks| ==> s'.tasks[i].id != taskId
    ensures reply == DeleteOk ==> Ordering.IsSubsequence(s'.tasks, s.tasks)
    ensures reply == DeleteOk ==>
      forall i :: 0 <= i < |s.tasks| && s.tasks[i].id != taskId ==> s.tasks[i] in s'.tasks
    ensures reply != DeleteOk ==> s'.tasks == s.tasks
  {
    var selected := if s.selected.Some? && s.selected.value.id == taskId then None else s.selected;
    var tasks := if reply == DeleteOk then Ordering.Filter(s.tasks, (t: Task) => t.id != taskId) else s.tasks;
    s.(tasks := tasks, selected := selected)
  }

  /** Every listed task is the read-back of a stored row with its id. */
  predicate ListedFrom(tasks: seq<Task>, table: TaskModel.Table) {
    forall i :: 0 <= i < |tasks| ==> tasks[i] in TaskModel.NormalizeAll(table)
  }

  /** Wired to `deleteTaskAction`, a delete keeps the list in step with the store: what
      is listed is still stored, and the deleted id is gone from both. */
  lemma DeleteKeepsListInStep(s: ViewState, table: TaskModel.Table, session: Result<Option<SessionUser>>,
                              taskId: string, storeThrows: bool)
    requires ListedFrom(s.tasks, table)
    ensures var r := TaskActions.DeleteTaskAction(session, table, taskId, storeThrows);
      ListedFrom(HandleTaskDelete(s, taskId, FromDeleteTask(r.0)).tasks, r.1)
  {
    var r := TaskActions.DeleteTaskAction(session, table, taskId, storeThrows);
    if r.0.Succeeded? {
      assert r.1 == TaskModel.DeleteTask(table, taskId).1;
      RemovalKeepsListed(s.tasks, table, taskId);
    }
  }

  /** Removing an id from both the list and the table keeps every listed task stored. */
  lemma RemovalKeepsListed(tasks: seq<Task>, table: TaskModel.Table, taskId: string)
    requires ListedFrom(tasks, table)
    ensures ListedFrom(Ordering.Filter(tasks, (t: Task) => t.id != taskId), TaskModel.DeleteTask(table, taskId).1)
  {
    var kept := Ordering.Filter(tasks, (t: Task) => t.id != taskId);
    var table' := TaskModel.DeleteTask(table, taskId).1;
    forall i | 0 <= i < |kept|
      ensures kept[i] in TaskModel.NormalizeAll(table')
    {
      StillStored(tasks, table, taskId, kept[i]);
    }
  }

  lemma StillStored(tasks: seq<Task>, table: TaskModel.Table, taskId: string, t: Task)
    requires ListedFrom(tasks, table)
    requires t in tasks && t.id != taskId
    ensures t in TaskModel.NormalizeAll(TaskModel.DeleteTask(table, taskId).1)
  {
    var all := TaskModel.NormalizeAll(table);
    var table' := TaskModel.DeleteTask(table, taskId).1;
    var k :| 0 <= k < |tasks| && tasks[k] == t;
    assert t in all;
    var j :| 0 <= j < |all| && all[j] == t;
    assert table[j].id == t.id;
    assert table[j] in table';
    var j' :| 0 <= j' < |table'| && table'[j'] == table[j];
    assert TaskModel.NormalizeAll(table')[j'] == t;
  }

  /** The screen renders `<TimerSection selectedTask={selectedTask} />` without an
      `onDeleteTask`, so the timer's trash button, enabled whenever a task is selected,
      never reaches `handleTaskDelete`. */
  lemma TimerTrashIgnored(s: ViewState)
    requires s.selected.Some?
    ensures TimerSection.HandleDelete(s.selected, false).None?
  {
  }

  /** The screen with `handleTaskDelete` passed on as `onDeleteTask`: the trash button
      deletes the selected task and clears the selection. */
  function TrashClick(s: ViewState, reply: DeleteReply): (s': ViewState)
    ensures s'.selected.None? || s'.selected == s.selected
    ensures s.selected.Some? ==> s'.selected.None?
    ensures s.selected.Some? && reply == DeleteOk ==>
      forall i :: 0 <= i < |s'.tasks| ==> s'.tasks[i].id != s.selected.value.id
    ensures s.selected.None? ==> s' == s
  {
    match TimerSection.HandleDelete(s.selected, true)
    case Some(id) => HandleTaskDelete(s, id, reply)
    case None => s
  }
}
