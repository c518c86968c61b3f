/** The activity list of components/TimerView/ActivitiesList.tsx: the "all" / "scheduled"
    filter and the message shown when the filtered list is empty. */
module ActivitiesList {
  import opened Schema
  import Ordering

  datatype ListFilter = All | Scheduled

  /** `task.isRecurring || task.scheduledTime`: a stored `TIME` text is never empty, so a
      present time is truthy. */
  predicate IsScheduled(t: Task) {
    t.isRecurring || t.scheduledTime.Some?
  }

  /** `filteredTasks`. */
  function FilteredTasks(tasks: seq<Task>, filter: ListFilter): (r: seq<Task>)
    ensures filter == All ==> r == tasks
    ensures filter == Scheduled ==> Ordering.IsSubsequence(r, tasks)
    ensures filter == Scheduled ==> forall t :: t in r <==> t in tasks && IsScheduled(t)
  {
    if filter == Scheduled then
      var r := Ordering.Filter(tasks, IsScheduled);
      assert forall t :: t in tasks && IsScheduled(t) ==> t in r by {
        forall t | t in tasks && IsScheduled(t)
          ensures t in r
        {
          var i :| 0 <= i < |tasks| && tasks[i] == t;
        }
      }
      r
    else tasks
  }

  /** The text of the empty state. */
  function EmptyMessage(filter: ListFilter): (m: string)
    ensures filter == Scheduled <==> m == "No scheduled activities found."
  {
    if filter == Scheduled then "No scheduled activities found."
    else "No activities yet. Add one to start building your galaxy!"
  }

  /** What the list area shows: the filtered rows, or the empty-state text. */
  datatype ListView = Rows(tasks: seq<Task>) | Empty(message: string)

  function Render(tasks: seq<Task>, filter: ListFilter): (v: ListView)
    ensures v.Empty? <==> |FilteredTasks(tasks, filter)| == 0
    ensures v.Empty? ==> v.message == EmptyMessage(filter)
    ensures v.Rows? ==> v.tasks == FilteredTasks(tasks, filter)
  {
    var shown := FilteredTasks(tasks, filter);
    if |shown| > 0 then Rows(shown) else Empty(EmptyMessage(filter))
  }

  /** The scheduled view is empty exactly when no task is scheduled, the full view exactly
      when there are no tasks; choosing "scheduled" twice changes nothing. */
  lemma ScheduledViewFacts(tasks: seq<Task>)
    ensures |FilteredTasks(tasks, Scheduled)| == 0 <==> forall i :: 0 <= i < |tasks| ==> !IsScheduled(tasks[i])
    ensures |FilteredTasks(tasks, All)| == 0 <==> |tasks| == 0
    ensures FilteredTasks(FilteredTasks(tasks, Scheduled), Scheduled) == FilteredTasks(tasks, Scheduled)
  {
    var r := FilteredTasks(tasks, Scheduled);
    if |r| == 0 {
      forall i | 0 <= i < |tasks|
        ensures !IsScheduled(tasks[i])
      {
        assert tasks[i] in tasks;
      }
    } else {
      assert r[0] in r;
    }
  }
}
