/** The timer card of components/TimerView/TimerSection.tsx: the starting countdown, the
    run/focus flags, the category icon and the delete button. */
module TimerSection {
  import opened Wrappers
  import opened Schema
  import opened Text

  /** `useState(selectedTask?.durationMinutes ? durationMinutes * 60 : 25 * 60)`; the
      initialiser runs once, with the task selected when the card mounts. */
  function InitialRemaining(selected: Option<Task>): (r: int)
    ensures selected.Some? && selected.value.durationMinutes != 0 ==> r == selected.value.durationMinutes * 60
    ensures selected.None? || selected.value.durationMinutes == 0 ==> r == 1500
    ensures r % 60 == 0
  {
    if selected.Some? && selected.value.durationMinutes != 0 then selected.value.durationMinutes * 60
    else 25 * 60
  }

  datatype SectionState = SectionState(isRunning: bool, isFocusMode: bool, remainingTime: int)

  function Mount(selected: Option<Task>): (s: SectionState)
    ensures !s.isRunning && !s.isFocusMode && s.remainingTime == InitialRemaining(selected)
  {
    SectionState(false, false, InitialRemaining(selected))
  }

  /** `handleStart`: enters focus mode and runs only with a selected task. */
  function HandleStart(s: SectionState, selected: Option<Task>): (s': SectionState)
    ensures selected.Some? ==> s' == s.(isRunning := true, isFocusMode := true)
    ensures selected.None? ==> s' == s
  {
    if selected.Some? then s.(isFocusMode := true, isRunning := true) else s
  }

  /** `handlePause`. */
  function HandlePause(s: SectionState): (s': SectionState)
    ensures !s'.isRunning && s'.isFocusMode == s.isFocusMode && s'.remainingTime == s.remainingTime
  {
    s.(isRunning := false)
  }

  /** `handleExitFocus`, the `onExit` of the focus view; the remaining time it is handed
      is dropped. */
  function HandleExitFocus(s: SectionState, reportedRemaining: int): (s': SectionState)
    ensures !s'.isRunning && !s'.isFocusMode && s'.remainingTime == s.remainingTime
  {
    s.(isFocusMode := false, isRunning := false)
  }

  /** Starting and leaving focus returns the card to a stopped state with the same
      countdown: no handler of the card ever changes `remainingTime`. */
  lemma FocusRoundTrip(s: SectionState, t: Task, reportedRemaining: int)
    ensures HandleExitFocus(HandleStart(s, Some(t)), reportedRemaining)
      == s.(isRunning := false, isFocusMode := false)
    ensures HandlePause(HandleStart(s, Some(t))).isFocusMode
    ensures HandleStart(s, None) == s
  {
  }

  /** The icon drawn beside the task. */
  datatype Icon = BookOpen | Code | Dumbbell | BookMarked

  /** `getActivityIcon`: null without a task; otherwise chosen by the lower-cased category. */
  function GetActivityIcon(selected: Option<Task>): (i: Option<Icon>)
    ensures i.None? <==> selected.None?
    ensures selected.Some? && selected.value.category.Some? ==>
      var c := ToLower(selected.value.category.value);
      && (i == Some(BookOpen) <==> c == "reading")
      && (i == Some(Code) <==> c == "coding")
      && (i == Some(Dumbbell) <==> c == "exercise")
    ensures selected.Some? && selected.value.category.None? ==> i == Some(BookMarked)
  {
    if selected.None? then None
    else
      var c := if selected.value.category.Some? then ToLower(selected.value.category.value) else "";
      if c == "reading" then Some(BookOpen)
      else if c == "coding" then Some(Code)
      else if c == "exercise" then Some(Dumbbell)
      else Some(BookMarked)
  }

  /** The form's categories: Reading, Coding and Exercise get their own icons, the other
      three the default. */
  lemma CategoryIcons(t: Task)
    ensures GetActivityIcon(Some(t.(category := Some("Reading")))) == Some(BookOpen)
    ensures GetActivityIcon(Some(t.(category := Some("Coding")))) == Some(Code)
    ensures GetActivityIcon(Some(t.(category := Some("Exercise")))) == Some(Dumbbell)
    ensures GetActivityIcon(Some(t.(category := Some("Deep Work")))) == Some(BookMarked)
  {
    NamedIcon(t, "Reading", "reading");
    NamedIcon(t, "Coding", "coding");
    NamedIcon(t, "Exercise", "exercise");
    DefaultIcon(t);
  }

  /** A category whose lower-case spelling is `lower` gets that spelling's icon. */
  lemma NamedIcon(t: Task, name: string, lower: string)
    requires name == "Reading" || name == "Coding" || name == "Exercise"
    requires lower == (if name == "Reading" then "reading" else if name == "Coding" then "coding" else "exercise")
    ensures GetActivityIcon(Some(t.(category := Some(name))))
      == Some(if name == "Reading" then BookOpen else if name == "Coding" then Code else Dumbbell)
  {
    LowerCase(name, lower);
  }

  lemma DefaultIcon(t: Task)
    ensures GetActivityIcon(Some(t.(category := Some("Deep Work")))) == Some(BookMarked)
  {
    assert ToLower("Deep Work")[0] == 'd';
  }

  /** A capitalised word lower-cases to its lower-case spelling. */
  lemma LowerCase(word: string, lower: string)
    requires |word| == |lower| > 0 && 'A' <= word[0] <= 'Z' && lower[0] as int == word[0] as int + 32
    requires forall k :: 1 <= k < |word| ==> !('A' <= word[k] <= 'Z') && lower[k] == word[k]
    ensures ToLower(word) == lower
  {
  }

  /** `handleDelete`: the id handed to `onDeleteTask`, when both exist. */
  function HandleDelete(selected: Option<Task>, hasCallback: bool): (id: Option<string>)
    ensures id.Some? <==> selected.Some? && hasCallback
    ensures id.Some? ==> id.value == selected.value.id
  {
    if selected.Some? && hasCallback then Some(selected.value.id) else None
  }
}
