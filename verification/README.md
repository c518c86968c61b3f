# space-focus in Dafny

A model of the logic under the user interface of space-focus, a focus-timer web
application (Next.js, TypeScript, MySQL). Users keep a list of activities ("tasks"),
some of them recurring at a time of day on chosen weekdays, run a countdown on one,
build a daily streak by completing them, and receive push notifications when a
scheduled activity is due.

The model is functional. Database tables are sequences of rows, and every query is a
function from the table before to the rows returned and the table after. React state
updates are functions from the state before to the state after. Clocks, `Math.random`,
uuids, the session, the push transport and every library the code calls (bcrypt,
jsonwebtoken, web-push, `atob`) are parameters. A thrown exception is a `Failure` or a
flag. Dates are integer day numbers and times of day are `(hour, minute, second)`
triples.

One module per source file:

| module | file(s) | what it holds |
|---|---|---|
| `Wrappers`, `Ordering`, `Text` | — | `Option`/`Result`, filtering and sorting of rows, decimal text |
| `Schema` | types.ts, lib/const.ts | the shared records and the category table |
| `TaskModel` | lib/models/task.ts | the `tasks` table and its queries |
| `TaskActions` | lib/actions/task.ts | guarded task actions, the notification poll, `completeTask` |
| `StreakModel` | lib/models/streak.ts | the streak state machine |
| `StreakActions` | lib/actions/streak.ts | streak actions and `daysUntilLost` |
| `StreakCalendar` | components/StreakCalendar.tsx | the month grid and the streak span |
| `ActivityForm` | components/TimerView/ActivityForm.tsx | day toggles, 12/24-hour text, submit |
| `Activity` | components/TimerView/Activity.tsx | time and day labels, category lookup, selection |
| `ActivitiesList` | components/TimerView/ActivitiesList.tsx | the "scheduled" filter |
| `TimerView` | components/TimerView/TimerView.tsx | loading and deleting tasks |
| `FocusView` | components/TimerView/FocusView.tsx | the countdown |
| `TimerSection` | components/TimerView/TimerSection.tsx | focus-mode flags and icons |
| `NotificationManager` | lib/notification-manager.ts | the client-side schedule decision and timer map |
| `SubscriptionModel` | lib/models/subscription.ts | the `subscriptions` table |
| `SubscriptionActions` | lib/actions/subscriptions.ts | subscribe, unsubscribe, alarm dispatch |
| `UserModel` | lib/models/user.ts | the `users` table |
| `LoginActions` | lib/auth/login.ts | `login` and `signup` |
| `LoginUser` | lib/actions/loginUser.ts | `loginUser` and its cookie |
| `AuthActions` | lib/actions/auth.ts, lib/getUser.ts | `checkAuthStatus`, `getAuthenticatedUser` |
| `Middleware` | middleware.ts | the route guard |
| `NotificationPermission` | components/NotificationPermission.tsx | VAPID key pre-processing, dialog rule |
| `ToastHook` | lib/hooks/useToast.tsx | the toast queue of the hook |
| `ToastContext` | context/useToast.tsx | the toast queue of the provider |

## Model

| member | source | states |
|---|---|---|
| TaskModel.WholeSeconds | lib/models/task.ts:52-53 | a timestamp written to a `DATETIME` column is the call time cut to a whole second: at most the time, less than a second below it |
| TaskModel.NormalizeRoundTrip | lib/models/task.ts:14-22 | reading a stored task back gives the same task, and a row with 0/1 boolean columns survives a read followed by a write |
| TaskModel.GetTasksByUserId | lib/models/task.ts:8-23 | exactly the user's rows (as many as the table holds, each one included), newest `createdAt` first |
| TaskModel.GetTaskById | lib/models/task.ts:28-42 | null exactly when no row has the id; otherwise a stored row with that id |
| TaskModel.CreateTask | lib/models/task.ts:47-92 | appends one row; the task is not completed, has no completion date, a falsy category becomes null, a zero duration becomes 25, recurrence defaults to false; on a server whose zone is UTC the stored row reads back as the returned task up to the dropped milliseconds |
| TaskModel.BuildAssignments | lib/models/task.ts:101-156 | the SET list holds exactly the clauses of the defined fields in the order they are tested, `updatedAt` last; it has one clause exactly when no recognised field is defined |
| TaskModel.AssignmentsPerField | lib/models/task.ts:105-149 | each of title, category, completed, duration, recurrence, time, days, last completion has its clause iff the field is defined; `completed: true` also adds the completion date |
| TaskModel.ApplyAll | lib/models/task.ts:165-168 | an update never changes `id`, `userId`, `createdAt` or `lastNotified`, and keeps the boolean columns 0/1 |
| TaskModel.UpdateTask | lib/models/task.ts:97-171 | with no recognised field: false and no statement; otherwise true iff a row has the id, the rows with the id get the clauses and no other row changes |
| TaskModel.CompletedFlagEffects | lib/models/task.ts:115-124 | `completed: true` sets the flag and today's UTC date; `completed: false` sets only the flag (and `updatedAt`) |
| TaskModel.DeleteTask | lib/models/task.ts:176-179 | true iff a row had the id; no row with the id remains, all others remain in order |
| TaskModel.CompleteTask | lib/models/task.ts:184-189 | true iff a row has the id; that row is marked completed with the caller's date (the later of the two `lastCompleted` clauses), other rows unchanged |
| TaskModel.CompletionEffect | lib/models/task.ts:184-189 | applying the completion statement to any row sets `completed` to 1, `lastCompleted` to the caller's date (the automatic stamp is overwritten) and `updatedAt` to the current second, and nothing else |
| TaskModel.ResetRecurringTasks | lib/models/task.ts:195-204 | clears `completed` exactly on recurring rows never completed or completed before today, leaves other rows as they were, and counts the rows it matched |
| TaskModel.ResetIdempotent | lib/models/task.ts:195-204 | a second reset on the same day changes nothing, and afterwards no row that still matches is marked completed |
| TaskModel.GetScheduledTasksForNow | lib/models/task.ts:209-230 | only recurring rows due at exactly this second on this day, and every such row: each answer is the read-back of a matching row, and there are as many answers as matching rows |
| TaskModel.NotificationWindow | lib/models/task.ts:238-247 | the window stays in the hour of `now`, starts at `:00` of a minute that is a multiple of 5 and at most `now`'s minute, and ends at `:59` four minutes later |
| TaskModel.WindowIsBucket | lib/models/task.ts:243-254 | a valid time is in the window iff it has the hour of `now` and its minute is in the same five-minute bucket |
| TaskModel.GetTasksForNotification | lib/models/task.ts:236-266 | exactly the recurring rows of existing users whose time is in the window and whose days contain the day |
| TaskModel.ExactMatchIsInWindow | lib/models/task.ts:214-256 | a task `getScheduledTasksForNow` returns is also returned by `getTasksForNotification` at the same moment |
| TaskActions.Guard | lib/actions/task.ts:14-34 | no session gives "authentication_required", a failed session lookup or store call gives "server_error", and only a signed-in user with a working store gets through |
| TaskActions.GetTasksAction | lib/actions/task.ts:12-35 | success exactly for a signed-in user, answering that user's tasks and nobody else's |
| TaskActions.CreateTaskAction | lib/actions/task.ts:38-66 | success exactly for a signed-in user; then the answer and the table are those the model's `createTask` gives for that user and input (the title kept, not completed, 25 minutes when no duration is given, one row appended); a refusal leaves the table unchanged |
| TaskActions.UpdateTaskAction | lib/actions/task.ts:69-97 | success exactly for a signed-in user, answering what the store update answers; a refusal leaves the table unchanged |
| TaskActions.DeleteTaskAction | lib/actions/task.ts:100-126 | success exactly for a signed-in user; then the answer and the table are those of the model's `deleteTask`: no task has the id, every task with another id remains in its order, and the answer says whether one had the id |
| TaskActions.MutationsIgnoreOwner | lib/actions/task.ts:69-126 | update and delete give the same answer for any two signed-in users: the owner is never compared |
| TaskActions.GetTaskEmoji | lib/actions/task.ts:173-183 | each of "work", "study", "fitness", "family" has its own emoji; every other key gets the check mark |
| TaskActions.FormCategoriesGetCheckMark | lib/actions/task.ts:142 | a task whose category is one the form offers, or none, is announced with the check mark |
| TaskActions.GetRandomMotivation | lib/actions/task.ts:185-194 | the phrase is always one of the five |
| TaskActions.CheckScheduledTasks | lib/actions/task.ts:128-170 | a failure of the candidate source is rethrown with nothing sent; otherwise the dispatches go out in candidate order, each with the task's id, user and message; a send that rejects ends the poll after it with that error rethrown, and when every send resolves `processed` is the candidate count, `notified` the successes and `notified + failed == processed` |
| TaskActions.Tally | lib/actions/task.ts:137-158 | the sends are awaited in order; it fails exactly when one rejects, stopping right after the first that does; otherwise `notified` is the number of sends answering success and `notified + failed` the number of sends made |
| TaskActions.AllDeliveredWhenTransportSucceeds | lib/actions/task.ts:153-157 | when every send resolves with success, every candidate counts as notified |
| TaskActions.CompleteTaskAction | lib/actions/task.ts:199-227 | completed iff a user with an id is signed in, the owner-checked lookup finds the task and the update answers true; no user answers "No autorizado", a missing task "Tarea no encontrada", a false update "Error al actualizar la tarea", and a rejected session, lookup or update "Error al completar la tarea" |
| StreakModel.GetStreakByUserId | lib/models/streak.ts:11-20 | null exactly when the user has no row; otherwise one of the user's rows |
| StreakModel.CreateStreak | lib/models/streak.ts:25-36 | appends a row with both counters 0, no activity and today's UTC date as start, and returns what a re-read of the user finds (that row, when the user had none) |
| StreakModel.GetOrCreateStreak | lib/models/streak.ts:41-46 | an existing streak is returned with the table unchanged; otherwise a fresh one is created and returned |
| StreakModel.Classify | lib/models/streak.ts:60-127 | the five cases (first activity, same day, consecutive, broken, non-positive gap) are decided by the last activity date, today, and whether the server's zone lies west of UTC, which makes `diffDays` one less than the gap |
| StreakModel.WestOfUtcShiftsGap | lib/models/streak.ts:81-115 | west of UTC the day after the last activity falls into the non-positive case, a skipped day counts as consecutive, and only three days or more break the run; elsewhere two days break it |
| StreakModel.Advance | lib/models/streak.ts:59-127 | every case leaves id, user and start date alone and records today as the last activity |
| StreakModel.WriteAll | lib/models/streak.ts:62-127 | the `UPDATE ... WHERE userId = ?` touches no other user's row; each row of the user receives the current run and today's date of the advanced streak, and its longest run too exactly in the two cases whose `SET` names it |
| StreakModel.UpdateStreakAfterCompletion | lib/models/streak.ts:50-132 | the returned streak is the stored (or created) one advanced to today, and is what a re-read of the user finds; on the same day nothing is written, otherwise the user's rows are written; the row count and other users' rows stay |
| StreakModel.AdvancePreserves | lib/models/streak.ts:99-127 | every transition keeps the counters non-negative, the current run within the longest one except for a fresh run of 1, and never lowers the longest run |
| StreakModel.ConsecutiveGrows | lib/models/streak.ts:99-108 | a `diffDays` of one, or of zero or fewer on a different date, adds one to the run and lifts the longest run to at least the new value |
| StreakModel.AdvanceIdempotent | lib/models/streak.ts:74-78 | a second completion on the same day changes nothing |
| StreakModel.FirstActivityLeavesLongest | lib/models/streak.ts:60-66 | the first activity of a fresh streak gives a current run of 1 and leaves the longest run at 0 |
| StreakModel.CheckLostStreak | lib/models/streak.ts:137-161 | a loss is reported iff the user has a streak with an activity date, a non-zero run and a gap of two days or more; then every row of the user gets a run of 0, and otherwise nothing changes |
| StreakModel.CheckLostIdempotent | lib/models/streak.ts:137-161 | a second check on the same day reports no loss and changes nothing |
| StreakModel.CheckLostPreserves | lib/models/streak.ts:152-158 | recording a loss keeps every row well formed |
| StreakActions.GetUserStreak | lib/actions/streak.ts:15-22 | throws "No autenticado" exactly when there is no session; otherwise the stored streak of the session's user |
| StreakActions.InitUserStreak | lib/actions/streak.ts:27-34 | throws exactly without a user id; otherwise a streak of that user, with the table unchanged when one existed |
| StreakActions.UpdateStreakOnTaskCompletion | lib/actions/streak.ts:40-53 | throws exactly without a user id; otherwise the table is the one the model's update leaves and the answer only the two counters and today's date of the advanced streak |
| StreakActions.VerifyUserStreak | lib/actions/streak.ts:57-73 | throws exactly without a user id; otherwise the loss flag with the re-read streak, whose run is 0 when a loss was recorded |
| StreakActions.LostStreakRereadsZero | lib/actions/streak.ts:66-67 | after a recorded loss the re-read streak exists and has a run of 0 |
| StreakActions.DaysUntilLost | lib/actions/streak.ts:99-115 | set exactly for an active streak whose last activity is at most one day back, and then it and the gap add up to 1 (today gives 1, yesterday 0) |
| StreakActions.GetStreakStats | lib/actions/streak.ts:78-123 | throws exactly without a user id; zeros and nulls without a stored streak; otherwise the stored counters and date with `daysUntilLost` |
| StreakActions.GetCurrentStreak | lib/actions/streak.ts:128-136 | null instead of an error without a user id; otherwise the stored streak |
| StreakActions.DaysUntilLostAgreesWithLoss | lib/actions/streak.ts:99-115 | for an active well-formed streak, `daysUntilLost` is null exactly when `checkLostStreak` would record a loss |
| StreakCalendar.DaysInMonth | components/StreakCalendar.tsx:86-90 | a Gregorian month has 28 to 31 days, and February has 29 exactly in a leap year |
| StreakCalendar.MonthBeforeIsIndexOrder | components/StreakCalendar.tsx:186-194 | the (year, month) comparison the guards spell out is the order of month counts |
| StreakCalendar.Range | components/StreakCalendar.tsx:63-65 | the loop collects exactly the days from `lo` to `hi`, ascending |
| StreakCalendar.CompletedDays | components/StreakCalendar.tsx:36-134 | always a contiguous ascending run: start to end in a month holding both, 1 to the end in the end month, the start to the month's last day in the start month, the whole month strictly between them, nothing otherwise |
| StreakCalendar.CompletedDaysIsSpan | components/StreakCalendar.tsx:36-134 | for a span that does not end before it starts, a day is marked exactly when it lies between the start date and the last activity date |
| StreakCalendar.AdjustedFirstDay | components/StreakCalendar.tsx:173-176 | the Monday-first column is in 0..6 and is one less, cyclically, than the Sunday-based weekday |
| StreakCalendar.Grid | components/StreakCalendar.tsx:178-179 | `adjustedFirstDay` blanks, then the days 1 to the month's length in order |
| StreakCalendar.ColumnsStartOnMonday | components/StreakCalendar.tsx:221-224 | column 0 is the Mondays and column 6 the Sundays |
| StreakCalendar.ShiftMonth | components/StreakCalendar.tsx:196-210 | one month back or forward, rolling over the year |
| StreakCalendar.PreviousMonth | components/StreakCalendar.tsx:186-202 | one month back exactly when the shown month is after the start month; otherwise no change |
| StreakCalendar.NextMonth | components/StreakCalendar.tsx:191-210 | one month forward exactly when the shown month is before the last activity month; otherwise no change |
| StreakCalendar.NavigationStaysInSpan | components/StreakCalendar.tsx:186-210 | both buttons keep the view within the months of the span, and a step back then forward returns to the same month |
| StreakCalendar.GetStreakPosition | components/StreakCalendar.tsx:213-235 | "none" iff the day is not marked, "middle" iff both neighbours are, "single" iff neither is; "end" only in column 6 and "start" only in column 0 |
| StreakCalendar.PositionOnRun | components/StreakCalendar.tsx:213-235 | on a run the first day opens the band, the last closes it, the days between are middles, a one-day run is a single |
| StreakCalendar.ShouldHaveOrangeCircle | components/StreakCalendar.tsx:238-258 | true exactly for the start date and the last activity date, when their month is shown |
| StreakCalendar.CirclesAreMarked | components/StreakCalendar.tsx:238-258 | both circled days are marked days of the span |
| ActivityForm.MapDayToFull | components/TimerView/ActivityForm.tsx:35-46 | each of the seven button labels becomes its lower-case full day name; any other text is only lower-cased |
| ActivityForm.AbbreviationsMapOntoDayNames | components/TimerView/ActivityForm.tsx:35-46 | the seven buttons map one to one onto the day names the store matches on |
| ActivityForm.ToggleDay | components/TimerView/ActivityForm.tsx:49-55 | the day is selected afterwards iff it was not before, no other day changes; an unselected day is appended at the end, a selected one removed keeping the order of the rest |
| ActivityForm.ToggleTwice | components/TimerView/ActivityForm.tsx:49-55 | toggling the same day twice restores which days are selected, and the list itself when the day was not selected |
| ActivityForm.To24Hour | components/TimerView/ActivityForm.tsx:113-120 | NaN stays NaN; a p.m. hour up to 12 lands in 12..23, an a.m. hour 1..12 in 0..11, and the hour modulo 12 is kept |
| ActivityForm.To12Hour | components/TimerView/ActivityForm.tsx:134-142 | the period is a.m. exactly below hour 12, the shown hour is in 1..12 and equal to the hour modulo 12 |
| ActivityForm.HourRoundTrip | components/TimerView/ActivityForm.tsx:113-142 | reading back the shown hour and period gives the hour of the day |
| ActivityForm.FormatShowsTwelveHour | components/TimerView/ActivityForm.tsx:130-143 | a stored "HH:MM:00" is shown as "h:MM a.m." or "h:MM p.m." |
| ActivityForm.HandleReadsTwelveHour | components/TimerView/ActivityForm.tsx:110-127 | the 12-hour text is written back as the zero-padded "HH:MM:00" |
| ActivityForm.TimeFieldRoundTrip | components/TimerView/ActivityForm.tsx:246-247 | every time of day survives the field's display and write-back unchanged |
| ActivityForm.MapDays | components/TimerView/ActivityForm.tsx:82 | the selected days are mapped one by one, in order |
| ActivityForm.HandleSubmit | components/TimerView/ActivityForm.tsx:58-83 | a blank title, then a schedule without days, are refused with their messages and nothing is sent; otherwise the payload carries the form's values, is recurring iff scheduled, and has time and (non-empty, mapped) days exactly when scheduled |
| ActivityForm.AfterCreate | components/TimerView/ActivityForm.tsx:85-106 | the form closes exactly on success, appending the returned task when both it and the setter exist; a refusal shows its error or "Failed to create activity", a thrown call "An unexpected error occurred" |
| Activity.FormatTime | components/TimerView/Activity.tsx:56-67 | null for a missing or empty time; a text without ':' has undefined minutes and throws; every other text gives a label |
| Activity.FormatClockFields | components/TimerView/Activity.tsx:60-66 | for fields reading as `h` and `m`: the hour is `h % 12`, or 12 when that is 0, minutes are padded to two digits, and the period is PM iff `h >= 12` |
| Activity.FormatTimeMatchesForm | components/TimerView/Activity.tsx:56-67 | a stored time of day is listed with the same hour and minutes the form's time field shows, the period in capitals |
| Activity.ScheduledDaysLabels | components/TimerView/Activity.tsx:70-105 | "Recurring" iff no days; "Everyday", "Weekdays", "Weekend" each iff its condition holds; any other list shows its three-letter prefixes joined by ", " in input order |
| Activity.ShortJoinIsNoLabel | components/TimerView/Activity.tsx:104 | a joined list of three-letter prefixes can never be mistaken for one of the labels |
| Activity.FormDaysLabels | components/TimerView/Activity.tsx:70-105 | the form's Monday-to-Friday buttons read "Weekdays", Saturday and Sunday "Weekend", all seven day names "Everyday" |
| Activity.CompletionShowsToday | components/TimerView/Activity.tsx:108-121 | a task just completed (its `lastCompleted` written as today's UTC date) reads back as completed today exactly when the server is not east of UTC |
| Activity.EastOfUtcHidesCompletion | components/TimerView/Activity.tsx:108-121 | east of UTC a task completed today never shows as completed today, while one still flagged from the day before does |
| Activity.IntendedCompletionShowsToday | components/TimerView/Activity.tsx:108-121 | comparing the stored date with today's UTC date shows a fresh completion as today in every zone, and agrees with the card's check on UTC or west of it |
| Activity.ResetLeavesOnlyToday | components/TimerView/Activity.tsx:108-121 | after the daily reset against `CURDATE()` a recurring task shows as completed today exactly when it is flagged, its date is not before the session date, and that date reads back as today's UTC date; with the session date equal to the UTC date and the server not east of UTC, exactly when it was completed with today's date |
| Activity.FindCategory | components/TimerView/Activity.tsx:28 | the table entry with that exact name, or none exactly when no entry has it |
| Activity.GetCategoryColor | components/TimerView/Activity.tsx:27-30 | the entry's colour for a known name, "bg-slate-600" otherwise |
| Activity.GetCategoryIcon | components/TimerView/Activity.tsx:33-36 | the entry's icon for a known name, the blue diamond otherwise |
| Activity.FallbackIffUnknown | components/TimerView/Activity.tsx:27-36 | colour and icon fall back exactly for an unknown name |
| Activity.HandleTaskSelection | components/TimerView/Activity.tsx:43-53 | no call without a callback; null for the selected task; the task itself otherwise |
| Activity.SelectionToggles | components/TimerView/Activity.tsx:43-53 | a click selects an unselected task and deselects the selected one; a second click on the same task undoes the first when nothing or it was selected |
| ActivitiesList.FilteredTasks | components/TimerView/ActivitiesList.tsx:24-29 | "all" lists the tasks unchanged; "scheduled" keeps, in order, exactly the tasks that are recurring or carry a time |
| ActivitiesList.EmptyMessage | components/TimerView/ActivitiesList.tsx:74-78 | the empty state reads "No scheduled activities found." exactly under the scheduled filter |
| ActivitiesList.Render | components/TimerView/ActivitiesList.tsx:60-78 | the empty state shows exactly when the filtered list is empty, with the filter's message; otherwise the filtered rows |
| ActivitiesList.ScheduledViewFacts | components/TimerView/ActivitiesList.tsx:24-29 | the scheduled view is empty iff no task is scheduled, the full view iff there are no tasks, and filtering twice is filtering once |
| TimerView.LoadTasks | components/TimerView/TimerView.tsx:19-38 | loading ends in every outcome; a success lists the returned tasks (or none) and clears the error; a refusal keeps the list and shows its error or "Failed to load tasks"; a thrown call shows "An unexpected error occurred" |
| TimerView.LoadShowsStoredTasks | components/TimerView/TimerView.tsx:24-31 | fed by the task action, the screen lists exactly the signed-in user's stored tasks, or keeps its list and shows the action's refusal |
| TimerView.HandleTaskDelete | components/TimerView/TimerView.tsx:44-66 | the deleted task is deselected whatever the outcome; only a successful call removes every task with that id, keeping the others in order; error and loading flags are untouched |
| TimerView.DeleteKeepsListInStep | components/TimerView/TimerView.tsx:53-57 | when every listed task is stored, it stays so after the delete action and the list update |
| TimerView.RemovalKeepsListed | components/TimerView/TimerView.tsx:57 | dropping one id from both the list and the table keeps every listed task stored |
| TimerView.TimerTrashIgnored | components/TimerView/TimerView.tsx:77 | the timer card is given no delete callback, so its trash button deletes nothing even with a task selected |
| TimerView.TrashClick | components/TimerView/TimerSection.tsx:47-51 | with the callback wired, the trash button clears the selection and, on success, removes the selected task from the list; without a selection nothing changes |
| FocusView.GetRandomQuote | components/TimerView/FocusView.tsx:57-60 | for every random value in [0, 1) the quote is one of the fifteen |
| FocusView.Tick | components/TimerView/FocusView.tsx:128-136 | a count above 1 drops by one; at 1 or below it lands on 0 and the timer is finished; the count never goes negative |
| FocusView.Second | components/TimerView/FocusView.tsx:124-140 | a second changes nothing without an activity or while paused, and ticks once otherwise |
| FocusView.CountsDown | components/TimerView/FocusView.tsx:124-140 | from n seconds, k ticks leave n - k (never below 0), and the timer is finished exactly from the n-th tick on |
| FocusView.SettledAtZero | components/TimerView/FocusView.tsx:128-134 | a finished countdown stays at 0 and finished |
| FocusView.FormatTimeReadsBack | components/TimerView/FocusView.tsx:151-155 | the clock splits at its one colon into minutes and a two-digit seconds field that read back as the number of seconds shown |
| FocusView.TogglePause | components/TimerView/FocusView.tsx:157-159 | the pause flag flips |
| FocusView.PauseFreezes | components/TimerView/FocusView.tsx:124-125 | while paused or without an activity the countdown does not move, and pausing twice restores the flag |
| TimerSection.InitialRemaining | components/TimerView/TimerSection.tsx:27-29 | the countdown starts at the task's minutes times 60, or at 1500 seconds without a task or with 0 minutes; always whole minutes |
| TimerSection.Mount | components/TimerView/TimerSection.tsx:25-29 | the card mounts stopped, out of focus mode, with the initial countdown |
| TimerSection.HandleStart | components/TimerView/TimerSection.tsx:31-36 | with a task the card runs in focus mode; without one nothing changes |
| TimerSection.HandlePause | components/TimerView/TimerSection.tsx:38-40 | the card stops and keeps its mode and countdown |
| TimerSection.HandleExitFocus | components/TimerView/TimerSection.tsx:42-45 | the card stops and leaves focus mode; the time the focus view reports is dropped |
| TimerSection.FocusRoundTrip | components/TimerView/TimerSection.tsx:31-45 | start then exit returns the card to stopped with the same countdown; pausing keeps focus mode; starting without a task is a no-op |
| TimerSection.GetActivityIcon | components/TimerView/TimerSection.tsx:54-69 | no icon exactly without a task; the lower-cased category picks the book, code or dumbbell icon exactly for "reading", "coding", "exercise"; no category gives the bookmark |
| TimerSection.CategoryIcons | components/TimerView/TimerSection.tsx:57-68 | the capitalised form categories Reading, Coding and Exercise get their icons; Deep Work falls to the bookmark |
| TimerSection.HandleDelete | components/TimerView/TimerSection.tsx:47-51 | the callback receives the selected task's id exactly when a task is selected and a callback exists |
| NotificationManager.NextCheckDelay | lib/notification-manager.ts:122-127 | the recheck waits between 2 and 86 401 seconds and lands one second after the next local midnight, off only by the current milliseconds |
| NotificationManager.CheckAndSchedule | lib/notification-manager.ts:57-137 | off the listed days a recheck after midnight; on a listed day a firing exactly at the scheduled instant when it is still ahead (or now), a recheck once it has passed, and an immediate firing for an unreadable time |
| NotificationManager.ScheduledTimeText | lib/notification-manager.ts:64-68 | a stored "HH:MM:SS" time is read as that hour and minute, in milliseconds after midnight |
| NotificationManager.DecisionBounds | lib/notification-manager.ts:63-131 | for a stored time, a firing happens today at exactly HH:MM:00.000 and a recheck within the first two seconds of tomorrow |
| NotificationManager.DecisionWindow | lib/notification-manager.ts:63-131 | for any time read as an instant before midnight, a firing lands exactly on it today and a recheck within the second after 00:00:01 tomorrow |
| NotificationManager.ScheduleNotification | lib/notification-manager.ts:39-143 | returns "notification_" + task id + "_" + the clock; clears the task's old timer and registers the new decision under the task id, with the given title, the task id as tag, the scheduled time and the category's body text; every other task's timer is kept |
| NotificationManager.CancelNotification | lib/notification-manager.ts:146-156 | reports true exactly when a timer sits under the decoded key, and removes only that timer |
| NotificationManager.CancelKeyRecoversTaskId | lib/notification-manager.ts:146-147 | splitting the notification id at '_' gives back the task id exactly when the task id has no underscore |
| NotificationManager.ScheduleThenCancel | lib/notification-manager.ts:146-156 | cancelling with the id scheduling returned removes that task's timer and no other, for task ids without an underscore |
| NotificationManager.SendNotification | lib/notification-manager.ts:159-193 | nothing is shown without permission; with it, the result is true exactly when the constructor does not throw |
| SubscriptionModel.GetSubscriptionsByUserId | lib/models/subscription.ts:16-28 | exactly the user's stored subscriptions, each once per row, newest first |
| SubscriptionModel.ListingFacts | lib/models/subscription.ts:17-20 | the sorted user rows have the user's row count, all belong to the user and come from the table, are ordered newest first, and include every row of the user |
| SubscriptionModel.GetSubscriptionDataByUserId | lib/models/subscription.ts:87-94 | one payload per row of the user, covering every row of the user |
| SubscriptionModel.DataMatchesListing | lib/models/subscription.ts:87-94 | the payload-only read returns the same payloads, as often, as the full listing |
| SubscriptionModel.CreateSubscription | lib/models/subscription.ts:33-52 | one row appended with the fresh id, the user and the subscription; the object returned carries the application's clock rather than the stored timestamp |
| SubscriptionModel.CreateThenRead | lib/models/subscription.ts:33-52 | after a create the user's payloads gain exactly the new one, last, and the listing contains the new row |
| SubscriptionModel.CreateKeepsOthers | lib/models/subscription.ts:40-44 | a create changes no other user's payloads |
| SubscriptionModel.SetPayload | lib/models/subscription.ts:61-67 | every row of the user gets the new subscription, every other row stays, the row count is kept |
| SubscriptionModel.UpdateSubscription | lib/models/subscription.ts:57-70 | the user's rows are overwritten; the answer is true exactly when the user had a row |
| SubscriptionModel.UpdateThenRead | lib/models/subscription.ts:57-70 | after an update the user reads the new subscription once per row they had; other users read what they read before |
| SubscriptionModel.DeleteSubscription | lib/models/subscription.ts:75-82 | every row of the user goes, the others stay in order, the table shrinks by the user's row count, and the answer is true exactly when something went |
| SubscriptionModel.DeleteThenRead | lib/models/subscription.ts:75-82 | after a delete the user has no subscription and other users read what they read before |
| SubscriptionActions.SubscribeUserPush | lib/actions/subscriptions.ts:16-40 | fails with "Usuario no autenticado" exactly without a user; updates the user's subscriptions when they have any, creates one otherwise |
| SubscriptionActions.SubscribeStoresPayload | lib/actions/subscriptions.ts:24-33 | after subscribing the user has at least one subscription and all equal the one sent; no other user is affected |
| SubscriptionActions.SubscribeIdempotent | lib/actions/subscriptions.ts:16-40 | subscribing again with the same subscription leaves the table as it is |
| SubscriptionActions.UnsubscribeUserPush | lib/actions/subscriptions.ts:43-59 | fails with "Usuario no autenticado" exactly without a user; otherwise deletes the user's subscriptions |
| SubscriptionActions.SubscribeThenUnsubscribe | lib/actions/subscriptions.ts:16-59 | unsubscribing after subscribing leaves the user with none and every other user as before |
| SubscriptionActions.SendAlarmNotification | lib/actions/subscriptions.ts:61-92 | a push happens exactly when the read succeeds and finds a subscription, to the first one with the alarm payload; "No hay suscripción disponible" exactly when there is none; a rejected read or push answers "Error al enviar notificación" |
| SubscriptionActions.AlarmReachesSubscriber | lib/actions/subscriptions.ts:61-92 | after subscribing, an alarm for the user is sent to the subscription they sent |
| UserModel.GetUserByEmail | lib/models/user.ts:41-44 | null exactly when no row's email equals the one asked for up to letter case; otherwise a stored row with such an email, password hash included |
| UserModel.EmailFindsRow | lib/models/user.ts:41-44 | with a unique email column the lookup by an email, in any letter case, returns exactly the row holding it |
| UserModel.EmailLookupIgnoresCase | lib/models/user.ts:41-44 | two emails that differ only in letter case find the same user |
| UserModel.GetUserById | lib/models/user.ts:66-69 | null exactly when no row has the id; otherwise that row's id, email and name, without timezone |
| UserModel.IdFindsRow | lib/models/user.ts:66-69 | with a primary key the lookup returns exactly the row holding the id |
| UserModel.CreateUser | lib/models/user.ts:51-64 | a repeated id, or an email equal to a stored one up to letter case, fails the insert; otherwise one row is appended with a 10-round hash that verifies exactly the given password and the default timezone, and only id, email and name are returned |
| UserModel.CreateThenFind | lib/models/user.ts:51-69 | a successful create keeps the keys unique, and both lookups then find the new user, whose password verifies |
| UserModel.UpdateUser | lib/models/user.ts:79-97 | no statement and false exactly when no entry is name or email; otherwise one UPDATE whose clauses and values follow the kept entries' order with the id last, true exactly when the id exists; the row count is kept |
| UserModel.SetColumnsFacts | lib/models/user.ts:92-95 | applying the SET clauses changes name and email to the values given and nothing else of the row |
| UserModel.ValidUpdatesKeepsAllowed | lib/models/user.ts:80-86 | the filtered entries keep distinct keys, contain every allowed entry and only allowed entries of the input |
| UserModel.FilterKeepsDistinct | lib/models/user.ts:81-82 | filtering entries with distinct keys keeps the keys distinct |
| UserModel.UpdateWhitelist | lib/models/user.ts:79-97 | an update changes only the name and email of the row with that id, to the values given; id, password, timezone and every other row stay |
| UserModel.ColumnFromEntries | lib/models/user.ts:80-86 | a name or email entry is among the filtered entries exactly when it is among the input |
| UserModel.DeleteUser | lib/models/user.ts:99-102 | every row with the id goes, the others stay in order, and the answer is true exactly when one existed |
| UserModel.DeleteThenFind | lib/models/user.ts:99-102 | after a delete the id lookup finds nothing, and with unique emails neither does the lookup by the deleted row's email |
| LoginActions.Login | lib/auth/login.ts:18-43 | a missing field, an unknown email and a wrong password all answer "Invalid login credentials." and open no session; exactly valid credentials open a session for the stored user's id and answer nothing |
| LoginActions.CreatedUserLogsIn | lib/auth/login.ts:25-42 | a user stored by the create operation logs in with their password and is refused with any other |
| LoginActions.Signup | lib/auth/login.ts:49-85 | differing passwords answer the field error before any lookup; a registered email answers its message without creating; otherwise the user is created with the form's fields, and a session opens exactly when a user comes back, else the creation-error message |
| LoginUser.LoginUser | lib/actions/loginUser.ts:8-55 | missing fields answer their message before any call; a rejection of the store read, then unknown emails and wrong passwords answer the internal error or "Credenciales inválidas" in that order; a rejection of the cookie store, reached only with valid credentials, answers the internal error; otherwise login succeeds, answers the user without password and sets the httpOnly "authToken" cookie carrying the user, living seven days, secure exactly in production |
| AuthActions.GetUserFromToken | lib/getUser.ts:5-21 | a user only for a verified token with a non-empty id, and then exactly the id lookup's answer |
| AuthActions.CheckAuthStatus | lib/actions/auth.ts:6-38 | always success; a rejection reports the error, unauthenticated; authenticated exactly when the "authToken" cookie resolves to a user, reporting that user with the default zone for a falsy timezone |
| AuthActions.AlwaysDefaultZone | lib/actions/auth.ts:24-33 | since the id lookup reads no timezone, every authenticated status reports "America/Mexico_City" |
| AuthActions.GetAuthenticatedUser | lib/actions/auth.ts:40-55 | null without the cookie; otherwise the user its token resolves to |
| AuthActions.StatusAgreesWithUser | lib/actions/auth.ts:6-55 | the status is authenticated exactly when there is an authenticated user, and reports that user's id, email and name |
| AuthActions.LoginThenAuthenticated | lib/actions/loginUser.ts:30-44 | after a successful login sets its cookie, the status check reports that same user as authenticated while the token verifies |
| Middleware.ReadSession | middleware.ts:15-19 | the session is decrypted exactly for a non-empty cookie, and is null otherwise |
| Middleware.Guard | middleware.ts:9-35 | redirects to "/login" exactly on a protected route without a signed-in session; otherwise passes, the public-route redirect included; decrypts exactly for a non-empty cookie |
| Middleware.SignedInStaysOnPublicRoute | middleware.ts:26-32 | every public route starts with "/", so a signed-in user on "/login" or "/signup" is let through |
| Middleware.IntendedGuard | middleware.ts:21-34 | "/login" exactly for a protected route without a session, "/" exactly for a public route with one, passing otherwise |
| Middleware.IntendedRedirectSettles | middleware.ts:21-34 | the intended guard never redirects to the path itself, and lets the same session through where it redirects |
| Middleware.GuardsDifferOnlyThere | middleware.ts:26-32 | the guard as written and the intended one differ exactly on a signed-in visit to a public route |
| NotificationPermission.PaddingCount | components/NotificationPermission.tsx:14 | the fewest '=' (below 4) that make the length a multiple of 4, zero exactly for a multiple of 4 |
| NotificationPermission.ReplaceAll | components/NotificationPermission.tsx:15 | each occurrence of the character is replaced and every other character kept |
| NotificationPermission.Preprocess | components/NotificationPermission.tsx:13-16 | the text handed to the decoder has a length that is a multiple of 4, at most 3 longer than the key, with no '-' or '_' left |
| NotificationPermission.PreprocessByCharacter | components/NotificationPermission.tsx:14-15 | the key's characters are rewritten one by one to the standard alphabet and followed only by padding |
| NotificationPermission.PreprocessRoundTrip | components/NotificationPermission.tsx:13-16 | a URL-safe key without padding is recovered from the pre-processed text |
| NotificationPermission.ToBytes | components/NotificationPermission.tsx:17-23 | one byte per character, each the character code modulo 256 |
| NotificationPermission.BytesKeepLatinText | components/NotificationPermission.tsx:17-23 | for decoded text (codes below 256) each byte is the character itself |
| NotificationPermission.DialogUnlessGranted | components/NotificationPermission.tsx:58-96 | for the three browser values the dialog shows exactly when notifications are supported and not granted |
| NotificationPermission.Mount | components/NotificationPermission.tsx:58-113 | after mounting the dialog shows exactly for "default" or "denied" with notifications supported, and the state is the browser's value, or "prompt" without support |
| NotificationPermission.AfterRequest | components/NotificationPermission.tsx:115-139 | the dialog starts closing and is blocked exactly when the request was refused |
| NotificationPermission.BlockedFollowsBrowser | components/NotificationPermission.tsx:198-228 | on mount the button is disabled exactly when the browser has denied notifications; after a request, exactly when it was refused |
| ToastHook.AddToQueue | lib/hooks/useToast.tsx:162-183 | appends one entry with the new id, variant "default" and 5000 ms unless given, returns that id, and schedules its removal exactly when the duration is finite |
| ToastHook.RemoveToast | lib/hooks/useToast.tsx:158-160 | every entry with the id goes, the others stay in order; an absent id changes nothing |
| ToastHook.RemovalUndoesAdd | lib/hooks/useToast.tsx:169-178 | for a new id, the scheduled removal gives back exactly the queue before the toast |
| ToastHook.EntryStyle | lib/hooks/useToast.tsx:101-103 | the entry's variant style, the default one when no variant is set |
| ToastHook.StylesDistinguishVariants | lib/hooks/useToast.tsx:39-46 | the six variants have six different styles, and a toast added without a variant is styled as "default" |
| ToastContext.ShowToast | context/useToast.tsx:102-116 | appends one entry with the id, message, type and the duration (4000 ms when none is passed); its removal is scheduled exactly for a positive duration |
| ToastContext.RemoveToast | context/useToast.tsx:98-100 | every entry with the id goes, the others stay in order; an absent id changes nothing |
| ToastContext.RemovalUndoesShow | context/useToast.tsx:104-113 | for a new id the scheduled removal gives back exactly the list before the toast; a repeated id takes the older toast too, so the list never grows |
| ToastContext.Notify | context/useToast.tsx:118-144 | each helper appends a toast of its own type with the message, the same as showing it directly |
| ToastContext.HelperDefaults | context/useToast.tsx:118-144 | a helper called without a duration shows its toast for 4000 ms and schedules its removal after 4000 ms |
| ToastContext.UseToast | context/useToast.tsx:181-187 | fails with "useToast must be used within a ToastProvider" exactly outside a provider; otherwise hands over the context |

## Left out

- The SQL engine, the connection pool and the table definitions: tables are sequences of rows and every query is the function its `WHERE`, `ORDER BY` and `SET` clauses denote. `affectedRows` of an `UPDATE` counts matched rows, as the mysql2 driver reports it by default. String comparison is exact, except on `users.email`, where the default case-insensitive collation is modelled as ASCII case folding; accent folding and trailing-space padding are not modelled.
- JSON columns: `tasks.scheduledDays` is `TEXT`, so `JSON.stringify` on write and `JSON.parse` on read cancel and the column holds the list it encodes.
- SubscriptionModel.GetSubscriptionsByUserId and SubscriptionModel.GetSubscriptionDataByUserId: `subscriptions.subscription` is a `JSON` column, which mysql2 hands back already parsed against MySQL, so `JSON.parse` there would throw; the model assumes the server returns JSON as text (MariaDB, where `JSON` is `LONGTEXT`, or the driver's `jsonStrings` option), and then the stored payload reads back unchanged.
- The `DECIMAL` duration column is modelled as whole minutes, the values the form's slider produces.
- Time zones and daylight saving: dates are day numbers and times of day are triples; the local and UTC `Date` getters are inputs, so a day with 23 or 25 hours is not modelled. A stored `DATE` is taken to arrive as a local-midnight `Date`, mysql2's default. Two decisions take the server's side of UTC as an input: the streak's day difference (`westOfUtc`) and the card's completed-today check (`eastOfUtc`). The daily reset takes `CURDATE()`, the session zone's date, as its own input, apart from the UTC date `lastCompleted` is written in.
- TaskModel.CreateTask: `createdAt` and `updatedAt` are written as the UTC wall clock into `DATETIME` columns, which mysql2 reads back as local wall clock; the model applies no shift, so its read-back equality holds on a server whose zone is UTC, and elsewhere the read-back is off by the zone's offset.
- `Math.random`, `Date.now`, uuids and `Math.random().toString(36)` ids are inputs; the random value is assumed to lie in [0, 1), as the runtime guarantees.
- Library calls (bcrypt, jsonwebtoken signing and verification, web-push, the cookie store, `atob`, `Notification`, the service worker and push manager) are inputs or ideal stand-ins: a hash records what it digests, a token records its claims and lifetime.
- `getTasksToNotify`, `getTaskByIdAndUserId` and `markTaskAsCompleted` are imported by lib/actions/task.ts from lib/models/task.ts, and `sendTaskNotification` from lib/actions/subscriptions.ts, but neither file exports them; `isEmailRegistered` is imported by lib/auth/login.ts from lib/models/user.ts, which does not export it either. Their answers are inputs and no contract is assumed about them.
- LoginActions.Signup: `createUser` is the three-parameter one of lib/models/user.ts:51; the timezone passed as a fourth argument is dropped, so the stored user gets the column default. The model records the call with its four arguments and takes the id it returns as an input rather than running the insert.
- lib/auth/session.ts (`createSession`, `deleteSession`, `decrypt`) is not part of this model; `logout` is left out with it. The route guard reads a cookie named "session" while `loginUser` and the status check use "authToken"; both are modelled as written.
- Timers run nothing: a `setTimeout` or `setInterval` registration is recorded as data. The reschedule after a notification fires (lib/notification-manager.ts:109) is not stored in the timer table, so it cannot be cancelled; the model records only the decision of each run. `requestNotificationPermission`, `initNotifications` and the service-worker registration are browser calls and are left out. The focus screen's `onExit(remainingTime)` timeout one second after the countdown finishes (components/TimerView/FocusView.tsx:143-149), cleared when the effect re-runs, is not modelled; the exit it triggers is the separate `TimerSection.HandleExitFocus` step.
- The rocket animation, the quote interval, the star background and every other pure rendering; the React effect scheduling itself (a handler's state update is applied in one step).
- `countUsers`, `getAllUsers` and the `query` wrapper of lib/models/user.ts have no logic beyond the store; an `UPDATE` that would repeat an email is not modelled as a failure; deleting a user does not cascade to other tables.
- `toLowerCase` folds letter case in all of Unicode; `Text.ToLower` folds only the ASCII letters A-Z. Every comparison the lowered text meets (category names, day names, emails) is in ASCII, so only non-ASCII capitals read differently.
- AuthActions.GetUserFromToken: a rejection of `getUserById` is caught and answers null (lib/getUser.ts:17-20), the same answer as an unknown id; the model has no input for that rejection and promises the lookup's answer for a verified token with an id.
- Property lookups on objects (`TASK_CATEGORIES`, the emoji table, the timer table) are lookups on their own keys; inherited prototype keys such as "constructor" are not modelled.
- `Number` and `parseInt` read unsigned decimal digits; signs, blanks, exponents and fractions in a time text are not modelled.
- TaskModel.GetTasksForNotification: takes the current time as an hour, minute and second triple, not the "HH:MM:SS" text the caller formats.
- SubscriptionModel.GetSubscriptionDataByUserId: the query has no `ORDER BY`; the model answers in storage order, and `DataMatchesListing` states only that it returns the same payloads as the ordered listing.
- FocusView.Tick: a negative starting time is handled as the code does (it lands on 0), but an initial time that is not a whole number of seconds is not modelled.
- NotificationPermission.ToBytes: `atob` is not modelled, so the bytes are stated for the text it would return, not for the key itself.

## Findings

| source | as written | input that shows it | evidently intended | confidence | as-written member | corrected member |
|---|---|---|---|---|---|---|
| components/TimerView/TimerView.tsx:77 | the screen renders the timer card without `onDeleteTask`, so its trash button, enabled whenever a task is selected, never deletes | any selected task, then a click on the trash button | the click deletes the selected task through `handleTaskDelete` | not executed | TimerView.TimerTrashIgnored | TimerView.TrashClick |
| components/TimerView/Activity.tsx:112-119 | `isCompletedToday` compares the UTC date of the `Date` the stored `lastCompleted` comes back as with today's UTC date; the stored day comes back at local midnight, which east of UTC is still the previous UTC day | a server at UTC+2 and a task completed at 12:00 UTC: `lastCompleted` is stored as that date, comes back as 22:00 UTC the day before, and the card shows it as not completed today | a task completed today shows as completed today, as it does on UTC or west of it | not executed | Activity.EastOfUtcHidesCompletion | Activity.IntendedCompletionShowsToday |
| middleware.ts:26-32 | the redirect of a signed-in user away from a public route also requires the path not to start with "/", which both public routes do | a signed-in session visiting "/login" | the signed-in user is sent to "/" | not executed | Middleware.SignedInStaysOnPublicRoute | Middleware.IntendedGuard |
