/** The records shared by the store, the server actions and the screens
    (types.ts), the category table (lib/const.ts) and the calendar facts both
    sides agree on: day names and time-of-day values as MySQL `TIME` compares
    them. Calendar dates are integer day numbers; timestamps are integers. */
module Schema {
  import opened Wrappers

  /** A `TIME` value `HH:MM:SS`. */
  datatype TimeOfDay = TimeOfDay(hour: int, minute: int, second: int)

  predicate ValidTime(t: TimeOfDay) {
    0 <= t.hour < 24 && 0 <= t.minute < 60 && 0 <= t.second < 60
  }

  /** The instant within the day that `TIME` comparison (`=`, `BETWEEN`) orders by. */
  function SecondsOfDay(t: TimeOfDay): int {
    t.hour * 3600 + t.minute * 60 + t.second
  }

  /** A task as the application sees it after a row has been read back. */
  datatype Task = Task(
    id: string,
    userId: string,
    title: string,
    category: Option<string>,
    completed: bool,
    durationMinutes: int,
    createdAt: int,
    updatedAt: int,
    isRecurring: bool,
    scheduledTime: Option<TimeOfDay>,
    scheduledDays: Option<seq<string>>,
    lastCompleted: Option<int>,
    lastNotified: Option<int>)

  /** The signed-in user as the session layer hands it over. */
  datatype SessionUser = SessionUser(id: string)

  /** A user as `getUserById` / `getUserFromToken` return it; `timezone` is the
      optional field of the `User` interface. */
  datatype User = User(id: string, email: string, name: string, timezone: Option<string>)

  /** Lower-case full day names indexed by `Date.prototype.getDay()` (0 = Sunday). */
  const DAY_NAMES: seq<string> :=
    ["sunday", "monday", "tuesday", "wednesday", "thursday", "friday", "saturday"]

  const WEEKDAYS: seq<string> := ["monday", "tuesday", "wednesday", "thursday", "friday"]
  const WEEKEND: seq<string> := ["saturday", "sunday"]

  /** One entry of `TASK_CATEGORIES`. */
  datatype Category = Category(name: string, icon: string, color: string, description: string)

  const TASK_CATEGORIES: seq<Category> := [
    Category("Reading", "\U{1F4DA}", "bg-purple-500", "Planeta"),
    Category("Coding", "</>", "bg-cyan-500", "Sat\U{00E9}lite"),
    Category("Exercise", "\U{1F4AA}", "bg-green-500", "Luna"),
    Category("Writing", "\U{270F}\U{FE0F}", "bg-yellow-500", "Estrella"),
    Category("Meditation", "\U{1F9D8}", "bg-pink-500", "Cometa"),
    Category("Deep Work", "\U{1F50D}", "bg-indigo-500", "Estaci\U{00F3}n")
  ]

  /** The falsy test of `x || fallback` on an optional string: absent, null or "". */
  predicate Truthy(s: Option<string>) {
    s.Some? && s.value != ""
  }
}
