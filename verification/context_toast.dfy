/** The toast provider of context/useToast.tsx: `showToast` appends an entry with a
    default duration and arranges its removal, the typed helpers fix the type, and
    `useToast` refuses to run outside a provider. The id
    (`Math.random().toString(36).substring(2, 9)`) is a parameter; timers are recorded,
    not run. */
module ToastContext {
  import opened Wrappers
  import Ordering

  datatype ToastType = Success | Error | Info | Warning

  datatype ToastEntry = ToastEntry(id: string, message: string, kind: ToastType, duration: int)

  const DEFAULT_DURATION: int := 4000
  const OUTSIDE_PROVIDER: string := "useToast must be used within a ToastProvider"

  /** A `setTimeout(() => removeToast(id), duration)` registration. */
  datatype Removal = Removal(id: string, delay: int)

  datatype Shown = Shown(toasts: seq<ToastEntry>, removal: Option<Removal>)

  /** `showToast`: appends `{id, message, type, duration}`, with 4000 when no duration is
      passed, and schedules the removal only for a positive duration. */
  function ShowToast(toasts: seq<ToastEntry>, message: string, kind: ToastType, duration: Option<int>,
                     freshId: string)
    : (r: Shown)
    ensures |r.toasts| == |toasts| + 1 && r.toasts[..|toasts|] == toasts
    ensures r.toasts[|toasts|]
            == ToastEntry(freshId, message, kind, if duration.Some? then duration.value else DEFAULT_DURATION)
    ensures r.removal.Some? <==> r.toasts[|toasts|].duration > 0
    ensures r.removal.Some? ==> r.removal.value == Removal(freshId, r.toasts[|toasts|].duration)
  {
    var d := if duration.Some? then duration.value else DEFAULT_DURATION;
    var entry := ToastEntry(freshId, message, kind, d);
    assert (toasts + [entry])[..|toasts|] == toasts;
    Shown(toasts + [entry], if d > 0 then Some(Removal(freshId, d)) else None)
  }

  /** `removeToast`: drops every entry with that id and keeps the rest in order. */
  function RemoveToast(toasts: seq<ToastEntry>, id: string): (r: seq<ToastEntry>)
    ensures forall i :: 0 <= i < |r| ==> r[i].id != id
    ensures forall i :: 0 <= i < |toasts| && toasts[i].id != id ==> toasts[i] in r
    ensures Ordering.IsSubsequence(r, toasts)
    ensures (forall i :: 0 <= i < |toasts| ==> toasts[i].id != id) ==> r == toasts
  {
    Ordering.Filter(toasts, (t: ToastEntry) => t.id != id)
  }

  /** When the random id is new, the scheduled removal undoes the toast exactly; when it
      repeats an id already shown, that older toast goes too. */
  lemma RemovalUndoesShow(toasts: seq<ToastEntry>, message: string, kind: ToastType,
                          duration: Option<int>, freshId: string)
    ensures var r := ShowToast(toasts, message, kind, duration, freshId);
      && ((forall i :: 0 <= i < |toasts| ==> toasts[i].id != freshId) ==> RemoveToast(r.toasts, freshId) == toasts)
      && |RemoveToast(r.toasts, freshId)| <= |toasts|
  {
    var r := ShowToast(toasts, message, kind, duration, freshId);
    var entry := r.toasts[|toasts|];
    assert r.toasts == toasts + [entry];
    Ordering.FilterAppend(toasts, entry, (t: ToastEntry) => t.id != freshId);
  }

  /** `success`, `error`, `info` and `warning`: `showToast` with their own type. */
  function Notify(kind: ToastType, toasts: seq<ToastEntry>, message: string, duration: Option<int>,
                  freshId: string)
    : (r: Shown)
    ensures |r.toasts| == |toasts| + 1 && r.toasts[..|toasts|] == toasts
    ensures r.toasts[|toasts|].kind == kind && r.toasts[|toasts|].message == message
    ensures r == ShowToast(toasts, message, kind, duration, freshId)
  {
    ShowToast(toasts, message, kind, duration, freshId)
  }

  /** A helper called without a duration shows its toast for 4000 ms and then removes it. */
  lemma HelperDefaults(kind: ToastType, toasts: seq<ToastEntry>, message: string, freshId: string)
    ensures var r := Notify(kind, toasts, message, None, freshId);
      r.toasts[|toasts|].duration == DEFAULT_DURATION && r.removal == Some(Removal(freshId, 4000))
  {
  }

  /** The value the provider hands down; its functions are the ones above. */
  datatype Context = Context(toasts: seq<ToastEntry>)

  /** `useToast`: the context, or the error thrown outside a provider. */
  function UseToast(context: Option<Context>): (r: Result<Context>)
    ensures r.Failure? <==> context.None?
    ensures r.Failure? ==> r.error == OUTSIDE_PROVIDER
    ensures r.Success? ==> r.value == context.value
  {
    if context.None? then Failure(OUTSIDE_PROVIDER) else Wrappers.Success(context.value)
  }
}
