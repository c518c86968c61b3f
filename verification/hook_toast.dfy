/** The toast queue of lib/hooks/useToast.tsx: `toast` appends an entry with defaults and
    arranges its removal, `removeToast` filters by id. Timers are recorded, not run; the
    uuid of a new toast is a parameter. */
module ToastHook {
  import opened Wrappers
  import Ordering

  datatype Variant = Default | Success | Error | Warning | Info | Destructive

  /** A duration in milliseconds, or `Infinity`. */
  datatype Duration = Finite(ms: int) | Infinite

  /** `ToastProps`: `variant` and `duration` are optional in the type. */
  datatype ToastEntry = ToastEntry(id: string, title: string, description: Option<string>,
                                   variant: Option<Variant>, duration: Option<Duration>)

  /** The argument of `toast`. */
  datatype AddToast = AddToast(title: string, description: Option<string>, variant: Option<Variant>,
                               duration: Option<Duration>)

  const DEFAULT_DURATION: int := 5000

  /** A `setTimeout(() => removeToast(id), delay)` registration. */
  datatype Removal = Removal(id: string, delay: int)

  datatype Added = Added(toasts: seq<ToastEntry>, id: string, removal: Option<Removal>)

  /** `toast`: appends one entry with variant "default" and duration 5000 unless given,
      returns its id, and schedules its removal unless the duration is `Infinity`. */
  function AddToQueue(toasts: seq<ToastEntry>, props: AddToast, freshId: string): (r: Added)
    ensures |r.toasts| == |toasts| + 1 && r.toasts[..|toasts|] == toasts
    ensures r.id == freshId && r.toasts[|toasts|].id == freshId
    ensures var e := r.toasts[|toasts|];
      && e.title == props.title && e.description == props.description
      && e.variant == Some(if props.variant.Some? then props.variant.value else Default)
      && e.duration == Some(if props.duration.Some? then props.duration.value else Finite(DEFAULT_DURATION))
    ensures r.removal.Some? <==> r.toasts[|toasts|].duration != Some(Infinite)
    ensures r.removal.Some? ==> r.removal.value == Removal(freshId, r.toasts[|toasts|].duration.value.ms)
  {
    var variant := if props.variant.Some? then props.variant.value else Default;
    var duration := if props.duration.Some? then props.duration.value else Finite(DEFAULT_DURATION);
    var entry := ToastEntry(freshId, props.title, props.description, Some(variant), Some(duration));
    assert (toasts + [entry])[..|toasts|] == toasts;
    var removal := if duration.Infinite? then None else Some(Removal(freshId, duration.ms));
    Added(toasts + [entry], freshId, removal)
  }

  /** `removeToast`: drops every entry with that id and keeps the rest in order. */
  function RemoveToast(toasts: seq<ToastEntry>, id: string): (r: seq<ToastEntry>)
    ensures forall i :: 0 <= i < |r| ==> r[i].id != id
    ensures forall i :: 0 <= i < |toasts| && toasts[i].id != id ==> toasts[i] in r
    ensures Ordering.IsSubsequence(r, toasts)
    ensures (forall i :: 0 <= i < |toasts| ==> toasts[i].id != id) ==> r == toasts
  {
    Ordering.Filter(toasts, (t: ToastEntry) => t.id != id)
  }

  /** When the new id is not in the queue, the scheduled removal of a toast undoes its
      addition exactly. */
  lemma RemovalUndoesAdd(toasts: seq<ToastEntry>, props: AddToast, freshId: string)
    requires forall i :: 0 <= i < |toasts| ==> toasts[i].id != freshId
    ensures var r := AddToQueue(toasts, props, freshId);
      RemoveToast(r.toasts, r.id) == toasts
  {
    var r := AddToQueue(toasts, props, freshId);
    assert r.toasts == toasts + [r.toasts[|toasts|]];
    Ordering.FilterAppend(toasts, r.toasts[|toasts|], (t: ToastEntry) => t.id != freshId);
  }

  /** The class list of `variantStyles`. */
  function StyleOf(v: Variant): string {
    match v
    case Default => "bg-slate-800 text-white border-slate-700"
    case Success => "bg-green-800/80 text-white border-green-700"
    case Error => "bg-red-800/80 text-white border-red-700"
    case Warning => "bg-amber-800/80 text-white border-amber-700"
    case Info => "bg-blue-800/80 text-white border-blue-700"
    case Destructive => "bg-red-900/90 text-white border-red-800 animate-pulse"
  }

  /** `variantStyles[toast.variant || "default"]`. */
  function EntryStyle(e: ToastEntry): (style: string)
    ensures e.variant.None? ==> style == StyleOf(Default)
    ensures e.variant.Some? ==> style == StyleOf(e.variant.value)
  {
    StyleOf(if e.variant.Some? then e.variant.value else Default)
  }

  /** Each variant has its own style, and an entry made by `toast` without a variant is
      styled like one with variant "default". */
  lemma StylesDistinguishVariants(v: Variant, w: Variant, toasts: seq<ToastEntry>, props: AddToast,
                                  freshId: string)
    ensures StyleOf(v) == StyleOf(w) <==> v == w
    ensures props.variant.None? ==>
      EntryStyle(AddToQueue(toasts, props, freshId).toasts[|toasts|]) == StyleOf(Default)
  {
    if StyleOf(v) == StyleOf(w) {
      assert StyleOf(v)[3] == StyleOf(w)[3] && StyleOf(v)[7] == StyleOf(w)[7];
    }
  }
}
