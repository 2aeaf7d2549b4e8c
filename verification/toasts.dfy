/** The notification queue of client/src/contexts/ToastContext.tsx: adding a
    toast (with its default duration and its auto-dismiss timer), removing
    one by id, and the four kind-specific shorthands. The random id and the
    timer itself are outside the model: the id is a parameter, and the timer
    is returned as a value whose firing is `Expire`. */
module Toasts {
  import opened Common
  import opened Seqs

  datatype Kind = Success | Error | Warning | Info

  datatype Toast = Toast(id: string, kind: Kind, title: string, message: Option<string>, duration: int)

  /** The duration used when the caller gives none, in milliseconds. */
  const DEFAULT_DURATION: int := 5000

  /** A scheduled removal of toast `id` after `delay` milliseconds. */
  datatype Timer = Timer(id: string, delay: int)

  /** The new queue and the removal addToast schedules, if any. */
  datatype Added = Added(toasts: seq<Toast>, timer: Option<Timer>)

  /** addToast: the toast goes to the end of the queue with the given
      duration, or 5000 when none is given; a removal is scheduled exactly
      when that duration is positive, after that many milliseconds. */
  function AddToast(toasts: seq<Toast>, kind: Kind, title: string, message: Option<string>, duration: Option<int>, id: string): (r: Added)
    ensures |r.toasts| == |toasts| + 1 && r.toasts[..|toasts|] == toasts
    ensures var t := r.toasts[|toasts|];
      && t.id == id && t.kind == kind && t.title == title && t.message == message
      && t.duration == (if duration.Some? then duration.value else DEFAULT_DURATION)
    ensures r.timer.Some? <==> r.toasts[|toasts|].duration > 0
    ensures r.timer.Some? ==> r.timer.value == Timer(id, r.toasts[|toasts|].duration)
  {
    var d := match duration case Some(v) => v case None => DEFAULT_DURATION;
    var t := Toast(id, kind, title, message, d);
    Added(toasts + [t], if d > 0 then Some(Timer(id, d)) else None)
  }

  function IdIsNot(id: string): Toast -> bool {
    (t: Toast) => t.id != id
  }

  /** removeToast: every toast with that id goes; the rest keep their order. */
  function RemoveToast(toasts: seq<Toast>, id: string): (r: seq<Toast>)
    ensures forall t :: t in r <==> t in toasts && t.id != id
    ensures forall t: Toast :: t.id != id ==> multiset(r)[t] == multiset(toasts)[t]
    ensures IsSubsequence(r, toasts)
  {
    Filter(toasts, IdIsNot(id))
  }

  /** A timer firing removes its toast. */
  function Expire(toasts: seq<Toast>, timer: Timer): (r: seq<Toast>)
    ensures forall t :: t in r <==> t in toasts && t.id != timer.id
  {
    RemoveToast(toasts, timer.id)
  }

  /** With an id not already in the queue, the scheduled removal (or a
      dismissal by hand) gives back the queue as it was before the add. */
  lemma {:induction false} AddThenRemove(toasts: seq<Toast>, kind: Kind, title: string, message: Option<string>, duration: Option<int>, id: string)
    requires forall i :: 0 <= i < |toasts| ==> toasts[i].id != id
    ensures RemoveToast(AddToast(toasts, kind, title, message, duration, id).toasts, id) == toasts
    ensures var a := AddToast(toasts, kind, title, message, duration, id);
      a.timer.Some? ==> Expire(a.toasts, a.timer.value) == toasts
  {
    var a := AddToast(toasts, kind, title, message, duration, id);
    var t := a.toasts[|toasts|];
    assert a.toasts == toasts + [t];
    FilterAppend(toasts, [t], IdIsNot(id));
    FilterAll(toasts, IdIsNot(id));
    FilterCons(t, [], IdIsNot(id));
    assert [t] + [] == [t];
  }

  /** Removing twice is removing once, and removing an id no toast has
      changes nothing. */
  lemma RemoveIdempotent(toasts: seq<Toast>, id: string)
    ensures RemoveToast(RemoveToast(toasts, id), id) == RemoveToast(toasts, id)
    ensures (forall i :: 0 <= i < |toasts| ==> toasts[i].id != id) ==> RemoveToast(toasts, id) == toasts
  {
    if forall i :: 0 <= i < |toasts| ==> toasts[i].id != id {
      FilterAll(toasts, IdIsNot(id));
    }
    var once := RemoveToast(toasts, id);
    assert forall i :: 0 <= i < |once| ==> once[i] in once;
    FilterAll(once, IdIsNot(id));
  }

  /** Removals commute, so the order in which timers fire does not matter. */
  lemma RemoveCommutes(toasts: seq<Toast>, a: string, b: string)
    ensures RemoveToast(RemoveToast(toasts, a), b) == RemoveToast(RemoveToast(toasts, b), a)
  {
    FilterCommutes(toasts, IdIsNot(a), IdIsNot(b));
  }

  /** success, error, warning, info: addToast with the kind fixed. */
  function Notify(kind: Kind, toasts: seq<Toast>, title: string, message: Option<string>, duration: Option<int>, id: string): (r: Added)
    ensures |r.toasts| == |toasts| + 1 && r.toasts[..|toasts|] == toasts
    ensures var t := r.toasts[|toasts|];
      && t.id == id && t.kind == kind && t.title == title && t.message == message
      && t.duration == (if duration.Some? then duration.value else DEFAULT_DURATION)
    ensures r.timer.Some? <==> r.toasts[|toasts|].duration > 0
    ensures r.timer.Some? ==> r.timer.value == Timer(id, r.toasts[|toasts|].duration)
  {
    AddToast(toasts, kind, title, message, duration, id)
  }
}
