/** The toast queue: messages shown in the corner of the screen, appended by `addToast` and
    removed by id, either when the user dismisses one or when its six-second timer runs out.
    The clock is a parameter: a toast's id is the millisecond it was added at. */
module Toasts {
  import opened Types

  datatype ToastType = Info | Success | Error

  datatype ToastMessage = ToastMessage(id: int, message: string, toastType: ToastType)

  /** `toasts.filter(t => t.id !== id)`. */
  function WithoutId(toasts: seq<ToastMessage>, id: int): seq<ToastMessage> {
    if toasts == [] then []
    else (if toasts[0].id != id then [toasts[0]] else []) + WithoutId(toasts[1..], id)
  }

  /** The filter keeps exactly the toasts with another id: none with `id` is left, and every
      other one stays. */
  lemma {:induction false} WithoutIdMembers(toasts: seq<ToastMessage>, id: int)
    ensures forall t :: t in WithoutId(toasts, id) <==> t in toasts && t.id != id
  {
    if toasts != [] {
      WithoutIdMembers(toasts[1..], id);
      assert toasts == [toasts[0]] + toasts[1..];
    }
  }

  /** The filter keeps the order: it works on each part of a list separately. */
  lemma {:induction false} WithoutIdAppend(a: seq<ToastMessage>, b: seq<ToastMessage>, id: int)
    ensures WithoutId(a + b, id) == WithoutId(a, id) + WithoutId(b, id)
  {
    if a == [] {
      assert a + b == b;
    } else {
      assert (a + b)[1..] == a[1..] + b;
      WithoutIdAppend(a[1..], b, id);
    }
  }

  /** Removing an id no toast carries leaves the list as it is. */
  lemma {:induction false} WithoutAbsentId(toasts: seq<ToastMessage>, id: int)
    requires forall k :: 0 <= k < |toasts| ==> toasts[k].id != id
    ensures WithoutId(toasts, id) == toasts
  {
    if toasts != [] {
      WithoutAbsentId(toasts[1..], id);
      assert toasts == [toasts[0]] + toasts[1..];
    }
  }

  /** Removal is idempotent. */
  lemma WithoutIdIdempotent(toasts: seq<ToastMessage>, id: int)
    ensures WithoutId(WithoutId(toasts, id), id) == WithoutId(toasts, id)
  {
    var r := WithoutId(toasts, id);
    WithoutIdMembers(toasts, id);
    assert forall k :: 0 <= k < |r| ==> r[k].id != id by {
      forall k | 0 <= k < |r| ensures r[k].id != id {
        assert r[k] in r;
      }
    }
    WithoutAbsentId(r, id);
  }

  /** The state of the provider: the toasts on screen, oldest first. */
  class ToastQueue {
    var toasts: seq<ToastMessage>

    constructor()
      ensures toasts == []
    {
      toasts := [];
    }

    /** `addToast`: one toast at the end, with id `now` and type `info` unless another is given.
        The id is returned: it is the one the toast's timer removes six seconds later. */
    method AddToast(message: string, toastType: Option<ToastType>, now: int) returns (timerId: int)
      modifies this
      ensures toasts == old(toasts) + [ToastMessage(now, message, if toastType.Some? then toastType.value else Info)]
      ensures timerId == now
    {
      var kind := if toastType.Some? then toastType.value else Info;
      toasts := toasts + [ToastMessage(now, message, kind)];
      timerId := now;
    }

    /** `removeToast`: drops every toast with that id; used by the dismiss button and the timer. */
    method RemoveToast(id: int)
      modifies this
      ensures toasts == WithoutId(old(toasts), id)
    {
      toasts := WithoutId(toasts, id);
    }
  }

  /** Two toasts added in the same millisecond share an id, so one removal takes both away and
      leaves the list as it was before them. */
  lemma SameMillisecondRemovedTogether(toasts: seq<ToastMessage>, first: ToastMessage, second: ToastMessage)
    requires first.id == second.id
    ensures WithoutId(toasts + [first] + [second], first.id) == WithoutId(toasts, first.id)
  {
    var id := first.id;
    WithoutIdAppend(toasts + [first], [second], id);
    WithoutIdAppend(toasts, [first], id);
    assert WithoutId([first], id) == [] by {
      assert [first][1..] == [];
    }
    assert WithoutId([second], id) == [] by {
      assert [second][1..] == [];
    }
  }

  /** A dismissal followed, after any number of newer toasts, by the timer of the same toast
      leaves the same list as the timer alone would have. */
  lemma DismissThenTimer(toasts: seq<ToastMessage>, id: int, later: seq<ToastMessage>)
    ensures WithoutId(WithoutId(toasts, id) + later, id) == WithoutId(toasts + later, id)
  {
    WithoutIdAppend(WithoutId(toasts, id), later, id);
    WithoutIdIdempotent(toasts, id);
    WithoutIdAppend(toasts, later, id);
  }
}
