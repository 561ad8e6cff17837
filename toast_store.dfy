/** The stateful part of the toast-notification manager: the module-level state,
    the listener array, the single shared removal timer, dispatch and toast(). */
module ToastStore {
  import opened ToastReducer

  /** A subscribed callback (the setState of a mounted useToast), compared by identity. */
  type Listener(==)

  /** One call of a listener, with the state it was handed. */
  datatype Delivery = Delivery(listener: Listener, snapshot: seq<Toast>)

  /** What `listeners.forEach(listener => listener(s))` hands out, in registration order. */
  function Broadcast(listeners: seq<Listener>, s: seq<Toast>): (r: seq<Delivery>)
    ensures |r| == |listeners|
    ensures forall i :: 0 <= i < |r| ==> r[i].listener == listeners[i] && r[i].snapshot == s
  {
    seq(|listeners|, i requires 0 <= i < |listeners| => Delivery(listeners[i], s))
  }

  /** `listeners.indexOf(l)`: the first position of l, or -1. */
  method IndexOf(listeners: seq<Listener>, l: Listener) returns (k: int)
    ensures -1 <= k < |listeners|
    ensures k == -1 <==> l !in listeners
    ensures 0 <= k ==> listeners[k] == l && l !in listeners[..k]
  {
    k := 0;
    while k < |listeners|
      invariant 0 <= k <= |listeners|
      invariant l !in listeners[..k]
    {
      if listeners[k] == l {
        return;
      }
      assert listeners[..k + 1] == listeners[..k] + [listeners[k]];
      k := k + 1;
    }
    assert listeners[..k] == listeners;
    k := -1;
  }

  /** The listener array after the first registration of l is dropped. */
  function RemoveFirst(listeners: seq<Listener>, l: Listener): (r: seq<Listener>)
    ensures l !in listeners ==> r == listeners
    ensures l in listeners ==> |r| == |listeners| - 1
    ensures multiset(r) == multiset(listeners) - multiset{l}
  {
    if listeners == [] then []
    else
      assert listeners == [listeners[0]] + listeners[1..];
      if listeners[0] == l then listeners[1..]
      else [listeners[0]] + RemoveFirst(listeners[1..], l)
  }

  /** Dropping the first registration is splicing out the element at its index:
      the others keep their order. */
  lemma {:induction false} RemoveFirstIsSplice(listeners: seq<Listener>, l: Listener, k: nat)
    requires k < |listeners| && listeners[k] == l && l !in listeners[..k]
    ensures RemoveFirst(listeners, l) == listeners[..k] + listeners[k + 1..]
  {
    if k > 0 {
      assert listeners[0] in listeners[..k];
      assert listeners[1..][..k - 1] == listeners[1..k];
      assert l !in listeners[1..][..k - 1];
      RemoveFirstIsSplice(listeners[1..], l, k - 1);
      assert listeners[..k] == [listeners[0]] + listeners[1..k];
      assert listeners[1..][k..] == listeners[k + 1..];
    }
  }

  /** Subscribing and then unsubscribing a listener that was not yet registered
      restores the listener array. */
  lemma {:induction false} SubscribeUnsubscribe(listeners: seq<Listener>, l: Listener)
    requires l !in listeners
    ensures RemoveFirst(listeners + [l], l) == listeners
  {
    assert (listeners + [l])[..|listeners|] == listeners;
    RemoveFirstIsSplice(listeners + [l], l, |listeners|);
    assert (listeners + [l])[|listeners| + 1..] == [];
  }

  class ToastManager {
    /** memoryState.toasts */
    var toasts: seq<Toast>
    /** The listeners array, in subscription order. */
    var listeners: seq<Listener>
    /** The id the live dismissTimer will remove, if a timer is armed. */
    var pending: Option<Id>
    /** Every listener call so far, oldest first. */
    ghost var log: seq<Delivery>

    /** The list never holds more than TOAST_LIMIT toasts. */
    ghost predicate Valid()
      reads this
    {
      |toasts| <= TOAST_LIMIT
    }

    /** The state when the module is loaded: no toasts, no listeners, no timer. */
    constructor ()
      ensures Valid()
      ensures toasts == [] && listeners == [] && pending == None && log == []
    {
      toasts := [];
      listeners := [];
      pending := None;
      log := [];
    }

    /** addToastToDismiss: cancel the pending removal, if any, and arm one for this id. */
    method ArmRemoval(id: Id)
      modifies this`pending
      ensures pending == Some(id)
    {
      pending := Some(id);
    }

    /** dispatch: run the reducer (with the timer side effect of DISMISS_TOAST), store
        the new list and hand it to every listener in order. */
    method Dispatch(action: Action)
      requires Valid()
      modifies this
      ensures Valid()
      ensures toasts == Reduce(old(toasts), action)
      ensures pending == PendingAfter(old(toasts), old(pending), action)
      ensures listeners == old(listeners)
      ensures log == old(log) + Broadcast(listeners, toasts)
    {
      if action.DismissToast? {
        if Truthy(action.toastId) {
          ArmRemoval(action.toastId.value);
        } else {
          var i := 0;
          while i < |toasts|
            invariant 0 <= i <= |toasts|
            invariant toasts == old(toasts) && listeners == old(listeners) && log == old(log)
            invariant pending == if i == 0 then old(pending) else Some(toasts[i - 1].id)
          {
            ArmRemoval(toasts[i].id);
            i := i + 1;
          }
        }
      }
      toasts := Reduce(toasts, action);
      var j := 0;
      while j < |listeners|
        invariant 0 <= j <= |listeners|
        invariant toasts == Reduce(old(toasts), action)
        invariant pending == PendingAfter(old(toasts), old(pending), action)
        invariant listeners == old(listeners)
        invariant log == old(log) + Broadcast(listeners[..j], toasts)
      {
        assert Broadcast(listeners[..j + 1], toasts)
            == Broadcast(listeners[..j], toasts) + [Delivery(listeners[j], toasts)];
        log := log + [Delivery(listeners[j], toasts)];
        j := j + 1;
      }
      assert listeners[..j] == listeners;
    }

    /** toast(props): add an open toast under the fresh id and return that id, to which
        the handle's update and dismiss are bound. */
    method Toast(props: Props, id: Id) returns (handle: Id)
      requires Valid()
      modifies this
      ensures Valid()
      ensures handle == id
      ensures toasts == [NewToast(props, id)]
      ensures toasts[0].id == id && toasts[0].open == Some(true)
      ensures pending == old(pending) && listeners == old(listeners)
      ensures log == old(log) + Broadcast(listeners, toasts)
    {
      Dispatch(AddToast(NewToast(props, id)));
      handle := id;
    }

    /** The update closure of a handle: merge the patch, with the handle's id forced in. */
    method UpdateHandle(handle: Id, props: Patch)
      requires Valid()
      modifies this
      ensures Valid()
      ensures toasts == Update(old(toasts), props.(id := Some(handle)))
      ensures forall i :: 0 <= i < |toasts| && old(toasts)[i].id != handle ==> toasts[i] == old(toasts)[i]
      ensures pending == old(pending) && listeners == old(listeners)
      ensures log == old(log) + Broadcast(listeners, toasts)
    {
      Dispatch(UpdateToast(props.(id := Some(handle))));
    }

    /** The dismiss closure of a handle: close that toast and arm its removal (for a handle
        of "", which is falsy, the removal of the last listed toast instead). */
    method DismissHandle(handle: Id)
      requires Valid()
      modifies this
      ensures Valid()
      ensures toasts == Dismiss(old(toasts), Some(handle))
      ensures forall i :: 0 <= i < |toasts| && old(toasts)[i].id != handle ==> toasts[i] == old(toasts)[i]
      ensures forall i :: 0 <= i < |toasts| && old(toasts)[i].id == handle ==> toasts[i].open == Some(false)
      ensures pending == PendingAfter(old(toasts), old(pending), DismissToast(Some(handle)))
      ensures handle != "" ==> pending == Some(handle)
      ensures listeners == old(listeners)
      ensures log == old(log) + Broadcast(listeners, toasts)
    {
      Dispatch(DismissToast(Some(handle)));
    }

    /** The removal timer goes off: dispatch REMOVE_TOAST for its id and clear the slot. */
    method FireTimer()
      requires Valid()
      modifies this
      ensures Valid()
      ensures pending == None
      ensures listeners == old(listeners)
      ensures old(pending).None? ==> toasts == old(toasts) && log == old(log)
      ensures old(pending).Some? ==> toasts == Without(old(toasts), old(pending).value)
      ensures old(pending).Some? ==> log == old(log) + Broadcast(listeners, toasts)
      ensures old(pending).Some? ==> forall t :: t in toasts ==> t.id != old(pending).value
    {
      if pending.Some? {
        Dispatch(RemoveToast(Some(pending.value)));
        pending := None;
      }
    }

    /** useToast's effect: listeners.push(setState). */
    method Subscribe(l: Listener)
      modifies this`listeners
      ensures listeners == old(listeners) + [l]
    {
      listeners := listeners + [l];
    }

    /** useToast's cleanup: splice out the first occurrence of the listener, if any. */
    method Unsubscribe(l: Listener)
      modifies this`listeners
      ensures listeners == RemoveFirst(old(listeners), l)
    {
      var index := IndexOf(listeners, l);
      if index > -1 {
        RemoveFirstIsSplice(listeners, l, index);
        listeners := listeners[..index] + listeners[index + 1..];
      }
    }
  }
}
