/** The pure part of the toast-notification manager: the toast record, the four
    reducer actions and the functions that say what each action does to the list
    of toasts and to the single pending-removal slot. */
module ToastReducer {

  datatype Option<T> = None | Some(value: T)

  /** Toast ids are the strings minted by generateId. */
  type Id = string

  /** A React node shown as title or description; the manager never looks inside. */
  type Node(==)

  /** The ToastAction element a toast may carry; opaque to the manager. */
  type ActionElement(==)

  datatype Variant = Default | Destructive

  /** How many toasts the list keeps (TOAST_LIMIT). */
  const TOAST_LIMIT: nat := 1

  /** A toast as the reducer stores it; every field but the id is optional. */
  datatype Toast = Toast(
    id: Id,
    title: Option<Node>,
    description: Option<Node>,
    action: Option<ActionElement>,
    variant: Option<Variant>,
    open: Option<bool>)

  /** A partial toast: a field that is None is absent and is left alone by a merge. */
  datatype Patch = Patch(
    id: Option<Id>,
    title: Option<Node>,
    description: Option<Node>,
    action: Option<ActionElement>,
    variant: Option<Variant>,
    open: Option<bool>)

  /** What a caller of toast() supplies: a toast without its id. */
  datatype Props = Props(
    title: Option<Node>,
    description: Option<Node>,
    action: Option<ActionElement>,
    variant: Option<Variant>,
    open: Option<bool>)

  datatype Action =
    | AddToast(toast: Toast)
    | UpdateToast(patch: Patch)
    | DismissToast(toastId: Option<Id>)
    | RemoveToast(toastId: Option<Id>)

  /** JavaScript truthiness of an optional id: undefined and "" are both false. */
  predicate Truthy(toastId: Option<Id>)
  {
    toastId.Some? && toastId.value != ""
  }

  function Min(a: nat, b: nat): nat
  {
    if a <= b then a else b
  }

  /** Array.prototype.slice(0, n). */
  function Take<T>(s: seq<T>, n: nat): (r: seq<T>)
    ensures |r| == Min(|s|, n)
    ensures forall i :: 0 <= i < |r| ==> r[i] == s[i]
  {
    if n <= |s| then s[..n] else s
  }

  // ----- ADD_TOAST -----------------------------------------------------------

  /** The new toast goes in front and the list is cut back to TOAST_LIMIT. */
  function Add(toasts: seq<Toast>, t: Toast): (r: seq<Toast>)
    ensures 0 < |r| <= TOAST_LIMIT
    ensures |r| == Min(|toasts| + 1, TOAST_LIMIT)
    ensures r[0] == t
    ensures r == [t]
  {
    Take([t] + toasts, TOAST_LIMIT)
  }

  /** The toast that toast(props) dispatches: the caller's fields, the fresh id, open. */
  function NewToast(props: Props, id: Id): (t: Toast)
    ensures t.id == id && t.open == Some(true)
    ensures t.title == props.title && t.description == props.description
    ensures t.action == props.action && t.variant == props.variant
  {
    Toast(id, props.title, props.description, props.action, props.variant, Some(true))
  }

  // ----- UPDATE_TOAST --------------------------------------------------------

  /** The field a spread `{ ...t, ...patch }` ends with. */
  function Override<T>(current: Option<T>, given: Option<T>): Option<T>
  {
    if given.Some? then given else current
  }

  predicate Matches(t: Toast, p: Patch)
  {
    p.id == Some(t.id)
  }

  /** `{ ...t, ...p }`: every field present in the patch replaces the toast's. */
  function Merge(t: Toast, p: Patch): (r: Toast)
    ensures p.id.Some? ==> r.id == p.id.value
    ensures p.id.None? ==> r.id == t.id
    ensures p.title.Some? ==> r.title == p.title
    ensures p.title.None? ==> r.title == t.title
    ensures p.description.Some? ==> r.description == p.description
    ensures p.description.None? ==> r.description == t.description
    ensures p.action.Some? ==> r.action == p.action
    ensures p.action.None? ==> r.action == t.action
    ensures p.variant.Some? ==> r.variant == p.variant
    ensures p.variant.None? ==> r.variant == t.variant
    ensures p.open.Some? ==> r.open == p.open
    ensures p.open.None? ==> r.open == t.open
  {
    Toast(
      if p.id.Some? then p.id.value else t.id,
      Override(t.title, p.title),
      Override(t.description, p.description),
      Override(t.action, p.action),
      Override(t.variant, p.variant),
      Override(t.open, p.open))
  }

  /** A patch that carries only an id leaves a toast as it was. */
  lemma MergeOnlyId(t: Toast)
    ensures Merge(t, Patch(Some(t.id), None, None, None, None, None)) == t
  {
  }

  /** Merging the same patch twice is merging it once. */
  lemma MergeIdempotent(t: Toast, p: Patch)
    ensures Merge(Merge(t, p), p) == Merge(t, p)
  {
  }

  /** `toasts.map(t => t.id === p.id ? { ...t, ...p } : t)`. */
  function Update(toasts: seq<Toast>, p: Patch): (r: seq<Toast>)
    ensures |r| == |toasts|
    ensures forall i :: 0 <= i < |r| ==> r[i].id == toasts[i].id
    ensures forall i :: 0 <= i < |r| && Matches(toasts[i], p) ==> r[i] == Merge(toasts[i], p)
    ensures forall i :: 0 <= i < |r| && !Matches(toasts[i], p) ==> r[i] == toasts[i]
    ensures (forall t :: t in toasts ==> !Matches(t, p)) ==> r == toasts
  {
    if toasts == [] then []
    else
      var head := if Matches(toasts[0], p) then Merge(toasts[0], p) else toasts[0];
      [head] + Update(toasts[1..], p)
  }

  /** Updating twice with the same patch is updating once. */
  lemma UpdateIdempotent(toasts: seq<Toast>, p: Patch)
    ensures Update(Update(toasts, p), p) == Update(toasts, p)
  {
  }

  // ----- DISMISS_TOAST -------------------------------------------------------

  /** `t.id === toastId || toastId === undefined`. */
  predicate Targets(toastId: Option<Id>, t: Toast)
  {
    toastId.None? || toastId == Some(t.id)
  }

  /** `{ ...t, open: false }`. */
  function Close(t: Toast): (r: Toast)
    ensures r.open == Some(false)
    ensures r.id == t.id && r.title == t.title && r.description == t.description
    ensures r.action == t.action && r.variant == t.variant
  {
    t.(open := Some(false))
  }

  /** The list part of DISMISS_TOAST: close every targeted toast, keep the rest. */
  function Dismiss(toasts: seq<Toast>, toastId: Option<Id>): (r: seq<Toast>)
    ensures |r| == |toasts|
    ensures forall i :: 0 <= i < |r| ==> r[i].id == toasts[i].id
    ensures forall i :: 0 <= i < |r| && Targets(toastId, toasts[i]) ==> r[i] == Close(toasts[i])
    ensures forall i :: 0 <= i < |r| && !Targets(toastId, toasts[i]) ==> r[i] == toasts[i]
  {
    if toasts == [] then []
    else
      var head := if Targets(toastId, toasts[0]) then Close(toasts[0]) else toasts[0];
      [head] + Dismiss(toasts[1..], toastId)
  }

  /** Dismissing without an id closes every toast and keeps every id in place. */
  lemma DismissAllClosesEvery(toasts: seq<Toast>)
    ensures |Dismiss(toasts, None)| == |toasts|
    ensures forall i :: 0 <= i < |toasts| ==>
      Dismiss(toasts, None)[i].open == Some(false) && Dismiss(toasts, None)[i].id == toasts[i].id
  {
  }

  /** Dismissing one id closes the toasts with that id, which stay in the list, and only them. */
  lemma DismissOneClosesOnlyIt(toasts: seq<Toast>, id: Id)
    ensures |Dismiss(toasts, Some(id))| == |toasts|
    ensures forall i :: 0 <= i < |toasts| && toasts[i].id == id ==>
      Dismiss(toasts, Some(id))[i] == Close(toasts[i])
    ensures forall i :: 0 <= i < |toasts| && toasts[i].id != id ==>
      Dismiss(toasts, Some(id))[i] == toasts[i]
  {
  }

  /** Dismissing twice with the same target is dismissing once. */
  lemma DismissIdempotent(toasts: seq<Toast>, toastId: Option<Id>)
    ensures Dismiss(Dismiss(toasts, toastId), toastId) == Dismiss(toasts, toastId)
  {
  }

  // ----- REMOVE_TOAST --------------------------------------------------------

  /** `toasts.filter(t => t.id !== id)`. */
  function Without(toasts: seq<Toast>, id: Id): (r: seq<Toast>)
    ensures |r| <= |toasts|
    ensures forall t :: t in r ==> t in toasts && t.id != id
    ensures (forall t :: t in toasts ==> t.id != id) ==> r == toasts
  {
    if toasts == [] then []
    else if toasts[0].id == id then Without(toasts[1..], id)
    else [toasts[0]] + Without(toasts[1..], id)
  }

  /** Filtering distributes over concatenation: the kept toasts stay in their order. */
  lemma {:induction false} WithoutConcat(a: seq<Toast>, b: seq<Toast>, id: Id)
    ensures Without(a + b, id) == Without(a, id) + Without(b, id)
  {
    if a == [] {
      assert a + b == b;
    } else {
      assert (a + b)[0] == a[0];
      assert (a + b)[1..] == a[1..] + b;
      WithoutConcat(a[1..], b, id);
      if a[0].id != id {
        assert [a[0]] + (Without(a[1..], id) + Without(b, id))
            == ([a[0]] + Without(a[1..], id)) + Without(b, id);
      }
    }
  }

  /** Every toast with another id is kept as often as it occurred. */
  lemma {:induction false} WithoutKeepsOthers(toasts: seq<Toast>, id: Id, t: Toast)
    requires t.id != id
    ensures multiset(Without(toasts, id))[t] == multiset(toasts)[t]
  {
    if toasts != [] {
      WithoutKeepsOthers(toasts[1..], id, t);
      assert toasts == [toasts[0]] + toasts[1..];
    }
  }

  /** Removing an id a second time changes nothing. */
  lemma WithoutIdempotent(toasts: seq<Toast>, id: Id)
    ensures Without(Without(toasts, id), id) == Without(toasts, id)
  {
  }

  /** The list part of REMOVE_TOAST. */
  function Remove(toasts: seq<Toast>, toastId: Option<Id>): (r: seq<Toast>)
    ensures toastId.None? ==> r == []
    ensures toastId.Some? ==> forall t :: t in r ==> t in toasts && t.id != toastId.value
    ensures |r| <= |toasts|
  {
    if toastId.None? then [] else Without(toasts, toastId.value)
  }

  // ----- the reducer ---------------------------------------------------------

  /** reducer(state, action).toasts */
  function Reduce(toasts: seq<Toast>, action: Action): (r: seq<Toast>)
    ensures action.AddToast? ==> 0 < |r| <= TOAST_LIMIT && r[0] == action.toast
    ensures action.UpdateToast? || action.DismissToast? ==> |r| == |toasts|
    ensures action.RemoveToast? ==> |r| <= |toasts|
    ensures |toasts| <= TOAST_LIMIT ==> |r| <= TOAST_LIMIT
  {
    match action
    case AddToast(t) => Add(toasts, t)
    case UpdateToast(p) => Update(toasts, p)
    case DismissToast(toastId) => Dismiss(toasts, toastId)
    case RemoveToast(toastId) => Remove(toasts, toastId)
  }

  /** The list after a whole run of dispatches, oldest first. */
  function ReduceAll(toasts: seq<Toast>, actions: seq<Action>): seq<Toast>
    decreases |actions|
  {
    if actions == [] then toasts
    else ReduceAll(Reduce(toasts, actions[0]), actions[1..])
  }

  /** No run of dispatches ever holds more than TOAST_LIMIT toasts, starting from a list within it. */
  lemma {:induction false} ReduceAllWithinLimit(toasts: seq<Toast>, actions: seq<Action>)
    requires |toasts| <= TOAST_LIMIT
    ensures |ReduceAll(toasts, actions)| <= TOAST_LIMIT
    decreases |actions|
  {
    if actions != [] {
      ReduceAllWithinLimit(Reduce(toasts, actions[0]), actions[1..]);
    }
  }

  /** After a run that ends with ADD_TOAST, the toast just added is the first one. */
  lemma {:induction false} ReduceAllNewestFirst(toasts: seq<Toast>, actions: seq<Action>, t: Toast)
    ensures ReduceAll(toasts, actions + [AddToast(t)]) == [t]
    decreases |actions|
  {
    if actions == [] {
      assert [AddToast(t)][1..] == [];
    } else {
      assert (actions + [AddToast(t)])[1..] == actions[1..] + [AddToast(t)];
      ReduceAllNewestFirst(Reduce(toasts, actions[0]), actions[1..], t);
    }
  }

  // ----- the removal timer ---------------------------------------------------

  function Ids(toasts: seq<Toast>): (r: seq<Id>)
    ensures |r| == |toasts| && forall i :: 0 <= i < |r| ==> r[i] == toasts[i].id
  {
    seq(|toasts|, i requires 0 <= i < |toasts| => toasts[i].id)
  }

  /** `ids.forEach(addToastToDismiss)`: each call cancels the previous pending removal. */
  function ArmEach(ids: seq<Id>, pending: Option<Id>): Option<Id>
  {
    if ids == [] then pending else ArmEach(ids[1..], Some(ids[0]))
  }

  /** Arming a run of removals leaves only the last one pending. */
  lemma {:induction false} ArmEachKeepsLast(ids: seq<Id>, pending: Option<Id>)
    ensures ids == [] ==> ArmEach(ids, pending) == pending
    ensures ids != [] ==> ArmEach(ids, pending) == Some(ids[|ids| - 1])
    decreases |ids|
  {
    if ids != [] {
      ArmEachKeepsLast(ids[1..], Some(ids[0]));
    }
  }

  /** The pending-removal slot after the reducer ran `action` on `toasts`. */
  function PendingAfter(toasts: seq<Toast>, pending: Option<Id>, action: Action): (r: Option<Id>)
    ensures !action.DismissToast? ==> r == pending
    ensures action.DismissToast? && Truthy(action.toastId) ==> r == action.toastId
    ensures action.DismissToast? && !Truthy(action.toastId) && toasts == [] ==> r == pending
    ensures action.DismissToast? && !Truthy(action.toastId) && toasts != [] ==>
      r == Some(toasts[|toasts| - 1].id)
  {
    ArmEachKeepsLast(Ids(toasts), pending);
    match action
    case DismissToast(toastId) =>
      if Truthy(toastId) then toastId else ArmEach(Ids(toasts), pending)
    case _ => pending
  }

  /** A second dismissal discards the removal the first one armed. */
  lemma LatestDismissalWins(toasts: seq<Toast>, pending: Option<Id>, a: Id, b: Id)
    requires a != "" && b != ""
    ensures PendingAfter(Dismiss(toasts, Some(a)), PendingAfter(toasts, pending, DismissToast(Some(a))),
                         DismissToast(Some(b))) == Some(b)
  {
  }

  /** A dismissal whose id is "" is falsy for the timer: it arms removal of the last toast,
      while the list part closes only toasts whose id is "". */
  lemma EmptyIdDismissArmsLastToast(t: Toast, pending: Option<Id>)
    requires t.id != ""
    ensures PendingAfter([t], pending, DismissToast(Some(""))) == Some(t.id)
    ensures Reduce([t], DismissToast(Some(""))) == [t]
  {
  }

  /** With one shared timer, dismissing a toast and then an id that is no longer listed
      leaves the first toast closed but never removed by the timer. */
  lemma StaleDismissStrandsToast(t: Toast, stale: Id)
    requires t.id != "" && stale != "" && stale != t.id
    ensures var s1 := Reduce([t], DismissToast(Some(t.id)));
            var p1 := PendingAfter([t], None, DismissToast(Some(t.id)));
            var s2 := Reduce(s1, DismissToast(Some(stale)));
            var p2 := PendingAfter(s1, p1, DismissToast(Some(stale)));
            p2 == Some(stale) && Remove(s2, p2) == [Close(t)]
  {
  }

  /** The lifecycle of two error/success toasts: the second evicts the first, dismissing
      all closes it, and the timer then purges it. */
  lemma NotifyDismissExpire(first: Toast, second: Toast)
    ensures var s1 := Reduce([], AddToast(first));
            var s2 := Reduce(s1, AddToast(second));
            var s3 := Reduce(s2, DismissToast(None));
            var p3 := PendingAfter(s2, None, DismissToast(None));
            s1 == [first] && s2 == [second] && s3 == [Close(second)]
            && p3 == Some(second.id) && Remove(s3, p3) == []
  {
  }
}
