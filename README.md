# Toast-notification manager, modelled in Dafny

The front end of the "Espaço La Música" course-management system reports the outcome of every
REST call through a small toast-notification manager (`src/components/ui/use-toast.ts`). This
project models that manager and proves what it does:

- a pure **reducer** over the list of toasts, with four actions: `ADD_TOAST` puts the new toast in
  front and cuts the list to `TOAST_LIMIT = 1`; `UPDATE_TOAST` merges a partial toast into the one
  with the same id; `DISMISS_TOAST` sets `open` to false on one id or on all; `REMOVE_TOAST` drops
  one id or clears the list;
- the module-level **state**: `memoryState`, the `listeners` array and `dispatch`, which stores the
  reducer's result and then calls every listener with it, in order;
- the **single shared removal timer** (`dismissTimer`, `addToastToDismiss`): every dismissal cancels
  the pending removal and arms one for the latest id;
- the public **`toast()`** entry point, which adds an open toast under a fresh id and returns
  `update` and `dismiss` bound to that id, and the subscribe/unsubscribe of `useToast`.

`toast_reducer.dfy` (module `ToastReducer`) holds the data model and the reducer as functions with
lemmas. `toast_store.dfy` (module `ToastStore`) holds the class `ToastManager`, whose fields are the
module-level state: `toasts`, `listeners`, `pending` (the id the live timer will remove) and a ghost
`log` of every listener call with the state it was handed. Its invariant `Valid()` is that the
list never holds more than `TOAST_LIMIT` toasts.

Decisions worth knowing when reading the model:

- The timer is abstract. `pending` stands for the live `setTimeout`, and `FireTimer` is the moment
  it goes off. It dispatches `REMOVE_TOAST` for that id and clears the slot.
- `if (toastId)` is JavaScript truthiness: an id of `""` counts as absent for the timer but not for
  the list (`t.id === toastId`). A `DISMISS_TOAST` with id `""` therefore arms the removal of the
  last toast in the list, while closing only toasts whose id is `""`
  (`EmptyIdDismissArmsLastToast`). The model keeps this behaviour exactly as the code has it.
- A `DISMISS_TOAST` without an id arms one removal per toast in list order. Only the last one
  survives. On an empty list nothing is armed and the previous pending removal stays.
- Because there is only one timer, dismissing a toast and then dismissing a stale id leaves the
  first toast closed but never removed by the timer (`StaleDismissStrandsToast`). This is probably
  unintended, but the model keeps it as the code has it.
- Unsubscribing removes the first registration of that listener function (`indexOf` + `splice`).
  It is not tied to the particular subscription that was made; a per-subscription handle would
  remove that registration instead. The model follows the code.

## Model

| member | source | states |
|---|---|---|
| `ToastReducer.Take` | src/components/ui/use-toast.ts:40 | `slice(0, n)` keeps the first n elements (all of them when there are fewer), each unchanged |
| `ToastReducer.Add` | src/components/ui/use-toast.ts:37-41 | after ADD_TOAST the list has between 1 and `TOAST_LIMIT` elements, element 0 is the new toast, and with limit 1 the list is exactly `[new]` |
| `ToastReducer.NewToast` | src/components/ui/use-toast.ts:157 | the toast that `toast()` adds carries the fresh id, `open = true` and the caller's title, description, action and variant |
| `ToastReducer.Merge` | src/components/ui/use-toast.ts:47 | `{ ...t, ...patch }`: each field present in the patch takes the patch's value; each absent field keeps the toast's |
| `ToastReducer.MergeOnlyId` | src/components/ui/use-toast.ts:47 | a patch carrying only the toast's own id leaves the toast unchanged |
| `ToastReducer.MergeIdempotent` | src/components/ui/use-toast.ts:47 | merging the same patch twice equals merging it once |
| `ToastReducer.Update` | src/components/ui/use-toast.ts:43-49 | UPDATE_TOAST keeps the length, order and ids; the matching toast becomes its merge with the patch and every other toast is unchanged; with no match the list is unchanged |
| `ToastReducer.UpdateIdempotent` | src/components/ui/use-toast.ts:43-49 | applying the same UPDATE_TOAST twice equals applying it once |
| `ToastReducer.Close` | src/components/ui/use-toast.ts:67 | `{ ...t, open: false }` sets `open` to false and keeps every other field |
| `ToastReducer.Dismiss` | src/components/ui/use-toast.ts:63-68 | the list part of DISMISS_TOAST keeps length and ids, closes exactly the targeted toasts (all of them when no id is given) and leaves the others unchanged |
| `ToastReducer.DismissAllClosesEvery` | src/components/ui/use-toast.ts:65-67 | DISMISS_TOAST without an id sets `open = false` on every toast and keeps every id in place |
| `ToastReducer.DismissOneClosesOnlyIt` | src/components/ui/use-toast.ts:63-68 | DISMISS_TOAST with an id closes the toasts with that id, which stay in the list, and no others |
| `ToastReducer.DismissIdempotent` | src/components/ui/use-toast.ts:63-68 | applying the same DISMISS_TOAST twice equals applying it once |
| `ToastReducer.Without` | src/components/ui/use-toast.ts:81 | the filtered list contains no toast with the id, only toasts of the input, and is the input itself when no toast had the id |
| `ToastReducer.WithoutConcat` | src/components/ui/use-toast.ts:81 | the filter distributes over concatenation, so the kept toasts keep their relative order |
| `ToastReducer.WithoutKeepsOthers` | src/components/ui/use-toast.ts:81 | every toast whose id differs is kept as many times as it occurred |
| `ToastReducer.WithoutIdempotent` | src/components/ui/use-toast.ts:81 | removing the same id twice equals removing it once |
| `ToastReducer.Remove` | src/components/ui/use-toast.ts:72-82 | REMOVE_TOAST without an id yields the empty list; with an id, no toast with that id remains and every remaining toast came from the input |
| `ToastReducer.Reduce` | src/components/ui/use-toast.ts:35-86 | ADD_TOAST puts the new toast first within the limit; UPDATE and DISMISS keep the length; REMOVE never grows the list; every action keeps a list within `TOAST_LIMIT` within it |
| `ToastReducer.ReduceAllWithinLimit` | src/components/ui/use-toast.ts:35-86 | no sequence of dispatches from a list within `TOAST_LIMIT` ever leaves more than `TOAST_LIMIT` toasts |
| `ToastReducer.ReduceAllNewestFirst` | src/components/ui/use-toast.ts:37-41 | after any sequence of dispatches ending in ADD_TOAST, the list is exactly the toast just added |
| `ToastReducer.ArmEachKeepsLast` | src/components/ui/use-toast.ts:58-60 | arming a removal for each toast in turn leaves only the last one pending, and leaves the old slot if there were none |
| `ToastReducer.PendingAfter` | src/components/ui/use-toast.ts:51-61 | after DISMISS_TOAST with a truthy id exactly that id is pending; without one, the last toast's id (or the old slot on an empty list); other actions leave the slot alone |
| `ToastReducer.LatestDismissalWins` | src/components/ui/use-toast.ts:99-106 | a corollary of `PendingAfter`, spelled out for two dismissals in a row: after the second one only its id is pending, whatever the first one armed |
| `ToastReducer.EmptyIdDismissArmsLastToast` | src/components/ui/use-toast.ts:55-67 | a dismissal with id `""` arms the removal of the listed toast but leaves that toast open |
| `ToastReducer.StaleDismissStrandsToast` | src/components/ui/use-toast.ts:97-107 | dismissing a toast and then a stale id leaves the toast closed, and the timer then removes nothing |
| `ToastReducer.NotifyDismissExpire` | src/components/ui/use-toast.ts:35-86 | two adds leave only the second toast; dismissing all closes it and arms its removal; firing that removal empties the list |
| `ToastStore.Broadcast` | src/components/ui/use-toast.ts:94 | one delivery per listener, in registration order, each handed the same new state |
| `ToastStore.IndexOf` | src/components/ui/use-toast.ts:117-118 | returns -1 exactly when the listener is not registered, otherwise its first position |
| `ToastStore.RemoveFirst` | src/components/ui/use-toast.ts:117-120 | drops exactly one registration of the listener when it is present (multiset minus one) and changes nothing otherwise |
| `ToastStore.RemoveFirstIsSplice` | src/components/ui/use-toast.ts:117-120 | dropping the first registration is splicing out the element at its first index, so the other listeners keep their order |
| `ToastStore.SubscribeUnsubscribe` | src/components/ui/use-toast.ts:115-120 | subscribing a new listener and then unsubscribing it restores the listener array |
| `ToastStore.ToastManager.constructor` | src/components/ui/use-toast.ts:88-90 | the manager starts with no toasts, no listeners and no pending removal |
| `ToastStore.ToastManager.ArmRemoval` | src/components/ui/use-toast.ts:99-107 | after `addToastToDismiss(id)` exactly one removal is pending, and it is for `id` |
| `ToastStore.ToastManager.Dispatch` | src/components/ui/use-toast.ts:92-95 | the state becomes `reducer(old, action)`, the timer slot follows `PendingAfter`, and that same new state is delivered to every listener in registration order |
| `ToastStore.ToastManager.Toast` | src/components/ui/use-toast.ts:151-159 | returns the id it was given; the list becomes the new open toast under that id; listeners receive it |
| `ToastStore.ToastManager.UpdateHandle` | src/components/ui/use-toast.ts:153-154 | the handle's `update` merges the patch into the toast with the handle's id only; every other toast is unchanged |
| `ToastStore.ToastManager.DismissHandle` | src/components/ui/use-toast.ts:155 | the handle's `dismiss` closes only the toast with the handle's id; the timer slot becomes what `PendingAfter` gives, so it arms the handle's removal when the id is non-empty, and with id `""` it arms the last listed toast's removal (or keeps the old slot on an empty list) |
| `ToastStore.ToastManager.FireTimer` | src/components/ui/use-toast.ts:103-106 | the timer dispatches REMOVE_TOAST for the pending id, leaving no toast with that id, broadcasts, and clears the slot; with no timer armed nothing changes |
| `ToastStore.ToastManager.Subscribe` | src/components/ui/use-toast.ts:115 | the listener is appended after all earlier ones |
| `ToastStore.ToastManager.Unsubscribe` | src/components/ui/use-toast.ts:116-121 | the listener array becomes the old one with the first registration of that listener removed |

## Left out

- `generateId` draws on `Math.random`. Ids are a parameter of `ToastManager.Toast` instead, and the model does not assume they are distinct.
- Real time: `setTimeout`, `clearTimeout` and the 1,000,000 ms `TOAST_REMOVE_DELAY`. An explicit `FireTimer` step replaces them.
- React hook mechanics: `React.useState`, `useCallback`, and the effect that re-subscribes whenever `state` changes. The model offers `Subscribe` and `Unsubscribe` as separate operations.
- The `toast` function that `useToast` returns (lines 126-140) builds the same handle as the exported `toast()`. `ToastManager.Toast` models both.
- `ReactNode`, `ReactElement` and the listener functions are opaque values compared by identity. The other `ToastProps` fields come from `./toast`, which is not part of this model. `variant` is reduced to `default` and `destructive`.
- `ToastReducer.Merge`: a patch key that is present with the value `undefined` is treated like an absent key. In JavaScript, the spread would copy the `undefined` and clear that field.
- The `default: return state` branch of the reducer cannot be reached, because the action type is closed.
- Listeners are assumed not to dispatch or subscribe while a broadcast is running. React's `setState` only schedules work, so a listener call does not re-enter the manager.
- The CRUD pages, routing, type declarations and build configuration hold no manager logic.
