# Deferred-call scheduler of the `timeout` package, modelled in Dafny

The Go package `timeout` lets callers ask for a function to run after a delay
(`Call(f, timeout)`) and hands back a `Future` whose `Cancel` withdraws the
request. A single process-wide coordinator (`callControl`) keeps the pending
futures in an indexed binary min-heap ordered by fire time. A small, elastic
set of watcher goroutines pops due futures and runs them. Every access to the
shared state happens under one mutex, so this model treats each locked region
as one atomic, pure state transition:

- `heap_order.dfy` (module `HeapOrder`): heap order on a sequence of keys,
  following the array layout of Go's `container/heap`. It also defines the
  "hole" predicates that hold halfway through a sift-up or sift-down, and
  proves the one-step lemmas for them.
- `futures.dfy` (module `Futures`): the `futures` slice and the future objects
  it points to. It models `futures.Less/Swap/Push/Pop` and the `container/heap`
  algorithms they plug into: `up`, `down`, `heap.Push`, `heap.Pop` and
  `heap.Remove`. Each future records its own slot in `idx`. The module proves
  that `idx` is the true slot of a future when it is in the heap and -1
  otherwise, and that the heap stays min-ordered by `fireT`.
- `call_control.dfy` (module `CallControl`): the coordinator state (heap plus
  `watchers`), `Call`, `add`, `cancel`, `future.Cancel` and
  `dummyFuture.Cancel`. It covers the detached, charged and removed lifecycle
  of a future and shows that cancel is idempotent.
- `watcher.dfy` (module `Watcher`): the locked body of one iteration of the
  watcher loop. It is a pure function of the state, the current time and the
  watcher's `misCount`. It decides to exit, to pop and spawn a sibling
  watcher, to pop and run the callback itself, or to wait for a duration.
- `schedule.dfy` (module `Schedule`): any interleaving of those locked regions.
  It shows that the watcher count stays in `[0, 10]` and that a pending future
  always has a watcher. It also shows that a future that was cancelled or has
  already fired is never fired by any later watcher step, and that no future
  fires before its delay has passed.

Representation choices:

- A Go pointer to a `future` becomes an `Id`: a key of `mem`, the map that
  holds every future object created so far.
- A callback is only present or absent (`hasF`).
- Time is an integer number of nanoseconds. `time.Now()` becomes a `now`
  parameter.
- `fireT` never changes after `Call` (`Schedule.RunKeepsFireT`). So heap
  order is stated on the key sequence `Keys(h)`, and each sift is proved against the key-level hole
  predicates.

`container/heap` belongs to Go's standard library, not to the `timeout`
package. `Up`, `Down`, `Push`, `Pop` and `Remove` follow its published
algorithm:

- `Push` appends and sifts up.
- `Pop` swaps the root with the last slot, sifts down over the shorter prefix,
  then truncates.
- `Remove(i)` swaps slot `i` with the last slot. It sifts down over the shorter
  prefix and, only if that did not move the slot, sifts up. Then it truncates.

Go computes the parent as `(j - 1) / 2` with truncating division, which gives
0 at the root. `Up` therefore tests the root explicitly, because Dafny's
Euclidean division would give -1 there. `futures.Len` is `|h.fs|`.
`futures.Less` is the predicate `Futures.Less`: a strictly earlier fire time,
as `time.Time.Before` gives.

Behaviour of the code worth noting:

- A watcher pops the root only when `now` is strictly after its fire time
  (`now.After(fireT)`). With `now` equal to the fire time it waits 0.
- Popping a future leaves `f` set, so `hasF` stays true after a fire. Its `idx`
  becomes -1, so a later cancel is still a no-op.
- The idle wait is a fixed 30 seconds. The package's tests refer to a
  `cc.idleTimeout` field that `callControl` does not have.

## Model

| member | source | states |
|---|---|---|
| `Futures.IdxIsPosition` | timeout/timeout.go:197-215 | while the heap is indexed, a future is in the slice exactly when its `idx` is not -1, and then `idx` is its slot |
| `Futures.Less` | timeout/timeout.go:191-195 | `futures.Less` holds exactly when slot i's fire time is strictly before slot j's (`time.Time.Before`), so the sifts order the heap by the key sequence |
| `Futures.Swap` | timeout/timeout.go:197-200 | swapping two slots keeps every future's `idx` equal to its slot, swaps the two fire times in the key order, and changes no callback or fire time |
| `Futures.PushBack` | timeout/timeout.go:202-206 | `futures.Push` appends the future, sets its `idx` to the new slot, and keeps the heap indexed |
| `Futures.PopBack` | timeout/timeout.go:208-215 | `futures.Pop` takes off exactly the last future, resets its `idx` to -1, and leaves the rest indexed, with the same multiset minus that future |
| `Futures.Up` | timeout/timeout.go:88 | the sift-up keeps the heap indexed, permutes only slots at or above the start slot, and changes no callback or fire time |
| `Futures.Down` | timeout/timeout.go:156 | the sift-down keeps the heap indexed and its multiset, never touches slots past the prefix, and leaves the heap unchanged when it reports no move |
| `Futures.UpOrders` | timeout/timeout.go:88 | sifting up by `Less` turns a heap that is out of order only above one slot into a min-ordered heap |
| `Futures.DownOrders` | timeout/timeout.go:156 | sifting down by `Less` turns a prefix that is out of order only below one slot into a min-ordered prefix |
| `Futures.DownOrUp` | timeout/timeout.go:120 | the down-else-up step of `heap.Remove` restores heap order over the shortened prefix, whichever side the moved future belongs on, and leaves the removed slot untouched |
| `Futures.Push` | timeout/timeout.go:88 | `heap.Push` adds exactly the new future, keeps the heap min-ordered by `fireT`, and records the new future's true slot in its `idx` |
| `Futures.RootIsEarliest` | timeout/timeout.go:153 | the root that the watcher inspects holds an earliest fire time of all pending futures |
| `Futures.Pop` | timeout/timeout.go:156 | `heap.Pop` returns a future with the earliest fire time, removes exactly it, sets its `idx` to -1, and leaves the rest min-ordered and indexed |
| `Futures.Remove` | timeout/timeout.go:120 | `heap.Remove(i)` returns the future at slot `i`, removes exactly it, sets its `idx` to -1, and leaves the rest min-ordered and indexed |
| `Futures.RemoveUndoesPush` | timeout/timeout.go:88 | removing a just-pushed future at its recorded `idx` gives back that future and the same pending multiset |
| `CallControl.Init` | timeout/timeout.go:48-53 | the initial coordinator has an empty heap and no watchers, and satisfies the invariant |
| `CallControl.Add` | timeout/timeout.go:84-95 | `add` pushes exactly the future, moves `watchers` from 0 to 1 and reports the watcher start, otherwise leaves `watchers` alone, and keeps the invariant |
| `CallControl.Cancel` | timeout/timeout.go:112-124 | `cancel` of a future with `idx` -1 changes nothing; otherwise it clears the callback, removes exactly that future, leaves it with `idx` -1, and keeps the other futures, the heap invariant and `watchers` |
| `CallControl.Call` | timeout/timeout.go:63-72 | `Call` creates a future firing at `now + timeout`; it is pending exactly when the callback is set, and a nil callback leaves it detached with `idx` -1 and the state otherwise unchanged |
| `CallControl.ChargedAfterRemoval` | timeout/timeout.go:119-120 | taking one future out of a heap of charged futures, without touching any other callback, leaves only charged futures in the heap |
| `CallControl.CancelHandle` | timeout/timeout.go:75-77 | cancelling through a handle leaves its future out of the heap with `idx` -1; the void handle changes nothing |
| `CallControl.CancelTimes` | timeout/timeout_test.go:26-27 | repeated cancels through a handle keep the coordinator invariant |
| `CallControl.CancelTwiceIsCancelOnce` | timeout/timeout.go:116-118 | cancelling a future twice equals cancelling it once |
| `CallControl.CancelManyIsCancelOnce` | timeout/timeout.go:116-120 | any positive number of cancels through a handle equals one cancel |
| `CallControl.NilCallIsDetached` | timeout/timeout.go:64-71 | a future from `Call` with a nil function is out of the heap with `idx` -1, and cancelling it any number of times changes nothing |
| `CallControl.VoidCancelIsNoop` | timeout/timeout.go:217-219 | the void future's `Cancel` never changes the state, however often it is called |
| `CallControl.CancelUndoesCall` | timeout/timeout.go:119-120 | `Call` with a callback, then cancel, leaves the same pending multiset, with the callback cleared and `idx` -1 |
| `Watcher.Step` | timeout/timeout.go:142-173 | a future fires exactly when one is overdue. The fired one is an earliest, strictly overdue, charged future, and it is removed with `idx` -1. A sibling is spawned (`watchers + 1`) below 10 watchers, else the callback runs inline. Without an overdue future the watcher exits (`watchers - 1`) exactly when another watcher remains or on its second empty look; otherwise it waits the non-negative time to the earliest fire time, or 30s on an empty heap |
| `Watcher.OverdueIffRootOverdue` | timeout/timeout.go:153-155 | checking only the root finds an overdue future whenever any pending future is overdue |
| `Watcher.PopKeepsCharged` | timeout/timeout.go:156-157 | the popped future was pending and still has its callback, and every future left in the heap has one too |
| `Watcher.LastIdleWatcherRetires` | timeout/timeout.go:143-150 | with an empty heap and no wake signal, the last watcher waits once for 30s and exits on its second look, leaving zero watchers |
| `Watcher.CancelAfterFireIsNoop` | timeout/timeout.go:116-118 | cancelling a future after a watcher popped it changes nothing |
| `Schedule.Next` | timeout/timeout.go:63-72 | every locked region keeps the coordinator invariant and never forgets a future object: `Call` (with `add`) here, `cancel` (lines 112-124) and the watcher step (lines 142-173) |
| `Schedule.Run` | timeout/timeout.go:142-173 | any interleaving of watcher steps with `Call` (lines 63-72) and `cancel` (lines 112-124) keeps `0 <= watchers <= 10`, keeps a watcher while a future is pending, and keeps the heap invariant |
| `Schedule.WatchersStayBounded` | timeout/timeout.go:89-94 | from the initial state, every reachable state has `0 <= watchers <= 10` and a watcher whenever a future is pending |
| `Schedule.NextKeepsOut` | timeout/timeout.go:63-72 | a known future that is out of the heap stays out through any one locked region: `Call` adds only its new future, and `cancel` and the watcher step only take futures out |
| `Schedule.RunKeepsOut` | timeout/timeout.go:112-124 | a known future that is out of the heap stays out through any sequence of locked regions |
| `Schedule.CancelledNeverFires` | timeout/timeout.go:116-120 | after a cancel, whatever `Call`s, cancels and watcher steps follow, no watcher step ever fires the cancelled future |
| `Schedule.FiredNeverFiresAgain` | timeout/timeout.go:156-157 | once a watcher step has popped a future, no later watcher step fires it again, whatever regions run in between |
| `Schedule.NextKeepsFireT` | timeout/timeout.go:66 | the fire time `Call` sets is never changed by any one locked region |
| `Schedule.RunKeepsFireT` | timeout/timeout.go:66 | the fire time `Call` sets stays the same through any sequence of locked regions |
| `Schedule.NeverFiresEarly` | timeout/timeout.go:154-156 | whatever regions follow `Call(f, timeout)` made at time `now0`, a watcher step fires that future only when `now` is strictly after `now0 + timeout` |

## Left out

- Goroutines, `sync.Mutex`, the `wakeCh` channel and `notifyWatcher`'s
  non-blocking send (timeout/timeout.go:126-131): each locked region is one
  atomic transition, and a send never changes the modelled state.
- `time.NewTimer` and the `select` that waits for the timer or a wake signal
  (timeout/timeout.go:175-183), including the reset of `misCount` when a wake
  signal arrives: the step only returns the duration to wait. The caller
  supplies `misCount` for the next step.
- The real clock: `time.Now()` is a `now` parameter. `time.Time.Add`/`Sub`
  saturation at the `int64` nanosecond bounds is not modelled, because integers
  are unbounded here.
- Invoking callbacks: what a callback does is opaque, so `f` is only
  present or absent.
- `future.String` and `futureAsString` (timeout/timeout.go:79-110): `fmt`
  formatting, no behaviour to prove.
- The `j1 < 0` overflow guard of `container/heap`'s `down`: indices are
  unbounded integers here, so it never fires.
- Pointer allocation: `new(future)` is modelled by a caller-chosen `Id` that is
  required to be unused.
- logging/logger.go: a logging interface, not used by this package.
- `CallControl.Add`: the wake signal sent when a watcher already runs is not
  modelled. The contract says only that the state does not change beyond the
  push.
- `CallControl.Cancel`: the wake signal sent when `watchers > 0` is not
  modelled, for the same reason.
- `Watcher.Step`: which running watcher executes a step, and the value its
  `misCount` has after a wait, are parameters of the step and are not tracked
  per watcher.
