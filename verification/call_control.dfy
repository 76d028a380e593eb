/**
 * The coordinator of the timeout package (`callControl`): the heap of pending
 * futures and the number of running watchers, with the `Call`, `add` and
 * `cancel` transitions. In the source each of them runs under `cc.lock`, so
 * each is one atomic state-to-state function here. The wake channel is not
 * modelled: its sends never block and never change this state.
 */
module CallControl {
  import opened HeapOrder
  import opened Futures

  /** A watcher spawns a sibling only while fewer than this many run. */
  const MaxWatchers := 10

  /** `cc`: the heap (with every future object ever created) and `watchers`. */
  datatype Control = Control(h: Heap, watchers: int)

  /** What `Call` hands back: a real future (charged or detached), or
      `VoidFuture` (a `dummyFuture`). */
  datatype Handle = Real(id: Id) | Void

  /** Between locked regions: the heap is valid, every future in it is charged
      (its callback is set), the watcher count stays within [0, MaxWatchers],
      and pending futures always have a watcher. */
  ghost predicate Inv(c: Control) {
    && Valid(c.h)
    && (forall k :: 0 <= k < |c.h.fs| ==> c.h.mem[c.h.fs[k]].hasF)
    && 0 <= c.watchers <= MaxWatchers
    && (|c.h.fs| > 0 ==> 1 <= c.watchers)
  }

  /** The coordinator `init` builds: an empty heap and no watchers. */
  function Init(): (c: Control)
    ensures Inv(c) && |c.h.fs| == 0 && c.watchers == 0
  {
    Control(Heap([], map[]), 0)
  }

  /** Replacing a future by one with the same `idx` and `fireT`, or adding a new
      future with `idx` -1, keeps the heap valid and its keys as they were. */
  lemma PutKeepsValid(h: Heap, id: Id, fu: Future)
    requires Valid(h)
    requires id in h.mem ==> fu.idx == h.mem[id].idx && fu.fireT == h.mem[id].fireT
    requires id !in h.mem ==> fu.idx == -1
    ensures Valid(Heap(h.fs, h.mem[id := fu]))
    ensures Keys(Heap(h.fs, h.mem[id := fu])) == Keys(h)
  {
    var g := Heap(h.fs, h.mem[id := fu]);
    if id !in h.mem {
      assert forall k :: 0 <= k < |h.fs| ==> h.fs[k] != id;
    }
    assert Keys(g) == Keys(h);
  }

  /** Taking one future out of a heap whose futures are all charged, without
      touching any other future's callback, leaves only charged futures. */
  lemma ChargedAfterRemoval(h: Heap, g: Heap, gone: Id)
    requires forall k :: 0 <= k < |h.fs| ==> h.fs[k] in h.mem && h.mem[h.fs[k]].hasF
    requires forall k :: 0 <= k < |g.fs| ==> g.fs[k] in g.mem
    requires multiset(g.fs) == multiset(h.fs) - multiset{gone} && gone !in g.fs
    requires forall x :: x in h.mem && x != gone ==> x in g.mem && g.mem[x].hasF == h.mem[x].hasF
    ensures forall k :: 0 <= k < |g.fs| ==> g.mem[g.fs[k]].hasF
  {
    forall k | 0 <= k < |g.fs|
      ensures g.mem[g.fs[k]].hasF
    {
      assert g.fs[k] in multiset(g.fs);
      assert g.fs[k] in multiset(h.fs);
      assert g.fs[k] in h.fs;
    }
  }

  /** `add`: pushes a charged future and starts a watcher when none runs (`r.1`
      reports the `go cc.watcher(nil)`); otherwise only the wake signal would
      be sent, which leaves the state alone. */
  function Add(c: Control, id: Id): (r: (Control, bool))
    requires Inv(c) && id in c.h.mem && c.h.mem[id].idx == -1 && c.h.mem[id].hasF
    ensures Inv(r.0)
    ensures SameFutures(c.h.mem, r.0.h.mem)
    ensures multiset(r.0.h.fs) == multiset(c.h.fs) + multiset{id}
    ensures 0 <= r.0.h.mem[id].idx < |r.0.h.fs| && r.0.h.fs[r.0.h.mem[id].idx] == id
    ensures r.1 <==> c.watchers == 0
    ensures r.1 ==> r.0.watchers == 1
    ensures !r.1 ==> r.0.watchers == c.watchers
  {
    var h := Push(c.h, id);
    assert forall k :: 0 <= k < |h.fs| ==> h.mem[h.fs[k]].hasF by {
      forall k | 0 <= k < |h.fs|
        ensures h.mem[h.fs[k]].hasF
      {
        assert h.fs[k] in multiset(h.fs);
        if h.fs[k] != id {
          assert h.fs[k] in multiset(c.h.fs);
          assert h.fs[k] in c.h.fs;
        }
      }
    }
    if c.watchers == 0 then (Control(h, c.watchers + 1), true)
    else (Control(h, c.watchers), false)
  }

  /** `cancel`: a future whose `idx` is -1 (never charged, fired or already
      cancelled) is left alone; otherwise its callback is cleared and it is
      removed from the heap. Nothing else about any future, and not the watcher
      count, changes. */
  function Cancel(c: Control, id: Id): (r: Control)
    requires Inv(c) && id in c.h.mem
    ensures Inv(r)
    ensures r.watchers == c.watchers
    ensures r.h.mem.Keys == c.h.mem.Keys
    ensures forall x :: x in c.h.mem && x != id ==>
              r.h.mem[x].hasF == c.h.mem[x].hasF && r.h.mem[x].fireT == c.h.mem[x].fireT
    ensures r.h.mem[id].fireT == c.h.mem[id].fireT
    ensures r.h.mem[id].idx == -1 && id !in r.h.fs
    ensures c.h.mem[id].idx < 0 ==> r == c
    ensures c.h.mem[id].idx >= 0 ==>
              && id in c.h.fs
              && !r.h.mem[id].hasF
              && multiset(r.h.fs) == multiset(c.h.fs) - multiset{id}
  {
    IdxIsPosition(c.h, id);
    var fu := c.h.mem[id];
    if fu.idx < 0 then
      c
    else
      var h1 := Heap(c.h.fs, c.h.mem[id := fu.(hasF := false)]);
      PutKeepsValid(c.h, id, fu.(hasF := false));
      var (h2, gone) := Remove(h1, fu.idx);
      assert gone == id;
      IdxIsPosition(h2, id);
      ChargedAfterRemoval(c.h, h2, id);
      Control(h2, c.watchers)
  }

  /** `Call`: creates a future firing at `now + timeout` with `idx` -1 and adds
      it only when the callback is set; a future without one stays detached. */
  function Call(c: Control, id: Id, hasF: bool, now: int, timeout: int): (r: (Control, Handle))
    requires Inv(c) && id !in c.h.mem
    ensures Inv(r.0)
    ensures r.1 == Real(id) && id in r.0.h.mem
    ensures r.0.h.mem[id].hasF == hasF && r.0.h.mem[id].fireT == now + timeout
    ensures id in r.0.h.fs <==> hasF
    ensures r.0.h.mem.Keys == c.h.mem.Keys + {id}
    ensures forall x :: x in c.h.mem ==>
              r.0.h.mem[x].hasF == c.h.mem[x].hasF && r.0.h.mem[x].fireT == c.h.mem[x].fireT
    ensures hasF ==> multiset(r.0.h.fs) == multiset(c.h.fs) + multiset{id} && 1 <= r.0.watchers
    ensures !hasF ==> r.0.h.mem[id].idx == -1 && r.0.h.fs == c.h.fs && r.0.watchers == c.watchers
  {
    var fu := Future(hasF, now + timeout, -1);
    var c1 := Control(Heap(c.h.fs, c.h.mem[id := fu]), c.watchers);
    PutKeepsValid(c.h, id, fu);
    assert id !in c1.h.fs by {
      IdxIsPosition(c1.h, id);
    }
    if hasF then
      var c2 := Add(c1, id).0;
      IdxIsPosition(c2.h, id);
      (c2, Real(id))
    else
      (c1, Real(id))
  }

  /** `Future.Cancel` on either kind of handle: `future.Cancel` is `cancel`,
      and `dummyFuture.Cancel` does nothing. */
  function CancelHandle(c: Control, fu: Handle): (r: Control)
    requires Inv(c) && (fu.Real? ==> fu.id in c.h.mem)
    ensures Inv(r)
    ensures fu.Void? ==> r == c
    ensures fu.Real? ==> fu.id in r.h.mem && r.h.mem[fu.id].idx == -1 && fu.id !in r.h.fs
  {
    match fu
    case Void => c
    case Real(id) => Cancel(c, id)
  }

  /** Cancelling through a handle k times in a row. */
  function CancelTimes(c: Control, fu: Handle, k: nat): (r: Control)
    requires Inv(c) && (fu.Real? ==> fu.id in c.h.mem)
    ensures Inv(r) && (fu.Real? ==> fu.id in r.h.mem)
    decreases k
  {
    if k == 0 then c else CancelTimes(CancelHandle(c, fu), fu, k - 1)
  }

  /** Cancel is idempotent: a second cancel of the same future changes nothing. */
  lemma CancelTwiceIsCancelOnce(c: Control, id: Id)
    requires Inv(c) && id in c.h.mem
    ensures Cancel(Cancel(c, id), id) == Cancel(c, id)
  {
  }

  /** Any positive number of cancels through a handle equals one, and zero
      cancels is no change. */
  lemma {:induction false} CancelManyIsCancelOnce(c: Control, fu: Handle, k: nat)
    requires Inv(c) && (fu.Real? ==> fu.id in c.h.mem)
    ensures CancelTimes(c, fu, k) == if k == 0 then c else CancelHandle(c, fu)
    decreases k
  {
    if k > 1 {
      CancelManyIsCancelOnce(CancelHandle(c, fu), fu, k - 1);
    }
  }

  /** `Call` with a nil function yields a detached future: out of the heap with
      `idx` -1, and cancelling it any number of times changes nothing. */
  lemma NilCallIsDetached(c: Control, id: Id, now: int, timeout: int, k: nat)
    requires Inv(c) && id !in c.h.mem
    ensures var (c1, fu) := Call(c, id, false, now, timeout);
            && c1.h.mem[id].idx == -1
            && id !in c1.h.fs
            && c1.h.fs == c.h.fs
            && CancelTimes(c1, fu, k) == c1
  {
    var (c1, fu) := Call(c, id, false, now, timeout);
    CancelManyIsCancelOnce(c1, fu, k);
  }

  /** The void handle's cancel is a no-op however often it is called. */
  lemma VoidCancelIsNoop(c: Control, k: nat)
    requires Inv(c)
    ensures CancelTimes(c, Void, k) == c
  {
    CancelManyIsCancelOnce(c, Void, k);
  }

  /** Cancel undoes Call on the pending set: calling with a callback and then
      cancelling the returned handle leaves the same futures pending. That the
      cancelled future never fires afterwards is `Schedule.CancelledNeverFires`. */
  lemma CancelUndoesCall(c: Control, id: Id, now: int, timeout: int)
    requires Inv(c) && id !in c.h.mem
    ensures var (c1, fu) := Call(c, id, true, now, timeout);
            var c2 := CancelHandle(c1, fu);
            && multiset(c2.h.fs) == multiset(c.h.fs)
            && !c2.h.mem[id].hasF
            && c2.h.mem[id].idx == -1
  {
    var (c1, fu) := Call(c, id, true, now, timeout);
    IdxIsPosition(c1.h, id);
    var c2 := CancelHandle(c1, fu);
    assert multiset(c2.h.fs) == multiset(c1.h.fs) - multiset{id};
  }
}
