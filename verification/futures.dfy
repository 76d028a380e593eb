/**
 * The `futures` slice of the timeout package together with the container/heap
 * algorithms that drive it: an array-backed min-heap of deferred calls ordered
 * by fire time, in which every stored future records its own slot in `idx`.
 *
 * Go pointers to `future` objects become identities (`Id`) into `mem`, which
 * holds every future object ever created, whether or not the slice points at
 * it. A future's `fireT` never changes after creation, so the order of the heap
 * is a property of its key sequence `Keys(h)`; the sifts are proved against the
 * key-level predicates of module HeapOrder.
 */
module Futures {
  import opened HeapOrder

  /** Identity of one `*future` allocation. */
  type Id = nat

  /** A deferred call: whether its callback `f` is set, its absolute fire time
      (nanoseconds), and its slot in the heap slice or -1 when not in it. */
  datatype Future = Future(hasF: bool, fireT: int, idx: int)

  /** The heap slice `fs` and the future objects its entries point to. */
  datatype Heap = Heap(fs: seq<Id>, mem: map<Id, Future>)

  /** Every slot points at a known future whose `idx` is that slot. */
  ghost predicate Tracked(h: Heap) {
    forall k :: 0 <= k < |h.fs| ==> h.fs[k] in h.mem && h.mem[h.fs[k]].idx == k
  }

  /** Every future's `idx` is either -1 or a slot that points back at it. */
  ghost predicate Located(h: Heap) {
    forall id :: id in h.mem ==>
      h.mem[id].idx == -1 || (0 <= h.mem[id].idx < |h.fs| && h.fs[h.mem[id].idx] == id)
  }

  /** `idx` is the true position of a future when it is in the slice, else -1. */
  ghost predicate Indexed(h: Heap) {
    Tracked(h) && Located(h)
  }

  /** The fire times of the slots, in slot order. */
  ghost function Keys(h: Heap): (a: seq<int>)
    ensures |a| == |h.fs|
    ensures forall k :: 0 <= k < |h.fs| && h.fs[k] in h.mem ==> a[k] == h.mem[h.fs[k]].fireT
  {
    seq(|h.fs|, k requires 0 <= k < |h.fs| => if h.fs[k] in h.mem then h.mem[h.fs[k]].fireT else 0)
  }

  /** The invariant container/heap keeps between calls: indexed and min-ordered. */
  ghost predicate Valid(h: Heap) {
    Indexed(h) && Ordered(Keys(h), |h.fs|)
  }

  /** Two object tables hold the same futures, up to their `idx` fields. */
  ghost predicate SameFutures(m: map<Id, Future>, m': map<Id, Future>) {
    && m.Keys == m'.Keys
    && forall id :: id in m ==> m'[id].hasF == m[id].hasF && m'[id].fireT == m[id].fireT
  }

  /** Under `Indexed`, a future is in the slice exactly when its `idx` is not -1,
      and then it sits at slot `idx`. */
  lemma IdxIsPosition(h: Heap, id: Id)
    requires Indexed(h) && id in h.mem
    ensures id in h.fs <==> h.mem[id].idx != -1
    ensures h.mem[id].idx != -1 ==> 0 <= h.mem[id].idx < |h.fs| && h.fs[h.mem[id].idx] == id
  {
    if id in h.fs {
      var k :| 0 <= k < |h.fs| && h.fs[k] == id;
      assert h.mem[h.fs[k]].idx == k;
    }
  }

  /** `futures.Less`: strictly earlier fire time (`time.Time.Before`). */
  predicate Less(h: Heap, i: nat, j: nat): (b: bool)
    requires i < |h.fs| && j < |h.fs| && h.fs[i] in h.mem && h.fs[j] in h.mem
    ensures b <==> Keys(h)[i] < Keys(h)[j]
  {
    h.mem[h.fs[i]].fireT < h.mem[h.fs[j]].fireT
  }

  /** `futures.Swap`: exchanges two slots and writes their new positions into
      the two futures' `idx`. */
  function Swap(h: Heap, i: nat, j: nat): (r: Heap)
    requires Indexed(h) && i < |h.fs| && j < |h.fs|
    ensures Indexed(r)
    ensures r.fs == Swapped(h.fs, i, j)
    ensures Keys(r) == Swapped(Keys(h), i, j)
    ensures SameFutures(h.mem, r.mem)
  {
    var fs := Swapped(h.fs, i, j);
    var r := Heap(fs, h.mem[fs[i] := h.mem[fs[i]].(idx := i)][fs[j] := h.mem[fs[j]].(idx := j)]);
    assert Tracked(r) by {
      forall k | 0 <= k < |fs|
        ensures fs[k] in r.mem && r.mem[fs[k]].idx == k
      {
        if k != i && k != j {
          assert fs[k] != fs[i] && fs[k] != fs[j];
        }
      }
    }
    assert Located(r) by {
      forall id | id in r.mem
        ensures r.mem[id].idx == -1 || (0 <= r.mem[id].idx < |fs| && fs[r.mem[id].idx] == id)
      {
        if id != fs[i] && id != fs[j] {
          var x := h.mem[id].idx;
          assert x != -1 ==> x != i && x != j;
        }
      }
    }
    assert Keys(r) == Swapped(Keys(h), i, j);
    r
  }

  /** `futures.Push`: records the slot in `idx` and appends. */
  function PushBack(h: Heap, id: Id): (r: Heap)
    requires Indexed(h) && id in h.mem && h.mem[id].idx == -1
    ensures SameFutures(h.mem, r.mem)
    ensures Indexed(r)
    ensures r.fs == h.fs + [id] && r.mem[id].idx == |h.fs|
    ensures Keys(r) == Keys(h) + [h.mem[id].fireT]
  {
    IdxIsPosition(h, id);
    var r := Heap(h.fs + [id], h.mem[id := h.mem[id].(idx := |h.fs|)]);
    assert forall k :: 0 <= k < |h.fs| ==> h.fs[k] != id;
    assert Keys(r) == Keys(h) + [h.mem[id].fireT];
    r
  }

  /** `futures.Pop`: truncates the last slot and resets that future's `idx` to -1. */
  function PopBack(h: Heap): (r: (Heap, Id))
    requires Indexed(h) && |h.fs| > 0
    ensures SameFutures(h.mem, r.0.mem)
    ensures Indexed(r.0)
    ensures r.1 == h.fs[|h.fs| - 1] && r.0.mem[r.1].idx == -1
    ensures r.0.fs == h.fs[..|h.fs| - 1]
    ensures multiset(r.0.fs) == multiset(h.fs) - multiset{r.1}
    ensures Keys(r.0) == Keys(h)[..|h.fs| - 1]
  {
    var last := |h.fs| - 1;
    var res := h.fs[last];
    var r := Heap(h.fs[..last], h.mem[res := h.mem[res].(idx := -1)]);
    assert Tracked(r) by {
      forall k | 0 <= k < last
        ensures r.fs[k] in r.mem && r.mem[r.fs[k]].idx == k
      {
        assert h.fs[k] != res;
      }
    }
    assert Located(r) by {
      forall id | id in r.mem
        ensures r.mem[id].idx == -1 || (0 <= r.mem[id].idx < last && r.fs[r.mem[id].idx] == id)
      {
        if id != res {
          assert h.mem[id].idx != last;
        }
      }
    }
    assert multiset(h.fs) == multiset(r.fs) + multiset{res} by {
      assert h.fs == h.fs[..last] + [res];
    }
    assert Keys(r) == Keys(h)[..last] by {
      forall k | 0 <= k < last
        ensures Keys(r)[k] == Keys(h)[k]
      {
        assert h.fs[k] != res;
      }
    }
    (r, res)
  }

  /** container/heap's `up`: sifts slot j toward the root while it is strictly
      earlier than its parent. Go computes the parent as `(j - 1) / 2` with
      truncating division, which yields 0 at the root; that is the `i == j` exit. */
  function Up(h: Heap, j: nat): (r: Heap)
    requires Indexed(h) && j < |h.fs|
    ensures Indexed(r) && |r.fs| == |h.fs|
    ensures multiset(r.fs) == multiset(h.fs)
    ensures SameFutures(h.mem, r.mem)
    ensures forall k :: j < k < |h.fs| ==> r.fs[k] == h.fs[k]
    decreases j
  {
    var i := if j == 0 then 0 else Parent(j);
    if i == j || !Less(h, j, i) then h
    else Up(Swap(h, i, j), i)
  }

  /** container/heap's `down` on the prefix of n slots: sifts slot i toward the
      leaves while its earlier child is strictly earlier than it. Returns the
      final slot; Go's `down` reports whether that slot lies below i. */
  function Down(h: Heap, i: nat, n: nat): (r: (Heap, nat))
    requires Indexed(h) && i <= n <= |h.fs|
    ensures Indexed(r.0) && |r.0.fs| == |h.fs|
    ensures multiset(r.0.fs) == multiset(h.fs)
    ensures SameFutures(h.mem, r.0.mem)
    ensures forall k :: n <= k < |h.fs| ==> r.0.fs[k] == h.fs[k]
    ensures i <= r.1
    ensures r.1 == i ==> r.0 == h
    decreases n - i
  {
    var j1 := 2 * i + 1;
    if j1 >= n then (h, i)
    else
      var j := if j1 + 1 < n && Less(h, j1 + 1, j1) then j1 + 1 else j1;
      if !Less(h, j, i) then (h, i)
      else Down(Swap(h, i, j), j, n)
  }

  /** `up` turns a sift-up hole into an ordered heap. */
  lemma {:induction false} UpOrders(h: Heap, j: nat, n: nat)
    requires Indexed(h) && j < n <= |h.fs| && UpHole(Keys(h), n, j)
    ensures Ordered(Keys(Up(h, j)), n)
    decreases j
  {
    if j == 0 || !Less(h, j, Parent(j)) {
      assert Up(h, j) == h;
      UpDone(Keys(h), n, j);
    } else {
      assert Up(h, j) == Up(Swap(h, Parent(j), j), Parent(j));
      UpStep(Keys(h), n, j);
      UpOrders(Swap(h, Parent(j), j), Parent(j), n);
    }
  }

  /** `down` turns a sift-down hole into an ordered prefix. */
  lemma {:induction false} DownOrders(h: Heap, i: nat, n: nat)
    requires Indexed(h) && i <= n <= |h.fs| && DownHole(Keys(h), n, i)
    ensures Ordered(Keys(Down(h, i, n).0), n)
    decreases n - i
  {
    if 2 * i + 1 >= n {
      assert Down(h, i, n).0 == h;
      DownDone(Keys(h), n, i);
    } else {
      var j := MinChild(Keys(h), n, i);
      if !Less(h, j, i) {
        assert Down(h, i, n).0 == h;
        DownDone(Keys(h), n, i);
      } else {
        assert Down(h, i, n) == Down(Swap(h, i, j), j, n);
        DownStep(Keys(h), n, i);
        DownOrders(Swap(h, i, j), j, n);
      }
    }
  }

  /** The `if !down(h, i, n) { up(h, i) }` tail of `heap.Remove`: sifts a
      moved future down over the prefix of n slots and, only when it did not
      move, up. Whichever side it belongs on, the prefix ends up ordered, and
      the slots from n on are not touched. */
  function DownOrUp(h: Heap, i: nat, n: nat): (r: Heap)
    requires Indexed(h) && i < n <= |h.fs| && Hole(Keys(h), n, i)
    ensures Indexed(r) && |r.fs| == |h.fs|
    ensures multiset(r.fs) == multiset(h.fs)
    ensures SameFutures(h.mem, r.mem)
    ensures forall k :: n <= k < |h.fs| ==> r.fs[k] == h.fs[k]
    ensures Ordered(Keys(r), n)
  {
    var d := Down(h, i, n);
    var r := if d.1 > i then d.0 else Up(d.0, i);
    assert Ordered(Keys(r), n) by {
      var a := Keys(h);
      if i == 0 || a[Parent(i)] <= a[i] {
        HoleNotBelowParent(a, n, i);
        DownOrders(h, i, n);
        if d.1 == i {
          OrderedIsUpHole(Keys(d.0), n, i);
          UpOrders(d.0, i, n);
        }
      } else {
        HoleBelowParent(a, n, i);
        assert d.1 == i;
        UpOrders(h, i, n);
      }
    }
    r
  }

  /** `heap.Push`: appends the future and sifts it up. */
  function Push(h: Heap, id: Id): (r: Heap)
    requires Valid(h) && id in h.mem && h.mem[id].idx == -1
    ensures SameFutures(h.mem, r.mem)
    ensures Valid(r)
    ensures multiset(r.fs) == multiset(h.fs) + multiset{id}
    ensures 0 <= r.mem[id].idx < |r.fs| && r.fs[r.mem[id].idx] == id
  {
    var g := PushBack(h, id);
    AppendIsUpHole(Keys(h), h.mem[id].fireT);
    UpOrders(g, |h.fs|, |g.fs|);
    var r := Up(g, |h.fs|);
    assert id in multiset(r.fs) by {
      assert multiset(r.fs) == multiset(g.fs) && g.fs[|h.fs|] == id;
    }
    IdxIsPosition(r, id);
    r
  }

  /** The root of a heap holds an earliest fire time. */
  lemma RootIsEarliest(h: Heap)
    requires Valid(h) && |h.fs| > 0
    ensures forall k :: 0 <= k < |h.fs| ==> h.mem[h.fs[0]].fireT <= h.mem[h.fs[k]].fireT
  {
    RootIsMinAll(Keys(h), |h.fs|);
  }

  /** The sift-down of `heap.Pop` leaves the shortened prefix ordered. */
  lemma PopOrders(h: Heap)
    requires Valid(h) && |h.fs| > 0
    ensures var n := |h.fs| - 1;
            Ordered(Keys(Down(Swap(h, 0, n), 0, n).0)[..n], n)
  {
    var n := |h.fs| - 1;
    var s := Swap(h, 0, n);
    LastToRootIsDownHole(Keys(h), n);
    DownOrders(s, 0, n);
    OrderedPrefix(Keys(Down(s, 0, n).0), n);
  }

  /** `heap.Pop`: moves the last slot to the root, sifts it down over the
      shortened prefix, and takes the old root off the end. */
  function Pop(h: Heap): (r: (Heap, Id))
    requires Valid(h) && |h.fs| > 0
    ensures SameFutures(h.mem, r.0.mem)
    ensures Valid(r.0)
    ensures r.1 == h.fs[0] && r.0.mem[r.1].idx == -1
    ensures forall k :: 0 <= k < |h.fs| ==> h.mem[r.1].fireT <= h.mem[h.fs[k]].fireT
    ensures multiset(r.0.fs) == multiset(h.fs) - multiset{r.1}
  {
    var n := |h.fs| - 1;
    RootIsEarliest(h);
    PopOrders(h);
    var d := Down(Swap(h, 0, n), 0, n).0;
    PopBack(d)
  }

  /** `heap.Remove`: moves the last slot into slot i, restores order by sifting
      down or else up over the shortened prefix, and takes the future that was
      at slot i off the end. */
  function Remove(h: Heap, i: nat): (r: (Heap, Id))
    requires Valid(h) && i < |h.fs|
    ensures SameFutures(h.mem, r.0.mem)
    ensures Valid(r.0)
    ensures r.1 == h.fs[i] && r.0.mem[r.1].idx == -1
    ensures multiset(r.0.fs) == multiset(h.fs) - multiset{r.1}
  {
    var n := |h.fs| - 1;
    if n == i then
      PopBack(h)
    else
      var w := Swap(h, i, n);
      LastToSlotIsHole(Keys(h), n, i);
      var s := DownOrUp(w, i, n);
      OrderedPrefix(Keys(s), n);
      PopBack(s)
  }

  /** `heap.Remove` undoes `heap.Push`: removing a just-pushed future at its
      recorded `idx` gives it back and leaves the same futures in the heap. */
  lemma RemoveUndoesPush(h: Heap, id: Id)
    requires Valid(h) && id in h.mem && h.mem[id].idx == -1
    ensures var g := Push(h, id);
            var (r, gone) := Remove(g, g.mem[id].idx);
            gone == id && multiset(r.fs) == multiset(h.fs) && r.mem[id].idx == -1
  {
  }
}
