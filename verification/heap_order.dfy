/**
 * Heap order on a sequence of keys, for an array-backed binary min-heap laid
 * out the way Go's container/heap lays it out: slot 0 is the root and slots
 * 2k+1 and 2k+2 are the children of slot k. Only a prefix of n slots belongs
 * to the heap; container/heap's `down` sifts inside such a prefix while the
 * slot being removed waits just past it.
 *
 * The predicates below describe the heap in the middle of a sift: a "hole"
 * is the one slot that may still be out of order with its parent (sift-up)
 * or with its children (sift-down).
 */
module HeapOrder {

  /** Parent of a non-root slot. */
  function Parent(k: nat): (p: nat)
    requires 0 < k
    ensures p < k
    ensures k == 2 * p + 1 || k == 2 * p + 2
  {
    (k - 1) / 2
  }

  /** Exchanges two slots of a sequence. */
  function Swapped<T>(a: seq<T>, i: nat, j: nat): (b: seq<T>)
    requires i < |a| && j < |a|
    ensures |b| == |a| && b[i] == a[j] && b[j] == a[i]
    ensures forall k :: 0 <= k < |a| && k != i && k != j ==> b[k] == a[k]
    ensures multiset(b) == multiset(a)
  {
    a[i := a[j]][j := a[i]]
  }

  /** Every slot of the first n is no smaller than its parent. */
  ghost predicate Ordered(a: seq<int>, n: nat)
    requires n <= |a|
  {
    forall k :: 0 < k < n ==> a[Parent(k)] <= a[k]
  }

  /** The parent of slot i is no larger than the children of i. */
  ghost predicate Bridged(a: seq<int>, n: nat, i: nat)
    requires i < n <= |a|
  {
    && (0 < i && 2 * i + 1 < n ==> a[Parent(i)] <= a[2 * i + 1])
    && (0 < i && 2 * i + 2 < n ==> a[Parent(i)] <= a[2 * i + 2])
  }

  /** Sift-up in progress at j: only the edge from j to its parent may be out of order. */
  ghost predicate UpHole(a: seq<int>, n: nat, j: nat)
    requires j < n <= |a|
  {
    && (forall k :: 0 < k < n && k != j ==> a[Parent(k)] <= a[k])
    && Bridged(a, n, j)
  }

  /** Sift-down in progress at i: only the edges from i to its children may be
      out of order. With i == n (nothing left to sift) this is plain order. */
  ghost predicate DownHole(a: seq<int>, n: nat, i: nat)
    requires i <= n <= |a|
  {
    && (forall k :: 0 < k < n && Parent(k) != i ==> a[Parent(k)] <= a[k])
    && (i < n ==> Bridged(a, n, i))
  }

  /** Slot i was overwritten: every edge that does not touch i is in order. */
  ghost predicate Hole(a: seq<int>, n: nat, i: nat)
    requires i < n <= |a|
  {
    && (forall k :: 0 < k < n && k != i && Parent(k) != i ==> a[Parent(k)] <= a[k])
    && Bridged(a, n, i)
  }

  /** The child of i that container/heap's `down` picks: the right child only
      when it is strictly smaller than the left one. */
  function MinChild(a: seq<int>, n: nat, i: nat): (m: nat)
    requires 2 * i + 1 < n <= |a|
    ensures m == 2 * i + 1 || m == 2 * i + 2
    ensures m < n && Parent(m) == i
    ensures a[m] <= a[2 * i + 1] && (2 * i + 2 < n ==> a[m] <= a[2 * i + 2])
  {
    if 2 * i + 2 < n && a[2 * i + 2] < a[2 * i + 1] then 2 * i + 2 else 2 * i + 1
  }

  /** In a heap the root is no larger than any slot. */
  lemma {:induction false} RootIsMin(a: seq<int>, n: nat, k: nat)
    requires n <= |a| && Ordered(a, n) && k < n
    ensures a[0] <= a[k]
    decreases k
  {
    if k > 0 {
      RootIsMin(a, n, Parent(k));
    }
  }

  lemma RootIsMinAll(a: seq<int>, n: nat)
    requires n <= |a| && Ordered(a, n)
    ensures forall k :: 0 <= k < n ==> a[0] <= a[k]
  {
    forall k | 0 <= k < n
      ensures a[0] <= a[k]
    {
      RootIsMin(a, n, k);
    }
  }

  /** One iteration of `up`: swapping a too-small slot with its parent moves
      the hole one level up. */
  lemma UpStep(a: seq<int>, n: nat, j: nat)
    requires 0 < j < n <= |a| && UpHole(a, n, j) && a[j] < a[Parent(j)]
    ensures UpHole(Swapped(a, Parent(j), j), n, Parent(j))
  {
    var p := Parent(j);
    var b := Swapped(a, p, j);
    forall k | 0 < k < n && k != p
      ensures b[Parent(k)] <= b[k]
    {
      if k == j {
      } else if Parent(k) == j {
        assert b[Parent(k)] == a[p];
      } else if Parent(k) == p {
        assert b[Parent(k)] == a[j];
      } else {
        assert b[Parent(k)] == a[Parent(k)];
      }
    }
    if 0 < p {
      var g := Parent(p);
      assert b[g] == a[g] <= a[p];
      if 2 * p + 1 < n && 2 * p + 1 != j {
        assert Parent(2 * p + 1) == p;
      }
      if 2 * p + 2 < n && 2 * p + 2 != j {
        assert Parent(2 * p + 2) == p;
      }
    }
  }

  /** `up` stops at the root or once the slot is no smaller than its parent;
      either way the heap is ordered. */
  lemma UpDone(a: seq<int>, n: nat, j: nat)
    requires j < n <= |a| && UpHole(a, n, j)
    requires j == 0 || a[Parent(j)] <= a[j]
    ensures Ordered(a, n)
  {
  }

  /** One iteration of `down`: swapping a too-large slot with its smaller
      child moves the hole one level down. */
  lemma DownStep(a: seq<int>, n: nat, i: nat)
    requires 2 * i + 1 < n <= |a| && DownHole(a, n, i)
    requires a[MinChild(a, n, i)] < a[i]
    ensures DownHole(Swapped(a, i, MinChild(a, n, i)), n, MinChild(a, n, i))
  {
    var m := MinChild(a, n, i);
    var b := Swapped(a, i, m);
    forall k | 0 < k < n && Parent(k) != m
      ensures b[Parent(k)] <= b[k]
    {
      if k == m {
      } else if Parent(k) == i {
        assert b[Parent(k)] == a[m];
      } else if k == i {
        assert b[Parent(k)] == a[Parent(i)];
      } else {
        assert b[Parent(k)] == a[Parent(k)];
      }
    }
    if 2 * m + 1 < n {
      assert Parent(2 * m + 1) == m;
    }
    if 2 * m + 2 < n {
      assert Parent(2 * m + 2) == m;
    }
  }

  /** `down` stops at a leaf or once the slot is no larger than its smaller
      child; either way the heap is ordered. */
  lemma DownDone(a: seq<int>, n: nat, i: nat)
    requires i <= n <= |a| && DownHole(a, n, i)
    requires 2 * i + 1 < n ==> a[i] <= a[MinChild(a, n, i)]
    ensures Ordered(a, n)
  {
    forall k | 0 < k < n
      ensures a[Parent(k)] <= a[k]
    {
      if Parent(k) == i {
        assert a[i] <= a[MinChild(a, n, i)];
      }
    }
  }

  /** Order of a prefix does not depend on the slots past it. */
  lemma OrderedPrefix(a: seq<int>, n: nat)
    requires n <= |a| && Ordered(a, n)
    ensures Ordered(a[..n], n)
  {
    forall k | 0 < k < n
      ensures a[..n][Parent(k)] <= a[..n][k]
    {
      assert a[..n][Parent(k)] == a[Parent(k)];
    }
  }

  /** An ordered heap is a sift-up hole at any slot. */
  lemma OrderedIsUpHole(a: seq<int>, n: nat, j: nat)
    requires j < n <= |a| && Ordered(a, n)
    ensures UpHole(a, n, j)
  {
    if 0 < j && 2 * j + 1 < n {
      assert Parent(2 * j + 1) == j;
    }
    if 0 < j && 2 * j + 2 < n {
      assert Parent(2 * j + 2) == j;
    }
  }

  /** Appending a key to an ordered heap leaves a sift-up hole at the new slot. */
  lemma AppendIsUpHole(a: seq<int>, x: int)
    requires Ordered(a, |a|)
    ensures UpHole(a + [x], |a| + 1, |a|)
  {
    var b := a + [x];
    forall k | 0 < k < |b| && k != |a|
      ensures b[Parent(k)] <= b[k]
    {
      assert b[Parent(k)] == a[Parent(k)] && b[k] == a[k];
    }
  }

  /** Moving the last key of an ordered heap to the root and dropping the last
      slot from the prefix leaves a sift-down hole at the root. */
  lemma LastToRootIsDownHole(a: seq<int>, n: nat)
    requires |a| == n + 1 && Ordered(a, n + 1)
    ensures DownHole(Swapped(a, 0, n), n, 0)
  {
    var b := Swapped(a, 0, n);
    forall k | 0 < k < n && Parent(k) != 0
      ensures b[Parent(k)] <= b[k]
    {
      assert b[Parent(k)] == a[Parent(k)] && b[k] == a[k];
    }
  }

  /** Moving the last key of an ordered heap into slot i < n and dropping the
      last slot from the prefix leaves a hole at i. */
  lemma LastToSlotIsHole(a: seq<int>, n: nat, i: nat)
    requires i < n && |a| == n + 1 && Ordered(a, n + 1)
    ensures Hole(Swapped(a, i, n), n, i)
  {
    var b := Swapped(a, i, n);
    forall k | 0 < k < n && k != i && Parent(k) != i
      ensures b[Parent(k)] <= b[k]
    {
      assert b[Parent(k)] == a[Parent(k)] && b[k] == a[k];
    }
    if 0 < i && 2 * i + 1 < n {
      assert Parent(2 * i + 1) == i;
      assert a[Parent(i)] <= a[i] <= a[2 * i + 1];
    }
    if 0 < i && 2 * i + 2 < n {
      assert Parent(2 * i + 2) == i;
      assert a[Parent(i)] <= a[i] <= a[2 * i + 2];
    }
  }

  /** A hole whose key is no smaller than its parent's only needs sifting down. */
  lemma HoleNotBelowParent(a: seq<int>, n: nat, i: nat)
    requires i < n <= |a| && Hole(a, n, i)
    requires i == 0 || a[Parent(i)] <= a[i]
    ensures DownHole(a, n, i)
  {
  }

  /** A hole whose key is below its parent's is below its children too, so it
      only needs sifting up. */
  lemma HoleBelowParent(a: seq<int>, n: nat, i: nat)
    requires 0 < i < n <= |a| && Hole(a, n, i)
    requires a[i] < a[Parent(i)]
    ensures UpHole(a, n, i)
    ensures 2 * i + 1 < n ==> a[i] < a[MinChild(a, n, i)]
  {
    forall k | 0 < k < n && k != i
      ensures a[Parent(k)] <= a[k]
    {
      if Parent(k) == i {
        assert k == 2 * i + 1 || k == 2 * i + 2;
      }
    }
  }
}
