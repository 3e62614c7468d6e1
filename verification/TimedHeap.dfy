/**
 The priority queue of a scheduler worker (network/kcp/timesched.go:12-31): a
 slice kept in heap order by the standard library's sift operations, which call
 back into its `Less`, `Swap`, `Push` and `Pop`.
 */
module TimedHeap {
  /** A function to run, by name, and the moment it is due. */
  datatype TimedFunc = TimedFunc(name: int, ts: int)

  function Parent(i: nat): nat
    requires i > 0
  {
    (i - 1) / 2
  }

  /** No entry is due before its parent. */
  ghost predicate IsHeap(h: seq<TimedFunc>) {
    forall i :: 0 < i < |h| ==> h[Parent(i)].ts <= h[i].ts
  }

  /** The first entry is due first. */
  lemma {:induction false} RootIsMin(h: seq<TimedFunc>, i: nat)
    requires IsHeap(h) && i < |h|
    ensures h[0].ts <= h[i].ts
  {
    if i > 0 {
      RootIsMin(h, Parent(i));
    }
  }

  /** Heap order everywhere but between `hole` and its parent. */
  ghost predicate HeapUp(h: seq<TimedFunc>, hole: nat) {
    && (forall i :: 0 < i < |h| && i != hole ==> h[Parent(i)].ts <= h[i].ts)
    && (0 < hole < |h| ==> forall i :: 0 < i < |h| && Parent(i) == hole ==> h[Parent(hole)].ts <= h[i].ts)
  }

  /** Heap order among the first `n` everywhere but between `hole` and its children. */
  ghost predicate HeapDown(h: seq<TimedFunc>, hole: nat, n: nat)
    requires n <= |h|
  {
    && (forall i :: 0 < i < n && Parent(i) != hole ==> h[Parent(i)].ts <= h[i].ts)
    && (0 < hole < n ==> forall i :: 0 < i < n && Parent(i) == hole ==> h[Parent(hole)].ts <= h[i].ts)
  }

  lemma SiftUpStep(h: seq<TimedFunc>, i: nat, j: nat)
    requires 0 < j < |h| && i == Parent(j) && HeapUp(h, j) && h[j].ts < h[i].ts
    ensures HeapUp(h[i := h[j]][j := h[i]], i)
  {
  }

  lemma SiftDownStep(h: seq<TimedFunc>, i: nat, j: nat, n: nat)
    requires n <= |h| && i < n && i < j < n && Parent(j) == i && HeapDown(h, i, n) && h[j].ts < h[i].ts
    requires forall k :: 0 < k < n && Parent(k) == i ==> h[j].ts <= h[k].ts
    ensures HeapDown(h[i := h[j]][j := h[i]], j, n)
  {
  }

  /** Heap order holds again once no child is due before `i`. */
  lemma SiftDownDone(h: seq<TimedFunc>, i: nat, n: nat)
    requires n <= |h| && HeapDown(h, i, n)
    requires forall k :: 0 < k < n && Parent(k) == i ==> h[i].ts <= h[k].ts
    ensures IsHeap(h[..n])
  {
  }

  class TimedFuncHeap {
    var h: seq<TimedFunc>

    constructor ()
      ensures h == []
    {
      h := [];
    }

    method Less(i: nat, j: nat) returns (less: bool)
      requires i < |h| && j < |h|
      ensures less <==> h[i].ts < h[j].ts
    {
      return h[i].ts < h[j].ts;
    }

    method Swap(i: nat, j: nat)
      requires i < |h| && j < |h|
      modifies this
      ensures h == old(h)[i := old(h)[j]][j := old(h)[i]] && multiset(h) == multiset(old(h))
    {
      h := h[i := h[j]][j := h[i]];
    }

    /** `heap.Push`: append, then sift up. */
    method Push(x: TimedFunc)
      requires IsHeap(h)
      modifies this
      ensures IsHeap(h) && multiset(h) == multiset(old(h)) + multiset{x}
    {
      h := h + [x];
      var j := |h| - 1;
      while j > 0
        invariant 0 <= j < |h| && HeapUp(h, j) && multiset(h) == multiset(old(h)) + multiset{x}
      {
        var i := (j - 1) / 2;
        var less := Less(j, i);
        if i == j || !less {
          break;
        }
        SiftUpStep(h, i, j);
        Swap(i, j);
        j := i;
      }
    }

    /** The child of `i` that is due first, if `i` has any among the first `n`. */
    method FirstChild(i: nat, n: nat) returns (j: nat)
      requires i < n <= |h|
      ensures j > i && (j >= n <==> 2 * i + 1 >= n)
      ensures j < n ==> Parent(j) == i && forall k :: 0 < k < n && Parent(k) == i ==> h[j].ts <= h[k].ts
    {
      j := 2 * i + 1;
      if j < n {
        var right := j + 1;
        if right < n {
          var less := Less(right, j);
          if less {
            j := right;
          }
        }
      }
    }

    /** Sifts the root down among the first `n`. */
    method Down(n: nat)
      requires n < |h| && HeapDown(h, 0, n)
      modifies this
      ensures |h| == |old(h)| && multiset(h) == multiset(old(h)) && h[n] == old(h)[n]
      ensures IsHeap(h[..n])
    {
      var i := 0;
      while i < n
        invariant |h| == |old(h)| && multiset(h) == multiset(old(h)) && h[n] == old(h)[n]
        invariant HeapDown(h, i, n)
        decreases n - i
      {
        var j := FirstChild(i, n);
        if j >= n {
          break;
        }
        var lower := Less(j, i);
        if !lower {
          break;
        }
        SiftDownStep(h, i, j, n);
        Swap(i, j);
        i := j;
      }
      SiftDownDone(h, i, n);
    }

    /** `heap.Pop`: swap the root to the end, sift down, cut it off. */
    method Pop() returns (x: TimedFunc)
      requires IsHeap(h) && h != []
      modifies this
      ensures IsHeap(h) && x == old(h)[0] && multiset(old(h)) == multiset(h) + multiset{x}
      ensures forall t :: t in old(h) ==> x.ts <= t.ts
    {
      forall t | t in h ensures h[0].ts <= t.ts {
        var k :| 0 <= k < |h| && h[k] == t;
        RootIsMin(h, k);
      }
      var n := |h| - 1;
      Swap(0, n);
      Down(n);
      x := h[n];
      assert h == h[..n] + [x];
      h := h[..n];
    }
  }
}
