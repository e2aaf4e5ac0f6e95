/**
 The indexed binary heap of prototype/graph/heap.go.  The queue orders vertices by a cost
 slice that it shares with its user: the user lowers a cost and then calls Fix.
 */
module PriorityQueue {

  // ---------------------------------------------------------------------------
  // Heap order and inverse index, on values
  // ---------------------------------------------------------------------------

  /** Go's (j-1)/2 truncates toward zero, so the parent of 0 is 0. */
  function Parent(j: nat): nat {
    if j == 0 then 0 else (j - 1) / 2
  }

  ghost predicate InRange(heap: seq<nat>, n: nat) {
    forall k :: 0 <= k < |heap| ==> heap[k] < n
  }

  /** index inverts heap; in particular no vertex occurs twice. */
  ghost predicate Inverse(heap: seq<nat>, index: seq<int>) {
    forall k :: 0 <= k < |heap| ==> heap[k] < |index| && index[heap[k]] == k
  }

  /** The vertex at position k costs no less than the one at its parent. */
  ghost predicate OrderedAt(heap: seq<nat>, cost: seq<int>, k: nat)
    requires InRange(heap, |cost|) && k < |heap|
  {
    cost[heap[Parent(k)]] <= cost[heap[k]]
  }

  ghost predicate Ordered(heap: seq<nat>, cost: seq<int>, n: nat)
    requires InRange(heap, |cost|) && n <= |heap|
  {
    forall k: nat :: k < n ==> OrderedAt(heap, cost, k)
  }

  /** The grandparent of every child of i costs no more than the child. */
  ghost predicate Bridged(heap: seq<nat>, cost: seq<int>, i: nat, n: nat)
    requires InRange(heap, |cost|) && n <= |heap|
  {
    forall k: nat :: 0 < k < n && Parent(k) == i && i > 0 ==> cost[heap[Parent(i)]] <= cost[heap[k]]
  }

  /** In heap order but for the edge from i to its parent. */
  ghost predicate LooseAbove(heap: seq<nat>, cost: seq<int>, i: nat, n: nat)
    requires InRange(heap, |cost|) && n <= |heap|
  {
    && (forall k: nat :: k < n && k != i ==> OrderedAt(heap, cost, k))
    && Bridged(heap, cost, i, n)
  }

  /** In heap order but for the edges from i to its children and, when above holds, to its parent. */
  ghost predicate LooseBelow(heap: seq<nat>, cost: seq<int>, i: nat, n: nat, above: bool)
    requires InRange(heap, |cost|) && n <= |heap|
  {
    && (forall k: nat :: k < n && (k == 0 || Parent(k) != i) && (above ==> k != i) ==> OrderedAt(heap, cost, k))
    && Bridged(heap, cost, i, n)
  }

  ghost predicate SameElements(a: seq<nat>, b: seq<nat>) {
    |a| == |b| && forall x :: x in a <==> x in b
  }

  function Swapped(heap: seq<nat>, i: nat, j: nat): seq<nat>
    requires i < |heap| && j < |heap|
  {
    heap[i := heap[j]][j := heap[i]]
  }

  lemma SwapKeepsElements(heap: seq<nat>, i: nat, j: nat)
    requires i < |heap| && j < |heap|
    ensures SameElements(heap, Swapped(heap, i, j))
  {
    var t := Swapped(heap, i, j);
    forall x | x in heap
      ensures x in t
    {
      var k :| 0 <= k < |heap| && heap[k] == x;
      assert t[if k == i then j else if k == j then i else k] == x;
    }
  }

  /** One step of the up loop: the smaller vertex moves to its parent's place. */
  lemma UpStep(heap: seq<nat>, cost: seq<int>, j: nat)
    requires InRange(heap, |cost|) && 0 < j < |heap| && LooseAbove(heap, cost, j, |heap|)
    requires cost[heap[j]] < cost[heap[Parent(j)]]
    ensures InRange(Swapped(heap, Parent(j), j), |cost|)
    ensures LooseAbove(Swapped(heap, Parent(j), j), cost, Parent(j), |heap|)
  {
    var i := Parent(j);
    var t := Swapped(heap, i, j);
    forall k: nat | k < |heap| && k != i
      ensures OrderedAt(t, cost, k)
    {
      assert k != j ==> OrderedAt(heap, cost, k);
    }
    forall k: nat | 0 < k < |heap| && Parent(k) == i
      ensures cost[t[Parent(i)]] <= cost[t[k]]
    {
      assert OrderedAt(heap, cost, i);
      assert k != j ==> OrderedAt(heap, cost, k);
    }
  }

  lemma DownStepAt(heap: seq<nat>, cost: seq<int>, i: nat, j: nat, n: nat, above: bool, k: nat)
    requires InRange(heap, |cost|) && n <= |heap| && j < n && 0 < j && Parent(j) == i
    requires LooseBelow(heap, cost, i, n, above)
    requires cost[heap[j]] < cost[heap[i]]
    requires forall x: nat :: 0 < x < n && Parent(x) == i ==> cost[heap[j]] <= cost[heap[x]]
    requires k < n && (k == 0 || Parent(k) != j)
    ensures InRange(Swapped(heap, i, j), |cost|) && OrderedAt(Swapped(heap, i, j), cost, k)
  {
    if k != i && (k == 0 || Parent(k) != i) {
      assert OrderedAt(heap, cost, k);
    }
  }

  /** One step of the down loop: the smaller child j moves up into i's place. */
  lemma DownStep(heap: seq<nat>, cost: seq<int>, i: nat, j: nat, n: nat, above: bool)
    requires InRange(heap, |cost|) && n <= |heap| && j < n && 0 < j && Parent(j) == i
    requires LooseBelow(heap, cost, i, n, above)
    requires cost[heap[j]] < cost[heap[i]]
    requires forall k: nat :: 0 < k < n && Parent(k) == i ==> cost[heap[j]] <= cost[heap[k]]
    ensures InRange(Swapped(heap, i, j), |cost|)
    ensures LooseBelow(Swapped(heap, i, j), cost, j, n, false)
  {
    var t := Swapped(heap, i, j);
    forall k: nat | k < n && (k == 0 || Parent(k) != j)
      ensures OrderedAt(t, cost, k)
    {
      DownStepAt(heap, cost, i, j, n, above, k);
    }
    forall k: nat | 0 < k < n && Parent(k) == j
      ensures cost[t[Parent(j)]] <= cost[t[k]]
    {
      assert OrderedAt(heap, cost, k);
    }
  }

  lemma Children(i: nat)
    ensures forall k: nat {:trigger Parent(k)} :: 0 < k && Parent(k) == i <==> k == 2 * i + 1 || k == 2 * i + 2
  {
  }

  /** No child of i costs less than the vertex at i. */
  ghost predicate Settled(heap: seq<nat>, cost: seq<int>, i: nat, n: nat)
    requires InRange(heap, |cost|) && n <= |heap| && i < n
  {
    forall k: nat :: 0 < k < n && Parent(k) == i ==> cost[heap[i]] <= cost[heap[k]]
  }

  /** The down loop ends: everything is in order, but for the edge above i if nothing moved. */
  lemma DownEnds(heap: seq<nat>, cost: seq<int>, i: nat, n: nat, above: bool)
    requires InRange(heap, |cost|) && i < n <= |heap| && LooseBelow(heap, cost, i, n, above) && Settled(heap, cost, i, n)
    ensures if above then LooseAbove(heap, cost, i, n) else Ordered(heap, cost, n)
  {
    forall k: nat | k < n && (above ==> k != i)
      ensures OrderedAt(heap, cost, k)
    {
    }
  }

  /** Putting the last vertex in the root's place leaves the root loose. */
  lemma PopReady(heap: seq<nat>, cost: seq<int>, n: nat)
    requires InRange(heap, |cost|) && n == |heap| - 1 && n > 0 && Ordered(heap, cost, |heap|)
    ensures InRange(Swapped(heap, 0, n), |cost|)
    ensures LooseBelow(Swapped(heap, 0, n), cost, 0, n, true)
  {
    var t := Swapped(heap, 0, n);
    forall k: nat | k < n && (k == 0 || Parent(k) != 0) && k != 0
      ensures OrderedAt(t, cost, k)
    {
      assert OrderedAt(heap, cost, k);
    }
  }

  /** Changing the cost of the vertex at i loosens only the edges at i. */
  lemma ChangeLoosens(heap: seq<nat>, cost: seq<int>, cost': seq<int>, i: nat)
    requires InRange(heap, |cost|) && |cost'| == |cost| && i < |heap| && Ordered(heap, cost, |heap|)
    requires forall k :: 0 <= k < |heap| && k != i ==> cost'[heap[k]] == cost[heap[k]]
    ensures LooseBelow(heap, cost', i, |heap|, true)
  {
    forall k: nat | k < |heap| && (k == 0 || Parent(k) != i) && k != i
      ensures OrderedAt(heap, cost', k)
    {
      assert OrderedAt(heap, cost, k);
    }
    forall k: nat | 0 < k < |heap| && Parent(k) == i && i > 0
      ensures cost'[heap[Parent(i)]] <= cost'[heap[k]]
    {
      assert OrderedAt(heap, cost, k) && OrderedAt(heap, cost, i);
    }
  }

  lemma PrefixOrdered(heap: seq<nat>, cost: seq<int>, n: nat)
    requires InRange(heap, |cost|) && n <= |heap|
    requires forall k: nat :: 0 < k < n ==> OrderedAt(heap, cost, k)
    ensures InRange(heap[..n], |cost|) && Ordered(heap[..n], cost, n)
  {
    forall k: nat | k < n
      ensures OrderedAt(heap[..n], cost, k)
    {
      assert k > 0 ==> OrderedAt(heap, cost, k);
    }
  }

  /** In a heap the root is cheapest. */
  lemma {:induction false} RootIsCheapest(heap: seq<nat>, cost: seq<int>, n: nat, k: nat)
    requires InRange(heap, |cost|) && k < n <= |heap| && Ordered(heap, cost, n)
    ensures cost[heap[0]] <= cost[heap[k]]
    decreases k
  {
    if k > 0 {
      RootIsCheapest(heap, cost, n, Parent(k));
      assert OrderedAt(heap, cost, k);
    }
  }

  // ---------------------------------------------------------------------------
  // The queue
  // ---------------------------------------------------------------------------

  /** Two states of the queue that hold the same vertices; other index entries are untouched. */
  ghost predicate Rearranged(heap: seq<nat>, index: seq<int>, heap': seq<nat>, index': seq<int>) {
    && SameElements(heap, heap')
    && Inverse(heap', index')
    && |index'| == |index|
    && forall x: nat :: x < |index| && x !in heap ==> index'[x] == index[x]
  }

  /** The vertices of a queue. */
  ghost function Queued(heap: seq<nat>): set<nat> {
    set x | x in heap
  }

  class PrioQueue {
    var heap: seq<nat>
    var index: seq<int>
    const cost: array<int>

    /** Positions and costs are in range and index inverts heap. */
    ghost predicate Linked()
      reads this
    {
      |index| == cost.Length && Inverse(heap, index)
    }

    ghost predicate Valid()
      reads this, cost
    {
      Linked() && Ordered(heap, cost[..], |heap|)
    }

    /** Exactly the vertices in the queue have a nonnegative index. */
    ghost predicate Tracked()
      reads this
    {
      Linked() && forall x: nat :: x < |index| ==> (index[x] >= 0 <==> x in heap)
    }

    /** emptyPrioQueue: the index starts out as zeros. */
    constructor Empty(c: array<int>)
      ensures cost == c && heap == [] && Valid()
    {
      cost := c;
      heap, index := [], seq(c.Length, _ => 0);
    }

    /** newPrioQueue: all vertices, in the order of their numbers. */
    constructor Full(c: array<int>)
      requires forall x, y :: 0 <= x < c.Length && 0 <= y < c.Length ==> c[x] == c[y]
      ensures cost == c && Valid() && Tracked()
      ensures forall x: nat :: x in heap <==> x < c.Length
    {
      cost := c;
      heap, index := seq(c.Length, i => i), seq(c.Length, i => i);
      new;
      forall x: nat | x < c.Length
        ensures x in heap
      {
        assert heap[x] == x;
      }
    }

    predicate Contains(v: nat)
      requires v < |index|
      reads this
    {
      index[v] >= 0
    }

    method Swap(i: nat, j: nat)
      requires Linked() && i < |heap| && j < |heap|
      modifies `heap, `index
      ensures heap == Swapped(old(heap), i, j)
      ensures Linked() && Rearranged(old(heap), old(index), heap, index)
    {
      SwapKeepsElements(heap, i, j);
      heap := heap[i := heap[j]][j := heap[i]];
      index := index[heap[i] := i];
      index := index[heap[j] := j];
    }

    method Up(j0: nat)
      requires Linked() && j0 < |heap| && LooseAbove(heap, cost[..], j0, |heap|)
      modifies `heap, `index
      ensures Valid() && Rearranged(old(heap), old(index), heap, index)
    {
      var j: nat := j0;
      while true
        invariant Linked() && j < |heap| && LooseAbove(heap, cost[..], j, |heap|)
        invariant Rearranged(old(heap), old(index), heap, index)
        decreases j
      {
        var i := Parent(j);
        if i == j || !(cost[heap[j]] < cost[heap[i]]) {
          break;
        }
        UpStep(heap, cost[..], j);
        Swap(i, j);
        j := i;
      }
    }

    /** The cheaper of the children of i within the first n positions. */
    method CheaperChild(i: nat, n: nat) returns (j: nat)
      requires Linked() && 2 * i + 1 < n <= |heap|
      ensures 0 < j < n && Parent(j) == i && i < j
      ensures forall k: nat :: 0 < k < n && Parent(k) == i ==> cost[heap[j]] <= cost[heap[k]]
    {
      Children(i);
      var j1 := 2 * i + 1;
      j := j1;
      var j2 := j1 + 1;
      if j2 < n && cost[heap[j2]] < cost[heap[j1]] {
        j := j2;
      }
    }

    /** Sift down within the first n positions; the result tells whether anything moved. */
    method Down(i0: nat, n: nat) returns (moved: bool)
      requires Linked() && i0 < n <= |heap| && LooseBelow(heap, cost[..], i0, n, true)
      modifies `heap, `index
      ensures Linked() && Rearranged(old(heap), old(index), heap, index)
      ensures heap[n..] == old(heap)[n..]
      ensures if moved then Ordered(heap, cost[..], n)
              else heap == old(heap) && LooseAbove(heap, cost[..], i0, n)
    {
      var i: nat := i0;
      while true
        invariant i0 <= i < n && Linked() && |heap| == |old(heap)|
        invariant LooseBelow(heap, cost[..], i, n, i == i0)
        invariant Rearranged(old(heap), old(index), heap, index)
        invariant heap[n..] == old(heap)[n..]
        invariant i == i0 ==> heap == old(heap)
        decreases n - i
      {
        if 2 * i + 1 >= n {
          Children(i);
          break;
        }
        var j := CheaperChild(i, n);
        if !(cost[heap[j]] < cost[heap[i]]) {
          break;
        }
        DownStep(heap, cost[..], i, j, n, i == i0);
        Swap(i, j);
        i := j;
      }
      DownEnds(heap, cost[..], i, n, i == i0);
      moved := i > i0;
    }

    method Push(v: nat)
      requires Valid() && v < cost.Length && v !in heap
      modifies `heap, `index
      ensures Valid()
      ensures forall x :: x in heap <==> x in old(heap) || x == v
      ensures |heap| == |old(heap)| + 1
    {
      var n := |heap|;
      heap := heap + [v];
      index := index[v := n];
      forall k: nat | k < |heap| && k != n
        ensures OrderedAt(heap, cost[..], k)
      {
        assert OrderedAt(old(heap), cost[..], k);
      }
      Up(n);
    }

    /** Remove a cheapest vertex. */
    method Pop() returns (v: nat)
      requires Valid() && |heap| > 0
      modifies `heap, `index
      ensures Valid() && v < cost.Length && v in old(heap) && v !in heap && index[v] == -1
      ensures forall x :: x in old(heap) ==> x < cost.Length && cost[v] <= cost[x]
      ensures forall x :: x in old(heap) <==> x in heap || x == v
      ensures |heap| == |old(heap)| - 1
      ensures forall x: nat :: x < |index| && x !in old(heap) ==> index[x] == old(index)[x]
      ensures old(Tracked()) ==> Tracked()
    {
      ghost var heap0 := heap;
      forall k: nat | k < |heap|
        ensures cost[heap[0]] <= cost[heap[k]]
      {
        RootIsCheapest(heap, cost[..], |heap|, k);
      }
      var n := |heap| - 1;
      Swap(0, n);
      if n > 0 {
        PopReady(heap0, cost[..], n);
        var _ := Down(0, n);
      }
      PrefixOrdered(heap, cost[..], n);
      v := heap[n];
      assert heap[n..] == [heap0[0]];
      index := index[v := -1];
      heap := heap[..n];
    }

    /** Restore the order after the cost of v has changed. */
    method Fix(v: nat)
      requires Linked() && v in heap
      requires LooseBelow(heap, cost[..], index[v], |heap|, true)
      modifies `heap, `index
      ensures Valid() && Rearranged(old(heap), old(index), heap, index)
      ensures old(Tracked()) ==> Tracked()
    {
      var i := index[v];
      var moved := Down(i, |heap|);
      if !moved {
        Up(i);
      }
    }
  }
}
