/**
 The graphs that the generic algorithms of prototype/graph work on.

 An Iterator has an order n and a Visit method that reports, for each vertex, its
 outgoing edges in an unspecified order.  A graph is therefore modelled as the
 sequence, indexed by vertex, of the edges that Visit reports, in the order in which
 it reports them; theorems hold for every such order.  Multigraphs and self-loops
 are allowed.
 */
module Graphs {
  import opened Sequences

  /** The largest edge cost, the constant `Max`; also the largest Go `int`. */
  const MAX_INT64: int := 0x7fff_ffff_ffff_ffff

  datatype Edge = Edge(to: nat, cost: int)

  type Graph = seq<seq<Edge>>

  /** Every edge leads to a vertex of the graph. */
  ghost predicate Valid(g: Graph) {
    forall v, i :: 0 <= v < |g| && 0 <= i < |g[v]| ==> g[v][i].to < |g|
  }

  ghost predicate Adjacent(g: Graph, v: nat, w: nat) {
    v < |g| && w < |g| && exists i :: 0 <= i < |g[v]| && g[v][i].to == w
  }

  /** A nonempty sequence of vertices, consecutive ones joined by an edge. */
  ghost predicate IsPath(g: Graph, p: seq<nat>) {
    && 0 < |p|
    && p[0] < |g|
    && forall i :: 0 <= i < |p| - 1 ==> Adjacent(g, p[i], p[i + 1])
  }

  ghost predicate PathFromTo(g: Graph, p: seq<nat>, u: nat, w: nat) {
    IsPath(g, p) && p[0] == u && p[|p| - 1] == w
  }

  ghost predicate Reach(g: Graph, u: nat, w: nat) {
    exists p :: PathFromTo(g, p, u, w)
  }

  lemma ReachSelf(g: Graph, v: nat)
    requires v < |g|
    ensures Reach(g, v, v)
  {
    assert PathFromTo(g, [v], v, v);
  }

  lemma ReachEdge(g: Graph, v: nat, w: nat)
    requires Adjacent(g, v, w)
    ensures Reach(g, v, w)
  {
    assert PathFromTo(g, [v, w], v, w);
  }

  lemma ReachTrans(g: Graph, u: nat, v: nat, w: nat)
    requires Reach(g, u, v) && Reach(g, v, w)
    ensures Reach(g, u, w)
  {
    var p :| PathFromTo(g, p, u, v);
    var q :| PathFromTo(g, q, v, w);
    var r := p + q[1..];
    forall i | 0 <= i < |r| - 1
      ensures Adjacent(g, r[i], r[i + 1])
    {
      if i < |p| - 1 {
        assert r[i] == p[i] && r[i + 1] == p[i + 1];
      } else {
        assert r[i] == q[i - |p| + 1] && r[i + 1] == q[i - |p| + 2];
      }
    }
    assert PathFromTo(g, r, u, w);
  }

  /** A set of vertices that no edge leaves. */
  ghost predicate Closed(g: Graph, s: set<nat>) {
    forall v, w :: v in s && Adjacent(g, v, w) ==> w in s
  }

  lemma PathStaysInClosed(g: Graph, s: set<nat>, p: seq<nat>, k: nat)
    requires Closed(g, s) && IsPath(g, p) && p[0] in s && k < |p|
    ensures p[k] in s
  {
    if k > 0 {
      PathStaysInClosed(g, s, p, k - 1);
      assert Adjacent(g, p[k - 1], p[k]);
    }
  }

  lemma ReachStaysInClosed(g: Graph, s: set<nat>, u: nat, w: nat)
    requires Closed(g, s) && u in s && Reach(g, u, w)
    ensures w in s
  {
    var p :| PathFromTo(g, p, u, w);
    PathStaysInClosed(g, s, p, |p| - 1);
  }

  // ---------------------------------------------------------------------------
  // Reversing a list of vertices
  // ---------------------------------------------------------------------------

  /** The loop that swaps from both ends. */
  method Reverse(p0: seq<nat>) returns (p: seq<nat>)
    ensures p == Reversed(p0)
  {
    p := p0;
    var i, j := 0, |p| - 1;
    while i < j
      invariant |p| == |p0| && 0 <= i && j == |p0| - 1 - i && i <= j + 1
      invariant forall k :: i <= k <= j ==> p[k] == p0[k]
      invariant forall k :: 0 <= k < i ==> p[k] == p0[|p0| - 1 - k]
      invariant forall k :: j < k < |p0| ==> p[k] == p0[|p0| - 1 - k]
    {
      p := p[i := p[j]][j := p[i]];
      i, j := i + 1, j - 1;
    }
  }
}
