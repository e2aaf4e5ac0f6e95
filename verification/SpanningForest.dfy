/**
 Prim's algorithm (prototype/graph/mst.go) over the shared-cost heap.
 */
module SpanningForest {
  import opened Sequences
  import opened Finite
  import opened Graphs
  import opened PriorityQueue

  // ---------------------------------------------------------------------------
  // Undirected links and connectivity
  // ---------------------------------------------------------------------------

  datatype Link = Link(a: nat, b: nat, cost: int)

  ghost predicate HasEdge(g: Graph, v: nat, w: nat, c: int) {
    v < |g| && exists i :: 0 <= i < |g[v]| && g[v][i] == Edge(w, c)
  }

  /** An undirected graph: every edge is listed at both ends with the same cost. */
  ghost predicate Symmetric(g: Graph) {
    forall v: nat, w: nat, c: int :: HasEdge(g, v, w, c) ==> HasEdge(g, w, v, c)
  }

  ghost predicate Joined(links: seq<Link>, x: nat, y: nat) {
    exists i :: 0 <= i < |links| && ((links[i].a == x && links[i].b == y) || (links[i].a == y && links[i].b == x))
  }

  ghost predicate IsWalk(links: seq<Link>, p: seq<nat>) {
    p != [] && forall i :: 0 <= i < |p| - 1 ==> Joined(links, p[i], p[i + 1])
  }

  ghost predicate WalkFromTo(links: seq<Link>, p: seq<nat>, x: nat, y: nat) {
    IsWalk(links, p) && p[0] == x && p[|p| - 1] == y
  }

  ghost predicate Connected(links: seq<Link>, x: nat, y: nat) {
    exists p :: WalkFromTo(links, p, x, y)
  }

  lemma ConnectedSelf(links: seq<Link>, x: nat)
    ensures Connected(links, x, x)
  {
    assert WalkFromTo(links, [x], x, x);
  }

  lemma ConnectedJoined(links: seq<Link>, x: nat, y: nat)
    requires Joined(links, x, y)
    ensures Connected(links, x, y) && Connected(links, y, x)
  {
    assert WalkFromTo(links, [x, y], x, y);
    assert WalkFromTo(links, [y, x], y, x);
  }

  lemma ConnectedTrans(links: seq<Link>, x: nat, y: nat, z: nat)
    requires Connected(links, x, y) && Connected(links, y, z)
    ensures Connected(links, x, z)
  {
    var p :| WalkFromTo(links, p, x, y);
    var q :| WalkFromTo(links, q, y, z);
    var r := p + q[1..];
    forall i | 0 <= i < |r| - 1
      ensures Joined(links, r[i], r[i + 1])
    {
      if i < |p| - 1 {
        assert r[i] == p[i] && r[i + 1] == p[i + 1];
      } else {
        assert r[i] == q[i - |p| + 1] && r[i + 1] == q[i - |p| + 2];
      }
    }
    assert WalkFromTo(links, r, x, z);
  }

  lemma {:induction false} WalkReplace(links: seq<Link>, more: seq<Link>, p: seq<nat>)
    requires IsWalk(links, p)
    requires forall i :: 0 <= i < |links| ==> Connected(more, links[i].a, links[i].b) && Connected(more, links[i].b, links[i].a)
    ensures Connected(more, p[0], p[|p| - 1])
    decreases |p|
  {
    if |p| == 1 {
      ConnectedSelf(more, p[0]);
    } else {
      var n := |p| - 1;
      var rest := p[..n];
      assert IsWalk(links, rest) by {
        forall i | 0 <= i < |rest| - 1
          ensures Joined(links, rest[i], rest[i + 1])
        {
          assert Joined(links, p[i], p[i + 1]);
        }
      }
      WalkReplace(links, more, rest);
      assert Joined(links, p[n - 1], p[n - 1 + 1]);
      ConnectedTrans(more, p[0], p[n - 1], p[n]);
    }
  }

  /** If the ends of every link of one graph are connected in another, so is all that the one connects. */
  lemma ConnectedReplace(links: seq<Link>, more: seq<Link>, x: nat, y: nat)
    requires Connected(links, x, y)
    requires forall i :: 0 <= i < |links| ==> Connected(more, links[i].a, links[i].b) && Connected(more, links[i].b, links[i].a)
    ensures Connected(more, x, y)
  {
    var p :| WalkFromTo(links, p, x, y);
    WalkReplace(links, more, p);
  }

  lemma ConnectedMore(links: seq<Link>, more: seq<Link>, x: nat, y: nat)
    requires Connected(links, x, y) && forall l :: l in links ==> l in more
    ensures Connected(more, x, y)
  {
    forall i | 0 <= i < |links|
      ensures Connected(more, links[i].a, links[i].b) && Connected(more, links[i].b, links[i].a)
    {
      assert links[i] in more;
      ConnectedJoined(more, links[i].a, links[i].b);
    }
    ConnectedReplace(links, more, x, y);
  }

  lemma ConnectedSym(links: seq<Link>, x: nat, y: nat)
    requires Connected(links, x, y)
    ensures Connected(links, y, x)
  {
    var p :| WalkFromTo(links, p, x, y);
    var q := seq(|p|, i requires 0 <= i < |p| => p[|p| - 1 - i]);
    forall i | 0 <= i < |q| - 1
      ensures Joined(links, q[i], q[i + 1])
    {
      var j := |p| - 2 - i;
      assert Joined(links, p[j], p[j + 1]);
    }
    assert WalkFromTo(links, q, y, x);
  }

  // ---------------------------------------------------------------------------
  // Forests of parent pointers
  // ---------------------------------------------------------------------------

  /** order lists every vertex once. */
  ghost predicate Enumerates(order: seq<nat>, n: nat) {
    && (forall i :: 0 <= i < |order| ==> order[i] < n)
    && NoRepeats(order)
    && (forall x: nat :: x < n ==> x in order)
  }

  /** x is a root or hangs, by an edge of g, from a vertex listed earlier. */
  ghost predicate HangsFrom(g: Graph, parent: seq<int>, cost: seq<int>, x: nat, earlier: seq<nat>) {
    && x < |parent| == |cost|
    && (parent[x] == -1 || (0 <= parent[x] && parent[x] in earlier && HasEdge(g, parent[x], x, cost[x])))
  }

  /** The parent pointers are acyclic: some order lists every vertex after its parent. */
  ghost predicate IsForest(g: Graph, parent: seq<int>, cost: seq<int>, order: seq<nat>) {
    && |parent| == |cost| == |g|
    && (forall k {:trigger HangsFrom(g, parent, cost, order[k], order[..k])} ::
          0 <= k < |order| ==> HangsFrom(g, parent, cost, order[k], order[..k]))
  }

  /** The links from the listed vertices to their parents. */
  ghost function Links(parent: seq<int>, cost: seq<int>, order: seq<nat>): seq<Link> {
    if order == [] then []
    else
      var x := order[|order| - 1];
      var rest := Links(parent, cost, order[..|order| - 1]);
      if x < |parent| == |cost| && parent[x] >= 0 then rest + [Link(parent[x], x, cost[x])] else rest
  }

  ghost function TotalCost(links: seq<Link>): int {
    if links == [] then 0 else TotalCost(links[..|links| - 1]) + links[|links| - 1].cost
  }

  /** Whatever g connects, the links connect. */
  ghost predicate Spans(g: Graph, links: seq<Link>) {
    forall x: nat, y: nat :: Reach(g, x, y) ==> Connected(links, x, y)
  }

  ghost predicate IsSpanningForest(g: Graph, parent: seq<int>, cost: seq<int>, order: seq<nat>) {
    Enumerates(order, |g|) && IsForest(g, parent, cost, order) && Spans(g, Links(parent, cost, order))
  }

  // ---------------------------------------------------------------------------
  // What Prim's loop guarantees about the order in which it pops vertices
  // ---------------------------------------------------------------------------

  /** x starts a new tree only when no edge leaves the vertices before it; otherwise it hangs
      by an edge as cheap as any that leaves them. */
  ghost predicate Greedy(g: Graph, parent: seq<int>, cost: seq<int>, earlier: seq<nat>, x: nat) {
    && x < |parent| == |cost|
    && forall a: nat, b: nat, c: int :: a in earlier && b !in earlier && HasEdge(g, a, b, c) ==>
         parent[x] != -1 && cost[x] <= c
  }

  ghost predicate IsPrimForest(g: Graph, parent: seq<int>, cost: seq<int>, order: seq<nat>) {
    && IsForest(g, parent, cost, order)
    && (forall k {:trigger Greedy(g, parent, cost, order[..k], order[k])} ::
          0 <= k < |order| ==> Greedy(g, parent, cost, order[..k], order[k]))
  }

  lemma PrefixIsPrim(g: Graph, parent: seq<int>, cost: seq<int>, order: seq<nat>, m: nat)
    requires IsPrimForest(g, parent, cost, order) && m <= |order|
    ensures IsPrimForest(g, parent, cost, order[..m])
  {
    forall k | 0 <= k < m
      ensures HangsFrom(g, parent, cost, order[..m][k], order[..m][..k]) && Greedy(g, parent, cost, order[..m][..k], order[..m][k])
    {
      assert order[..m][..k] == order[..k];
      assert HangsFrom(g, parent, cost, order[k], order[..k]) && Greedy(g, parent, cost, order[..k], order[k]);
    }
  }

  // ---------------------------------------------------------------------------
  // Links of a forest
  // ---------------------------------------------------------------------------

  lemma {:induction false} LinksHas(parent: seq<int>, cost: seq<int>, order: seq<nat>, k: nat)
    requires k < |order| && order[k] < |parent| == |cost| && parent[order[k]] >= 0
    ensures Link(parent[order[k]], order[k], cost[order[k]]) in Links(parent, cost, order)
    decreases |order|
  {
    if k < |order| - 1 {
      LinksHas(parent, cost, order[..|order| - 1], k);
    }
  }

  lemma {:induction false} LinksAre(g: Graph, parent: seq<int>, cost: seq<int>, order: seq<nat>, l: Link)
    requires IsForest(g, parent, cost, order) && l in Links(parent, cost, order)
    ensures l.a in order && l.b in order && HasEdge(g, l.a, l.b, l.cost)
    decreases |order|
  {
    var n := |order| - 1;
    assert HangsFrom(g, parent, cost, order[n], order[..n]);
    if l in Links(parent, cost, order[..n]) {
      PrefixIsForest(g, parent, cost, order, n);
      LinksAre(g, parent, cost, order[..n], l);
    }
  }

  lemma PrefixIsForest(g: Graph, parent: seq<int>, cost: seq<int>, order: seq<nat>, m: nat)
    requires IsForest(g, parent, cost, order) && m <= |order|
    ensures IsForest(g, parent, cost, order[..m])
  {
    forall k {:trigger HangsFrom(g, parent, cost, order[..m][k], order[..m][..k])} | 0 <= k < m
      ensures HangsFrom(g, parent, cost, order[..m][k], order[..m][..k])
    {
      assert order[..m][..k] == order[..k];
      assert HangsFrom(g, parent, cost, order[k], order[..k]);
    }
  }

  /** Every vertex is connected to a root listed no later than itself. */
  lemma {:induction false} RootOf(g: Graph, parent: seq<int>, cost: seq<int>, order: seq<nat>, k: nat) returns (r: nat)
    requires IsForest(g, parent, cost, order) && k < |order|
    ensures r <= k && order[r] < |g| && parent[order[r]] == -1
    ensures Connected(Links(parent, cost, order), order[k], order[r])
    decreases k
  {
    var x := order[k];
    assert HangsFrom(g, parent, cost, x, order[..k]);
    if parent[x] == -1 {
      r := k;
      ConnectedSelf(Links(parent, cost, order), x);
    } else {
      var j: nat :| j < k && order[j] == parent[x];
      r := RootOf(g, parent, cost, order, j);
      LinksHas(parent, cost, order, k);
      ConnectedJoined(Links(parent, cost, order), x, order[j]);
      ConnectedTrans(Links(parent, cost, order), x, order[j], order[r]);
    }
  }

  lemma {:induction false} WalkReach(g: Graph, links: seq<Link>, p: seq<nat>)
    requires Graphs.Valid(g) && Symmetric(g) && IsWalk(links, p) && p[0] < |g|
    requires forall l :: l in links ==> HasEdge(g, l.a, l.b, l.cost)
    ensures Reach(g, p[0], p[|p| - 1])
    decreases |p|
  {
    if |p| == 1 {
      ReachSelf(g, p[0]);
    } else {
      var n := |p| - 1;
      var rest := p[..n];
      assert forall i :: 0 <= i < |rest| - 1 ==> Joined(links, p[i], p[i + 1]);
      WalkReach(g, links, rest);
      assert Joined(links, p[n - 1], p[n - 1 + 1]);
      var i :| 0 <= i < |links| &&
               ((links[i].a == p[n - 1] && links[i].b == p[n]) || (links[i].a == p[n] && links[i].b == p[n - 1]));
      assert links[i] in links;
      assert HasEdge(g, p[n - 1], p[n], links[i].cost);
      assert Adjacent(g, p[n - 1], p[n]);
      ReachEdge(g, p[n - 1], p[n]);
      ReachTrans(g, p[0], p[n - 1], p[n]);
    }
  }

  lemma ConnectedReach(g: Graph, links: seq<Link>, x: nat, y: nat)
    requires Graphs.Valid(g) && Symmetric(g) && Connected(links, x, y) && x < |g|
    requires forall l :: l in links ==> HasEdge(g, l.a, l.b, l.cost)
    ensures Reach(g, x, y)
  {
    var p :| WalkFromTo(links, p, x, y);
    WalkReach(g, links, p);
  }

  lemma ForestReach(g: Graph, parent: seq<int>, cost: seq<int>, order: seq<nat>, x: nat, y: nat)
    requires Graphs.Valid(g) && Symmetric(g) && IsForest(g, parent, cost, order)
    requires Connected(Links(parent, cost, order), x, y) && x < |g|
    ensures Reach(g, x, y)
  {
    forall l | l in Links(parent, cost, order)
      ensures HasEdge(g, l.a, l.b, l.cost)
    {
      LinksAre(g, parent, cost, order, l);
    }
    ConnectedReach(g, Links(parent, cost, order), x, y);
  }

  // ---------------------------------------------------------------------------
  // One tree per connected component
  // ---------------------------------------------------------------------------

  lemma {:induction false} PathSym(g: Graph, p: seq<nat>)
    requires Symmetric(g) && Graphs.Valid(g) && IsPath(g, p)
    ensures p[|p| - 1] < |g| && Reach(g, p[|p| - 1], p[0])
    decreases |p|
  {
    if |p| == 1 {
      ReachSelf(g, p[0]);
    } else {
      var n := |p| - 1;
      var rest := p[..n];
      assert forall i :: 0 <= i < |rest| - 1 ==> Adjacent(g, p[i], p[i + 1]);
      PathSym(g, rest);
      assert Adjacent(g, p[n - 1], p[n - 1 + 1]);
      var i :| 0 <= i < |g[p[n - 1]]| && g[p[n - 1]][i].to == p[n];
      assert HasEdge(g, p[n - 1], p[n], g[p[n - 1]][i].cost);
      assert HasEdge(g, p[n], p[n - 1], g[p[n - 1]][i].cost);
      assert Adjacent(g, p[n], p[n - 1]);
      ReachEdge(g, p[n], p[n - 1]);
      ReachTrans(g, p[n], p[n - 1], p[0]);
    }
  }

  lemma ReachSym(g: Graph, x: nat, y: nat)
    requires Symmetric(g) && Graphs.Valid(g) && Reach(g, x, y)
    ensures Reach(g, y, x) && x < |g| && y < |g|
  {
    var p :| PathFromTo(g, p, x, y);
    PathSym(g, p);
  }

  /** When a root is popped, no edge leaves the vertices before it. */
  lemma RootCloses(g: Graph, parent: seq<int>, cost: seq<int>, order: seq<nat>, k: nat)
    requires Graphs.Valid(g) && IsPrimForest(g, parent, cost, order) && k < |order| && order[k] < |g| && parent[order[k]] == -1
    ensures Closed(g, set x | x in order[..k])
  {
    forall a: nat, b: nat | a in order[..k] && Adjacent(g, a, b)
      ensures b in order[..k]
    {
      assert Greedy(g, parent, cost, order[..k], order[k]);
      var i :| 0 <= i < |g[a]| && g[a][i].to == b;
      assert HasEdge(g, a, b, g[a][i].cost);
    }
  }

  lemma RootsApart(g: Graph, parent: seq<int>, cost: seq<int>, order: seq<nat>, i: nat, j: nat)
    requires Graphs.Valid(g) && IsPrimForest(g, parent, cost, order) && i < j < |order|
    requires forall a, b :: 0 <= a < b < |order| ==> order[a] != order[b]
    requires order[j] < |g| && parent[order[j]] == -1
    ensures !Reach(g, order[i], order[j])
  {
    if Reach(g, order[i], order[j]) {
      RootCloses(g, parent, cost, order, j);
      assert order[i] in order[..j];
      ReachStaysInClosed(g, (set x | x in order[..j]), order[i], order[j]);
    }
  }

  /** What g connects, the trees built so far connect. */
  lemma TreesConnect(g: Graph, parent: seq<int>, cost: seq<int>, order: seq<nat>, x: nat, y: nat)
    requires Graphs.Valid(g) && Symmetric(g) && IsPrimForest(g, parent, cost, order)
    requires forall a, b :: 0 <= a < b < |order| ==> order[a] != order[b]
    requires x in order && y in order && Reach(g, x, y)
    ensures Connected(Links(parent, cost, order), x, y)
  {
    var links := Links(parent, cost, order);
    var i: nat :| i < |order| && order[i] == x;
    var j: nat :| j < |order| && order[j] == y;
    var r := RootOf(g, parent, cost, order, i);
    var t := RootOf(g, parent, cost, order, j);
    ReachSym(g, x, y);
    ForestReach(g, parent, cost, order, x, order[r]);
    ForestReach(g, parent, cost, order, y, order[t]);
    ReachTrans(g, x, y, order[t]);
    ReachSym(g, x, order[r]);
    ReachTrans(g, order[r], x, order[t]);
    ReachSym(g, order[r], order[t]);
    if r < t {
      RootsApart(g, parent, cost, order, r, t);
    } else if t < r {
      RootsApart(g, parent, cost, order, t, r);
    }
    ConnectedSym(links, y, order[t]);
    ConnectedTrans(links, x, order[r], y);
  }

  lemma PrimSpans(g: Graph, parent: seq<int>, cost: seq<int>, order: seq<nat>)
    requires Graphs.Valid(g) && Symmetric(g) && IsPrimForest(g, parent, cost, order) && Enumerates(order, |g|)
    ensures Spans(g, Links(parent, cost, order))
  {
    forall x: nat, y: nat | Reach(g, x, y)
      ensures Connected(Links(parent, cost, order), x, y)
    {
      ReachSym(g, x, y);
      TreesConnect(g, parent, cost, order, x, y);
    }
  }

  // ---------------------------------------------------------------------------
  // Minimality: exchanging the links of any spanning forest for Prim's
  // ---------------------------------------------------------------------------

  function Without(links: seq<Link>, q: nat): seq<Link>
    requires q < |links|
  {
    links[..q] + links[q + 1..]
  }

  lemma {:induction false} CostWithout(links: seq<Link>, q: nat)
    requires q < |links|
    ensures TotalCost(links) == TotalCost(Without(links, q)) + links[q].cost
    decreases |links|
  {
    var n := |links| - 1;
    var front, less := links[..n], Without(links, q);
    if q == n {
      assert less == front;
    } else {
      CostWithout(front, q);
      assert less[..n - 1] == Without(front, q) && less[n - 1] == links[n];
    }
  }

  /** The last place where a walk that ends outside s leaves s. */
  lemma {:induction false} LastExit(p: seq<nat>, s: set<nat>) returns (i: nat)
    requires |p| >= 2 && p[0] in s && p[|p| - 1] !in s
    ensures i + 1 < |p| && p[i] in s && forall j :: i < j < |p| ==> p[j] !in s
    decreases |p|
  {
    if p[1] !in s && forall j :: 1 <= j < |p| ==> p[j] !in s {
      i := 0;
    } else if |p| == 2 {
      i := 0;
    } else {
      var n := |p| - 1;
      if p[n - 1] in s {
        i := n - 1;
      } else {
        i := LastExit(p[..n], s);
        forall j | i < j < |p|
          ensures p[j] !in s
        {
          assert j < n ==> p[..n][j] == p[j];
        }
      }
    }
  }

  /** A link of the rest that leaves the vertices popped so far, costs at least as much as the
      link Prim adds, and can be exchanged for it. */
  lemma FindExchange(g: Graph, parent: seq<int>, cost: seq<int>, order: seq<nat>, k: nat, rest: seq<Link>)
    returns (q: nat, a: nat, b: nat)
    requires Graphs.Valid(g) && Symmetric(g) && IsPrimForest(g, parent, cost, order)
    requires NoRepeats(order)
    requires k < |order| && order[k] < |g| && parent[order[k]] >= 0
    requires forall l :: l in rest ==> HasEdge(g, l.a, l.b, l.cost)
    requires Spans(g, Links(parent, cost, order[..k]) + rest)
    ensures q < |rest| && a in order[..k] && b !in order[..k]
    ensures (rest[q].a == a && rest[q].b == b) || (rest[q].a == b && rest[q].b == a)
    ensures Reach(g, parent[order[k]], a)
    ensures Connected(Links(parent, cost, order[..k]) + Without(rest, q), b, order[k])
  {
    var v, before := order[k], order[..k];
    assert HangsFrom(g, parent, cost, v, before);
    var u: nat := parent[v];
    var tree := Links(parent, cost, before);
    var all := tree + rest;
    assert Adjacent(g, u, v);
    ReachEdge(g, u, v);
    var p :| WalkFromTo(all, p, u, v);
    var i := LastExit(p, (set x | x in before));
    a, b := p[i], p[i + 1];
    assert Joined(all, p[i], p[i + 1]);
    var t :| 0 <= t < |all| && ((all[t].a == a && all[t].b == b) || (all[t].a == b && all[t].b == a));
    PrefixIsForest(g, parent, cost, order, k);
    forall l | l in all
      ensures HasEdge(g, l.a, l.b, l.cost)
    {
      if l in tree {
        LinksAre(g, parent, cost, before, l);
      }
    }
    if t < |tree| {
      assert all[t] in tree;
      LinksAre(g, parent, cost, before, all[t]);
      assert false;
    }
    q := t - |tree|;
    assert WalkFromTo(all, p[..i + 1], u, a) by {
      assert forall j :: 0 <= j < i ==> Joined(all, p[j], p[j + 1]);
    }
    ConnectedReach(g, all, u, a);
    TailAvoids(tree, rest, q, p, i, (set x | x in before), a, b);
  }

  /** After its last exit the walk does not use the link by which it left. */
  lemma TailAvoids(tree: seq<Link>, rest: seq<Link>, q: nat, p: seq<nat>, i: nat, s: set<nat>, a: nat, b: nat)
    requires IsWalk(tree + rest, p) && q < |rest| && i + 1 < |p| && p[i + 1] == b && a in s
    requires forall j :: i < j < |p| ==> p[j] !in s
    requires (rest[q].a == a && rest[q].b == b) || (rest[q].a == b && rest[q].b == a)
    ensures Connected(tree + Without(rest, q), b, p[|p| - 1])
  {
    var all, less, tail := tree + rest, tree + Without(rest, q), p[i + 1..];
    forall j | 0 <= j < |tail| - 1
      ensures Joined(less, tail[j], tail[j + 1])
    {
      assert Joined(all, p[i + 1 + j], p[i + 1 + j + 1]);
      var t :| 0 <= t < |all| && ((all[t].a == tail[j] && all[t].b == tail[j + 1]) || (all[t].a == tail[j + 1] && all[t].b == tail[j]));
      assert t != |tree| + q;
      var t' := if t < |tree| + q then t else t - 1;
      assert less[t'] == all[t];
    }
    assert WalkFromTo(less, tail, b, p[|p| - 1]);
  }

  lemma ExchangeSpans(g: Graph, parent: seq<int>, cost: seq<int>, order: seq<nat>, k: nat, rest: seq<Link>, q: nat, a: nat, b: nat)
    requires Graphs.Valid(g) && Symmetric(g) && IsPrimForest(g, parent, cost, order)
    requires NoRepeats(order)
    requires k < |order| && order[k] < |g| && parent[order[k]] >= 0
    requires Spans(g, Links(parent, cost, order[..k]) + rest)
    requires q < |rest| && a in order[..k] && b !in order[..k]
    requires (rest[q].a == a && rest[q].b == b) || (rest[q].a == b && rest[q].b == a)
    requires Reach(g, parent[order[k]], a)
    requires Connected(Links(parent, cost, order[..k]) + Without(rest, q), b, order[k])
    ensures Spans(g, Links(parent, cost, order[..k]) + [Link(parent[order[k]], order[k], cost[order[k]])] + Without(rest, q))
  {
    var v, before := order[k], order[..k];
    assert HangsFrom(g, parent, cost, v, before);
    var u: nat := parent[v];
    var tree, less := Links(parent, cost, before), Without(rest, q);
    var swapped := tree + [Link(u, v, cost[v])] + less;
    PrefixIsPrim(g, parent, cost, order, k);
    TreesConnect(g, parent, cost, before, u, a);
    ConnectedMore(tree, swapped, u, a);
    ConnectedMore(tree + less, swapped, b, v);
    assert swapped[|tree|] == Link(u, v, cost[v]);
    ConnectedJoined(swapped, u, v);
    ConnectedSym(swapped, u, a);
    ConnectedTrans(swapped, a, u, v);
    ConnectedSym(swapped, b, v);
    ConnectedTrans(swapped, a, v, b);
    ConnectedSym(swapped, a, b);
    var all := tree + rest;
    forall i | 0 <= i < |all|
      ensures Connected(swapped, all[i].a, all[i].b) && Connected(swapped, all[i].b, all[i].a)
    {
      if i != |tree| + q {
        assert all[i] in swapped by {
          if i < |tree| {
            assert swapped[i] == all[i];
          } else if i < |tree| + q {
            assert swapped[i + 1] == all[i];
          } else {
            assert swapped[i] == all[i];
          }
        }
        ConnectedJoined(swapped, all[i].a, all[i].b);
      }
    }
    forall x: nat, y: nat | Reach(g, x, y)
      ensures Connected(swapped, x, y)
    {
      ConnectedReplace(all, swapped, x, y);
    }
  }

  /** One exchange: Prim's first k + 1 vertices can be completed as cheaply as its first k. */
  lemma ExchangeStep(g: Graph, parent: seq<int>, cost: seq<int>, order: seq<nat>, k: nat, rest: seq<Link>)
    returns (rest': seq<Link>)
    requires Graphs.Valid(g) && Symmetric(g) && IsPrimForest(g, parent, cost, order) && Enumerates(order, |g|)
    requires k < |order|
    requires forall l :: l in rest ==> HasEdge(g, l.a, l.b, l.cost)
    requires Spans(g, Links(parent, cost, order[..k]) + rest)
    ensures forall l :: l in rest' ==> HasEdge(g, l.a, l.b, l.cost)
    ensures Spans(g, Links(parent, cost, order[..k + 1]) + rest')
    ensures |Links(parent, cost, order[..k + 1])| + |rest'| == |Links(parent, cost, order[..k])| + |rest|
    ensures TotalCost(Links(parent, cost, order[..k + 1])) + TotalCost(rest')
         <= TotalCost(Links(parent, cost, order[..k])) + TotalCost(rest)
  {
    var v := order[k];
    assert order[..k + 1][..k] == order[..k] && order[..k + 1][k] == v;
    assert HangsFrom(g, parent, cost, v, order[..k]);
    if parent[v] == -1 {
      rest' := rest;
    } else {
      var tree, e := Links(parent, cost, order[..k]), Link(parent[v], v, cost[v]);
      assert Links(parent, cost, order[..k + 1]) == tree + [e];
      var q, a, b := FindExchange(g, parent, cost, order, k, rest);
      ExchangeSpans(g, parent, cost, order, k, rest, q, a, b);
      rest' := Without(rest, q);
      CostWithout(rest, q);
      assert (tree + [e])[..|tree|] == tree;
      assert rest[q] in rest;
      assert HasEdge(g, a, b, rest[q].cost);
      assert Greedy(g, parent, cost, order[..k], v);
    }
  }

  lemma {:induction false} ExchangeAll(g: Graph, parent: seq<int>, cost: seq<int>, order: seq<nat>, k: nat, rest: seq<Link>)
    requires Graphs.Valid(g) && Symmetric(g) && IsPrimForest(g, parent, cost, order) && Enumerates(order, |g|)
    requires k <= |order|
    requires forall l :: l in rest ==> HasEdge(g, l.a, l.b, l.cost)
    requires Spans(g, Links(parent, cost, order[..k]) + rest)
    requires |Links(parent, cost, order[..k])| + |rest| <= |Links(parent, cost, order)|
    ensures TotalCost(Links(parent, cost, order)) <= TotalCost(Links(parent, cost, order[..k])) + TotalCost(rest)
    decreases |order| - k
  {
    if k == |order| {
      assert order[..k] == order;
    } else {
      var rest' := ExchangeStep(g, parent, cost, order, k, rest);
      ExchangeAll(g, parent, cost, order, k + 1, rest');
    }
  }

  // ---------------------------------------------------------------------------
  // Every spanning forest has as many links
  // ---------------------------------------------------------------------------

  ghost function Roots(parent: seq<int>, order: seq<nat>): set<nat> {
    set x | x in order && x < |parent| && parent[x] == -1
  }

  lemma RootsSnoc(parent: seq<int>, front: seq<nat>, x: nat)
    requires x !in front && x < |parent|
    ensures |Roots(parent, front + [x])| == |Roots(parent, front)| + if parent[x] == -1 then 1 else 0
  {
    if parent[x] == -1 {
      assert Roots(parent, front + [x]) == Roots(parent, front) + {x};
    } else {
      assert Roots(parent, front + [x]) == Roots(parent, front);
    }
  }

  lemma {:induction false} LinksAndRoots(g: Graph, parent: seq<int>, cost: seq<int>, order: seq<nat>)
    requires IsForest(g, parent, cost, order)
    requires NoRepeats(order)
    ensures |Links(parent, cost, order)| + |Roots(parent, order)| == |order|
    decreases |order|
  {
    if order == [] {
      assert Roots(parent, order) == {};
    } else {
      var n := |order| - 1;
      var front, x := order[..n], order[n];
      PrefixIsForest(g, parent, cost, order, n);
      LinksAndRoots(g, parent, cost, front);
      assert HangsFrom(g, parent, cost, x, front);
      RootsSnoc(parent, front, x);
      assert order == front + [x];
    }
  }

  /** Prim's trees have one root per component, so no forest has fewer roots. */
  lemma FewestRoots(g: Graph, parent: seq<int>, cost: seq<int>, order: seq<nat>, parent': seq<int>, cost': seq<int>, order': seq<nat>)
    requires Graphs.Valid(g) && Symmetric(g) && IsPrimForest(g, parent, cost, order) && Enumerates(order, |g|)
    requires IsForest(g, parent', cost', order') && Enumerates(order', |g|)
    ensures |Roots(parent, order)| <= |Roots(parent', order')|
  {
    var links' := Links(parent', cost', order');
    var mine, other := Roots(parent, order), Roots(parent', order');
    forall x | x in mine
      ensures exists r :: r in other && Connected(links', x, r)
    {
      assert x in order && x < |g| && x in order';
      var k :| 0 <= k < |order'| && order'[k] == x;
      var r := RootOf(g, parent', cost', order', k);
      assert order'[r] in other;
    }
    var f := map x | x in mine :: var r :| r in other && Connected(links', x, r); r;
    forall x, y | x in mine && y in mine && f[x] == f[y]
      ensures x == y
    {
      ConnectedSym(links', y, f[y]);
      ConnectedTrans(links', x, f[x], y);
      ForestReach(g, parent', cost', order', x, y);
      ReachSym(g, x, y);
      var i :| 0 <= i < |order| && order[i] == x;
      var j :| 0 <= j < |order| && order[j] == y;
      if i < j {
        RootsApart(g, parent, cost, order, i, j);
      } else if j < i {
        RootsApart(g, parent, cost, order, j, i);
      }
    }
    InjectionCard(mine, other, f);
  }

  /** Prim's forest costs no more than any spanning forest. */
  lemma PrimIsMinimal(g: Graph, parent: seq<int>, cost: seq<int>, order: seq<nat>, parent': seq<int>, cost': seq<int>, order': seq<nat>)
    requires Graphs.Valid(g) && Symmetric(g) && IsPrimForest(g, parent, cost, order) && Enumerates(order, |g|)
    requires IsSpanningForest(g, parent', cost', order')
    ensures TotalCost(Links(parent, cost, order)) <= TotalCost(Links(parent', cost', order'))
  {
    var rest := Links(parent', cost', order');
    forall l | l in rest
      ensures HasEdge(g, l.a, l.b, l.cost)
    {
      LinksAre(g, parent', cost', order', l);
    }
    FewestRoots(g, parent, cost, order, parent', cost', order');
    LinksAndRoots(g, parent, cost, order);
    LinksAndRoots(g, parent', cost', order');
    SplitCard({}, order, g);
    SplitCard({}, order', g);
    assert order[..0] == [] && [] + rest == rest;
    ExchangeAll(g, parent, cost, order, 0, rest);
  }

  lemma SplitCard(queue: set<nat>, done: seq<nat>, g: Graph)
    requires Split(g, queue, done)
    ensures |done| <= |g|
    ensures queue == {} ==> |done| == |g|
  {
    DistinctCard(done);
    var members: set<nat> := set x | x in done;
    SubsetCard(members, Range(|g|));
    if queue == {} {
      assert members == Range(|g|);
    }
  }

  // ---------------------------------------------------------------------------
  // The loop
  // ---------------------------------------------------------------------------

  /** A queued vertex hangs, for now, by the cheapest of the edges examined so far: all those of
      the popped vertices but the last, of which only the first i have been examined. */
  ghost predicate Tentative(g: Graph, parent: seq<int>, cost: seq<int>, done: seq<nat>, i: nat, x: nat)
    requires |parent| == |cost| == |g| && x < |g| && forall k :: 0 <= k < |done| ==> done[k] < |g|
  {
    && (if parent[x] == -1 then cost[x] == MAX_INT64
        else 0 <= parent[x] && parent[x] in done && HasEdge(g, parent[x], x, cost[x]))
    && (forall k, c :: 0 <= k < |done| - 1 && HasEdge(g, done[k], x, c) ==> cost[x] <= c)
    && (done != [] ==> var v := done[|done| - 1];
          forall j :: 0 <= j < i && j < |g[v]| && g[v][j].to == x ==> cost[x] <= g[v][j].cost)
  }

  ghost predicate Split(g: Graph, queue: set<nat>, done: seq<nat>) {
    && (forall k :: 0 <= k < |done| ==> done[k] < |g| && done[k] !in queue)
    && (forall j, k :: 0 <= j < k < |done| ==> done[j] != done[k])
    && (forall x :: x in queue ==> x < |g|)
    && (forall x: nat :: x < |g| ==> x in queue || x in done)
  }

  ghost predicate Inv(g: Graph, parent: seq<int>, cost: seq<int>, queue: set<nat>, done: seq<nat>, i: nat) {
    && |parent| == |cost| == |g| && Split(g, queue, done)
    && IsPrimForest(g, parent, cost, done)
    && (forall x {:trigger Tentative(g, parent, cost, done, i, x)} :: x in queue ==> Tentative(g, parent, cost, done, i, x))
  }

  /** The last popped vertex has had all its edges examined. */
  ghost predicate Examined(g: Graph, done: seq<nat>, i: nat) {
    done != [] ==> done[|done| - 1] < |g| && i >= |g[done[|done| - 1]]|
  }

  lemma TentativeBound(g: Graph, parent: seq<int>, cost: seq<int>, done: seq<nat>, i: nat, x: nat, a: nat, c: int)
    requires |parent| == |cost| == |g| && x < |g| && forall k :: 0 <= k < |done| ==> done[k] < |g|
    requires Tentative(g, parent, cost, done, i, x) && Examined(g, done, i) && a in done && HasEdge(g, a, x, c)
    ensures cost[x] <= c
  {
    var k :| 0 <= k < |done| && done[k] == a;
    if k == |done| - 1 {
      var j :| 0 <= j < |g[a]| && g[a][j] == Edge(x, c);
    }
  }

  lemma PopGreedy(g: Graph, parent: seq<int>, cost: seq<int>, queue: set<nat>, done: seq<nat>, i: nat, v: nat)
    requires Graphs.Valid(g) && Inv(g, parent, cost, queue, done, i) && Examined(g, done, i) && v in queue
    requires forall x: nat, y: nat, c: int :: HasEdge(g, x, y, c) ==> c < MAX_INT64
    requires forall x :: x in queue ==> cost[v] <= cost[x]
    ensures Greedy(g, parent, cost, done, v) && HangsFrom(g, parent, cost, v, done)
  {
    assert Tentative(g, parent, cost, done, i, v);
    forall a: nat, b: nat, c: int | a in done && b !in done && HasEdge(g, a, b, c)
      ensures parent[v] != -1 && cost[v] <= c
    {
      assert b in queue by {
        var j :| 0 <= j < |g[a]| && g[a][j] == Edge(b, c);
      }
      assert Tentative(g, parent, cost, done, i, b);
      TentativeBound(g, parent, cost, done, i, b, a, c);
    }
  }

  lemma PopPrim(g: Graph, parent: seq<int>, cost: seq<int>, done: seq<nat>, v: nat)
    requires IsPrimForest(g, parent, cost, done) && Greedy(g, parent, cost, done, v) && HangsFrom(g, parent, cost, v, done)
    ensures IsPrimForest(g, parent, cost, done + [v])
  {
    var more := done + [v];
    forall k | 0 <= k < |more|
      ensures HangsFrom(g, parent, cost, more[k], more[..k]) && Greedy(g, parent, cost, more[..k], more[k])
    {
      assert more[..k] == done[..k];
      if k < |done| {
        assert HangsFrom(g, parent, cost, done[k], done[..k]) && Greedy(g, parent, cost, done[..k], done[k]);
      } else {
        assert done[..k] == done;
      }
    }
  }

  lemma PopInv(g: Graph, parent: seq<int>, cost: seq<int>, queue: set<nat>, done: seq<nat>, i: nat, v: nat)
    requires Graphs.Valid(g) && Inv(g, parent, cost, queue, done, i) && Examined(g, done, i) && v in queue
    requires forall x: nat, y: nat, c: int :: HasEdge(g, x, y, c) ==> c < MAX_INT64
    requires forall x :: x in queue ==> cost[v] <= cost[x]
    ensures Inv(g, parent, cost, queue - {v}, done + [v], 0)
  {
    PopGreedy(g, parent, cost, queue, done, i, v);
    PopPrim(g, parent, cost, done, v);
    var more := done + [v];
    assert forall x :: x in more <==> x in done || x == v;
    forall x {:trigger Tentative(g, parent, cost, more, 0, x)} | x in queue - {v}
      ensures Tentative(g, parent, cost, more, 0, x)
    {
      assert Tentative(g, parent, cost, done, i, x);
      forall k, c | 0 <= k < |more| - 1 && HasEdge(g, more[k], x, c)
        ensures cost[x] <= c
      {
        TentativeBound(g, parent, cost, done, i, x, done[k], c);
      }
    }
  }

  /** Changes to queued vertices do not touch the forest of popped ones. */
  lemma PrimUnchanged(g: Graph, parent: seq<int>, cost: seq<int>, parent': seq<int>, cost': seq<int>, done: seq<nat>)
    requires IsPrimForest(g, parent, cost, done) && |parent'| == |cost'| == |g|
    requires forall k :: 0 <= k < |done| && done[k] < |g| ==> parent'[done[k]] == parent[done[k]] && cost'[done[k]] == cost[done[k]]
    ensures IsPrimForest(g, parent', cost', done)
  {
    forall k | 0 <= k < |done|
      ensures HangsFrom(g, parent', cost', done[k], done[..k]) && Greedy(g, parent', cost', done[..k], done[k])
    {
      assert HangsFrom(g, parent, cost, done[k], done[..k]) && Greedy(g, parent, cost, done[..k], done[k]);
    }
  }

  /** Examining the i-th edge of the last popped vertex v, from v to w at cost c. */
  lemma ExamineInv(g: Graph, parent: seq<int>, cost: seq<int>, queue: set<nat>, done: seq<nat>, i: nat, w: nat, c: int)
    requires Inv(g, parent, cost, queue, done, i) && done != []
    requires var v := done[|done| - 1]; i < |g[v]| && g[v][i] == Edge(w, c) && w < |g|
    ensures if w in queue && c < cost[w] then
              Inv(g, parent[w := done[|done| - 1]], cost[w := c], queue, done, i + 1)
            else Inv(g, parent, cost, queue, done, i + 1)
  {
    var v := done[|done| - 1];
    assert v in done;
    var better := w in queue && c < cost[w];
    var parent', cost' := if better then parent[w := v] else parent, if better then cost[w := c] else cost;
    PrimUnchanged(g, parent, cost, parent', cost', done);
    forall x {:trigger Tentative(g, parent', cost', done, i + 1, x)} | x in queue
      ensures Tentative(g, parent', cost', done, i + 1, x)
    {
      assert Tentative(g, parent, cost, done, i, x);
      if x == w && better {
        assert HasEdge(g, v, w, c);
      }
    }
  }

  ghost predicate LoopInv(g: Graph, q: PrioQueue, parent: seq<int>, done: seq<nat>, i: nat)
    reads q, q.cost
  {
    q.Valid() && q.Tracked() && Inv(g, parent, q.cost[..], Queued(q.heap), done, i)
  }

  /** The callback of Visit on the i-th edge of v. */
  method Examine(g: Graph, q: PrioQueue, parent0: seq<int>, v: nat, i: nat, ghost done: seq<nat>)
    returns (parent: seq<int>)
    requires Graphs.Valid(g) && LoopInv(g, q, parent0, done, i)
    requires done != [] && done[|done| - 1] == v && v < |g| && i < |g[v]|
    modifies q, q.cost
    ensures LoopInv(g, q, parent, done, i + 1)
  {
    var w, c := g[v][i].to, g[v][i].cost;
    ExamineInv(g, parent0, q.cost[..], Queued(q.heap), done, i, w, c);
    parent := parent0;
    if q.Contains(w) && c < q.cost[w] {
      Lower(q, w, c);
      parent := parent[w := v];
    }
  }

  /** Lower the cost of a queued vertex in the shared slice and repair the heap. */
  method Lower(q: PrioQueue, w: nat, c: int)
    requires q.Valid() && q.Tracked() && w in q.heap
    modifies q, q.cost
    ensures q.Valid() && q.Tracked()
    ensures q.cost[..] == old(q.cost[..])[w := c]
    ensures Queued(q.heap) == old(Queued(q.heap))
  {
    q.cost[w] := c;
    ChangeLoosens(q.heap, old(q.cost[..]), q.cost[..], q.index[w]);
    q.Fix(w);
  }

  method ExamineAll(g: Graph, q: PrioQueue, parent0: seq<int>, v: nat, ghost done: seq<nat>)
    returns (parent: seq<int>)
    requires Graphs.Valid(g) && LoopInv(g, q, parent0, done, 0)
    requires done != [] && done[|done| - 1] == v && v < |g|
    modifies q, q.cost
    ensures LoopInv(g, q, parent, done, |g[v]|)
  {
    parent := parent0;
    for i := 0 to |g[v]|
      invariant LoopInv(g, q, parent, done, i)
    {
      parent := Examine(g, q, parent, v, i, done);
    }
  }

  lemma Conclude(g: Graph, parent: seq<int>, cost: seq<int>, done: seq<nat>, i: nat)
    requires Graphs.Valid(g) && Symmetric(g) && Inv(g, parent, cost, {}, done, i)
    ensures IsSpanningForest(g, parent, cost, done)
    ensures forall r: nat, t: nat :: r < |g| && t < |g| && r != t && parent[r] == -1 && parent[t] == -1 ==> !Reach(g, r, t)
    ensures forall parent', cost', order' :: IsSpanningForest(g, parent', cost', order') ==>
              TotalCost(Links(parent, cost, done)) <= TotalCost(Links(parent', cost', order'))
  {
    assert Enumerates(done, |g|);
    PrimSpans(g, parent, cost, done);
    forall r: nat, t: nat | r < |g| && t < |g| && r != t && parent[r] == -1 && parent[t] == -1
      ensures !Reach(g, r, t)
    {
      assert r in done && t in done;
      var j :| 0 <= j < |done| && done[j] == r;
      var k :| 0 <= k < |done| && done[k] == t;
      if Reach(g, r, t) {
        ReachSym(g, r, t);
        if j < k {
          RootsApart(g, parent, cost, done, j, k);
        } else {
          RootsApart(g, parent, cost, done, k, j);
        }
      }
    }
    forall parent', cost', order' | IsSpanningForest(g, parent', cost', order')
      ensures TotalCost(Links(parent, cost, done)) <= TotalCost(Links(parent', cost', order'))
    {
      PrimIsMinimal(g, parent, cost, done, parent', cost', order');
    }
  }

  /** A minimum spanning forest as parent pointers; cost[v] is the cost of v's link and done an
      order that lists parents first. */
  method MST(g: Graph) returns (parent: seq<int>, ghost cost: seq<int>, ghost done: seq<nat>)
    requires Graphs.Valid(g) && Symmetric(g)
    requires forall x: nat, y: nat, c: int :: HasEdge(g, x, y, c) ==> c < MAX_INT64
    ensures IsSpanningForest(g, parent, cost, done)
    ensures forall r: nat, t: nat :: r < |g| && t < |g| && r != t && parent[r] == -1 && parent[t] == -1 ==> !Reach(g, r, t)
    ensures forall parent', cost', order' :: IsSpanningForest(g, parent', cost', order') ==>
              TotalCost(Links(parent, cost, done)) <= TotalCost(Links(parent', cost', order'))
  {
    parent := seq(|g|, _ => -1);
    var costs := new int[|g|](_ => MAX_INT64);
    var q := new PrioQueue.Full(costs);
    done := [];
    ghost var i: nat := 0;
    while |q.heap| > 0
      invariant fresh(q) && q.cost == costs && fresh(costs)
      invariant LoopInv(g, q, parent, done, i) && Examined(g, done, i)
      decreases |g| - |done|
    {
      ghost var queue := Queued(q.heap);
      var v := q.Pop();
      PopInv(g, parent, costs[..], queue, done, i, v);
      assert Queued(q.heap) == queue - {v};
      done := done + [v];
      SplitCard(queue - {v}, done, g);
      parent := ExamineAll(g, q, parent, v, done);
      i := |g[v]|;
    }
    cost := costs[..];
    assert Queued(q.heap) == {};
    Conclude(g, parent, cost, done, i);
  }
}
