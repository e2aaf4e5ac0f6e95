/**
 Dijkstra's algorithm with decrease-key (prototype/graph/path.go).
 Path lengths are mathematical integers.
 */
module ShortestPaths {
  import opened Sequences
  import opened Finite
  import opened Graphs
  import opened PriorityQueue

  // ---------------------------------------------------------------------------
  // What the result means
  // ---------------------------------------------------------------------------

  /** There is an edge of nonnegative cost c from v to w. */
  ghost predicate HasEdge(g: Graph, v: nat, w: nat, c: int) {
    0 <= c && v < |g| && exists i :: 0 <= i < |g[v]| && g[v][i] == Edge(w, c)
  }

  /** path follows edges of nonnegative cost, of total length d. */
  ghost predicate HasLength(g: Graph, path: seq<nat>, d: int)
    decreases |path|
  {
    && path != []
    && var rest, w := path[..|path| - 1], path[|path| - 1];
       if rest == [] then d == 0
       else exists c {:trigger HasEdge(g, rest[|rest| - 1], w, c)} :: HasEdge(g, rest[|rest| - 1], w, c) && HasLength(g, rest, d - c)
  }

  ghost predicate Connects(g: Graph, path: seq<nat>, s: nat, w: nat, d: int) {
    path != [] && path[0] == s && path[|path| - 1] == w && HasLength(g, path, d)
  }

  /** d is the least length of a path from s to w, or -1 if there is none. */
  ghost predicate IsDistance(g: Graph, s: nat, w: nat, d: int) {
    if d == -1 then
      forall path, e :: !Connects(g, path, s, w, e)
    else
      && (exists path :: Connects(g, path, s, w, d))
      && forall path, e :: Connects(g, path, s, w, e) ==> d <= e
  }

  // ---------------------------------------------------------------------------
  // The invariant
  // ---------------------------------------------------------------------------

  /** dist and parent, the vertices in the queue, and those popped, in the order they were popped. */
  datatype State = State(dist: seq<int>, parent: seq<int>, queue: set<nat>, done: seq<nat>)

  /** The parent of x was popped before x and x's distance comes through it. */
  ghost predicate ThroughParent(g: Graph, s: State, x: nat, earlier: seq<nat>)
    requires x < |s.dist| == |s.parent|
  {
    && 0 <= s.parent[x] < |s.dist|
    && s.parent[x] in earlier
    && HasEdge(g, s.parent[x], x, s.dist[x] - s.dist[s.parent[x]])
  }

  /** The first i edges of x have been relaxed. */
  ghost predicate Relaxed(g: Graph, s: State, x: nat, i: nat)
    requires |s.dist| == |g| && x < |g| && i <= |g[x]|
  {
    forall j :: 0 <= j < i && g[x][j].cost >= 0 ==>
      var y := g[x][j].to; y < |g| && s.dist[y] != -1 && s.dist[y] <= s.dist[x] + g[x][j].cost
  }

  ghost predicate Shape(g: Graph, s: State) {
    && |s.dist| == |s.parent| == |g|
    && (forall x :: x in s.queue ==> x < |g| && x !in s.done)
    && (forall k :: 0 <= k < |s.done| ==> s.done[k] < |g|)
    && (forall j, k :: 0 <= j < k < |s.done| ==> s.done[j] != s.done[k])
    && (forall x: nat :: x < |g| ==> s.dist[x] >= -1 && (s.dist[x] == -1 <==> x !in s.queue && x !in s.done))
  }

  ghost predicate Tree(g: Graph, s: State, source: nat)
    requires Shape(g, s)
  {
    && source < |g| && s.dist[source] == 0 && s.parent[source] == -1
    && (forall x {:trigger ThroughParent(g, s, x, s.done)} :: x in s.queue && x != source ==> ThroughParent(g, s, x, s.done))
    && (forall k {:trigger ThroughParent(g, s, s.done[k], s.done[..k])} ::
          0 <= k < |s.done| && s.done[k] != source ==> ThroughParent(g, s, s.done[k], s.done[..k]))
  }

  ghost predicate Sorted(s: State)
    requires forall x :: x in s.queue || x in s.done ==> x < |s.dist|
  {
    forall x, y :: x in s.done && y in s.queue ==> s.dist[x] <= s.dist[y]
  }

  ghost predicate LastIsFarthest(s: State)
    requires forall k :: 0 <= k < |s.done| ==> s.done[k] < |s.dist|
  {
    forall k :: 0 <= k < |s.done| ==> s.dist[s.done[k]] <= s.dist[s.done[|s.done| - 1]]
  }

  /** All popped vertices but possibly the last have been relaxed. */
  ghost predicate Inv(g: Graph, s: State, source: nat) {
    && Shape(g, s) && Tree(g, s, source) && Sorted(s) && LastIsFarthest(s)
    && (forall k {:trigger Relaxed(g, s, s.done[k], |g[s.done[k]]|)} ::
          0 <= k < |s.done| - 1 ==> Relaxed(g, s, s.done[k], |g[s.done[k]]|))
  }

  ghost predicate LastRelaxed(g: Graph, s: State, i: nat)
    requires Shape(g, s)
  {
    s.done != [] && var v := s.done[|s.done| - 1]; i <= |g[v]| && Relaxed(g, s, v, i)
  }

  ghost predicate AllRelaxed(g: Graph, s: State)
    requires Shape(g, s)
  {
    forall k {:trigger Relaxed(g, s, s.done[k], |g[s.done[k]]|)} ::
      0 <= k < |s.done| ==> Relaxed(g, s, s.done[k], |g[s.done[k]]|)
  }

  // ---------------------------------------------------------------------------
  // Steps
  // ---------------------------------------------------------------------------

  lemma StartInv(g: Graph, s: State, source: nat)
    requires source < |g| == |s.dist| == |s.parent| && s.queue == {source} && s.done == []
    requires forall x :: 0 <= x < |g| ==> s.parent[x] == -1 && s.dist[x] == if x == source then 0 else -1
    ensures Inv(g, s, source) && AllRelaxed(g, s)
  {
  }

  /** Popping a nearest queued vertex. */
  ghost function Popped(s: State, v: nat): State {
    s.(queue := s.queue - {v}, done := s.done + [v])
  }

  lemma PopShape(g: Graph, s: State, v: nat)
    requires Shape(g, s) && v in s.queue
    ensures Shape(g, Popped(s, v))
    ensures forall x :: x in Popped(s, v).done <==> x in s.done || x == v
  {
    var t := Popped(s, v);
    assert forall x :: x in t.done <==> x in s.done || x == v;
  }

  lemma PopTree(g: Graph, s: State, v: nat, source: nat)
    requires Shape(g, s) && Tree(g, s, source) && v in s.queue && Shape(g, Popped(s, v))
    ensures Tree(g, Popped(s, v), source)
  {
    var t := Popped(s, v);
    forall k {:trigger ThroughParent(g, t, t.done[k], t.done[..k])} | 0 <= k < |t.done| && t.done[k] != source
      ensures ThroughParent(g, t, t.done[k], t.done[..k])
    {
      assert t.done[..k] == s.done[..k];
      if k == |s.done| {
        assert s.done[..k] == s.done && t.done[k] == v;
        assert ThroughParent(g, s, v, s.done);
      } else {
        assert ThroughParent(g, s, s.done[k], s.done[..k]);
      }
    }
    forall x {:trigger ThroughParent(g, t, x, t.done)} | x in t.queue && x != source
      ensures ThroughParent(g, t, x, t.done)
    {
      assert ThroughParent(g, s, x, s.done);
    }
  }

  lemma PopInv(g: Graph, s: State, v: nat, source: nat)
    requires Inv(g, s, source) && AllRelaxed(g, s) && v in s.queue
    requires forall x :: x in s.queue ==> s.dist[v] <= s.dist[x]
    ensures Inv(g, Popped(s, v), source) && LastRelaxed(g, Popped(s, v), 0)
  {
    PopShape(g, s, v);
    PopTree(g, s, v, source);
    var t := Popped(s, v);
    forall k {:trigger Relaxed(g, t, t.done[k], |g[t.done[k]]|)} | 0 <= k < |t.done| - 1
      ensures Relaxed(g, t, t.done[k], |g[t.done[k]]|)
    {
      assert Relaxed(g, s, s.done[k], |g[s.done[k]]|);
    }
  }

  /** Giving w the smaller distance d through the last popped vertex. */
  ghost function Improved(s: State, w: nat, d: int): State
    requires w < |s.dist| == |s.parent| && s.done != []
  {
    s.(dist := s.dist[w := d], parent := s.parent[w := s.done[|s.done| - 1]], queue := s.queue + {w})
  }

  /** The i-th edge of the last popped vertex v leads to w at distance d, which is an improvement. */
  ghost predicate Improves(g: Graph, s: State, i: nat, w: nat, d: int)
    requires Shape(g, s)
  {
    && w < |g| && LastRelaxed(g, s, i)
    && (s.dist[w] == -1 || d < s.dist[w])
    && var v := s.done[|s.done| - 1];
       i < |g[v]| && g[v][i].cost >= 0 && g[v][i].to == w && d == s.dist[v] + g[v][i].cost
  }

  /** A vertex whose distance improves has not been popped. */
  lemma ImprovedIsOpen(g: Graph, s: State, i: nat, w: nat, d: int, source: nat)
    requires Inv(g, s, source) && Improves(g, s, i, w, d)
    ensures w !in s.done && w != source
    ensures s.dist[w] != -1 ==> w in s.queue
  {
    var v := s.done[|s.done| - 1];
    assert v in s.done;
    if source in s.done {
      assert 0 <= s.dist[v];
    } else {
      assert source in s.queue;
      assert s.dist[v] >= 0;
    }
  }

  lemma ImproveShape(g: Graph, s: State, i: nat, w: nat, d: int, source: nat)
    requires Inv(g, s, source) && Improves(g, s, i, w, d)
    ensures Shape(g, Improved(s, w, d))
  {
    ImprovedIsOpen(g, s, i, w, d, source);
  }

  lemma ImproveSorted(g: Graph, s: State, i: nat, w: nat, d: int, source: nat)
    requires Inv(g, s, source) && Improves(g, s, i, w, d) && Shape(g, Improved(s, w, d))
    ensures Sorted(Improved(s, w, d)) && LastIsFarthest(Improved(s, w, d))
  {
    ImprovedIsOpen(g, s, i, w, d, source);
    var t, v := Improved(s, w, d), s.done[|s.done| - 1];
    forall x, y | x in t.done && y in t.queue
      ensures t.dist[x] <= t.dist[y]
    {
      var k :| 0 <= k < |s.done| && s.done[k] == x;
      assert s.dist[s.done[k]] <= s.dist[v];
    }
  }

  lemma ImproveTree(g: Graph, s: State, i: nat, w: nat, d: int, source: nat)
    requires Inv(g, s, source) && Improves(g, s, i, w, d) && Shape(g, Improved(s, w, d))
    ensures Tree(g, Improved(s, w, d), source)
  {
    ImprovedIsOpen(g, s, i, w, d, source);
    var t, v := Improved(s, w, d), s.done[|s.done| - 1];
    assert v in s.done;
    forall x {:trigger ThroughParent(g, t, x, t.done)} | x in t.queue && x != source
      ensures ThroughParent(g, t, x, t.done)
    {
      if x == w {
        assert g[v][i] == Edge(w, t.dist[w] - t.dist[v]);
        assert HasEdge(g, v, w, t.dist[w] - t.dist[v]);
      } else {
        assert ThroughParent(g, s, x, s.done);
      }
    }
    forall k {:trigger ThroughParent(g, t, t.done[k], t.done[..k])} | 0 <= k < |t.done| && t.done[k] != source
      ensures ThroughParent(g, t, t.done[k], t.done[..k])
    {
      assert ThroughParent(g, s, s.done[k], s.done[..k]);
      assert s.done[k] in s.done && s.parent[s.done[k]] in s.done;
    }
  }

  lemma ImproveInv(g: Graph, s: State, i: nat, w: nat, d: int, source: nat)
    requires Inv(g, s, source) && Improves(g, s, i, w, d)
    ensures Inv(g, Improved(s, w, d), source) && LastRelaxed(g, Improved(s, w, d), i + 1)
  {
    ImproveShape(g, s, i, w, d, source);
    ImproveSorted(g, s, i, w, d, source);
    ImproveTree(g, s, i, w, d, source);
    ImprovedIsOpen(g, s, i, w, d, source);
    var t, v := Improved(s, w, d), s.done[|s.done| - 1];
    assert v in s.done;
    forall k {:trigger Relaxed(g, t, t.done[k], |g[t.done[k]]|)} | 0 <= k < |t.done| - 1
      ensures Relaxed(g, t, t.done[k], |g[t.done[k]]|)
    {
      assert Relaxed(g, s, s.done[k], |g[s.done[k]]|);
      assert s.done[k] in s.done;
    }
  }

  // ---------------------------------------------------------------------------
  // The end: distances are least
  // ---------------------------------------------------------------------------

  lemma {:induction false} NoShorterPath(g: Graph, s: State, source: nat, path: seq<nat>, e: int)
    requires Inv(g, s, source) && AllRelaxed(g, s) && s.queue == {}
    requires path != [] && path[0] == source && HasLength(g, path, e)
    ensures path[|path| - 1] < |g| && 0 <= s.dist[path[|path| - 1]] <= e
    decreases |path|
  {
    var rest, w := path[..|path| - 1], path[|path| - 1];
    if rest != [] {
      var u := rest[|rest| - 1];
      var c :| HasEdge(g, u, w, c) && HasLength(g, rest, e - c);
      NoShorterPath(g, s, source, rest, e - c);
      var k :| 0 <= k < |s.done| && s.done[k] == u;
      assert Relaxed(g, s, s.done[k], |g[s.done[k]]|);
    }
  }

  /** The vertices met on following parents from x, first the source. */
  ghost function Chain(g: Graph, s: State, source: nat, k: nat): seq<nat>
    requires Inv(g, s, source) && k < |s.done|
    decreases k
  {
    var x := s.done[k];
    if x == source then [x]
    else
      assert ThroughParent(g, s, x, s.done[..k]);
      var j: nat :| j < k && s.done[j] == s.parent[x];
      Chain(g, s, source, j) + [x]
  }

  lemma ChainStep(g: Graph, s: State, source: nat, k: nat) returns (j: nat)
    requires Inv(g, s, source) && k < |s.done| && s.done[k] != source
    ensures j < k && s.done[j] == s.parent[s.done[k]]
    ensures Chain(g, s, source, k) == Chain(g, s, source, j) + [s.done[k]]
  {
    var x := s.done[k];
    assert ThroughParent(g, s, x, s.done[..k]);
    j :| j < k && s.done[j] == s.parent[x] && Chain(g, s, source, k) == Chain(g, s, source, j) + [x];
  }

  lemma ConnectsOn(g: Graph, path: seq<nat>, s: nat, u: nat, w: nat, d: int, c: int)
    requires Connects(g, path, s, u, d) && HasEdge(g, u, w, c)
    ensures Connects(g, path + [w], s, w, d + c)
  {
    var more := path + [w];
    assert more[..|more| - 1] == path && more[|more| - 1] == w;
    assert HasEdge(g, path[|path| - 1], w, c) && HasLength(g, path, d + c - c);
  }

  lemma {:induction false} ChainConnects(g: Graph, s: State, source: nat, k: nat)
    requires Inv(g, s, source) && k < |s.done|
    ensures Connects(g, Chain(g, s, source, k), source, s.done[k], s.dist[s.done[k]])
    decreases k
  {
    var x := s.done[k];
    if x == source {
      assert [x][..0] == [];
    } else {
      var j := ChainStep(g, s, source, k);
      ChainConnects(g, s, source, j);
      assert ThroughParent(g, s, x, s.done[..k]);
      ConnectsOn(g, Chain(g, s, source, j), source, s.done[j], x, s.dist[s.done[j]], s.dist[x] - s.dist[s.done[j]]);
    }
  }

  lemma DistancesAreLeast(g: Graph, s: State, source: nat, w: nat)
    requires Inv(g, s, source) && AllRelaxed(g, s) && s.queue == {} && w < |g|
    ensures IsDistance(g, source, w, s.dist[w])
  {
    forall path, e | Connects(g, path, source, w, e)
      ensures s.dist[w] != -1 && s.dist[w] <= e
    {
      NoShorterPath(g, s, source, path, e);
    }
    if s.dist[w] != -1 {
      var k :| 0 <= k < |s.done| && s.done[k] == w;
      ChainConnects(g, s, source, k);
    }
  }

  // ---------------------------------------------------------------------------
  // The algorithm
  // ---------------------------------------------------------------------------

  ghost function Snapshot(q: PrioQueue, parent: seq<int>, done: seq<nat>): State
    reads q, q.cost
  {
    State(q.cost[..], parent, Queued(q.heap), done)
  }

  /** Set the distance of a vertex that was not reached before and queue it. */
  method Discover(q: PrioQueue, parent0: seq<int>, v: nat, w: nat, alt: int, ghost done: seq<nat>) returns (parent: seq<int>)
    requires q.Valid() && w < q.cost.Length == |parent0| && w !in q.heap && done != [] && done[|done| - 1] == v
    modifies q, q.cost
    ensures q.Valid()
    ensures Snapshot(q, parent, done) == Improved(old(Snapshot(q, parent0, done)), w, alt)
  {
    q.cost[w] := alt;
    parent := parent0[w := v];
    forall k: nat | k < |q.heap|
      ensures OrderedAt(q.heap, q.cost[..], k)
    {
      assert OrderedAt(q.heap, old(q.cost[..]), k);
    }
    q.Push(w);
  }

  /** Lower the distance of a queued vertex. */
  method Decrease(q: PrioQueue, parent0: seq<int>, v: nat, w: nat, alt: int, ghost done: seq<nat>) returns (parent: seq<int>)
    requires q.Valid() && |parent0| == q.cost.Length && w in q.heap && done != [] && done[|done| - 1] == v
    modifies q, q.cost
    ensures q.Valid()
    ensures Snapshot(q, parent, done) == Improved(old(Snapshot(q, parent0, done)), w, alt)
  {
    q.cost[w] := alt;
    parent := parent0[w := v];
    ChangeLoosens(q.heap, old(q.cost[..]), q.cost[..], q.index[w]);
    q.Fix(w);
  }

  /** The callback of Visit on the i-th edge of v. */
  method Relax(g: Graph, q: PrioQueue, parent0: seq<int>, v: nat, i: nat, ghost source: nat, ghost done: seq<nat>)
    returns (parent: seq<int>)
    requires Graphs.Valid(g) && q.Valid() && Inv(g, Snapshot(q, parent0, done), source)
    requires done != [] && done[|done| - 1] == v && v < |g| && i < |g[v]| && LastRelaxed(g, Snapshot(q, parent0, done), i)
    modifies q, q.cost
    ensures q.Valid() && Inv(g, Snapshot(q, parent, done), source)
    ensures LastRelaxed(g, Snapshot(q, parent, done), i + 1)
  {
    parent := parent0;
    var w, d := g[v][i].to, g[v][i].cost;
    if d < 0 {
      return;
    }
    ghost var s := Snapshot(q, parent0, done);
    var alt := q.cost[v] + d;
    if q.cost[w] == -1 {
      ImproveInv(g, s, i, w, alt, source);
      parent := Discover(q, parent0, v, w, alt, done);
    } else if alt < q.cost[w] {
      ImprovedIsOpen(g, s, i, w, alt, source);
      ImproveInv(g, s, i, w, alt, source);
      parent := Decrease(q, parent0, v, w, alt, done);
    }
  }

  lemma DoneIsBounded(done: seq<nat>, n: nat)
    requires forall k :: 0 <= k < |done| ==> done[k] < n
    requires forall j, k :: 0 <= j < k < |done| ==> done[j] != done[k]
    ensures |done| <= n
  {
    DistinctCard(done);
    SubsetCard((set x | x in done), Range(n));
  }

  /** Relax all edges of the vertex v just popped. */
  method RelaxAll(g: Graph, q: PrioQueue, parent0: seq<int>, v: nat, ghost source: nat, ghost done: seq<nat>)
    returns (parent: seq<int>)
    requires Graphs.Valid(g) && q.Valid() && Inv(g, Snapshot(q, parent0, done), source)
    requires done != [] && done[|done| - 1] == v && v < |g| && LastRelaxed(g, Snapshot(q, parent0, done), 0)
    modifies q, q.cost
    ensures q.Valid() && Inv(g, Snapshot(q, parent, done), source) && AllRelaxed(g, Snapshot(q, parent, done))
  {
    parent := parent0;
    for i := 0 to |g[v]|
      invariant q.Valid() && Inv(g, Snapshot(q, parent, done), source)
      invariant LastRelaxed(g, Snapshot(q, parent, done), i)
    {
      parent := Relax(g, q, parent, v, i, source, done);
    }
    LastCompletes(g, Snapshot(q, parent, done), source);
  }

  /** Settle the queued vertex of least distance. */
  method Settle(g: Graph, q: PrioQueue, parent0: seq<int>, ghost source: nat, ghost done0: seq<nat>)
    returns (parent: seq<int>, ghost done: seq<nat>)
    requires Graphs.Valid(g) && q.Valid() && q.heap != []
    requires Inv(g, Snapshot(q, parent0, done0), source) && AllRelaxed(g, Snapshot(q, parent0, done0))
    modifies q, q.cost
    ensures q.Valid() && |done| == |done0| + 1 <= |g|
    ensures Inv(g, Snapshot(q, parent, done), source) && AllRelaxed(g, Snapshot(q, parent, done))
  {
    ghost var s := Snapshot(q, parent0, done0);
    var v := q.Pop();
    PopInv(g, s, v, source);
    done := done0 + [v];
    assert Snapshot(q, parent0, done) == Popped(s, v);
    DoneIsBounded(done, |g|);
    parent := RelaxAll(g, q, parent0, v, source, done);
  }

  /** Distances and predecessors from source; done is the order in which vertices were settled. */
  method ShortestPaths(g: Graph, source: nat) returns (parent: seq<int>, dist: array<int>, ghost done: seq<nat>)
    requires Graphs.Valid(g) && source < |g|
    ensures fresh(dist) && dist.Length == |parent| == |g|
    ensures forall w: nat :: w < |g| ==> IsDistance(g, source, w, dist[w])
    ensures Inv(g, State(dist[..], parent, {}, done), source)
  {
    dist := new int[|g|](_ => -1);
    parent := seq(|g|, _ => -1);
    dist[source] := 0;
    var q := new PrioQueue.Empty(dist);
    done := [];
    q.Push(source);
    StartInv(g, Snapshot(q, parent, done), source);
    while |q.heap| > 0
      invariant fresh(q) && q.cost == dist && q.Valid()
      invariant Inv(g, Snapshot(q, parent, done), source) && AllRelaxed(g, Snapshot(q, parent, done))
      decreases |g| - |done|
    {
      parent, done := Settle(g, q, parent, source, done);
    }
    ghost var s := Snapshot(q, parent, done);
    assert s == State(dist[..], parent, {}, done);
    forall w: nat | w < |g|
      ensures IsDistance(g, source, w, dist[w])
    {
      DistancesAreLeast(g, s, source, w);
    }
  }

  lemma LastCompletes(g: Graph, s: State, source: nat)
    requires Inv(g, s, source) && s.done != [] && LastRelaxed(g, s, |g[s.done[|s.done| - 1]]|)
    ensures AllRelaxed(g, s)
  {
  }

  /** Collect the vertices met on following parents from w = done[k], last vertex first. */
  method FollowParents(parent: seq<int>, w: nat, ghost g: Graph, ghost s: State, ghost source: nat, ghost k0: nat)
    returns (path: seq<nat>)
    requires Inv(g, s, source) && parent == s.parent && k0 < |s.done| && w == s.done[k0]
    ensures Reversed(path) == Chain(g, s, source, k0)
  {
    path := [];
    var x: int := w;
    ghost var k: nat, whole := k0, Chain(g, s, source, k0);
    assert whole == whole + Reversed(path);
    while x != -1
      invariant if x == -1 then Reversed(path) == whole
                else k < |s.done| && x == s.done[k] && Chain(g, s, source, k) + Reversed(path) == whole
      decreases x != -1, k
    {
      assert Reversed(path + [x]) == [x as nat] + Reversed(path);
      path := path + [x];
      if s.done[k] != source {
        k := ChainStep(g, s, source, k);
      }
      x := parent[x];
    }
  }

  /** A shortest path from v to w and its length, or the empty path and -1. */
  method ShortestPath(g: Graph, v: nat, w: nat) returns (path: seq<nat>, dist: int)
    requires Graphs.Valid(g) && v < |g| && w < |g|
    ensures IsDistance(g, v, w, dist)
    ensures if dist == -1 then path == [] else Connects(g, path, v, w, dist)
  {
    var parent, distances;
    ghost var done;
    parent, distances, done := ShortestPaths(g, v);
    path, dist := [], distances[w];
    if dist == -1 {
      return;
    }
    ghost var s := State(distances[..], parent, {}, done);
    ghost var k: int :| 0 <= k < |done| && done[k] == w;
    ChainConnects(g, s, v, k);
    path := FollowParents(parent, w, g, s, v, k);
    path := Reverse(path);
  }
}
