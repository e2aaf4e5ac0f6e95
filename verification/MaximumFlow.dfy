/**
 Edmonds-Karp maximum flow (prototype/graph/maxflow.go) over the mutable
 cost-map graph of prototype/graph/mutable.go.
 */
module MaximumFlow {
  import opened Graphs
  import opened Sums

  /** edges[v] maps each neighbour w of v to the cost of the edge. */
  type Mutable = seq<map<nat, int>>

  /** The cost of an edge, 0 when there is none. */
  function Cost(m: Mutable, v: nat, w: nat): int {
    if v < |m| && w in m[v] then m[v][w] else 0
  }

  function AddCost(m: Mutable, v: nat, w: nat, c: int): Mutable
    requires v < |m| && w < |m|
  {
    var neighbours: map<nat, int> := m[v][w := c];
    m[v := neighbours]
  }

  ghost predicate InRange(m: Mutable) {
    forall v, w :: 0 <= v < |m| && w in m[v] ==> w < |m|
  }

  // ---------------------------------------------------------------------------
  // Flows
  // ---------------------------------------------------------------------------

  /** What leaves v minus what enters v. */
  ghost function NetOut(f: Mutable, v: nat): int {
    Sum((w: nat) => Cost(f, v, w) - Cost(f, w, v), |f|)
  }

  ghost function Supply(v: nat, s: nat, t: nat, x: int): int {
    if v == s then x else if v == t then -x else 0
  }

  /** f is a flow of value x from s to t within the capacities c. */
  ghost predicate IsFlow(c: Mutable, f: Mutable, s: nat, t: nat, x: int) {
    && |f| == |c|
    && (forall v: nat, w: nat :: v < |c| && w < |c| ==> 0 <= Cost(f, v, w) <= Cost(c, v, w))
    && (forall v: nat :: v < |c| ==> NetOut(f, v) == Supply(v, s, t, x))
  }

  // ---------------------------------------------------------------------------
  // Cuts
  // ---------------------------------------------------------------------------

  ghost function CutCapacity(c: Mutable, cut: set<nat>): int {
    Sum2((v: nat, w: nat) => if v in cut && w !in cut then Cost(c, v, w) else 0, |c|, |c|)
  }

  /** An antisymmetric net flow whose only source in the cut is s sends its value across the cut. */
  lemma ValueCrossesCut(h: (nat, nat) -> int, n: nat, cut: set<nat>, s: nat, x: int)
    requires forall v: nat, w: nat :: v < n && w < n ==> h(v, w) == -h(w, v)
    requires s < n && s in cut && Row(h, s, n) == x
    requires forall v: nat :: v < n && v in cut && v != s ==> Row(h, v, n) == 0
    ensures Sum2((v: nat, w: nat) => if v in cut && w !in cut then h(v, w) else 0, n, n) == x
  {
    var all := (v: nat, w: nat) => if v in cut then h(v, w) else 0;
    var inside := (v: nat, w: nat) => if v in cut && w in cut then h(v, w) else 0;
    var across := (v: nat, w: nat) => if v in cut && w !in cut then h(v, w) else 0;
    Sum2Antisymmetric(inside, n);
    Sum2Add(inside, across, all, n, n);
    var row := (v: nat) => if v == s then x else 0;
    forall v: nat | v < n
      ensures row(v) == Row(all, v, n)
    {
      if v in cut {
        RowIs(all, v, n, (w: nat) => h(v, w));
      } else {
        RowIs(all, v, n, (w: nat) => 0);
        SumZero((w: nat) => 0, n);
      }
    }
    Sum2IsSum(all, n, n, row);
    SumOne(row, n, s);
  }

  /** No flow exceeds the capacity of a cut that separates s from t. */
  lemma FlowWithinCut(c: Mutable, f: Mutable, s: nat, t: nat, x: int, cut: set<nat>)
    requires IsFlow(c, f, s, t, x) && s < |c| && s in cut && t !in cut
    ensures x <= CutCapacity(c, cut)
  {
    var n := |c|;
    var h := (v: nat, w: nat) => Cost(f, v, w) - Cost(f, w, v);
    forall v: nat | v < n
      ensures Row(h, v, n) == Supply(v, s, t, x)
    {
      RowIs(h, v, n, (w: nat) => Cost(f, v, w) - Cost(f, w, v));
      assert NetOut(f, v) == Supply(v, s, t, x);
    }
    ValueCrossesCut(h, n, cut, s, x);
    Sum2Le((v: nat, w: nat) => if v in cut && w !in cut then h(v, w) else 0,
           (v: nat, w: nat) => if v in cut && w !in cut then Cost(c, v, w) else 0, n, n);
  }

  // ---------------------------------------------------------------------------
  // Residual graphs
  // ---------------------------------------------------------------------------

  /** The net amount sent out of v, read off the residual graph. */
  ghost function Excess(c: Mutable, r: Mutable, v: nat): int {
    Sum((w: nat) => Cost(c, v, w) - Cost(r, v, w), |c|)
  }

  /** r is what a net flow leaves of the capacities c. */
  ghost predicate Leaves(c: Mutable, r: Mutable) {
    && |r| == |c| && InRange(r)
    && (forall v: nat, w: nat :: v < |c| && w < |c| ==> Cost(r, v, w) >= 0)
    && (forall v: nat, w: nat :: v < |c| && w < |c| ==>
          Cost(r, v, w) + Cost(r, w, v) == Cost(c, v, w) + Cost(c, w, v))
  }

  ghost predicate Residual(c: Mutable, r: Mutable, s: nat, t: nat, x: int) {
    Leaves(c, r) && forall v: nat :: v < |c| ==> Excess(c, r, v) == Supply(v, s, t, x)
  }

  /** If no residual edge leaves the cut, the flow fills it. */
  lemma ClosedCutIsFull(c: Mutable, r: Mutable, s: nat, t: nat, x: int, cut: set<nat>)
    requires Residual(c, r, s, t, x) && s < |c| && s in cut && t !in cut
    requires forall v: nat, w: nat :: v < |c| && w < |c| && v in cut && w !in cut ==> Cost(r, v, w) == 0
    ensures x == CutCapacity(c, cut)
  {
    var n := |c|;
    var h := (v: nat, w: nat) => Cost(c, v, w) - Cost(r, v, w);
    forall v: nat | v < n
      ensures Row(h, v, n) == Supply(v, s, t, x)
    {
      RowIs(h, v, n, (w: nat) => Cost(c, v, w) - Cost(r, v, w));
      assert Excess(c, r, v) == Supply(v, s, t, x);
    }
    ValueCrossesCut(h, n, cut, s, x);
    var across := (v: nat, w: nat) => if v in cut && w !in cut then h(v, w) else 0;
    var capacity := (v: nat, w: nat) => if v in cut && w !in cut then Cost(c, v, w) else 0;
    Sum2Le(across, capacity, n, n);
    Sum2Le(capacity, across, n, n);
  }

  /** Pushing d along the residual edge from u to v. */
  ghost function Push(r: Mutable, u: nat, v: nat, d: int): Mutable
    requires u < |r| && v < |r|
  {
    var r' := AddCost(r, u, v, Cost(r, u, v) - d);
    AddCost(r', v, u, Cost(r', v, u) + d)
  }

  lemma PushCosts(r: Mutable, u: nat, v: nat, d: int, a: nat, b: nat)
    requires u < |r| && v < |r| && u != v
    ensures Cost(Push(r, u, v, d), a, b) ==
            Cost(r, a, b) - (if a == u && b == v then d else 0) + (if a == v && b == u then d else 0)
  {
  }

  lemma PushLeaves(c: Mutable, r: Mutable, u: nat, v: nat, d: int)
    requires Leaves(c, r) && u < |c| && v < |c| && u != v && 0 <= d <= Cost(r, u, v)
    ensures Leaves(c, Push(r, u, v, d))
  {
    var r' := Push(r, u, v, d);
    forall a: nat, b: nat | a < |c| && b < |c|
      ensures Cost(r', a, b) >= 0
      ensures Cost(r', a, b) + Cost(r', b, a) == Cost(c, a, b) + Cost(c, b, a)
    {
      PushCosts(r, u, v, d, a, b);
      PushCosts(r, u, v, d, b, a);
    }
  }

  lemma PushExcess(c: Mutable, r: Mutable, u: nat, v: nat, d: int, x: nat)
    requires |r| == |c| && u < |c| && v < |c| && u != v && x < |c|
    ensures Excess(c, Push(r, u, v, d), x) == Excess(c, r, x) + (if x == u then d else 0) - (if x == v then d else 0)
  {
    var r' := Push(r, u, v, d);
    var f, g := (w: nat) => Cost(c, x, w) - Cost(r, x, w), (w: nat) => Cost(c, x, w) - Cost(r', x, w);
    forall w: nat
      ensures g(w) == f(w) + (if x == u && w == v then d else 0) - (if x == v && w == u then d else 0)
    {
      PushCosts(r, u, v, d, x, w);
    }
    if x == u {
      SumUpdate(f, g, |c|, v);
    } else if x == v {
      SumUpdate(f, g, |c|, u);
    } else {
      SumExt(f, g, |c|);
    }
  }

  // ---------------------------------------------------------------------------
  // The breadth-first search for an augmenting path
  // ---------------------------------------------------------------------------

  /** prev leads every visited vertex back to s along residual edges; depth counts the steps. */
  ghost predicate SearchTree(r: Mutable, s: nat, visited: seq<bool>, prev: seq<int>, depth: seq<nat>) {
    && |visited| == |prev| == |depth| == |r|
    && s < |r| && visited[s] && depth[s] == 0
    && forall w: nat :: w < |r| && visited[w] && w != s ==>
         0 <= prev[w] < |r| && visited[prev[w]] && Cost(r, prev[w], w) > 0 && depth[w] == depth[prev[w]] + 1
  }

  /** Every residual edge out of v leads to a visited vertex. */
  ghost predicate Scanned(r: Mutable, visited: seq<bool>, v: nat)
    requires |visited| == |r|
  {
    forall w: nat :: w < |r| && Cost(r, v, w) > 0 ==> visited[w]
  }

  ghost function Unvisited(visited: seq<bool>): set<nat> {
    set v: nat | v < |visited| && !visited[v]
  }

  /** The search from s; found tells whether t was visited. */
  method ResidualFlow(r: Mutable, s: nat, t: nat, prev0: seq<int>)
    returns (found: bool, prev: seq<int>, visited: seq<bool>, ghost depth: seq<nat>)
    requires InRange(r) && s < |r| && t < |r| && |prev0| == |r|
    ensures SearchTree(r, s, visited, prev, depth)
    ensures forall v: nat :: v < |r| && visited[v] ==> Scanned(r, visited, v)
    ensures found == visited[t]
  {
    var seen := seq(|r|, _ => false);
    depth := seq(|r|, _ => 0);
    prev, seen := prev0[s := -1], seen[s := true];
    var queue: seq<nat> := [s];
    while |queue| > 0
      invariant SearchTree(r, s, seen, prev, depth)
      invariant forall v :: v in queue ==> v < |r| && seen[v]
      invariant forall v: nat :: v < |r| && seen[v] && v !in queue ==> Scanned(r, seen, v)
      decreases |Unvisited(seen)| + |queue|
    {
      var v := queue[0];
      assert v in queue;
      var rest := queue[1..];
      assert queue == [v] + rest;
      assert forall x :: x in queue <==> x == v || x in rest;
      prev, seen, queue, depth := VisitNeighbours(r, s, v, prev, seen, rest, depth);
    }
    return seen[t], prev, seen, depth;
  }

  /** One call of Visit: every unvisited neighbour with residual capacity is queued. */
  method VisitNeighbours(r: Mutable, s: nat, v: nat, prev0: seq<int>, seen0: seq<bool>, queue0: seq<nat>, ghost depth0: seq<nat>)
    returns (prev: seq<int>, seen: seq<bool>, queue: seq<nat>, ghost depth: seq<nat>)
    requires InRange(r) && SearchTree(r, s, seen0, prev0, depth0) && v < |r| && seen0[v]
    requires forall x :: x in queue0 ==> x < |r| && seen0[x]
    requires forall x: nat :: x < |r| && seen0[x] && x !in queue0 && x != v ==> Scanned(r, seen0, x)
    ensures SearchTree(r, s, seen, prev, depth)
    ensures forall x :: x in queue ==> x < |r| && seen[x]
    ensures forall x: nat :: x < |r| && seen[x] && x !in queue ==> Scanned(r, seen, x)
    ensures |Unvisited(seen)| + |queue| == |Unvisited(seen0)| + |queue0|
  {
    prev, seen, queue, depth := prev0, seen0, queue0, depth0;
    var todo := r[v].Keys;
    while todo != {}
      invariant todo <= r[v].Keys
      invariant SearchTree(r, s, seen, prev, depth) && seen[v]
      invariant forall x :: x in queue ==> x < |r| && seen[x]
      invariant forall x: nat :: x < |r| && seen[x] && x !in queue && x != v ==> Scanned(r, seen, x)
      invariant forall w :: w in r[v].Keys - todo && r[v][w] > 0 ==> seen[w]
      invariant |Unvisited(seen)| + |queue| == |Unvisited(seen0)| + |queue0|
      decreases todo
    {
      var w :| w in todo;
      todo := todo - {w};
      if !seen[w] && r[v][w] > 0 {
        ghost var before := Unvisited(seen);
        prev := prev[w := v];
        seen := seen[w := true];
        queue := queue + [w];
        depth := depth[w := depth[v] + 1];
        assert Unvisited(seen) == before - {w};
      }
    }
  }

  // ---------------------------------------------------------------------------
  // Augmenting along the path found
  // ---------------------------------------------------------------------------

  /** The path from s to v that prev describes carries at least d. */
  ghost predicate PathCarries(r: Mutable, s: nat, visited: seq<bool>, prev: seq<int>, depth: seq<nat>, v: nat, d: int)
    requires SearchTree(r, s, visited, prev, depth) && v < |r| && visited[v]
    decreases depth[v]
  {
    v != s ==> d <= Cost(r, prev[v], v) && PathCarries(r, s, visited, prev, depth, prev[v], d)
  }

  /** The smallest residual capacity on the path; Max when it is longer than any cost. */
  method Bottleneck(r: Mutable, s: nat, t: nat, prev: seq<int>, ghost visited: seq<bool>, ghost depth: seq<nat>)
    returns (pathFlow: int)
    requires SearchTree(r, s, visited, prev, depth) && t < |r| && visited[t]
    requires forall v: nat, w: nat :: v < |r| && w < |r| && v != w ==> Cost(r, v, w) < MAX_INT64
    ensures 0 < pathFlow
    ensures PathCarries(r, s, visited, prev, depth, t, pathFlow)
    ensures s != t ==> pathFlow < MAX_INT64
  {
    pathFlow := MAX_INT64;
    var v: nat := t;
    while v != s
      invariant v < |r| && visited[v] && 0 < pathFlow
      invariant v == t || pathFlow < MAX_INT64
      invariant forall d :: d <= pathFlow && PathCarries(r, s, visited, prev, depth, v, d) ==>
                  PathCarries(r, s, visited, prev, depth, t, d)
      decreases depth[v]
    {
      var u: nat := prev[v];
      var c := Cost(r, u, v);
      if c < pathFlow {
        pathFlow := c;
      }
      v := u;
    }
  }

  /** The state of the augmenting loop when it has come back from t as far as v. */
  ghost predicate Augmenting(c: Mutable, r0: Mutable, r: Mutable, s: nat, t: nat, x: int, d: int, v: nat,
                             visited: seq<bool>, depth: seq<nat>) {
    && Leaves(c, r) && |r0| == |c| == |visited| == |depth| && v < |c|
    && (forall y: nat :: y < |c| ==>
          Excess(c, r, y) == Supply(y, s, t, x) + (if y == v then d else 0) - (if y == t then d else 0))
    && (forall a: nat, b: nat :: a < |c| && b < |c| && visited[a] && visited[b] && depth[a] <= depth[v] && depth[b] <= depth[v] ==>
          Cost(r, a, b) == Cost(r0, a, b))
  }

  lemma AugmentStarts(c: Mutable, r0: Mutable, s: nat, t: nat, x: int, d: int, visited: seq<bool>, depth: seq<nat>)
    requires Residual(c, r0, s, t, x) && t < |c| == |visited| == |depth|
    ensures Augmenting(c, r0, r0, s, t, x, d, t, visited, depth)
  {
  }

  lemma AugmentEnds(c: Mutable, r0: Mutable, r: Mutable, s: nat, t: nat, x: int, d: int, visited: seq<bool>, depth: seq<nat>)
    requires Augmenting(c, r0, r, s, t, x, d, s, visited, depth) && s != t
    ensures Residual(c, r, s, t, x + d)
  {
  }

  lemma AugmentStep(c: Mutable, r0: Mutable, r: Mutable, s: nat, t: nat, x: int, d: int, v: nat,
                    visited: seq<bool>, prev: seq<int>, depth: seq<nat>)
    requires Augmenting(c, r0, r, s, t, x, d, v, visited, depth)
    requires SearchTree(r0, s, visited, prev, depth) && visited[v] && v != s
    requires 0 <= d <= Cost(r0, prev[v], v)
    ensures Augmenting(c, r0, Push(r, prev[v], v, d), s, t, x, d, prev[v], visited, depth)
  {
    var u := prev[v];
    var r' := Push(r, u, v, d);
    assert Cost(r, u, v) == Cost(r0, u, v);
    PushLeaves(c, r, u, v, d);
    forall y: nat | y < |c|
      ensures Excess(c, r', y) == Supply(y, s, t, x) + (if y == u then d else 0) - (if y == t then d else 0)
    {
      PushExcess(c, r, u, v, d, y);
    }
    forall a: nat, b: nat | a < |c| && b < |c| && visited[a] && visited[b] && depth[a] <= depth[u] && depth[b] <= depth[u]
      ensures Cost(r', a, b) == Cost(r0, a, b)
    {
      PushCosts(r, u, v, d, a, b);
    }
  }

  method Transfer(r0: Mutable, u: nat, v: nat, d: int) returns (r: Mutable)
    requires u < |r0| && v < |r0|
    ensures r == Push(r0, u, v, d)
  {
    r := AddCost(r0, u, v, Cost(r0, u, v) - d);
    r := AddCost(r, v, u, Cost(r, v, u) + d);
  }

  /** Move pathFlow from the forward to the backward residual edges of the path. */
  method Augment(r0: Mutable, s: nat, t: nat, prev: seq<int>, d: int,
                 ghost c: Mutable, ghost x: int, ghost visited: seq<bool>, ghost depth: seq<nat>)
    returns (r: Mutable)
    requires Residual(c, r0, s, t, x) && s != t && t < |c|
    requires SearchTree(r0, s, visited, prev, depth) && visited[t]
    requires 0 <= d && PathCarries(r0, s, visited, prev, depth, t, d)
    ensures Residual(c, r, s, t, x + d)
  {
    r := r0;
    var v: nat := t;
    AugmentStarts(c, r0, s, t, x, d, visited, depth);
    while v != s
      invariant v < |c| && visited[v] && PathCarries(r0, s, visited, prev, depth, v, d)
      invariant Augmenting(c, r0, r, s, t, x, d, v, visited, depth)
      decreases depth[v]
    {
      var u: nat := prev[v];
      AugmentStep(c, r0, r, s, t, x, d, v, visited, prev, depth);
      r := Transfer(r, u, v, d);
      v := u;
    }
    AugmentEnds(c, r0, r, s, t, x, d, visited, depth);
  }

  // ---------------------------------------------------------------------------
  // The graph given and the graph returned
  // ---------------------------------------------------------------------------

  function EdgeMap(edges: seq<Edge>): map<nat, int> {
    if edges == [] then map[]
    else
      var last := edges[|edges| - 1];
      var rest: map<nat, int> := EdgeMap(edges[..|edges| - 1]);
      rest[last.to := last.cost]
  }

  /** The capacities of g as a cost map. */
  function Capacities(g: Graph): Mutable {
    seq(|g|, v requires 0 <= v < |g| => EdgeMap(g[v]))
  }

  /** No vertex lists a neighbour twice. */
  ghost predicate Simple(edges: seq<Edge>) {
    forall i, j :: 0 <= i < j < |edges| ==> edges[i].to != edges[j].to
  }

  lemma {:induction false} EdgeMapHas(edges: seq<Edge>, w: nat)
    ensures w in EdgeMap(edges) <==> exists i :: 0 <= i < |edges| && edges[i].to == w
    ensures Simple(edges) ==> forall i :: 0 <= i < |edges| && edges[i].to == w ==> EdgeMap(edges)[w] == edges[i].cost
  {
    if edges != [] {
      var n := |edges| - 1;
      EdgeMapHas(edges[..n], w);
      assert edges[n].to == w ==> w in EdgeMap(edges);
      assert forall i :: 0 <= i < n ==> edges[i] == edges[..n][i];
    }
  }

  lemma CapacitiesInRange(g: Graph)
    requires Valid(g)
    ensures InRange(Capacities(g))
  {
    var c := Capacities(g);
    forall v, w | 0 <= v < |c| && w in c[v]
      ensures w < |c|
    {
      EdgeMapHas(g[v], w);
    }
  }

  method Copy(g: Graph) returns (h: Mutable)
    requires Valid(g)
    ensures h == Capacities(g)
  {
    h := seq(|g|, _ => map[]);
    for v := 0 to |g|
      invariant |h| == |g|
      invariant forall x :: 0 <= x < v ==> h[x] == EdgeMap(g[x])
      invariant forall x :: v <= x < |g| ==> h[x] == map[]
    {
      for i := 0 to |g[v]|
        invariant |h| == |g|
        invariant forall x :: 0 <= x < v ==> h[x] == EdgeMap(g[x])
        invariant forall x :: v < x < |g| ==> h[x] == map[]
        invariant h[v] == EdgeMap(g[v][..i])
      {
        assert g[v][..i + 1][..i] == g[v][..i];
        h := AddCost(h, v, g[v][i].to, g[v][i].cost);
      }
      assert g[v][..|g[v]|] == g[v];
    }
  }

  ghost function Positive(x: int): int {
    if x > 0 then x else 0
  }

  /** The positive part of the net flow on the edges of v, as cost map. */
  method FlowOut(g: Graph, r: Mutable, v: nat) returns (out: map<nat, int>)
    requires Valid(g) && |r| == |g| && v < |g| && Simple(g[v])
    requires forall w: nat :: Cost(r, v, w) >= 0
    ensures forall w: nat :: (if w in out then out[w] else 0) == Positive(Cost(Capacities(g), v, w) - Cost(r, v, w))
  {
    out := map[];
    ghost var c := Capacities(g);
    for i := 0 to |g[v]|
      invariant forall w :: w in out ==> out[w] == Positive(Cost(c, v, w) - Cost(r, v, w))
      invariant forall j :: 0 <= j < i && g[v][j].to !in out ==> Positive(Cost(c, v, g[v][j].to) - Cost(r, v, g[v][j].to)) == 0
    {
      var w, capacity := g[v][i].to, g[v][i].cost;
      EdgeMapHas(g[v], w);
      var flow := capacity - Cost(r, v, w);
      if flow > 0 {
        out := out[w := flow];
      }
    }
    forall w: nat | w !in out
      ensures Positive(Cost(c, v, w) - Cost(r, v, w)) == 0
    {
      EdgeMapHas(g[v], w);
    }
  }

  method ExtractFlow(g: Graph, r: Mutable) returns (res: Mutable)
    requires Valid(g) && |r| == |g| && (forall v :: 0 <= v < |g| ==> Simple(g[v]))
    requires forall v: nat, w: nat :: Cost(r, v, w) >= 0
    ensures |res| == |g|
    ensures forall v: nat, w: nat :: v < |g| ==>
              Cost(res, v, w) == Positive(Cost(Capacities(g), v, w) - Cost(r, v, w))
  {
    res := [];
    for v := 0 to |g|
      invariant |res| == v
      invariant forall x: nat, w: nat :: x < v ==>
                  Cost(res, x, w) == Positive(Cost(Capacities(g), x, w) - Cost(r, x, w))
    {
      var out := FlowOut(g, r, v);
      res := res + [out];
    }
  }

  /** The positive part of a net flow is a flow of the same value. */
  lemma PositivePartIsFlow(c: Mutable, r: Mutable, f: Mutable, s: nat, t: nat, x: int)
    requires Residual(c, r, s, t, x) && |f| == |c|
    requires forall v: nat, w: nat :: v < |c| && w < |c| ==> Cost(c, v, w) >= 0
    requires forall v: nat, w: nat :: v < |c| && w < |c| ==> Cost(f, v, w) == Positive(Cost(c, v, w) - Cost(r, v, w))
    ensures IsFlow(c, f, s, t, x)
  {
    forall v: nat | v < |c|
      ensures NetOut(f, v) == Supply(v, s, t, x)
    {
      SumExt((w: nat) => Cost(f, v, w) - Cost(f, w, v), (w: nat) => Cost(c, v, w) - Cost(r, v, w), |c|);
      assert Excess(c, r, v) == Supply(v, s, t, x);
    }
  }

  // ---------------------------------------------------------------------------
  // Bounds
  // ---------------------------------------------------------------------------

  ghost function TotalCapacity(c: Mutable): int {
    Sum2((v: nat, w: nat) => Cost(c, v, w), |c|, |c|)
  }

  lemma RowsWithinTotal(c: Mutable, v: nat, w: nat)
    requires v < |c| && w < |c| && v != w
    requires forall a: nat, b: nat :: a < |c| && b < |c| ==> Cost(c, a, b) >= 0
    ensures Cost(c, v, w) + Cost(c, w, v) <= TotalCapacity(c)
    ensures Sum((b: nat) => Cost(c, v, b), |c|) <= TotalCapacity(c)
  {
    var n, k := |c|, (a: nat, b: nat) => Cost(c, a, b);
    var row := (a: nat) => Sum((b: nat) => Cost(c, a, b), n);
    forall a: nat | a < n
      ensures row(a) == Row(k, a, n) && row(a) >= 0
    {
      RowIs(k, a, n, (b: nat) => Cost(c, a, b));
      SumLe((b: nat) => 0, (b: nat) => Cost(c, a, b), n);
      SumZero((b: nat) => 0, n);
    }
    Sum2IsSum(k, n, n, row);
    TermLeSum(row, n, v);
    TermLeSum((b: nat) => Cost(c, v, b), n, w);
    TermLeSum((b: nat) => Cost(c, w, b), n, v);
    TwoTermsLeSum(row, n, if v < w then v else w, if v < w then w else v);
  }

  lemma ResidualBounds(c: Mutable, r: Mutable, s: nat, t: nat, x: int)
    requires Residual(c, r, s, t, x) && s < |c| && t < |c| && s != t
    requires forall a: nat, b: nat :: a < |c| && b < |c| ==> Cost(c, a, b) >= 0
    ensures x <= TotalCapacity(c)
    ensures forall v: nat, w: nat :: v < |c| && w < |c| && v != w ==> Cost(r, v, w) <= TotalCapacity(c)
  {
    SumLe((w: nat) => Cost(c, s, w) - Cost(r, s, w), (w: nat) => Cost(c, s, w), |c|);
    RowsWithinTotal(c, s, t);
    assert Excess(c, r, s) == x;
    forall v: nat, w: nat | v < |c| && w < |c| && v != w
      ensures Cost(r, v, w) <= TotalCapacity(c)
    {
      RowsWithinTotal(c, v, w);
    }
  }

  lemma NothingSentYet(c: Mutable, s: nat, t: nat)
    requires InRange(c) && forall a: nat, b: nat :: a < |c| && b < |c| ==> Cost(c, a, b) >= 0
    ensures Residual(c, c, s, t, 0)
  {
    forall v: nat | v < |c|
      ensures Excess(c, c, v) == 0
    {
      SumZero((w: nat) => Cost(c, v, w) - Cost(c, v, w), |c|);
    }
  }

  // ---------------------------------------------------------------------------
  // The algorithm
  // ---------------------------------------------------------------------------

  /** A maximum flow from s to t and its value. */
  method MaxFlow(g: Graph, s: nat, t: nat) returns (flow: int, result: Mutable)
    requires Valid(g) && s < |g| && t < |g| && s != t
    requires forall v :: 0 <= v < |g| ==> Simple(g[v])
    requires forall v, i :: 0 <= v < |g| && 0 <= i < |g[v]| ==> g[v][i].cost >= 0
    requires TotalCapacity(Capacities(g)) < MAX_INT64
    ensures IsFlow(Capacities(g), result, s, t, flow)
    ensures forall f, x :: IsFlow(Capacities(g), f, s, t, x) ==> x <= flow
  {
    ghost var c := Capacities(g);
    CapacitiesInRange(g);
    CapacitiesNonNegative(g);
    var prev := seq(|g|, _ => 0);
    var residual := Copy(g);
    flow := 0;
    NothingSentYet(c, s, t);
    var found;
    ghost var visited, depth;
    found, prev, visited, depth := ResidualFlow(residual, s, t, prev);
    ResidualBounds(c, residual, s, t, flow);
    while found && flow < MAX_INT64
      invariant Residual(c, residual, s, t, flow) && flow <= TotalCapacity(c)
      invariant SearchTree(residual, s, visited, prev, depth) && found == visited[t]
      invariant forall v: nat :: v < |c| && visited[v] ==> Scanned(residual, visited, v)
      decreases TotalCapacity(c) - flow
    {
      ResidualBounds(c, residual, s, t, flow);
      var pathFlow := Bottleneck(residual, s, t, prev, visited, depth);
      residual := Augment(residual, s, t, prev, pathFlow, c, flow, visited, depth);
      flow := flow + pathFlow;
      ResidualBounds(c, residual, s, t, flow);
      found, prev, visited, depth := ResidualFlow(residual, s, t, prev);
    }
    ghost var cut := set v: nat | v < |visited| && visited[v];
    ClosedCutIsFull(c, residual, s, t, flow, cut);
    forall f, x | IsFlow(c, f, s, t, x)
      ensures x <= flow
    {
      FlowWithinCut(c, f, s, t, x, cut);
    }
    ResidualNonNegative(c, residual);
    result := ExtractFlow(g, residual);
    PositivePartIsFlow(c, residual, result, s, t, flow);
  }

  lemma CapacitiesNonNegative(g: Graph)
    requires forall v, i :: 0 <= v < |g| && 0 <= i < |g[v]| ==> g[v][i].cost >= 0
    requires forall v :: 0 <= v < |g| ==> Simple(g[v])
    ensures forall v: nat, w: nat :: Cost(Capacities(g), v, w) >= 0
  {
    forall v: nat, w: nat
      ensures Cost(Capacities(g), v, w) >= 0
    {
      if v < |g| {
        EdgeMapHas(g[v], w);
      }
    }
  }

  lemma ResidualNonNegative(c: Mutable, r: Mutable)
    requires Leaves(c, r)
    ensures forall v: nat, w: nat :: Cost(r, v, w) >= 0
  {
  }
}
