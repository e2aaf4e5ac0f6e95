/**
 Hierholzer's algorithm for directed multigraphs (prototype/graph/euler.go).
 */
module EulerWalk {
  import opened Sequences
  import opened Graphs

  type Edges = multiset<(nat, nat)>

  // ---------------------------------------------------------------------------
  // What the result means
  // ---------------------------------------------------------------------------

  /** The edges from v to the listed vertices. */
  ghost function EdgesOf(v: nat, targets: seq<nat>): Edges {
    if targets == [] then multiset{} else multiset{(v, targets[0])} + EdgesOf(v, targets[1..])
  }

  /** The edges whose tail is one of the first n vertices of adjacency list h. */
  ghost function EdgesBelow(h: seq<seq<nat>>, n: nat): Edges
    requires n <= |h|
  {
    if n == 0 then multiset{} else EdgesBelow(h, n - 1) + EdgesOf(n - 1, h[n - 1])
  }

  function Targets(edges: seq<Edge>): seq<nat> {
    seq(|edges|, i requires 0 <= i < |edges| => edges[i].to)
  }

  function AdjacencyLists(g: Graph): seq<seq<nat>> {
    seq(|g|, v requires 0 <= v < |g| => Targets(g[v]))
  }

  /** The edge multiset of the graph. */
  ghost function EdgeSet(g: Graph): Edges {
    EdgesBelow(AdjacencyLists(g), |g|)
  }

  /** The edges between consecutive vertices of a walk, with multiplicity. */
  ghost function WalkEdges(w: seq<nat>): Edges {
    if |w| < 2 then multiset{} else multiset{(w[0], w[1])} + WalkEdges(w[1..])
  }

  /** A walk that uses every edge exactly as often as the graph has it. */
  ghost predicate IsEulerWalk(g: Graph, w: seq<nat>) {
    w != [] && WalkEdges(w) == EdgeSet(g)
  }

  // ---------------------------------------------------------------------------
  // Degree balance
  // ---------------------------------------------------------------------------

  /** Edges leaving x minus edges entering x, over neighbours below n. */
  ghost function Balance(e: Edges, x: nat, n: nat): int {
    if n == 0 then 0 else Balance(e, x, n - 1) + e[(x, n - 1)] - e[(n - 1, x)]
  }

  ghost function Is(x: nat, y: nat): int {
    if x == y then 1 else 0
  }

  lemma {:induction false} BalanceAdd(e: Edges, f: Edges, x: nat, n: nat)
    ensures Balance(e + f, x, n) == Balance(e, x, n) + Balance(f, x, n)
  {
    if n > 0 {
      BalanceAdd(e, f, x, n - 1);
    }
  }

  lemma {:induction false} BalanceEmpty(x: nat, n: nat)
    ensures Balance(multiset{}, x, n) == 0
  {
    if n > 0 {
      BalanceEmpty(x, n - 1);
    }
  }

  lemma {:induction false} BalanceOne(a: nat, b: nat, x: nat, n: nat)
    ensures Balance(multiset{(a, b)}, x, n) == (if b < n then Is(x, a) else 0) - (if a < n then Is(x, b) else 0)
  {
    if n > 0 {
      BalanceOne(a, b, x, n - 1);
    }
  }

  lemma {:induction false} BalanceWalk(w: seq<nat>, x: nat, n: nat)
    requires w != [] && forall i :: 0 <= i < |w| ==> w[i] < n
    ensures Balance(WalkEdges(w), x, n) == Is(x, w[0]) - Is(x, w[|w| - 1])
  {
    if |w| == 1 {
      BalanceEmpty(x, n);
    } else {
      BalanceAdd(multiset{(w[0], w[1])}, WalkEdges(w[1..]), x, n);
      BalanceOne(w[0], w[1], x, n);
      BalanceWalk(w[1..], x, n);
    }
  }

  /** A vertex with more edges out than in has an edge out. */
  lemma {:induction false} PositiveBalance(e: Edges, x: nat, n: nat) returns (y: nat)
    requires Balance(e, x, n) > 0
    ensures y < n && (x, y) in e
  {
    if e[(x, n - 1)] > 0 {
      y := n - 1;
    } else {
      y := PositiveBalance(e, x, n - 1);
    }
  }

  ghost function TotalBalance(e: Edges, m: nat, n: nat): int {
    if m == 0 then 0 else TotalBalance(e, m - 1, n) + Balance(e, m - 1, n)
  }

  lemma {:induction false} TotalAdd(e: Edges, a: nat, b: nat, m: nat, n: nat)
    requires a < n && b < n
    ensures TotalBalance(e + multiset{(a, b)}, m, n)
         == TotalBalance(e, m, n) + (if a < m then 1 else 0) - (if b < m then 1 else 0)
  {
    if m > 0 {
      TotalAdd(e, a, b, m - 1, n);
      BalanceAdd(e, multiset{(a, b)}, m - 1, n);
      BalanceOne(a, b, m - 1, n);
    }
  }

  lemma {:induction false} TotalEmpty(m: nat, n: nat)
    ensures TotalBalance(multiset{}, m, n) == 0
  {
    if m > 0 {
      TotalEmpty(m - 1, n);
      BalanceEmpty(m - 1, n);
    }
  }

  /** Every edge leaves one vertex and enters one, so balances cancel. */
  lemma {:induction false} TotalIsZero(e: Edges, n: nat)
    requires forall p :: p in e ==> p.0 < n && p.1 < n
    ensures TotalBalance(e, n, n) == 0
    decreases |e|
  {
    if e == multiset{} {
      TotalEmpty(n, n);
    } else {
      var p :| p in e;
      var rest := e - multiset{p};
      assert e == rest + multiset{p} && |rest| < |e|;
      TotalIsZero(rest, n);
      TotalAdd(rest, p.0, p.1, n, n);
    }
  }

  lemma {:induction false} TotalOfOne(e: Edges, m: nat, n: nat, s: nat, b: int)
    requires forall x: nat :: x < m && x != s ==> Balance(e, x, n) == 0
    requires s < m ==> Balance(e, s, n) == b
    ensures TotalBalance(e, m, n) == if s < m then b else 0
  {
    if m > 0 {
      TotalOfOne(e, m - 1, n, s, b);
    }
  }

  // ---------------------------------------------------------------------------
  // Adjacency lists and their edges
  // ---------------------------------------------------------------------------

  lemma {:induction false} EdgesOfMembers(v: nat, targets: seq<nat>, a: nat, b: nat)
    ensures (a, b) in EdgesOf(v, targets) <==> a == v && b in targets
    ensures |EdgesOf(v, targets)| == |targets|
  {
    if targets != [] {
      EdgesOfMembers(v, targets[1..], a, b);
      assert targets == [targets[0]] + targets[1..];
    }
  }

  lemma {:induction false} EdgesBelowMembers(h: seq<seq<nat>>, n: nat, a: nat, b: nat)
    requires n <= |h|
    ensures (a, b) in EdgesBelow(h, n) <==> a < n && b in h[a]
  {
    if n > 0 {
      var below, last := EdgesBelow(h, n - 1), EdgesOf(n - 1, h[n - 1]);
      EdgesBelowMembers(h, n - 1, a, b);
      EdgesOfMembers(n - 1, h[n - 1], a, b);
      if a == n - 1 {
        assert (a, b) !in below;
        assert (a, b) in below + last <==> b in h[a];
      } else {
        assert (a, b) !in last;
        assert (a, b) in below + last <==> (a, b) in below;
      }
    }
  }

  lemma Assoc(a: Edges, b: Edges, c: Edges)
    ensures a + (b + c) == a + b + c
  {
  }

  lemma Swap(a: Edges, b: Edges, c: Edges)
    ensures a + b + c == a + c + b
  {
  }

  /** Dropping the first target of v removes exactly that edge. */
  lemma {:induction false} TakeEdge(h: seq<seq<nat>>, v: nat, n: nat)
    requires v < n <= |h| && h[v] != []
    ensures EdgesBelow(h, n) == EdgesBelow(h[v := h[v][1..]], n) + multiset{(v, h[v][0])}
  {
    var h', p := h[v := h[v][1..]], multiset{(v, h[v][0])};
    if v == n - 1 {
      EdgesUnchanged(h, h', v);
      Swap(EdgesBelow(h, v), p, EdgesOf(v, h'[v]));
      Assoc(EdgesBelow(h, v), p, EdgesOf(v, h'[v]));
    } else {
      TakeEdge(h, v, n - 1);
      Swap(EdgesBelow(h', n - 1), p, EdgesOf(n - 1, h[n - 1]));
    }
  }

  lemma {:induction false} EdgesUnchanged(h: seq<seq<nat>>, h': seq<seq<nat>>, n: nat)
    requires n <= |h| == |h'| && forall i :: 0 <= i < n ==> h[i] == h'[i]
    ensures EdgesBelow(h, n) == EdgesBelow(h', n)
  {
    if n > 0 {
      EdgesUnchanged(h, h', n - 1);
    }
  }

  lemma {:induction false} EdgesSnoc(v: nat, targets: seq<nat>, t: nat)
    ensures EdgesOf(v, targets + [t]) == EdgesOf(v, targets) + multiset{(v, t)}
  {
    if targets == [] {
      assert [t][1..] == [];
      assert EdgesOf(v, [t]) == multiset{(v, t)} + EdgesOf(v, []);
      assert targets + [t] == [t];
    } else {
      EdgesSnoc(v, targets[1..], t);
      assert (targets + [t])[1..] == targets[1..] + [t];
    }
  }

  lemma {:induction false} WalkJoin(a: seq<nat>, m: nat, b: seq<nat>)
    ensures WalkEdges(a + [m] + b) == WalkEdges(a + [m]) + WalkEdges([m] + b)
  {
    if a == [] {
      assert a + [m] + b == [m] + b && a + [m] == [m];
    } else {
      var whole, left := a + [m] + b, a + [m];
      var first := multiset{(left[0], left[1])};
      calc {
        WalkEdges(whole);
        { assert whole[1..] == a[1..] + [m] + b && whole[0] == left[0] && whole[1] == left[1]; }
        first + WalkEdges(a[1..] + [m] + b);
        { WalkJoin(a[1..], m, b); }
        first + (WalkEdges(a[1..] + [m]) + WalkEdges([m] + b));
        { Assoc(first, WalkEdges(a[1..] + [m]), WalkEdges([m] + b)); }
        first + WalkEdges(a[1..] + [m]) + WalkEdges([m] + b);
        { assert left[1..] == a[1..] + [m]; }
        WalkEdges(left) + WalkEdges([m] + b);
      }
    }
  }

  lemma {:induction false} WalkMembers(w: seq<nat>, a: nat, b: nat)
    requires (a, b) in WalkEdges(w)
    ensures a in w && b in w
  {
    if |w| >= 2 && (a, b) != (w[0], w[1]) {
      WalkMembers(w[1..], a, b);
    }
  }

  lemma {:induction false} WalkHas(w: seq<nat>, i: nat)
    requires i + 1 < |w|
    ensures (w[i], w[i + 1]) in WalkEdges(w)
  {
    if i > 0 {
      WalkHas(w[1..], i - 1);
    }
  }

  lemma {:induction false} WalkStays(w: seq<nat>, s: set<nat>, i: nat, j: nat)
    requires i <= j < |w| && w[i] in s
    requires forall a, b :: a in s && (a, b) in WalkEdges(w) ==> b in s
    ensures w[j] in s
    decreases j
  {
    if i < j {
      WalkStays(w, s, i, j - 1);
      WalkHas(w, j - 1);
    }
  }

  lemma EdgesInRange(g: Graph)
    requires Valid(g)
    ensures forall p :: p in EdgeSet(g) ==> p.0 < |g| && p.1 < |g|
  {
    forall p | p in EdgeSet(g)
      ensures p.0 < |g| && p.1 < |g|
    {
      EdgesBelowMembers(AdjacencyLists(g), |g|, p.0, p.1);
    }
  }

  // ---------------------------------------------------------------------------
  // When there is no Euler walk
  // ---------------------------------------------------------------------------

  lemma EulerWalkInRange(g: Graph, w: seq<nat>)
    requires Valid(g) && IsEulerWalk(g, w) && |w| >= 2
    ensures forall i :: 0 <= i < |w| ==> w[i] < |g|
  {
    EdgesInRange(g);
    forall i | 0 <= i < |w|
      ensures w[i] < |g|
    {
      if i + 1 < |w| {
        WalkHas(w, i);
      } else {
        WalkHas(w, i - 1);
      }
    }
  }

  /** An Euler walk fixes every balance: +1 at its first vertex, -1 at its last. */
  lemma EulerBalance(g: Graph, w: seq<nat>, x: nat)
    requires Valid(g) && IsEulerWalk(g, w) && EdgeSet(g) != multiset{}
    ensures |w| >= 2
    ensures Balance(EdgeSet(g), x, |g|) == Is(x, w[0]) - Is(x, w[|w| - 1])
  {
    assert |w| >= 2;
    EulerWalkInRange(g, w);
    BalanceWalk(w, x, |g|);
  }

  /** The balances that an Euler walk from s to t requires. */
  ghost predicate Balanced(e: Edges, n: nat, s: nat, t: nat) {
    forall x: nat :: x < n ==> Balance(e, x, n) == Is(x, s) - Is(x, t)
  }

  /** If a set of vertices contains the start, is closed under edges and misses the
      tail of some edge, then there is no Euler walk. */
  lemma UnreachedEdge(g: Graph, s: nat, t: nat, seen: set<nat>, u: nat, y: nat, w: seq<nat>)
    requires Valid(g) && Balanced(EdgeSet(g), |g|, s, t) && s < |g| && t < |g|
    requires s in seen && (exists b :: (s, b) in EdgeSet(g))
    requires forall a, b :: a in seen && (a, b) in EdgeSet(g) ==> b in seen
    requires (u, y) in EdgeSet(g) && u !in seen
    ensures !IsEulerWalk(g, w)
  {
    if IsEulerWalk(g, w) {
      EulerBalance(g, w, s);
      WalkMembers(w, u, y);
      var k :| 0 <= k < |w| && w[k] == u;
      if w[0] in seen {
        WalkStays(w, seen, 0, k);
      } else {
        var b :| (s, b) in EdgeSet(g);
        WalkMembers(w, s, b);
        var i :| 0 <= i < |w| && w[i] == s;
        WalkStays(w, seen, i, |w| - 1);
        EulerWalkInRange(g, w);
        EulerBalance(g, w, w[0]);
        assert false;
      }
    }
  }

  // ---------------------------------------------------------------------------
  // The algorithm
  // ---------------------------------------------------------------------------

  /** degree and edgeCount describe the edges e. */
  ghost predicate Counts(degree: seq<int>, edgeCount: nat, e: Edges, n: nat) {
    && |degree| == n
    && edgeCount == |e|
    && forall x: nat :: x < n ==> degree[x] == Balance(e, x, n)
  }

  lemma CountEdge(degree: seq<int>, edgeCount: nat, e: Edges, v: nat, w: nat, n: nat)
    requires Counts(degree, edgeCount, e, n) && v < n && w < n
    ensures var d := degree[v := degree[v] + 1];
            Counts(d[w := d[w] - 1], edgeCount + 1, e + multiset{(v, w)}, n)
  {
    var d := degree[v := degree[v] + 1];
    var d' := d[w := d[w] - 1];
    forall x: nat | x < n
      ensures d'[x] == Balance(e + multiset{(v, w)}, x, n)
    {
      BalanceAdd(e, multiset{(v, w)}, x, n);
      BalanceOne(v, w, x, n);
    }
  }

  lemma EdgesSoFar(e: Edges, v: nat, targets: seq<nat>, i: nat)
    requires i < |targets|
    ensures e + EdgesOf(v, targets[..i + 1]) == e + EdgesOf(v, targets[..i]) + multiset{(v, targets[i])}
  {
    assert targets[..i + 1] == targets[..i] + [targets[i]];
    EdgesSnoc(v, targets[..i], targets[i]);
    Assoc(e, EdgesOf(v, targets[..i]), multiset{(v, targets[i])});
  }

  method CountEdgesOf(g: Graph, v: nat, degree0: seq<int>, edgeCount0: nat, ghost e: Edges)
    returns (degree: seq<int>, edgeCount: nat)
    requires Valid(g) && v < |g| && Counts(degree0, edgeCount0, e, |g|)
    ensures Counts(degree, edgeCount, e + EdgesOf(v, Targets(g[v])), |g|)
  {
    degree, edgeCount := degree0, edgeCount0;
    ghost var targets := Targets(g[v]);
    assert targets[..0] == [] && targets[..|targets|] == targets;
    assert e + multiset{} == e;
    for i := 0 to |g[v]|
      invariant Counts(degree, edgeCount, e + EdgesOf(v, targets[..i]), |g|)
    {
      var w := g[v][i].to;
      CountEdge(degree, edgeCount, e + EdgesOf(v, targets[..i]), v, w, |g|);
      EdgesSoFar(e, v, targets, i);
      edgeCount := edgeCount + 1;
      degree := degree[v := degree[v] + 1];
      degree := degree[w := degree[w] - 1];
    }
  }

  method CountDegrees(g: Graph) returns (degree: seq<int>, edgeCount: nat)
    requires Valid(g)
    ensures Counts(degree, edgeCount, EdgeSet(g), |g|)
  {
    degree, edgeCount := seq(|g|, _ => 0), 0;
    forall x: nat { BalanceEmpty(x, |g|); }
    for v := 0 to |g|
      invariant Counts(degree, edgeCount, EdgesBelow(AdjacencyLists(g), v), |g|)
    {
      degree, edgeCount := CountEdgesOf(g, v, degree, edgeCount, EdgesBelow(AdjacencyLists(g), v));
    }
  }

  /** The scan for a vertex of balance 1 and one of balance -1; -1 when there is none. */
  method FindEnds(degree: seq<int>) returns (start: int, end: int, ok: bool)
    ensures ok ==> -1 <= start < |degree| && -1 <= end < |degree| && (start == end ==> start == -1)
    ensures ok ==> forall x: nat :: x < |degree| ==>
                     degree[x] == (if x == start then 1 else 0) - (if x == end then 1 else 0)
    ensures !ok ==> exists x: nat :: x < |degree| && degree[x] != 0 &&
                      (degree[x] == 1 || degree[x] == -1 ==>
                         exists y: nat :: y < |degree| && y != x && degree[y] == degree[x])
  {
    start, end := -1, -1;
    for v := 0 to |degree|
      invariant -1 <= start < v && -1 <= end < v && (start == end ==> start == -1)
      invariant start != -1 ==> degree[start] == 1
      invariant end != -1 ==> degree[end] == -1
      invariant forall x: nat :: x < v && x != start && x != end ==> degree[x] == 0
    {
      if degree[v] == 0 {
      } else if degree[v] == 1 && start == -1 {
        start := v;
      } else if degree[v] == -1 && end == -1 {
        end := v;
      } else {
        return start, end, false;
      }
    }
    ok := true;
  }

  method CopyLists(g: Graph) returns (h: seq<seq<nat>>)
    ensures h == AdjacencyLists(g)
  {
    h := seq(|g|, _ => []);
    for v := 0 to |g|
      invariant |h| == |g|
      invariant forall x :: 0 <= x < v ==> h[x] == Targets(g[x])
      invariant forall x :: v <= x < |g| ==> h[x] == []
    {
      for i := 0 to |g[v]|
        invariant |h| == |g|
        invariant forall x :: 0 <= x < v ==> h[x] == Targets(g[x])
        invariant forall x :: v < x < |g| ==> h[x] == []
        invariant h[v] == Targets(g[v])[..i]
      {
        h := h[v := h[v] + [g[v][i].to]];
      }
    }
  }

  // ---------------------------------------------------------------------------
  // Following edges
  // ---------------------------------------------------------------------------

  /** A state of the search: the edges of the walk so far and those still in h make up e. */
  ghost predicate Partial(e: Edges, h: seq<seq<nat>>, edgeCount: nat, walked: Edges) {
    && walked + EdgesBelow(h, |h|) == e
    && edgeCount == |EdgesBelow(h, |h|)|
    && forall v, i :: 0 <= v < |h| && 0 <= i < |h[v]| ==> h[v][i] < |h|
  }

  /** A sub-tour that left from the top of the stack has reached v and must end at t, where
      the finished part of the walk continues. */
  ghost predicate Following(e: Edges, h: seq<seq<nat>>, edgeCount: nat, stack: seq<nat>, v: nat, t: nat, tour: seq<nat>) {
    && Partial(e, h, edgeCount, WalkEdges(stack + [v]) + WalkEdges([t] + tour))
    && v < |h| && t < |h|
    && (forall i :: 0 <= i < |stack| ==> stack[i] < |h|)
    && Balanced(EdgesBelow(h, |h|), |h|, v, t)
  }

  lemma MoveEdge(a: Edges, b: Edges, r: Edges, p: Edges)
    ensures a + p + b + r == a + b + (r + p)
  {
  }

  lemma FollowingStep(e: Edges, h: seq<seq<nat>>, edgeCount: nat, stack: seq<nat>, v: nat, t: nat, tour: seq<nat>)
    requires Following(e, h, edgeCount, stack, v, t, tour) && h[v] != []
    ensures edgeCount > 0
    ensures Following(e, h[v := h[v][1..]], edgeCount - 1, stack + [v], h[v][0], t, tour)
  {
    var w, h', n := h[v][0], h[v := h[v][1..]], |h|;
    var p, r' := multiset{(v, w)}, EdgesBelow(h', n);
    TakeEdge(h, v, n);
    WalkJoin(stack, v, [w]);
    assert [w][1..] == [] && ([v] + [w])[1..] == [w];
    assert WalkEdges([v] + [w]) == p;
    MoveEdge(WalkEdges(stack + [v]), WalkEdges([t] + tour), r', p);
    BalanceStep(r', v, w, t, n);
  }

  lemma BalanceStep(r: Edges, v: nat, w: nat, t: nat, n: nat)
    requires v < n && w < n && Balanced(r + multiset{(v, w)}, n, v, t)
    ensures Balanced(r, n, w, t)
  {
    forall x: nat | x < n
      ensures Balance(r, x, n) == Is(x, w) - Is(x, t)
    {
      BalanceAdd(r, multiset{(v, w)}, x, n);
      BalanceOne(v, w, x, n);
    }
  }

  lemma JoinAt(stack: seq<nat>, v: nat, tour: seq<nat>)
    ensures WalkEdges(stack + ([v] + tour)) == WalkEdges(stack + [v]) + WalkEdges([v] + tour)
  {
    SeqAssoc(stack, [v], tour);
    WalkJoin(stack, v, tour);
  }

  lemma SeqAssoc(a: seq<nat>, b: seq<nat>, c: seq<nat>)
    ensures a + (b + c) == a + b + c
  {
  }

  lemma StuckAtEnd(h: seq<seq<nat>>, v: nat, t: nat)
    requires v < |h| && h[v] == [] && Balanced(EdgesBelow(h, |h|), |h|, v, t)
    ensures v == t
  {
    if v != t {
      var y := PositiveBalance(EdgesBelow(h, |h|), v, |h|);
      EdgesBelowMembers(h, |h|, v, y);
    }
  }

  /** Balance forces the sub-tour to get stuck only where the walk continues. */
  lemma FollowingEnds(e: Edges, h: seq<seq<nat>>, edgeCount: nat, stack: seq<nat>, v: nat, t: nat, tour: seq<nat>)
    requires Following(e, h, edgeCount, stack, v, t, tour) && h[v] == []
    ensures v == t
    ensures Partial(e, h, edgeCount, WalkEdges(stack + ([v] + tour)))
  {
    StuckAtEnd(h, v, t);
    JoinAt(stack, v, tour);
  }

  /** The state between two sub-tours; tour is the finished part of the walk, in walking order. */
  ghost predicate Between(e: Edges, h: seq<seq<nat>>, edgeCount: nat, stack: seq<nat>, tour: seq<nat>, s: nat, t: nat) {
    && s < |h| && t < |h|
    && Partial(e, h, edgeCount, WalkEdges(stack + tour))
    && stack + tour != [] && (stack + tour)[0] == s
    && (forall i :: 0 <= i < |stack| ==> stack[i] < |h|)
    && (forall i :: 0 <= i < |tour| ==> tour[i] < |h| && h[tour[i]] == [])
    && (if tour == [] then stack == [s] && Balanced(EdgesBelow(h, |h|), |h|, s, t)
        else Balanced(EdgesBelow(h, |h|), |h|, s, s))
  }

  lemma BetweenStarts(e: Edges, h: seq<seq<nat>>, edgeCount: nat, stack: seq<nat>, tour: seq<nat>, s: nat, t: nat)
    requires Between(e, h, edgeCount, stack, tour, s, t) && stack != []
    ensures var v := stack[|stack| - 1];
            Following(e, h, edgeCount, stack[..|stack| - 1], v, if tour == [] then t else v, tour)
  {
    var rest, v := stack[..|stack| - 1], stack[|stack| - 1];
    assert stack == rest + [v];
    if tour == [] {
      assert stack + tour == stack && [t] + tour == [t];
      assert WalkEdges([s]) + WalkEdges([t]) == WalkEdges([s]);
    } else {
      WalkJoin(rest, v, tour);
    }
  }

  /** The inner loop: follow unused edges from v until stuck. */
  method Follow(h0: seq<seq<nat>>, stack0: seq<nat>, v0: nat, edgeCount0: nat,
                ghost e: Edges, ghost t: nat, ghost tour: seq<nat>)
    returns (h: seq<seq<nat>>, stack: seq<nat>, v: nat, edgeCount: nat)
    requires Following(e, h0, edgeCount0, stack0, v0, t, tour)
    ensures Following(e, h, edgeCount, stack, v, t, tour) && h[v] == []
    ensures |h| == |h0| && edgeCount <= edgeCount0
    ensures forall x :: 0 <= x < |h0| && h0[x] == [] ==> h[x] == []
    ensures stack0 + [v0] <= stack + [v]
    ensures edgeCount == edgeCount0 ==> stack == stack0
  {
    h, stack, v, edgeCount := h0, stack0, v0, edgeCount0;
    while |h[v]| > 0
      invariant Following(e, h, edgeCount, stack, v, t, tour)
      invariant |h| == |h0| && edgeCount <= edgeCount0
      invariant forall x :: 0 <= x < |h0| && h0[x] == [] ==> h[x] == []
      invariant stack0 + [v0] <= stack + [v]
      invariant edgeCount == edgeCount0 ==> stack == stack0
      decreases edgeCount
    {
      FollowingStep(e, h, edgeCount, stack, v, t, tour);
      stack := stack + [v];
      v, h := h[v][0], h[v := h[v][1..]];
      edgeCount := edgeCount - 1;
    }
  }

  lemma FirstStays(stack0: seq<nat>, stack: seq<nat>, v: nat, tour: seq<nat>)
    requires stack0 != [] && stack0 <= stack + [v]
    ensures (stack + ([v] + tour))[0] == (stack0 + tour)[0]
  {
    assert (stack + [v])[0] == stack0[0];
  }

  lemma BetweenContinues(e: Edges, h0: seq<seq<nat>>, h: seq<seq<nat>>, edgeCount0: nat, edgeCount: nat,
                         stack0: seq<nat>, stack: seq<nat>, v: nat, tour: seq<nat>, s: nat, t: nat)
    requires Between(e, h0, edgeCount0, stack0, tour, s, t) && stack0 != []
    requires Following(e, h, edgeCount, stack, v, if tour == [] then t else stack0[|stack0| - 1], tour) && h[v] == []
    requires |h| == |h0| && forall x :: 0 <= x < |h0| && h0[x] == [] ==> h[x] == []
    requires stack0 <= stack + [v]
    ensures Between(e, h, edgeCount, stack, [v] + tour, s, t)
  {
    FollowingEnds(e, h, edgeCount, stack, v, if tour == [] then t else stack0[|stack0| - 1], tour);
    ghost var more := [v] + tour;
    assert (stack + more)[0] == s by {
      FirstStays(stack0, stack, v, tour);
    }
    assert forall i :: 1 <= i < |more| ==> more[i] == tour[i - 1];
  }

  lemma ReversedSnoc(w: seq<nat>, v: nat)
    ensures Reversed(w + [v]) == [v] + Reversed(w)
  {
  }

  /** The main loop; the walk comes out back to front. */
  method Trace(h0: seq<seq<nat>>, start: nat, edgeCount0: nat, ghost e: Edges, ghost t: nat)
    returns (walk: seq<nat>, edgeCount: nat, h: seq<seq<nat>>)
    requires Between(e, h0, edgeCount0, [start], [], start, t)
    ensures |h| == |h0| && Between(e, h, edgeCount, [], Reversed(walk), start, t)
  {
    var lists, stack := h0, [start];
    walk, edgeCount := [], edgeCount0;
    while |stack| > 0
      invariant |lists| == |h0| && Between(e, lists, edgeCount, stack, Reversed(walk), start, t)
      decreases edgeCount, |stack|
    {
      var n := |stack|;
      var v := stack[n - 1];
      BetweenStarts(e, lists, edgeCount, stack, Reversed(walk), start, t);
      ghost var lists0, stack0, count0 := lists, stack, edgeCount;
      stack := stack[..n - 1];
      lists, stack, v, edgeCount := Follow(lists, stack, v, edgeCount, e,
                                           if walk == [] then t else v, Reversed(walk));
      BetweenContinues(e, lists0, lists, count0, edgeCount, stack0, stack, v, Reversed(walk), start, t);
      ReversedSnoc(walk, v);
      walk := walk + [v];
    }
    h := lists;
  }

  // ---------------------------------------------------------------------------
  // The result
  // ---------------------------------------------------------------------------

  /** The vertex at which an Euler walk from start has to end. */
  lemma BothEndsOrNeither(e: Edges, n: nat, start: int, end: int)
    requires forall p :: p in e ==> p.0 < n && p.1 < n
    requires -1 <= start < n && -1 <= end < n
    requires forall x: nat :: x < n ==>
               Balance(e, x, n) == (if x == start then 1 else 0) - (if x == end then 1 else 0)
    ensures start == -1 <==> end == -1
  {
    TotalIsZero(e, n);
    if start == -1 && end != -1 {
      TotalOfOne(e, n, n, end, -1);
    } else if start != -1 && end == -1 {
      TotalOfOne(e, n, n, start, 1);
    }
  }

  lemma NoWalkWhenUnbalanced(g: Graph, w: seq<nat>, x: nat)
    requires Valid(g) && EdgeSet(g) != multiset{} && x < |g|
    requires Balance(EdgeSet(g), x, |g|) != 0
    requires Balance(EdgeSet(g), x, |g|) == 1 || Balance(EdgeSet(g), x, |g|) == -1 ==>
               exists y: nat :: y < |g| && y != x && Balance(EdgeSet(g), y, |g|) == Balance(EdgeSet(g), x, |g|)
    ensures !IsEulerWalk(g, w)
  {
    if IsEulerWalk(g, w) {
      EulerBalance(g, w, x);
      var y: nat :| y < |g| && y != x && Balance(EdgeSet(g), y, |g|) == Balance(EdgeSet(g), x, |g|);
      EulerBalance(g, w, y);
    }
  }

  /** Unused edges mean that no Euler walk exists. */
  lemma NoWalkWhenEdgesRemain(g: Graph, h: seq<seq<nat>>, edgeCount: nat, tour: seq<nat>, s: nat, t: nat, w: seq<nat>)
    requires Valid(g) && |h| == |g| && Between(EdgeSet(g), h, edgeCount, [], tour, s, t) && edgeCount > 0
    requires Balanced(EdgeSet(g), |g|, s, t) && exists b :: (s, b) in EdgeSet(g)
    ensures !IsEulerWalk(g, w)
  {
    var rest := EdgesBelow(h, |h|);
    var p :| p in rest;
    EdgesBelowMembers(h, |h|, p.0, p.1);
    var seen := set x | x in tour;
    assert [] + tour == tour;
    forall a, b | a in seen && (a, b) in EdgeSet(g)
      ensures b in seen
    {
      EdgesBelowMembers(h, |h|, a, b);
      WalkMembers(tour, a, b);
    }
    UnreachedEdge(g, s, t, seen, p.0, p.1, w);
  }

  /** The vertex of balance 1 if there is one, else the first vertex with neighbours. */
  method FirstVertex(h: seq<seq<nat>>, start: int) returns (first: nat)
    requires -1 <= start < |h| && EdgesBelow(h, |h|) != multiset{}
    ensures first < |h| && if start == -1 then h[first] != [] else first == start
  {
    if start != -1 {
      return start;
    }
    ghost var p :| p in EdgesBelow(h, |h|);
    EdgesBelowMembers(h, |h|, p.0, p.1);
    first := 0;
    while |h[first]| == 0
      invariant first <= p.0 < |h|
      decreases |h| - first
    {
      first := first + 1;
    }
  }

  /** The scan's result says where an Euler walk must start and end, and that it can leave its start. */
  lemma EndsAreRight(g: Graph, start: int, end: int, first: nat, t: nat)
    requires Valid(g) && -1 <= start < |g| && -1 <= end < |g| && (start == -1 <==> end == -1) && (start == end ==> start == -1)
    requires forall x: nat :: x < |g| ==>
               Balance(EdgeSet(g), x, |g|) == (if x == start then 1 else 0) - (if x == end then 1 else 0)
    requires first < |g| && if start == -1 then AdjacencyLists(g)[first] != [] else first == start
    requires t == if end == -1 then first else end
    ensures Balanced(EdgeSet(g), |g|, first, t)
    ensures exists b :: (first, b) in EdgeSet(g)
  {
    var h := AdjacencyLists(g);
    if start == -1 {
      EdgesBelowMembers(h, |g|, first, h[first][0]);
    } else {
      var y := PositiveBalance(EdgeSet(g), first, |g|);
    }
  }

  lemma SearchStarts(e: Edges, h: seq<seq<nat>>, first: nat, t: nat)
    requires e == EdgesBelow(h, |h|) && first < |h| && t < |h| && Balanced(e, |h|, first, t)
    requires forall v, i :: 0 <= v < |h| && 0 <= i < |h[v]| ==> h[v][i] < |h|
    ensures Between(e, h, |e|, [first], [], first, t)
  {
    assert [first] + [] == [first];
    assert WalkEdges([first]) + e == e;
  }

  lemma SearchSucceeds(e: Edges, h: seq<seq<nat>>, tour: seq<nat>, s: nat, t: nat)
    requires Between(e, h, 0, [], tour, s, t)
    ensures tour != [] && WalkEdges(tour) == e
  {
    assert [] + tour == tour;
    assert EdgesBelow(h, |h|) == multiset{};
  }

  /** An Euler walk in a directed graph, if there is one. */
  method EulerDirected(g: Graph) returns (walk: seq<nat>, ok: bool)
    requires Valid(g)
    ensures EdgeSet(g) == multiset{} ==> ok && walk == []
    ensures EdgeSet(g) != multiset{} ==> (ok <==> exists w :: IsEulerWalk(g, w))
    ensures EdgeSet(g) != multiset{} && ok ==> IsEulerWalk(g, walk)
    ensures !ok ==> walk == []
  {
    ghost var e := EdgeSet(g);
    var degree, edgeCount := CountDegrees(g);
    if edgeCount == 0 {
      return [], true;
    }
    var start, end, endsOk := FindEnds(degree);
    if !endsOk {
      ghost var x: nat :| x < |degree| && degree[x] != 0 &&
                          (degree[x] == 1 || degree[x] == -1 ==>
                             exists y: nat :: y < |degree| && y != x && degree[y] == degree[x]);
      forall w { NoWalkWhenUnbalanced(g, w, x); }
      return [], false;
    }
    EdgesInRange(g);
    BothEndsOrNeither(e, |g|, start, end);
    var h := CopyLists(g);
    var first := FirstVertex(h, start);
    ghost var t: nat := if end == -1 then first else end;
    EndsAreRight(g, start, end, first, t);
    SearchStarts(e, h, first, t);
    ghost var rest;
    walk, edgeCount, rest := Trace(h, first, edgeCount, e, t);
    if edgeCount > 0 {
      forall w { NoWalkWhenEdgesRemain(g, rest, edgeCount, Reversed(walk), first, t, w); }
      return [], false;
    }
    SearchSucceeds(e, rest, Reversed(walk), first, t);
    walk := Reverse(walk);
    assert IsEulerWalk(g, walk);
    ok := true;
  }
}
