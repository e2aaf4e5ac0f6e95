/**
 Tarjan's algorithm with a single lowLink array (prototype/graph/strong.go).
 */
module StrongComponents {
  import opened Sequences
  import opened Finite
  import opened Graphs

  // ---------------------------------------------------------------------------
  // What the result means
  // ---------------------------------------------------------------------------

  ghost predicate MutuallyReachable(g: Graph, u: nat, w: nat) {
    Reach(g, u, w) && Reach(g, w, u)
  }

  /** c lists, without repetition, one whole class of mutually reachable vertices. */
  ghost predicate IsComponent(g: Graph, c: seq<nat>) {
    && c != []
    && NoRepeats(c)
    && (forall x :: x in c ==> x < |g|)
    && forall x: nat, y: nat :: x in c && y < |g| ==> (y in c <==> MutuallyReachable(g, x, y))
  }

  ghost function Union(comps: seq<seq<nat>>): set<nat> {
    set i, x | 0 <= i < |comps| && x in comps[i] :: x
  }

  /** Every list is a whole component, and the lists are pairwise disjoint. */
  ghost predicate AreComponents(g: Graph, comps: seq<seq<nat>>) {
    && (forall i :: 0 <= i < |comps| ==> IsComponent(g, comps[i]))
    && (forall i, j, x :: 0 <= i < j < |comps| && x in comps[i] ==> x !in comps[j])
  }

  /** An edge never leads from an earlier list to a later one. */
  ghost predicate ReverseTopological(g: Graph, comps: seq<seq<nat>>) {
    forall i :: 0 <= i <= |comps| ==> Closed(g, Union(comps[..i]))
  }

  /** The lists output so far hold exactly the vertices of `done`. */
  ghost predicate Output(g: Graph, comps: seq<seq<nat>>, done: set<nat>) {
    AreComponents(g, comps) && ReverseTopological(g, comps) && Union(comps) == done
  }

  // ---------------------------------------------------------------------------
  // The state of the search and its invariant
  // ---------------------------------------------------------------------------

  /** A snapshot of the scc struct; num[v] is the time at which v was entered, and
      done holds the vertices already popped. */
  datatype State = State(
    visited: seq<bool>, stack: seq<nat>, low: seq<int>, time: nat, num: seq<int>, done: set<nat>)

  ghost function VisitedSet(visited: seq<bool>): set<nat> {
    set v: nat | v < |visited| && visited[v]
  }

  /** The stack holds distinct vertices in the order of their entry times. */
  ghost predicate Stacked(g: Graph, s: State) {
    && |s.visited| == |s.low| == |s.num| == |g|
    && (forall i :: 0 <= i < |s.stack| ==> s.stack[i] < |g| && 0 <= s.num[s.stack[i]] < s.time)
    && (forall i, j :: 0 <= i < j < |s.stack| ==> s.num[s.stack[i]] < s.num[s.stack[j]])
  }

  /** Visited vertices are on the stack or popped, but not both. */
  ghost predicate Accounted(g: Graph, s: State)
    requires Stacked(g, s)
  {
    && s.time == |VisitedSet(s.visited)|
    && (forall x: nat :: x < |g| ==> (s.visited[x] <==> x in s.stack || x in s.done))
    && (forall x :: x in s.stack ==> x !in s.done)
    && (forall x :: x in s.done ==> x < |g|)
  }

  ghost predicate WellFormed(g: Graph, s: State) {
    Stacked(g, s) && Accounted(g, s)
  }

  /** lowLink of a stacked vertex is the entry time of a stacked vertex it reaches. */
  ghost predicate LowIsReached(g: Graph, s: State, x: nat)
    requires WellFormed(g, s) && x in s.stack
  {
    && s.low[x] <= s.num[x]
    && exists y :: y in s.stack && s.num[y] == s.low[x] && Reach(g, x, y)
  }

  /** All that is known about a successor y of x once the edge has been followed. */
  ghost predicate Followed(g: Graph, s: State, x: nat, y: nat)
    requires WellFormed(g, s) && x in s.stack && y < |g|
  {
    s.visited[y] && (y in s.stack ==> s.low[x] <= s.num[y])
  }

  ghost predicate Finished(g: Graph, s: State, x: nat)
    requires WellFormed(g, s) && x in s.stack
  {
    && s.low[x] < s.num[x]
    && forall y {:trigger Followed(g, s, x, y)} :: Adjacent(g, x, y) ==> Followed(g, s, x, y)
  }

  /** The invariant; `active` holds the vertices whose call has not yet returned. */
  ghost predicate Inv(g: Graph, s: State, active: set<nat>) {
    && WellFormed(g, s)
    && (forall x :: x in s.done ==> s.low[x] == MAX_INT64)
    && (forall x {:trigger LowIsReached(g, s, x)} :: x in s.stack ==> LowIsReached(g, s, x))
    && (forall x {:trigger Finished(g, s, x)} :: x in s.stack && x !in active ==> Finished(g, s, x))
    && (forall x :: x in active ==> x in s.stack)
  }

  /** What a call changes: only vertices not visited before, above the old stack. */
  ghost predicate Extends(g: Graph, s: State, t: State) {
    && |s.visited| == |t.visited| == |s.low| == |t.low| == |s.num| == |t.num| == |g|
    && s.stack <= t.stack
    && s.done <= t.done
    && s.time <= t.time
    && (forall x :: 0 <= x < |g| && s.visited[x] ==> t.visited[x] && t.low[x] == s.low[x] && t.num[x] == s.num[x])
  }

  /** The vertices stacked since v was entered are reachable from v, and v's low is least. */
  ghost predicate AboveIsBelow(g: Graph, s: State, v: nat, k: nat)
    requires WellFormed(g, s) && v < |g|
  {
    forall i :: k <= i < |s.stack| ==> Reach(g, v, s.stack[i]) && s.low[v] <= s.low[s.stack[i]]
  }

  // ---------------------------------------------------------------------------
  // Steps of the search
  // ---------------------------------------------------------------------------

  lemma VisitedBound(visited: seq<bool>)
    ensures |VisitedSet(visited)| <= |visited|
    ensures forall v: nat :: v < |visited| && !visited[v] ==> |VisitedSet(visited)| < |visited|
  {
    SubsetCard(VisitedSet(visited), Range(|visited|));
    forall v: nat | v < |visited| && !visited[v]
      ensures VisitedSet(visited) != Range(|visited|)
    {
      assert v in Range(|visited|);
    }
  }

  /** Entering v: it is stacked with lowLink equal to its entry time. */
  ghost function Enter(s: State, v: nat): State
    requires v < |s.visited| == |s.low| == |s.num|
  {
    State(s.visited[v := true], s.stack + [v], s.low[v := s.time], s.time + 1, s.num[v := s.time], s.done)
  }

  lemma EnterExtends(g: Graph, s: State, v: nat)
    requires v < |g| == |s.visited| == |s.low| == |s.num| && !s.visited[v]
    ensures Extends(g, s, Enter(s, v))
  {
  }

  lemma EnterStack(stack: seq<nat>, v: nat)
    ensures forall x :: x in stack + [v] <==> x in stack || x == v
  {
    assert (stack + [v])[|stack|] == v;
  }

  lemma EnterStacked(g: Graph, s: State, v: nat)
    requires WellFormed(g, s) && v < |g| && !s.visited[v]
    ensures Stacked(g, Enter(s, v))
  {
    var t := Enter(s, v);
    forall i | 0 <= i < |s.stack|
      ensures t.stack[i] == s.stack[i] && t.num[t.stack[i]] == s.num[s.stack[i]]
    {
      assert s.stack[i] in s.stack;
    }
  }

  lemma EnterWellFormed(g: Graph, s: State, v: nat)
    requires WellFormed(g, s) && v < |g| && !s.visited[v]
    ensures WellFormed(g, Enter(s, v))
    ensures forall x :: x in Enter(s, v).stack <==> x in s.stack || x == v
  {
    var t := Enter(s, v);
    EnterStacked(g, s, v);
    EnterStack(s.stack, v);
    assert VisitedSet(t.visited) == VisitedSet(s.visited) + {v};
  }

  lemma StillReached(g: Graph, s: State, t: State, x: nat)
    requires WellFormed(g, s) && WellFormed(g, t) && x in s.stack && LowIsReached(g, s, x)
    requires forall y :: y in s.stack ==> y in t.stack && t.num[y] == s.num[y]
    requires t.low[x] == s.low[x]
    ensures LowIsReached(g, t, x)
  {
    var y :| y in s.stack && s.num[y] == s.low[x] && Reach(g, x, y);
    assert y in t.stack && t.num[y] == t.low[x];
  }

  lemma StillFinished(g: Graph, s: State, t: State, x: nat)
    requires WellFormed(g, s) && WellFormed(g, t) && x in s.stack && x in t.stack && Finished(g, s, x)
    requires forall y :: 0 <= y < |g| && s.visited[y] ==> t.visited[y]
    requires forall y :: y in t.stack ==> y in s.stack || t.num[x] <= t.num[y]
    requires forall y :: y in s.stack ==> t.num[y] == s.num[y]
    requires t.low[x] == s.low[x]
    ensures Finished(g, t, x)
  {
    forall y | Adjacent(g, x, y)
      ensures Followed(g, t, x, y)
    {
      assert Followed(g, s, x, y);
    }
  }

  lemma EnterKeepsInv(g: Graph, s: State, v: nat, active: set<nat>)
    requires Inv(g, s, active) && v < |g| && !s.visited[v]
    ensures Inv(g, Enter(s, v), active + {v})
    ensures AboveIsBelow(g, Enter(s, v), v, |s.stack|)
  {
    var t := Enter(s, v);
    EnterWellFormed(g, s, v);
    ReachSelf(g, v);
    forall x {:trigger LowIsReached(g, t, x)} | x in t.stack
      ensures LowIsReached(g, t, x)
    {
      if x != v {
        StillReached(g, s, t, x);
      } else {
        assert v in t.stack && t.num[v] == t.low[v];
      }
    }
    forall x {:trigger Finished(g, t, x)} | x in t.stack && x !in active + {v}
      ensures Finished(g, t, x)
    {
      StillFinished(g, s, t, x);
    }
  }

  /** Having looked at an edge from v to a visited w, v takes over a smaller lowLink. */
  ghost function Lower(s: State, v: nat, w: nat): State
    requires v < |s.low| && w < |s.low|
  {
    if s.low[v] > s.low[w] then s.(low := s.low[v := s.low[w]]) else s
  }

  lemma LowerReached(g: Graph, s: State, v: nat, w: nat, active: set<nat>)
    requires Inv(g, s, active) && |g| <= MAX_INT64 && v in active && Adjacent(g, v, w) && s.visited[w]
    ensures LowIsReached(g, Lower(s, v, w), v)
  {
    var t := Lower(s, v, w);
    assert LowIsReached(g, s, v);
    VisitedBound(s.visited);
    if s.low[v] > s.low[w] {
      assert w in s.stack && LowIsReached(g, s, w);
      var y :| y in s.stack && s.num[y] == s.low[w] && Reach(g, w, y);
      ReachEdge(g, v, w);
      ReachTrans(g, v, w, y);
      assert y in t.stack && t.num[y] == t.low[v];
    }
  }

  lemma LowerKeepsInv(g: Graph, s: State, v: nat, w: nat, active: set<nat>)
    requires Inv(g, s, active) && |g| <= MAX_INT64 && v in active && Adjacent(g, v, w) && s.visited[w]
    ensures Inv(g, Lower(s, v, w), active)
  {
    var t := Lower(s, v, w);
    assert WellFormed(g, t);
    forall x {:trigger LowIsReached(g, t, x)} | x in t.stack
      ensures LowIsReached(g, t, x)
    {
      if x != v {
        StillReached(g, s, t, x);
      } else {
        LowerReached(g, s, v, w, active);
      }
    }
    forall x {:trigger Finished(g, t, x)} | x in t.stack && x !in active
      ensures Finished(g, t, x)
    {
      StillFinished(g, s, t, x);
    }
  }

  lemma LowerFollowed(g: Graph, s: State, v: nat, w: nat, y: nat)
    requires WellFormed(g, s) && v in s.stack && w < |g| && s.visited[w] && y < |g|
    requires w in s.stack ==> LowIsReached(g, s, w)
    requires y == w || Followed(g, s, v, y)
    ensures WellFormed(g, Lower(s, v, w)) && Followed(g, Lower(s, v, w), v, y)
  {
  }

  /** v's lowLink stays the least of the vertices above it, those from index m on being
      the ones that the call for w left on the stack. */
  lemma LowerAbove(g: Graph, s: State, v: nat, w: nat, k: nat, m: nat)
    requires WellFormed(g, s) && Adjacent(g, v, w) && k <= m <= |s.stack|
    requires forall i :: k <= i < m ==> Reach(g, v, s.stack[i]) && s.low[v] <= s.low[s.stack[i]]
    requires AboveIsBelow(g, s, w, m)
    ensures WellFormed(g, Lower(s, v, w))
    ensures AboveIsBelow(g, Lower(s, v, w), v, k)
  {
    ReachEdge(g, v, w);
    forall i | m <= i < |s.stack|
      ensures Reach(g, v, s.stack[i])
    {
      ReachTrans(g, v, w, s.stack[i]);
    }
  }

  /** The call for v, entered in state s0, has followed v's first i edges and reached state s. */
  ghost predicate Visiting(g: Graph, s0: State, s: State, v: nat, i: nat, active: set<nat>) {
    && Inv(g, s0, active) && v < |g| && i <= |g[v]| && !s0.visited[v]
    && Inv(g, s, active + {v})
    && Extends(g, s0, s)
    && s0.time < s.time
    && |s0.stack| < |s.stack| && s.stack[|s0.stack|] == v
    && AboveIsBelow(g, s, v, |s0.stack|)
    && forall j :: 0 <= j < i ==> g[v][j].to < |g| && Followed(g, s, v, g[v][j].to)
  }

  lemma VisitingStarts(g: Graph, s0: State, v: nat, active: set<nat>)
    requires Inv(g, s0, active) && v < |g| && !s0.visited[v]
    ensures Visiting(g, s0, Enter(s0, v), v, 0, active)
  {
    EnterExtends(g, s0, v);
    EnterKeepsInv(g, s0, v, active);
  }

  /** What the call for w promises about the state t it leaves, having started in s. */
  ghost predicate Returned(g: Graph, s: State, t: State, w: nat, active: set<nat>) {
    && Inv(g, t, active)
    && Extends(g, s, t)
    && w < |g| && t.visited[w]
    && if |t.stack| == |s.stack| then true
       else |s.stack| < |t.stack| && t.stack[|s.stack|] == w && AboveIsBelow(g, t, w, |s.stack|)
  }

  lemma VisitingStep(g: Graph, s0: State, s: State, t: State, v: nat, i: nat, active: set<nat>)
    requires Valid(g) && |g| <= MAX_INT64 && v < |g| && i < |g[v]|
    requires Visiting(g, s0, s, v, i, active)
    requires Returned(g, s, t, g[v][i].to, active + {v})
    ensures Visiting(g, s0, Lower(t, v, g[v][i].to), v, i + 1, active)
    ensures t.low[v] == s.low[v] <= t.num[v] == s.num[v]
  {
    var w := g[v][i].to;
    assert Adjacent(g, v, w);
    assert v in t.stack && LowIsReached(g, t, v);
    LowerKeepsInv(g, t, v, w, active + {v});
    StepAbove(g, s0, s, t, v, i, active);
    StepFollowed(g, s0, s, t, v, i, active);
    LowerExtends(g, s0, s, t, v, w);
  }

  /** The state in which the callback runs: a call may start, or w needs none. */
  lemma VisitingCalls(g: Graph, s0: State, s: State, v: nat, i: nat, active: set<nat>)
    requires Valid(g) && v < |g| && i < |g[v]| && Visiting(g, s0, s, v, i, active)
    ensures Inv(g, s, active + {v}) && s0.time < s.time <= |g|
    ensures s.visited[g[v][i].to] ==> Returned(g, s, s, g[v][i].to, active + {v})
  {
    VisitedBound(s.visited);
  }

  lemma StepAbove(g: Graph, s0: State, s: State, t: State, v: nat, i: nat, active: set<nat>)
    requires Valid(g) && v < |g| && i < |g[v]|
    requires Visiting(g, s0, s, v, i, active) && Returned(g, s, t, g[v][i].to, active + {v})
    ensures WellFormed(g, Lower(t, v, g[v][i].to)) && AboveIsBelow(g, Lower(t, v, g[v][i].to), v, |s0.stack|)
  {
    assert Adjacent(g, v, g[v][i].to);
    forall m | |s0.stack| <= m < |s.stack|
      ensures Reach(g, v, t.stack[m]) && t.low[v] <= t.low[t.stack[m]]
    {
      assert t.stack[m] == s.stack[m];
    }
    LowerAbove(g, t, v, g[v][i].to, |s0.stack|, |s.stack|);
  }

  lemma StepFollowed(g: Graph, s0: State, s: State, t: State, v: nat, i: nat, active: set<nat>)
    requires Valid(g) && v < |g| && i < |g[v]|
    requires Visiting(g, s0, s, v, i, active) && Returned(g, s, t, g[v][i].to, active + {v})
    ensures WellFormed(g, Lower(t, v, g[v][i].to)) && v in t.stack
    ensures forall j :: 0 <= j < i + 1 ==> Followed(g, Lower(t, v, g[v][i].to), v, g[v][j].to)
  {
    var w := g[v][i].to;
    assert w in t.stack ==> LowIsReached(g, t, w);
    forall j | 0 <= j < i + 1
      ensures WellFormed(g, Lower(t, v, w)) && v in t.stack && Followed(g, Lower(t, v, w), v, g[v][j].to)
    {
      if j < i {
        FollowedStays(g, s, t, v, g[v][j].to);
      }
      LowerFollowed(g, t, v, w, g[v][j].to);
    }
  }

  lemma FollowedStays(g: Graph, s: State, t: State, v: nat, y: nat)
    requires WellFormed(g, s) && WellFormed(g, t) && Extends(g, s, t) && v in s.stack && y < |g|
    requires Followed(g, s, v, y)
    ensures v in t.stack && Followed(g, t, v, y)
  {
    assert y in s.stack || y in s.done;
  }

  lemma LowerExtends(g: Graph, s0: State, s: State, t: State, v: nat, w: nat)
    requires v < |g| && w < |g|
    requires Extends(g, s0, s) && Extends(g, s, t) && !s0.visited[v]
    ensures Extends(g, s0, Lower(t, v, w))
  {
  }

  // ---------------------------------------------------------------------------
  // Popping a component
  // ---------------------------------------------------------------------------

  /** The call for v is about to pop: it never lowered v's lowLink and has followed every edge. */
  ghost predicate Ready(g: Graph, s: State, v: nat, k: nat, active: set<nat>) {
    && Inv(g, s, active + {v})
    && v !in active
    && k < |s.stack| && s.stack[k] == v
    && (forall x :: x in active ==> x in s.stack[..k])
    && AboveIsBelow(g, s, v, k)
    && s.low[v] == s.num[v]
    && forall y {:trigger Followed(g, s, v, y)} :: Adjacent(g, v, y) ==> Followed(g, s, v, y)
  }

  lemma {:induction false} AboveReachesRoot(g: Graph, s: State, v: nat, k: nat, active: set<nat>, i: nat)
    requires Ready(g, s, v, k, active) && k <= i < |s.stack|
    ensures Reach(g, s.stack[i], v)
    decreases i
  {
    var x := s.stack[i];
    if i == k {
      ReachSelf(g, v);
    } else {
      assert x !in active + {v} && x in s.stack;
      assert Finished(g, s, x) && LowIsReached(g, s, x);
      var y :| y in s.stack && s.num[y] == s.low[x] && Reach(g, x, y);
      var j :| 0 <= j < |s.stack| && s.stack[j] == y;
      assert k <= j < i;
      AboveReachesRoot(g, s, v, k, active, j);
      ReachTrans(g, x, y, v);
    }
  }

  lemma AboveEdge(g: Graph, s: State, v: nat, k: nat, active: set<nat>, i: nat, y: nat)
    requires Ready(g, s, v, k, active) && k <= i < |s.stack| && Adjacent(g, s.stack[i], y)
    ensures y in s.done || y in s.stack[k..]
  {
    var x := s.stack[i];
    assert x in s.stack;
    if x != v {
      assert x !in active + {v};
      assert Finished(g, s, x);
    }
    assert Followed(g, s, x, y);
    if y !in s.done {
      var j :| 0 <= j < |s.stack| && s.stack[j] == y;
      assert s.num[v] <= s.num[y];
      assert k <= j;
      assert s.stack[k..][j - k] == y;
    }
  }

  /** No edge leaves the vertices above v together with those already popped. */
  lemma AboveIsClosed(g: Graph, s: State, v: nat, k: nat, active: set<nat>)
    requires Ready(g, s, v, k, active) && Closed(g, s.done)
    ensures Closed(g, s.done + (set x | x in s.stack[k..]))
  {
    forall x: nat, y: nat | x in s.stack[k..] && Adjacent(g, x, y)
      ensures y in s.done || y in s.stack[k..]
    {
      var i :| k <= i < |s.stack| && s.stack[i] == x;
      AboveEdge(g, s, v, k, active, i, y);
    }
  }

  lemma AboveIsComponent(g: Graph, s: State, v: nat, k: nat, active: set<nat>, comp: seq<nat>)
    requires Ready(g, s, v, k, active) && Closed(g, s.done)
    requires |comp| == |s.stack| - k && forall i :: 0 <= i < |comp| ==> comp[i] == s.stack[|s.stack| - 1 - i]
    ensures forall x :: x in comp <==> x in s.stack[k..]
    ensures IsComponent(g, comp)
  {
    assert forall i :: k <= i < |s.stack| ==> s.stack[i] == comp[|s.stack| - 1 - i];
    assert forall x :: x in comp <==> x in s.stack[k..];
    var above := s.done + (set x | x in s.stack[k..]);
    AboveIsClosed(g, s, v, k, active);
    forall x, y: nat | x in comp && y < |g|
      ensures y in comp <==> MutuallyReachable(g, x, y)
    {
      MemberIsMutual(g, s, v, k, active, x);
      if y in comp {
        MemberIsMutual(g, s, v, k, active, y);
        ReachTrans(g, x, v, y);
        ReachTrans(g, y, v, x);
      } else if MutuallyReachable(g, x, y) {
        ReachStaysInClosed(g, above, x, y);
        ReachStaysInClosed(g, s.done, y, x);
        assert false;
      }
    }
  }

  lemma MemberIsMutual(g: Graph, s: State, v: nat, k: nat, active: set<nat>, x: nat)
    requires Ready(g, s, v, k, active) && x in s.stack[k..]
    ensures MutuallyReachable(g, x, v)
  {
    var i :| k <= i < |s.stack| && s.stack[i] == x;
    AboveReachesRoot(g, s, v, k, active, i);
  }

  lemma OutputGrows(g: Graph, comps: seq<seq<nat>>, done: set<nat>, comp: seq<nat>)
    requires Output(g, comps, done) && IsComponent(g, comp)
    requires forall x :: x in comp ==> x !in done
    requires Closed(g, done + (set x | x in comp))
    ensures Output(g, comps + [comp], done + (set x | x in comp))
  {
    var more := comps + [comp];
    assert Union(more) == done + (set x | x in comp) by {
      assert forall i :: 0 <= i < |comps| ==> more[i] == comps[i];
      assert more[|comps|] == comp;
    }
    forall i | 0 <= i <= |more|
      ensures Closed(g, Union(more[..i]))
    {
      if i <= |comps| {
        assert more[..i] == comps[..i];
      } else {
        assert more[..i] == more;
      }
    }
  }

  /** The state after popping everything from v upward. */
  ghost predicate Popped(g: Graph, s: State, t: State, k: nat)
    requires k <= |s.stack| && |s.low| == |g|
  {
    && t.visited == s.visited && t.num == s.num && t.time == s.time
    && t.stack == s.stack[..k]
    && t.done == s.done + (set x | x in s.stack[k..])
    && |t.low| == |g|
    && forall x :: 0 <= x < |g| ==> t.low[x] == if x in s.stack[k..] then MAX_INT64 else s.low[x]
  }

  lemma PopKeepsInv(g: Graph, s: State, t: State, v: nat, k: nat, active: set<nat>)
    requires Ready(g, s, v, k, active) && Popped(g, s, t, k)
    ensures Inv(g, t, active)
  {
    PopWellFormed(g, s, t, k);
    forall x {:trigger LowIsReached(g, t, x)} | x in t.stack
      ensures LowIsReached(g, t, x)
    {
      assert LowIsReached(g, s, x);
      var y :| y in s.stack && s.num[y] == s.low[x] && Reach(g, x, y);
      assert y in t.stack;
    }
    forall x {:trigger Finished(g, t, x)} | x in t.stack && x !in active
      ensures Finished(g, t, x)
    {
      StillFinished(g, s, t, x);
    }
  }

  lemma PopSplits(g: Graph, s: State, k: nat)
    requires Stacked(g, s) && k <= |s.stack|
    ensures forall x :: x in s.stack <==> x in s.stack[..k] || x in s.stack[k..]
    ensures forall x, y :: x in s.stack[..k] && y in s.stack[k..] ==> s.num[x] < s.num[y]
  {
    assert s.stack == s.stack[..k] + s.stack[k..];
    forall x, y | x in s.stack[..k] && y in s.stack[k..]
      ensures s.num[x] < s.num[y]
    {
      var i :| 0 <= i < k && s.stack[i] == x;
      var j :| k <= j < |s.stack| && s.stack[j] == y;
    }
  }

  lemma PopWellFormed(g: Graph, s: State, t: State, k: nat)
    requires WellFormed(g, s) && k <= |s.stack| && Popped(g, s, t, k)
    ensures WellFormed(g, t)
    ensures forall x :: x in s.stack <==> x in t.stack || x in s.stack[k..]
    ensures forall x :: x in t.stack ==> x !in s.stack[k..]
    ensures forall x, y :: x in t.stack && y in s.stack[k..] ==> s.num[x] < s.num[y]
  {
    PopSplits(g, s, k);
    assert Stacked(g, t);
  }

  /** Without a pop, v stays on the stack and all its edges have been followed. */
  lemma VisitingEnds(g: Graph, s0: State, s: State, v: nat, active: set<nat>)
    requires v < |g| && Visiting(g, s0, s, v, |g[v]|, active) && s.low[v] != s.num[v]
    ensures Returned(g, s0, s, v, active)
  {
    AllFollowed(g, s0, s, v, active);
    assert LowIsReached(g, s, v);
    forall x {:trigger Finished(g, s, x)} | x in s.stack && x !in active
      ensures Finished(g, s, x)
    {
      assert x != v ==> x !in active + {v};
    }
  }

  lemma AllFollowed(g: Graph, s0: State, s: State, v: nat, active: set<nat>)
    requires v < |g| && Visiting(g, s0, s, v, |g[v]|, active)
    ensures forall y {:trigger Followed(g, s, v, y)} :: Adjacent(g, v, y) ==> Followed(g, s, v, y)
  {
    forall y {:trigger Followed(g, s, v, y)} | Adjacent(g, v, y)
      ensures Followed(g, s, v, y)
    {
      var j :| 0 <= j < |g[v]| && g[v][j].to == y;
    }
  }

  lemma VisitingReady(g: Graph, s0: State, s: State, v: nat, active: set<nat>)
    requires v < |g| && Visiting(g, s0, s, v, |g[v]|, active) && s.low[v] == s.num[v]
    ensures Ready(g, s, v, |s0.stack|, active)
  {
    AllFollowed(g, s0, s, v, active);
    assert s.stack[..|s0.stack|] == s0.stack;
  }

  lemma StackedIsFinished(g: Graph, s: State, x: nat)
    requires Inv(g, s, {}) && x in s.stack
    ensures s.low[x] < s.num[x] && LowIsReached(g, s, x)
  {
    assert Finished(g, s, x);
  }

  lemma BottomIsLow(g: Graph, s: State)
    requires WellFormed(g, s) && s.stack != [] && LowIsReached(g, s, s.stack[0])
    ensures s.num[s.stack[0]] <= s.low[s.stack[0]]
  {
    var y :| y in s.stack && s.num[y] == s.low[s.stack[0]] && Reach(g, s.stack[0], y);
    var j :| 0 <= j < |s.stack| && s.stack[j] == y;
  }

  /** When no call is active the stack is empty: its bottom vertex would have to reach a lower one. */
  lemma NothingLeft(g: Graph, s: State)
    requires Inv(g, s, {})
    ensures s.stack == []
  {
    if s.stack != [] {
      StackedIsFinished(g, s, s.stack[0]);
      BottomIsLow(g, s);
    }
  }

  lemma PopReturns(g: Graph, s0: State, s: State, t: State, v: nat, active: set<nat>)
    requires v < |g| && Visiting(g, s0, s, v, |g[v]|, active) && Ready(g, s, v, |s0.stack|, active)
    requires Popped(g, s, t, |s0.stack|)
    ensures Returned(g, s0, t, v, active)
  {
    PopKeepsInv(g, s, t, v, |s0.stack|, active);
    assert t.stack == s0.stack;
    forall x | x in s.stack[|s0.stack|..]
      ensures !s0.visited[x]
    {
      PopWellFormed(g, s, t, |s0.stack|);
      assert x !in s.done;
    }
  }

  lemma PopOutputs(g: Graph, s: State, v: nat, k: nat, active: set<nat>, comps: seq<seq<nat>>, comp: seq<nat>)
    requires Ready(g, s, v, k, active) && Output(g, comps, s.done) && comp == Reversed(s.stack[k..])
    ensures Output(g, comps + [comp], s.done + (set x | x in s.stack[k..]))
  {
    assert comps[..|comps|] == comps;
    assert Closed(g, s.done);
    AboveIsComponent(g, s, v, k, active, comp);
    AboveIsClosed(g, s, v, k, active);
    assert (set x | x in s.stack[k..]) == (set x | x in comp);
    OutputGrows(g, comps, s.done, comp);
  }

  // ---------------------------------------------------------------------------
  // The algorithm
  // ---------------------------------------------------------------------------

  class Scc {
    const graph: Graph
    var visited: seq<bool>
    var stack: seq<nat>
    var lowLink: seq<int>
    var time: nat
    ghost var num: seq<int>
    ghost var done: set<nat>

    ghost function Snapshot(): State
      reads this
    {
      State(visited, stack, lowLink, time, num, done)
    }

    constructor (g: Graph)
      ensures graph == g && fresh(this)
      ensures stack == [] && done == {} && time == 0
      ensures Inv(graph, Snapshot(), {})
    {
      graph := g;
      visited, lowLink, num := seq(|g|, _ => false), seq(|g|, _ => 0), seq(|g|, _ => 0);
      stack, time, done := [], 0, {};
      new;
      assert VisitedSet(visited) == {};
    }

    /** Search from v, appending the components of everything newly visited. */
    method Append(components: seq<seq<nat>>, v: nat, ghost active: set<nat>) returns (result: seq<seq<nat>>)
      requires Valid(graph) && |graph| <= MAX_INT64
      requires Inv(graph, Snapshot(), active) && Output(graph, components, done)
      requires v < |graph| && !visited[v]
      modifies this
      ensures Returned(graph, old(Snapshot()), Snapshot(), v, active)
      ensures Output(graph, result, done)
      decreases |graph| - time, 1, 0
    {
      ghost var s0 := Snapshot();
      VisitingStarts(graph, s0, v, active);

      stack := stack + [v];
      num, lowLink := num[v := time], lowLink[v := time];
      time := time + 1;
      visited := visited[v := true];
      var newComponent;
      result, newComponent := VisitEdges(components, v, s0, active);
      ghost var s := Snapshot();
      if !newComponent {
        VisitingEnds(graph, s0, s, v, active);
        return;
      }
      VisitingReady(graph, s0, s, v, active);
      var comp := PopThrough(v, |s0.stack|);
      PopReturns(graph, s0, s, Snapshot(), v, active);
      PopOutputs(graph, s, v, |s0.stack|, active, result, comp);
      result := result + [comp];
    }

    /** Follow the edges of v; the result tells whether v's lowLink was left alone. */
    method VisitEdges(components: seq<seq<nat>>, v: nat, ghost s0: State, ghost active: set<nat>)
      returns (result: seq<seq<nat>>, newComponent: bool)
      requires Valid(graph) && |graph| <= MAX_INT64
      requires Visiting(graph, s0, Snapshot(), v, 0, active) && Output(graph, components, done)
      requires lowLink[v] == num[v]
      modifies this
      ensures Visiting(graph, s0, Snapshot(), v, |graph[v]|, active) && Output(graph, result, done)
      ensures newComponent <==> lowLink[v] == num[v]
      decreases |graph| - s0.time, 0, 1
    {
      newComponent := true;
      result := components;
      for i := 0 to |graph[v]|
        invariant Visiting(graph, s0, Snapshot(), v, i, active) && Output(graph, result, done)
        invariant newComponent <==> lowLink[v] == num[v]
      {
        var lowered;
        result, lowered := FollowEdge(result, v, i, s0, active);
        newComponent := newComponent && !lowered;
      }
    }

    /** The body of the callback that Visit calls on the i-th edge of v. */
    method FollowEdge(components: seq<seq<nat>>, v: nat, i: nat, ghost s0: State, ghost active: set<nat>)
      returns (result: seq<seq<nat>>, lowered: bool)
      requires Valid(graph) && |graph| <= MAX_INT64 && v < |graph| && i < |graph[v]|
      requires Visiting(graph, s0, Snapshot(), v, i, active) && Output(graph, components, done)
      modifies this
      ensures Visiting(graph, s0, Snapshot(), v, i + 1, active) && Output(graph, result, done)
      ensures num[v] == old(num[v]) && (lowered ==> lowLink[v] < num[v]) && (!lowered ==> lowLink[v] == old(lowLink[v]))
      decreases |graph| - s0.time, 0, 0
    {
      var w := graph[v][i].to;
      ghost var s := Snapshot();
      result := components;
      VisitingCalls(graph, s0, s, v, i, active);
      if !visited[w] {
        result := Append(result, w, active + {v});
      }
      ghost var t := Snapshot();
      VisitingStep(graph, s0, s, t, v, i, active);
      lowered := lowLink[v] > lowLink[w];
      if lowered {
        lowLink := lowLink[v := lowLink[w]];
      }
      assert Snapshot() == Lower(t, v, w);
    }

    /** Pop the stack down to and including v, which lies at index k. */
    method PopThrough(v: nat, ghost k: nat) returns (comp: seq<nat>)
      requires k < |stack| && stack[k] == v
      requires NoRepeats(stack)
      requires |lowLink| == |graph| && forall i :: 0 <= i < |stack| ==> stack[i] < |graph|
      modifies `stack, `lowLink, `done
      ensures Popped(graph, old(Snapshot()), Snapshot(), k)
      ensures comp == Reversed(old(stack)[k..])
    {
      comp := [];
      ghost var full := stack;
      while true
        invariant k < |stack| <= |full| && stack == full[..|stack|] && done == old(done)
        invariant comp == Reversed(full[|stack|..])
        invariant |lowLink| == |graph|
        invariant forall x :: 0 <= x < |graph| ==>
                    lowLink[x] == if x in full[|stack|..] then MAX_INT64 else old(lowLink)[x]
        decreases |stack|
      {
        var n := |stack| - 1;
        var w := stack[n];
        assert full[n..] == [w] + full[n + 1..];
        stack := stack[..n];
        lowLink := lowLink[w := MAX_INT64];
        comp := comp + [w];
        if v == w {
          assert n == k;
          break;
        }
      }
      assert |stack| == k;
      done := done + (set x | x in full[k..]);
    }
  }

  /** Every list is a whole component, they cover all vertices, and no edge leads to a later list. */
  ghost predicate IsDecomposition(g: Graph, comps: seq<seq<nat>>) {
    && AreComponents(g, comps)
    && (forall v: nat :: v in Union(comps) <==> v < |g|)
    && ReverseTopological(g, comps)
  }

  lemma AllVisited(g: Graph, s: State, comps: seq<seq<nat>>)
    requires Inv(g, s, {}) && Output(g, comps, s.done) && s.stack == []
    requires forall x :: 0 <= x < |g| ==> s.visited[x]
    ensures IsDecomposition(g, comps)
  {
  }

  /** Decomposition of g into its strongly connected components. */
  method Compute(g: Graph) returns (components: seq<seq<nat>>)
    requires Valid(g) && |g| <= MAX_INT64
    ensures IsDecomposition(g, components)
  {
    var s := new Scc(g);
    components := [];
    for v := 0 to |g|
      invariant s.graph == g && Inv(g, s.Snapshot(), {}) && Output(g, components, s.done)
      invariant s.stack == []
      invariant forall x :: 0 <= x < v ==> s.visited[x]
    {
      if !s.visited[v] {
        components := s.Append(components, v, {});
        NothingLeft(g, s.Snapshot());
      }
    }
    AllVisited(g, s.Snapshot(), components);
  }

  /** Reachability, not only adjacency, leads from later lists to earlier ones. */
  lemma ReachLeadsToEarlier(g: Graph, comps: seq<seq<nat>>, i: nat, j: nat, x: nat, y: nat)
    requires ReverseTopological(g, comps) && AreComponents(g, comps)
    requires i < |comps| && j < |comps| && x in comps[i] && y in comps[j] && Reach(g, x, y)
    ensures j <= i
  {
    assert comps[..i + 1][i] == comps[i];
    ReachStaysInClosed(g, Union(comps[..i + 1]), x, y);
    var m :| 0 <= m < i + 1 && y in comps[..i + 1][m];
    assert y in comps[m];
  }
}
