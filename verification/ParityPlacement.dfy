/**
 Placing parity chunks by a flow between servers and buckets (find_parity_mapping of
 CDNSimulator/src/cacheCluster.cpp). The solver is a parameter: any integral flow will do.
 */
module ParityPlacement {
  import opened Sequences
  import opened Sums
  import opened MaximumFlow
  import HashRing

  // ---------------------------------------------------------------------------
  // The network
  // ---------------------------------------------------------------------------

  /** Vertex 0 is the source and vertex 1 the sink; then come the servers and then the buckets. */
  function ServerVertex(i: nat): nat {
    2 + i
  }

  function BucketVertex(servers: nat, b: nat): nat {
    2 + servers + b
  }

  /** One of the data chunks of bucket b is on server i. */
  predicate DataOn(lists: seq<seq<nat>>, n: nat, i: nat, b: nat)
    requires 0 < n && b < |lists| && n <= |lists[b]|
  {
    i in lists[b][..n - 1]
  }

  /** Every bucket has a list of at least n different servers. */
  ghost predicate ListsOk(lists: seq<seq<nat>>, servers: nat, n: nat) {
    0 < n && forall b: nat {:trigger lists[b]} :: b < |lists| ==>
      n <= |lists[b]| && NoRepeats(lists[b]) && forall j :: 0 <= j < |lists[b]| ==> lists[b][j] < servers
  }

  /** The number of buckets with a data chunk on server i. */
  ghost function DataLoad(lists: seq<seq<nat>>, n: nat, i: nat): nat
    requires 0 < n
  {
    HashRing.CountOn(lists, n - 1, i)
  }

  /** An available server without data chunks, on which find_parity_mapping stops with a failed assertion. */
  ghost predicate Unused(lists: seq<seq<nat>>, available: seq<bool>, n: nat, s: nat)
    requires 0 < n
  {
    s < |available| && available[s] && DataLoad(lists, n, s) == 0
  }

  /** How many parity chunks server i may take; a server without data chunks takes none. */
  ghost function Room(lists: seq<seq<nat>>, n: nat, cap: int, i: nat): int
    requires 0 < n
  {
    var load := DataLoad(lists, n, i);
    if load == 0 || cap - load < 0 then 0 else cap - load
  }

  /** The capacity of the arc from v to w. */
  ghost function ArcCapacity(lists: seq<seq<nat>>, servers: nat, n: nat, cap: int, v: nat, w: nat): int
    requires ListsOk(lists, servers, n)
  {
    if v == 0 && 2 <= w < 2 + servers then Room(lists, n, cap, w - 2)
    else if 2 <= v < 2 + servers && 2 + servers <= w < 2 + servers + |lists| then
      if DataOn(lists, n, v - 2, w - 2 - servers) then 0 else 1
    else if 2 + servers <= v < 2 + servers + |lists| && w == 1 then 1
    else 0
  }

  /** c is the network that find_parity_mapping hands to the solver. */
  ghost predicate IsNetwork(c: Mutable, lists: seq<seq<nat>>, servers: nat, n: nat, cap: int)
    requires ListsOk(lists, servers, n)
  {
    && |c| == 2 + servers + |lists|
    && forall v: nat, w: nat {:trigger Cost(c, v, w)} :: v < |c| && w < |c| ==> Cost(c, v, w) == ArcCapacity(lists, servers, n, cap, v, w)
  }

  /** The flow from server i to bucket b. */
  function FlowTo(f: Mutable, servers: nat, i: nat, b: nat): int {
    Cost(f, ServerVertex(i), BucketVertex(servers, b))
  }

  ghost predicate ArcOk(f: Mutable, lists: seq<seq<nat>>, servers: nat, n: nat, cap: int, v: nat, w: nat)
    requires ListsOk(lists, servers, n)
  {
    0 <= Cost(f, v, w) <= ArcCapacity(lists, servers, n, cap, v, w)
  }

  lemma FlowWithin(c: Mutable, f: Mutable, lists: seq<seq<nat>>, servers: nat, n: nat, cap: int, x: int, v: nat, w: nat)
    requires ListsOk(lists, servers, n) && IsNetwork(c, lists, servers, n, cap) && IsFlow(c, f, 0, 1, x) && v < |c| && w < |c|
    ensures ArcOk(f, lists, servers, n, cap, v, w)
  {
    assert 0 <= Cost(f, v, w) <= Cost(c, v, w);
  }

  // ---------------------------------------------------------------------------
  // Building the network
  // ---------------------------------------------------------------------------

  /** The quotient, rounded up. */
  function CeilDiv(a: nat, b: nat): (c: nat)
    requires b > 0
    ensures a <= c * b < a + b
  {
    Rounded(a, b);
    (a + b - 1) / b
  }

  lemma Rounded(a: nat, b: nat)
    requires b > 0
    ensures a <= (a + b - 1) / b * b < a + b
  {
  }

  ghost function RowCost(row: map<nat, int>, w: nat): int {
    if w in row then row[w] else 0
  }

  /** row holds the arcs that leave v. */
  ghost predicate RowOk(row: map<nat, int>, lists: seq<seq<nat>>, servers: nat, n: nat, cap: int, v: nat)
    requires ListsOk(lists, servers, n)
  {
    forall w: nat {:trigger RowCost(row, w)} ::
      w < 2 + servers + |lists| ==> RowCost(row, w) == ArcCapacity(lists, servers, n, cap, v, w)
  }

  /** The number of buckets with a data chunk on server i. */
  method CountData(lists: seq<seq<nat>>, n: nat, i: nat, ghost servers: nat) returns (load: nat)
    requires ListsOk(lists, servers, n)
    ensures load == DataLoad(lists, n, i)
  {
    load := 0;
    for b := 0 to |lists|
      invariant load == DataLoad(lists[..b], n, i)
    {
      assert lists[..b + 1][..b] == lists[..b];
      assert n <= |lists[b]|;
      if DataOn(lists, n, i, b) {
        load := load + 1;
      }
    }
    assert lists[..|lists|] == lists;
  }

  /** The arcs from the source to the servers; not ok when the assertion on a server without data fails. */
  method SourceArcs(lists: seq<seq<nat>>, available: seq<bool>, n: nat, cap: int) returns (ok: bool, row: map<nat, int>)
    requires ListsOk(lists, |available|, n)
    ensures ok <==> forall s: nat :: !Unused(lists, available, n, s)
    ensures ok ==> RowOk(row, lists, |available|, n, cap, 0)
  {
    row := map[];
    for i := 0 to |available|
      invariant forall w: nat {:trigger RowCost(row, w)} :: RowCost(row, w) == if 2 <= w < 2 + i then Room(lists, n, cap, w - 2) else 0
      invariant forall s: nat :: s < i ==> !Unused(lists, available, n, s)
    {
      var load := CountData(lists, n, i, |available|);
      if load == 0 && available[i] {
        assert Unused(lists, available, n, i);
        return false, row;
      }
      var room := if load == 0 || cap - load < 0 then 0 else cap - load;
      ghost var before := row;
      row := row[ServerVertex(i) := room];
      assert forall w: nat {:trigger RowCost(row, w)} :: RowCost(row, w) == if w == 2 + i then room else RowCost(before, w);
    }
    ok := true;
  }

  /** The arcs from server i to the buckets that have no data chunk on it. */
  method ServerArcs(lists: seq<seq<nat>>, servers: nat, n: nat, ghost cap: int, i: nat) returns (row: map<nat, int>)
    requires ListsOk(lists, servers, n) && i < servers
    ensures RowOk(row, lists, servers, n, cap, ServerVertex(i))
  {
    row := map[];
    for b := 0 to |lists|
      invariant forall w: nat {:trigger RowCost(row, w)} ::
                  RowCost(row, w) == if w < BucketVertex(servers, b) then ArcCapacity(lists, servers, n, cap, ServerVertex(i), w) else 0
    {
      ghost var before := row;
      assert n <= |lists[b]|;
      if !DataOn(lists, n, i, b) {
        row := row[BucketVertex(servers, b) := 1];
      }
      assert forall w: nat {:trigger RowCost(row, w)} ::
          RowCost(row, w) == if w == BucketVertex(servers, b) && !DataOn(lists, n, i, b) then 1 else RowCost(before, w);
    }
  }

  ghost predicate RowsOk(c: Mutable, lists: seq<seq<nat>>, servers: nat, n: nat, cap: int)
    requires ListsOk(lists, servers, n)
  {
    forall v: nat {:trigger c[v]} :: v < |c| ==> RowOk(c[v], lists, servers, n, cap, v)
  }

  /** The arcs that find_parity_mapping adds: its server bound is N_BUCKET * n / n_avail_server, rounded up.
      It stops with a failed assertion exactly when an available server has no data. */
  method BuildNetwork(lists: seq<seq<nat>>, available: seq<bool>, n: nat, count: nat) returns (ok: bool, c: Mutable, cap: nat)
    requires ListsOk(lists, |available|, n) && count > 0
    ensures ok <==> forall s: nat :: !Unused(lists, available, n, s)
    ensures cap == CeilDiv(|lists| * n, count) && (ok ==> IsNetwork(c, lists, |available|, n, cap))
  {
    var servers := |available|;
    cap := CeilDiv(|lists| * n, count);
    var source;
    ok, source := SourceArcs(lists, available, n, cap);
    c := [source, map[]];
    if !ok {
      return;
    }
    for i := 0 to servers
      invariant |c| == 2 + i && RowsOk(c, lists, servers, n, cap)
    {
      var row := ServerArcs(lists, servers, n, cap, i);
      c := c + [row];
    }
    for b := 0 to |lists|
      invariant |c| == 2 + servers + b && RowsOk(c, lists, servers, n, cap)
    {
      c := c + [map[1 := 1]];
    }
    forall v: nat, w: nat {:trigger Cost(c, v, w)} | v < |c| && w < |c|
      ensures Cost(c, v, w) == ArcCapacity(lists, servers, n, cap, v, w)
    {
      assert RowOk(c[v], lists, servers, n, cap, v) && Cost(c, v, w) == RowCost(c[v], w);
    }
  }

  // ---------------------------------------------------------------------------
  // Conservation at servers and buckets
  // ---------------------------------------------------------------------------

  /** What server i sends to the first k buckets. */
  ghost function SentBy(f: Mutable, servers: nat, i: nat, k: nat): int {
    if k == 0 then 0 else SentBy(f, servers, i, k - 1) + FlowTo(f, servers, i, k - 1)
  }

  /** What bucket b gets from the first k servers. */
  ghost function SentTo(f: Mutable, servers: nat, b: nat, k: nat): int {
    if k == 0 then 0 else SentTo(f, servers, b, k - 1) + FlowTo(f, servers, k - 1, b)
  }

  ghost predicate FlowOk(c: Mutable, f: Mutable, lists: seq<seq<nat>>, servers: nat, n: nat, cap: int, x: int) {
    ListsOk(lists, servers, n) && IsNetwork(c, lists, servers, n, cap) && IsFlow(c, f, 0, 1, x)
  }

  /** What v sends to the first k vertices minus what it gets from them. */
  ghost function NetTo(f: Mutable, v: nat, k: nat): int {
    if k == 0 then 0 else NetTo(f, v, k - 1) + Cost(f, v, k - 1) - Cost(f, k - 1, v)
  }

  lemma {:induction false} NetToIsSum(f: Mutable, v: nat, h: nat -> int, k: nat)
    requires forall w: nat :: h(w) == Cost(f, v, w) - Cost(f, w, v)
    ensures NetTo(f, v, k) == Sum(h, k)
    decreases k
  {
    if k > 0 {
      NetToIsSum(f, v, h, k - 1);
    }
  }

  lemma Conserved(c: Mutable, f: Mutable, lists: seq<seq<nat>>, servers: nat, n: nat, cap: int, x: int, v: nat)
    requires FlowOk(c, f, lists, servers, n, cap, x) && 2 <= v < |c|
    ensures NetTo(f, v, |c|) == 0
  {
    NetToIsSum(f, v, (w: nat) => Cost(f, v, w) - Cost(f, w, v), |c|);
    assert NetOut(f, v) == 0;
  }

  lemma {:induction false} ServerNetLow(c: Mutable, f: Mutable, lists: seq<seq<nat>>, servers: nat, n: nat, cap: int, x: int, i: nat, k: nat)
    requires FlowOk(c, f, lists, servers, n, cap, x) && i < servers && k <= servers
    ensures NetTo(f, ServerVertex(i), 2 + k) == -Cost(f, 0, ServerVertex(i))
    decreases k
  {
    var v := ServerVertex(i);
    if k == 0 {
      FlowWithin(c, f, lists, servers, n, cap, x, v, 0);
      FlowWithin(c, f, lists, servers, n, cap, x, v, 1);
      FlowWithin(c, f, lists, servers, n, cap, x, 1, v);
      assert NetTo(f, v, 1) == NetTo(f, v, 0) + Cost(f, v, 0) - Cost(f, 0, v);
      assert NetTo(f, v, 2) == NetTo(f, v, 1) + Cost(f, v, 1) - Cost(f, 1, v);
    } else {
      ServerNetLow(c, f, lists, servers, n, cap, x, i, k - 1);
      FlowWithin(c, f, lists, servers, n, cap, x, v, ServerVertex(k - 1));
      FlowWithin(c, f, lists, servers, n, cap, x, ServerVertex(k - 1), v);
    }
  }

  lemma {:induction false} ServerNet(c: Mutable, f: Mutable, lists: seq<seq<nat>>, servers: nat, n: nat, cap: int, x: int, i: nat, k: nat)
    requires FlowOk(c, f, lists, servers, n, cap, x) && i < servers && k <= |lists|
    ensures NetTo(f, ServerVertex(i), BucketVertex(servers, k)) == SentBy(f, servers, i, k) - Cost(f, 0, ServerVertex(i))
    decreases k
  {
    if k == 0 {
      ServerNetLow(c, f, lists, servers, n, cap, x, i, servers);
    } else {
      ServerNet(c, f, lists, servers, n, cap, x, i, k - 1);
      FlowWithin(c, f, lists, servers, n, cap, x, BucketVertex(servers, k - 1), ServerVertex(i));
    }
  }

  /** A server sends to buckets no more than its room. */
  lemma ServerSends(c: Mutable, f: Mutable, lists: seq<seq<nat>>, servers: nat, n: nat, cap: int, x: int, i: nat)
    requires FlowOk(c, f, lists, servers, n, cap, x) && i < servers
    ensures SentBy(f, servers, i, |lists|) <= Room(lists, n, cap, i)
  {
    ServerNet(c, f, lists, servers, n, cap, x, i, |lists|);
    Conserved(c, f, lists, servers, n, cap, x, ServerVertex(i));
    FlowWithin(c, f, lists, servers, n, cap, x, 0, ServerVertex(i));
  }

  lemma {:induction false} BucketNetServers(c: Mutable, f: Mutable, lists: seq<seq<nat>>, servers: nat, n: nat, cap: int, x: int, b: nat, k: nat)
    requires FlowOk(c, f, lists, servers, n, cap, x) && b < |lists| && k <= servers
    ensures var v := BucketVertex(servers, b); NetTo(f, v, 2 + k) == Cost(f, v, 1) - SentTo(f, servers, b, k)
    decreases k
  {
    var v := BucketVertex(servers, b);
    if k == 0 {
      FlowWithin(c, f, lists, servers, n, cap, x, v, 0);
      FlowWithin(c, f, lists, servers, n, cap, x, 0, v);
      FlowWithin(c, f, lists, servers, n, cap, x, 1, v);
      assert NetTo(f, v, 1) == NetTo(f, v, 0) + Cost(f, v, 0) - Cost(f, 0, v);
      assert NetTo(f, v, 2) == NetTo(f, v, 1) + Cost(f, v, 1) - Cost(f, 1, v);
    } else {
      BucketNetServers(c, f, lists, servers, n, cap, x, b, k - 1);
      FlowWithin(c, f, lists, servers, n, cap, x, v, ServerVertex(k - 1));
    }
  }

  lemma {:induction false} BucketNet(c: Mutable, f: Mutable, lists: seq<seq<nat>>, servers: nat, n: nat, cap: int, x: int, b: nat, k: nat)
    requires FlowOk(c, f, lists, servers, n, cap, x) && b < |lists| && k <= |lists|
    ensures var v := BucketVertex(servers, b); NetTo(f, v, BucketVertex(servers, k)) == Cost(f, v, 1) - SentTo(f, servers, b, servers)
    decreases k
  {
    if k == 0 {
      BucketNetServers(c, f, lists, servers, n, cap, x, b, servers);
    } else {
      BucketNet(c, f, lists, servers, n, cap, x, b, k - 1);
      FlowWithin(c, f, lists, servers, n, cap, x, BucketVertex(servers, b), BucketVertex(servers, k - 1));
      FlowWithin(c, f, lists, servers, n, cap, x, BucketVertex(servers, k - 1), BucketVertex(servers, b));
    }
  }

  /** A bucket gets what it sends to the sink, which is at most one unit. */
  lemma BucketGets(c: Mutable, f: Mutable, lists: seq<seq<nat>>, servers: nat, n: nat, cap: int, x: int, b: nat)
    requires FlowOk(c, f, lists, servers, n, cap, x) && b < |lists|
    ensures SentTo(f, servers, b, servers) == Cost(f, BucketVertex(servers, b), 1) <= 1
  {
    BucketNet(c, f, lists, servers, n, cap, x, b, |lists|);
    Conserved(c, f, lists, servers, n, cap, x, BucketVertex(servers, b));
    FlowWithin(c, f, lists, servers, n, cap, x, BucketVertex(servers, b), 1);
  }

  lemma FlowToRange(c: Mutable, f: Mutable, lists: seq<seq<nat>>, servers: nat, n: nat, cap: int, x: int, i: nat, b: nat)
    requires FlowOk(c, f, lists, servers, n, cap, x) && i < servers && b < |lists|
    ensures 0 <= FlowTo(f, servers, i, b) <= 1 && (FlowTo(f, servers, i, b) > 0 ==> !DataOn(lists, n, i, b))
  {
    FlowWithin(c, f, lists, servers, n, cap, x, ServerVertex(i), BucketVertex(servers, b));
  }

  // ---------------------------------------------------------------------------
  // Who gets the parity chunk
  // ---------------------------------------------------------------------------

  /** The first of the first k servers with flow to bucket b, or `servers`. */
  ghost function ParityOf(f: Mutable, servers: nat, b: nat, k: nat): (i: nat)
    requires k <= servers
    ensures i < k || i == servers
    ensures i < k ==> FlowTo(f, servers, i, b) > 0
  {
    if k == 0 then servers
    else
      var i := ParityOf(f, servers, b, k - 1);
      if i == servers && FlowTo(f, servers, k - 1, b) > 0 then k - 1 else i
  }

  lemma {:induction false} SentToBounds(f: Mutable, servers: nat, b: nat, k: nat, i: nat)
    requires k <= servers && forall j: nat :: j < servers ==> 0 <= FlowTo(f, servers, j, b) <= 1
    ensures 0 <= SentTo(f, servers, b, k) && (i < k ==> SentTo(f, servers, b, k) >= FlowTo(f, servers, i, b))
    ensures ParityOf(f, servers, b, k) == servers <==> SentTo(f, servers, b, k) == 0
    decreases k
  {
    if k > 0 {
      SentToBounds(f, servers, b, k - 1, i);
    }
  }

  lemma {:induction false} SentToTwo(f: Mutable, servers: nat, b: nat, k: nat, i: nat, j: nat)
    requires i < j < k <= servers && forall y: nat :: y < servers ==> 0 <= FlowTo(f, servers, y, b) <= 1
    ensures SentTo(f, servers, b, k) >= FlowTo(f, servers, i, b) + FlowTo(f, servers, j, b)
    decreases k
  {
    if j == k - 1 {
      SentToBounds(f, servers, b, k - 1, i);
    } else {
      SentToTwo(f, servers, b, k - 1, i, j);
    }
  }

  /** Each bucket has flow from at most one server. */
  lemma OneParity(c: Mutable, f: Mutable, lists: seq<seq<nat>>, servers: nat, n: nat, cap: int, x: int, b: nat, i: nat, j: nat)
    requires FlowOk(c, f, lists, servers, n, cap, x) && b < |lists| && i < servers && j < servers
    requires FlowTo(f, servers, i, b) > 0 && FlowTo(f, servers, j, b) > 0
    ensures i == j
  {
    forall y: nat | y < servers
      ensures 0 <= FlowTo(f, servers, y, b) <= 1
    {
      FlowToRange(c, f, lists, servers, n, cap, x, y, b);
    }
    BucketGets(c, f, lists, servers, n, cap, x, b);
    if i < j {
      SentToTwo(f, servers, b, servers, i, j);
    } else if j < i {
      SentToTwo(f, servers, b, servers, j, i);
    }
  }

  /** The parity server of a bucket. */
  ghost function Parity(f: Mutable, servers: nat, b: nat): nat {
    ParityOf(f, servers, b, servers)
  }

  lemma {:induction false} ParityOfIs(f: Mutable, servers: nat, b: nat, k: nat, i: nat)
    requires i < k <= servers && FlowTo(f, servers, i, b) > 0
    requires forall j: nat :: j < servers && FlowTo(f, servers, j, b) > 0 ==> j == i
    ensures ParityOf(f, servers, b, k) == i
    decreases k
  {
    if i < k - 1 {
      ParityOfIs(f, servers, b, k - 1, i);
    }
  }

  lemma ParityIs(c: Mutable, f: Mutable, lists: seq<seq<nat>>, servers: nat, n: nat, cap: int, x: int, b: nat, i: nat)
    requires FlowOk(c, f, lists, servers, n, cap, x) && b < |lists| && i < servers
    ensures FlowTo(f, servers, i, b) > 0 <==> Parity(f, servers, b) == i
  {
    if FlowTo(f, servers, i, b) > 0 {
      forall j: nat | j < servers && FlowTo(f, servers, j, b) > 0
        ensures j == i
      {
        OneParity(c, f, lists, servers, n, cap, x, b, i, j);
      }
      ParityOfIs(f, servers, b, servers, i);
    }
  }

  // ---------------------------------------------------------------------------
  // The lists after placing parity
  // ---------------------------------------------------------------------------

  /** Server s goes to position n - 1 and the spare servers move back by one. */
  function WithParity(list: seq<nat>, n: nat, s: nat): seq<nat>
    requires 0 < n <= |list|
  {
    list[..n - 1] + [s] + list[n - 1..|list| - 1]
  }

  /** The list of bucket b once the arcs of the first k servers have been decoded. */
  ghost function ListAfter(lists: seq<seq<nat>>, f: Mutable, servers: nat, n: nat, b: nat, k: nat): seq<nat>
    requires ListsOk(lists, servers, n) && b < |lists| && k <= servers
  {
    var s := ParityOf(f, servers, b, k);
    if s < servers then WithParity(lists[b], n, s) else lists[b]
  }

  /** The shifting loop. */
  method ShiftIn(list0: seq<nat>, n: nat, s: nat) returns (list: seq<nat>)
    requires 0 < n <= |list0|
    ensures list == WithParity(list0, n, s)
  {
    list := list0;
    var j := |list0| - 1;
    while j >= n
      invariant n - 1 <= j < |list0| == |list|
      invariant list == list0[..j + 1] + list0[j..|list0| - 1]
    {
      list := list[j := list[j - 1]];
      j := j - 1;
    }
    list := list[n - 1 := s];
  }

  /** The buckets whose parity goes to server i, among the first k. */
  ghost function Assigned(f: Mutable, servers: nat, i: nat, k: nat): nat {
    if k == 0 then 0 else Assigned(f, servers, i, k - 1) + if FlowTo(f, servers, i, k - 1) > 0 then 1 else 0
  }

  lemma {:induction false} AssignedIsSent(c: Mutable, f: Mutable, lists: seq<seq<nat>>, servers: nat, n: nat, cap: int, x: int, i: nat, k: nat)
    requires FlowOk(c, f, lists, servers, n, cap, x) && i < servers && k <= |lists|
    ensures Assigned(f, servers, i, k) == SentBy(f, servers, i, k)
    decreases k
  {
    if k > 0 {
      AssignedIsSent(c, f, lists, servers, n, cap, x, i, k - 1);
      FlowToRange(c, f, lists, servers, n, cap, x, i, k - 1);
    }
  }

  /** Data and assigned parity together stay within the larger of the data load and the common bound. */
  lemma LoadBound(c: Mutable, f: Mutable, lists: seq<seq<nat>>, servers: nat, n: nat, cap: int, x: int, i: nat)
    requires FlowOk(c, f, lists, servers, n, cap, x) && i < servers
    ensures var load := DataLoad(lists, n, i);
            load + Assigned(f, servers, i, |lists|) <= if load > cap then load else cap
    ensures DataLoad(lists, n, i) == 0 ==> Assigned(f, servers, i, |lists|) == 0
  {
    AssignedIsSent(c, f, lists, servers, n, cap, x, i, |lists|);
    ServerSends(c, f, lists, servers, n, cap, x, i);
  }

  // ---------------------------------------------------------------------------
  // Decoding the flow
  // ---------------------------------------------------------------------------

  /** The lists once the arcs of the first k servers have been decoded. */
  ghost function ListsAfter(lists: seq<seq<nat>>, f: Mutable, servers: nat, n: nat, k: nat): seq<seq<nat>>
    requires ListsOk(lists, servers, n) && k <= servers
  {
    seq(|lists|, b requires 0 <= b < |lists| => ListAfter(lists, f, servers, n, b, k))
  }

  /** What decoding the arc from server i to bucket b does to the list of the bucket. */
  ghost predicate ArcDecoded(f: Mutable, servers: nat, n: nat, i: nat, before: seq<nat>, after: seq<nat>, b: nat) {
    0 < n <= |before| && after == if FlowTo(f, servers, i, b) > 0 then WithParity(before, n, i) else before
  }

  ghost predicate ArcsDecoded(f: Mutable, servers: nat, n: nat, i: nat, before: seq<seq<nat>>, after: seq<seq<nat>>) {
    && |after| == |before|
    && forall b: nat {:trigger ArcDecoded(f, servers, n, i, before[b], after[b], b)} ::
         b < |before| ==> ArcDecoded(f, servers, n, i, before[b], after[b], b)
  }

  lemma DecodeArc(c: Mutable, f: Mutable, lists: seq<seq<nat>>, servers: nat, n: nat, cap: int, x: int, i: nat, b: nat)
    requires FlowOk(c, f, lists, servers, n, cap, x) && i < servers && b < |lists|
    ensures ArcDecoded(f, servers, n, i, ListAfter(lists, f, servers, n, b, i), ListAfter(lists, f, servers, n, b, i + 1), b)
  {
    assert n <= |lists[b]|;
    var before := ParityOf(f, servers, b, i);
    if FlowTo(f, servers, i, b) > 0 && before < servers {
      OneParity(c, f, lists, servers, n, cap, x, b, before, i);
    }
  }

  /** The arcs of one server. */
  method DecodeServer(f: Mutable, before: seq<seq<nat>>, counts0: seq<nat>, servers: nat, n: nat, i: nat, ghost after: seq<seq<nat>>)
    returns (lists: seq<seq<nat>>, counts: seq<nat>)
    requires i < |counts0| && ArcsDecoded(f, servers, n, i, before, after)
    ensures lists == after && counts == counts0[i := counts0[i] + Assigned(f, servers, i, |before|)]
  {
    lists, counts := before, counts0;
    for b := 0 to |before|
      invariant lists == Half(before, after, b) && counts == AddOne(counts0, i, Assigned(f, servers, i, b))
    {
      HalfDecoded(before, after, b);
      assert ArcDecoded(f, servers, n, i, before[b], after[b], b);
      var list, count := DecodeOne(f, lists[b], servers, n, i, b, after[b]);
      AddedUp(counts0, i, Assigned(f, servers, i, b), count);
      lists := lists[b := list];
      counts := AddOne(counts, i, count);
    }
    AllDecoded(before, after);
  }

  lemma AllDecoded(before: seq<seq<nat>>, after: seq<seq<nat>>)
    requires |before| == |after|
    ensures Half(before, after, |before|) == after
  {
  }

  /** The lists when the first b have been decoded. */
  ghost function Half(before: seq<seq<nat>>, after: seq<seq<nat>>, b: nat): seq<seq<nat>>
    requires b <= |before| == |after|
  {
    after[..b] + before[b..]
  }

  function AddOne(counts: seq<nat>, i: nat, d: nat): seq<nat>
    requires i < |counts|
  {
    counts[i := counts[i] + d]
  }

  lemma AddedUp(counts: seq<nat>, i: nat, a: nat, d: nat)
    requires i < |counts|
    ensures AddOne(AddOne(counts, i, a), i, d) == AddOne(counts, i, a + d)
  {
  }

  /** One arc: a positive flow makes the server the parity server of the bucket. */
  method DecodeOne(f: Mutable, list0: seq<nat>, servers: nat, n: nat, i: nat, b: nat, ghost after: seq<nat>) returns (list: seq<nat>, count: nat)
    requires ArcDecoded(f, servers, n, i, list0, after, b)
    ensures list == after && Assigned(f, servers, i, b + 1) == Assigned(f, servers, i, b) + count
  {
    list, count := list0, 0;
    if FlowTo(f, servers, i, b) > 0 {
      list := ShiftIn(list0, n, i);
      count := 1;
    }
  }

  lemma HalfDecoded(before: seq<seq<nat>>, after: seq<seq<nat>>, b: nat)
    requires b < |before| == |after|
    ensures |Half(before, after, b)| == |before| && Half(before, after, b)[b] == before[b]
    ensures Half(before, after, b)[b := after[b]] == Half(before, after, b + 1)
  {
  }

  /** The counters once the arcs of the first k servers have been decoded. */
  ghost function CountsAfter(counts: seq<nat>, f: Mutable, servers: nat, buckets: nat, k: nat): seq<nat> {
    seq<nat>(|counts|, i requires 0 <= i < |counts| => counts[i] + if i < k then Assigned(f, servers, i, buckets) else 0)
  }

  lemma DecodeCounts(counts: seq<nat>, f: Mutable, servers: nat, buckets: nat, k: nat)
    requires k < |counts|
    ensures var before := CountsAfter(counts, f, servers, buckets, k);
            before[k := before[k] + Assigned(f, servers, k, buckets)] == CountsAfter(counts, f, servers, buckets, k + 1)
  {
  }

  lemma DecodeStarts(lists: seq<seq<nat>>, counts: seq<nat>, f: Mutable, servers: nat, n: nat)
    requires ListsOk(lists, servers, n)
    ensures ListsAfter(lists, f, servers, n, 0) == lists && CountsAfter(counts, f, servers, |lists|, 0) == counts
  {
  }

  lemma DecodeArcs(c: Mutable, f: Mutable, lists: seq<seq<nat>>, servers: nat, n: nat, cap: int, x: int, i: nat,
                   before: seq<seq<nat>>, after: seq<seq<nat>>)
    requires FlowOk(c, f, lists, servers, n, cap, x) && i < servers
    requires before == ListsAfter(lists, f, servers, n, i) && after == ListsAfter(lists, f, servers, n, i + 1)
    ensures ArcsDecoded(f, servers, n, i, before, after)
  {
    forall b: nat {:trigger ArcDecoded(f, servers, n, i, before[b], after[b], b)} | b < |before|
      ensures ArcDecoded(f, servers, n, i, before[b], after[b], b)
    {
      DecodeArc(c, f, lists, servers, n, cap, x, i, b);
    }
  }

  /** The decoding loop of find_parity_mapping, for any integral flow. */
  method FindParityMapping(f: Mutable, lists0: seq<seq<nat>>, counts0: seq<nat>, servers: nat, n: nat, ghost c: Mutable, ghost cap: int, ghost x: int)
    returns (lists: seq<seq<nat>>, counts: seq<nat>)
    requires FlowOk(c, f, lists0, servers, n, cap, x) && |counts0| == servers
    ensures lists == ListsAfter(lists0, f, servers, n, servers) && counts == CountsAfter(counts0, f, servers, |lists0|, servers)
  {
    lists, counts := lists0, counts0;
    DecodeStarts(lists0, counts0, f, servers, n);
    for i := 0 to servers
      invariant lists == ListsAfter(lists0, f, servers, n, i) && counts == CountsAfter(counts0, f, servers, |lists0|, i)
    {
      lists, counts := DecodeNext(f, lists, counts, lists0, counts0, servers, n, i, c, cap, x);
    }
  }

  method DecodeNext(f: Mutable, lists1: seq<seq<nat>>, counts1: seq<nat>, ghost lists0: seq<seq<nat>>, ghost counts0: seq<nat>,
                    servers: nat, n: nat, i: nat, ghost c: Mutable, ghost cap: int, ghost x: int)
    returns (lists: seq<seq<nat>>, counts: seq<nat>)
    requires FlowOk(c, f, lists0, servers, n, cap, x) && i < servers == |counts0|
    requires lists1 == ListsAfter(lists0, f, servers, n, i) && counts1 == CountsAfter(counts0, f, servers, |lists0|, i)
    ensures lists == ListsAfter(lists0, f, servers, n, i + 1) && counts == CountsAfter(counts0, f, servers, |lists0|, i + 1)
  {
    ghost var after := ListsAfter(lists0, f, servers, n, i + 1);
    DecodeArcs(c, f, lists0, servers, n, cap, x, i, lists1, after);
    DecodeCounts(counts0, f, servers, |lists0|, i);
    lists, counts := DecodeServer(f, lists1, counts1, servers, n, i, after);
  }

  // ---------------------------------------------------------------------------
  // What the decoding achieves
  // ---------------------------------------------------------------------------

  lemma {:induction false} CountedMeansListed(lists: seq<seq<nat>>, end: nat, s: nat) returns (b: nat)
    requires HashRing.CountOn(lists, end, s) > 0
    ensures b < |lists| && end <= |lists[b]| && s in lists[b][..end]
    decreases |lists|
  {
    var k := |lists| - 1;
    if end <= |lists[k]| && s in lists[k][..end] {
      b := k;
    } else {
      b := CountedMeansListed(lists[..k], end, s);
    }
  }

  lemma {:induction false} AssignedSome(f: Mutable, servers: nat, i: nat, k: nat, b: nat)
    requires b < k && FlowTo(f, servers, i, b) > 0
    ensures Assigned(f, servers, i, k) > 0
    decreases k
  {
    if b < k - 1 {
      AssignedSome(f, servers, i, k - 1, b);
    }
  }

  /** The parity chunk of a bucket goes to an available server that holds none of its data chunks; the data
      chunks stay where they are and the first n servers of the list are different. */
  lemma PlacementOk(c: Mutable, f: Mutable, lists: seq<seq<nat>>, servers: nat, n: nat, cap: int, x: int, available: seq<bool>, b: nat)
    requires FlowOk(c, f, lists, servers, n, cap, x) && b < |lists| && |available| == servers
    requires forall y: nat, j: nat {:trigger lists[y][j]} :: y < |lists| && j < |lists[y]| ==> available[lists[y][j]]
    ensures var list, s := ListAfter(lists, f, servers, n, b, servers), Parity(f, servers, b);
            && |list| == |lists[b]| && list[..n - 1] == lists[b][..n - 1] && NoRepeats(list[..n])
            && (s < servers ==> list[n - 1] == s && available[s] && s !in lists[b][..n - 1])
            && (s == servers ==> list == lists[b])
            && (forall j :: 0 <= j < n ==> list[j] < servers && available[list[j]])
  {
    var s := Parity(f, servers, b);
    assert lists[b] == lists[b];
    if s < servers {
      FlowToRange(c, f, lists, servers, n, cap, x, s, b);
      AssignedSome(f, servers, s, |lists|, b);
      LoadBound(c, f, lists, servers, n, cap, x, s);
      var y := CountedMeansListed(lists, n - 1, s);
      var j: nat :| j < n - 1 && lists[y][..n - 1][j] == s;
      assert available[lists[y][j]];
      FirstNDistinct(lists[b], n, s);
    }
  }

  lemma FirstNDistinct(list: seq<nat>, n: nat, s: nat)
    requires 0 < n <= |list| && NoRepeats(list) && s !in list[..n - 1]
    ensures NoRepeats(WithParity(list, n, s)[..n]) && |WithParity(list, n, s)| == |list|
    ensures WithParity(list, n, s)[..n] == list[..n - 1] + [s]
  {
    var r := WithParity(list, n, s)[..n];
    assert r == list[..n - 1] + [s];
    forall i, j | 0 <= i < j < |r|
      ensures r[i] != r[j]
    {
      if j == n - 1 {
        assert r[i] == list[..n - 1][i];
      }
    }
  }

  /** Buckets among the first k that got no parity and whose n-th server is s. */
  ghost function Unplaced(f: Mutable, lists: seq<seq<nat>>, servers: nat, n: nat, s: nat, k: nat): nat
    requires ListsOk(lists, servers, n) && k <= |lists|
  {
    if k == 0 then 0
    else
      assert n <= |lists[k - 1]|;
      Unplaced(f, lists, servers, n, s, k - 1) + if Parity(f, servers, k - 1) == servers && lists[k - 1][n - 1] == s then 1 else 0
  }

  lemma OneBucketCounts(c: Mutable, f: Mutable, lists: seq<seq<nat>>, servers: nat, n: nat, cap: int, x: int, s: nat, b: nat)
    requires FlowOk(c, f, lists, servers, n, cap, x) && s < servers && b < |lists|
    ensures var list := ListAfter(lists, f, servers, n, b, servers);
            && n <= |list| == |lists[b]|
            && (if s in list[..n] then 1 else 0) ==
               (if s in lists[b][..n - 1] then 1 else 0) + (if FlowTo(f, servers, s, b) > 0 then 1 else 0) +
               (if Parity(f, servers, b) == servers && lists[b][n - 1] == s then 1 else 0)
  {
    var p := Parity(f, servers, b);
    ParityIs(c, f, lists, servers, n, cap, x, b, s);
    assert lists[b] == lists[b];
    if p < servers {
      FlowToRange(c, f, lists, servers, n, cap, x, p, b);
      FirstNDistinct(lists[b], n, p);
    } else {
      assert lists[b][..n] == lists[b][..n - 1] + [lists[b][n - 1]];
    }
  }

  /** The counters fall short of the number of buckets on a server by the buckets that got no parity and
      have it as their n-th server; when every bucket got its parity they are exact. */
  lemma {:induction false} CountsExact(c: Mutable, f: Mutable, lists0: seq<seq<nat>>, lists: seq<seq<nat>>, servers: nat, n: nat, cap: int, x: int, s: nat, k: nat)
    requires FlowOk(c, f, lists0, servers, n, cap, x) && s < servers && k <= |lists0| && lists == ListsAfter(lists0, f, servers, n, servers)
    ensures HashRing.CountOn(lists[..k], n, s) ==
            HashRing.CountOn(lists0[..k], n - 1, s) + Assigned(f, servers, s, k) + Unplaced(f, lists0, servers, n, s, k)
    decreases k
  {
    if k > 0 {
      CountsExact(c, f, lists0, lists, servers, n, cap, x, s, k - 1);
      OneBucketCounts(c, f, lists0, servers, n, cap, x, s, k - 1);
      CountOnStep(lists, n, s, k);
      CountOnStep(lists0, n - 1, s, k);
    }
  }

  lemma CountOnStep(lists: seq<seq<nat>>, end: nat, s: nat, k: nat)
    requires 0 < k <= |lists|
    ensures HashRing.CountOn(lists[..k], end, s) ==
            HashRing.CountOn(lists[..k - 1], end, s) + if end <= |lists[k - 1]| && s in lists[k - 1][..end] then 1 else 0
  {
    assert lists[..k][..k - 1] == lists[..k - 1];
  }

  lemma {:induction false} AllPlaced(f: Mutable, lists: seq<seq<nat>>, servers: nat, n: nat, s: nat, k: nat)
    requires ListsOk(lists, servers, n) && k <= |lists| && forall b: nat {:trigger Parity(f, servers, b)} :: b < |lists| ==> Parity(f, servers, b) < servers
    ensures Unplaced(f, lists, servers, n, s, k) == 0
    decreases k
  {
    if k > 0 {
      AllPlaced(f, lists, servers, n, s, k - 1);
    }
  }

  /** A flow that fills the arcs from all buckets to the sink gives every bucket its parity. */
  lemma SaturatedMeansPlaced(c: Mutable, f: Mutable, lists: seq<seq<nat>>, servers: nat, n: nat, cap: int, x: int, b: nat)
    requires FlowOk(c, f, lists, servers, n, cap, x) && b < |lists|
    ensures Cost(f, BucketVertex(servers, b), 1) == 1 <==> Parity(f, servers, b) < servers
  {
    forall j: nat | j < servers
      ensures 0 <= FlowTo(f, servers, j, b) <= 1
    {
      FlowToRange(c, f, lists, servers, n, cap, x, j, b);
    }
    BucketGets(c, f, lists, servers, n, cap, x, b);
    SentToBounds(f, servers, b, servers, 0);
  }

  /** If the flow saturates all buckets, n_bucket_per_server holds the true counts. */
  lemma SaturatedCounts(c: Mutable, f: Mutable, lists0: seq<seq<nat>>, lists: seq<seq<nat>>, counts0: seq<nat>, counts: seq<nat>,
                        servers: nat, n: nat, cap: int, x: int)
    requires FlowOk(c, f, lists0, servers, n, cap, x) && |lists0| == |lists| && |counts0| == |counts| == servers
    requires lists == ListsAfter(lists0, f, servers, n, servers) && counts == CountsAfter(counts0, f, servers, |lists0|, servers)
    requires HashRing.Counts(counts0, lists0, n - 1)
    requires forall b: nat {:trigger BucketVertex(servers, b)} :: b < |lists0| ==> Cost(f, BucketVertex(servers, b), 1) == 1
    ensures HashRing.Counts(counts, lists, n)
  {
    forall b: nat {:trigger Parity(f, servers, b)} | b < |lists0|
      ensures Parity(f, servers, b) < servers
    {
      assert Cost(f, BucketVertex(servers, b), 1) == 1;
      SaturatedMeansPlaced(c, f, lists0, servers, n, cap, x, b);
    }
    forall s: nat {:trigger counts[s]} | s < |counts|
      ensures counts[s] == HashRing.CountOn(lists, n, s)
    {
      CountsExact(c, f, lists0, lists, servers, n, cap, x, s, |lists0|);
      AllPlaced(f, lists0, servers, n, s, |lists0|);
      assert lists[..|lists0|] == lists && lists0[..|lists0|] == lists0;
      assert counts0[s] == HashRing.CountOn(lists0, n - 1, s);
    }
  }

  // ---------------------------------------------------------------------------
  // The placement, in terms of the flow
  // ---------------------------------------------------------------------------

  /** The flow takes a unit from server s to bucket b: vertices 0 and 1 are source and sink, then come the
      servers and then the buckets. */
  ghost predicate Sends(f: Mutable, servers: nat, s: nat, b: nat) {
    Cost(f, 2 + s, 2 + servers + b) > 0
  }

  /** The list of a bucket before and after: the data stays; a server from which the flow takes a unit to the
      bucket comes next, and then the former n-th server and the spare ones but for the last; without such a
      server nothing changes. */
  ghost predicate ParityMoved(f: Mutable, servers: nat, n: nat, b: nat, before: seq<nat>, after: seq<nat>) {
    && 0 < n <= |before| == |after| && after[..n - 1] == before[..n - 1]
    && (forall s: nat {:trigger Sends(f, servers, s, b)} :: s < servers && Sends(f, servers, s, b) ==>
          after[n - 1] == s && after[n..] == before[n - 1..|before| - 1])
    && ((forall s: nat {:trigger Sends(f, servers, s, b)} :: s < servers ==> !Sends(f, servers, s, b)) ==> after == before)
  }

  /** The buckets with s among the first m servers of their list. */
  ghost function Holding(lists: seq<seq<nat>>, m: nat, s: nat): set<nat> {
    set b: nat | b < |lists| && m <= |lists[b]| && s in lists[b][..m]
  }

  /** The buckets to which the flow takes a unit from server s. */
  ghost function Receiving(f: Mutable, servers: nat, buckets: nat, s: nat): set<nat> {
    set b: nat | b < buckets && Sends(f, servers, s, b)
  }

  /** Bucket b gets nothing from the flow and keeps s as its n-th server. */
  ghost predicate Keeps(f: Mutable, list: seq<nat>, servers: nat, n: nat, s: nat, b: nat)
    requires 0 < n
  {
    n <= |list| && list[n - 1] == s && Cost(f, 2 + servers + b, 1) == 0
  }

  ghost function Keeping(f: Mutable, lists: seq<seq<nat>>, servers: nat, n: nat, s: nat, k: nat): set<nat>
    requires 0 < n && k <= |lists|
  {
    set b: nat | b < k && Keeps(f, lists[b], servers, n, s, b)
  }

  /** The flow fills the arcs from all buckets to the sink. */
  ghost predicate Saturated(f: Mutable, servers: nat, buckets: nat) {
    forall b: nat {:trigger BucketVertex(servers, b)} :: b < buckets ==> Cost(f, BucketVertex(servers, b), 1) == 1
  }

  /** What the flow makes of lists and counters. Every counter is the number of buckets with data on the server
      and of those that the flow gives it; it is the number of buckets on it when the flow saturates all
      buckets, and else falls short of it by the buckets that keep their n-th server. That number is at most
      the data load or the average, whichever is larger, but for the buckets that keep their server. */
  ghost predicate Placed(f: Mutable, lists0: seq<seq<nat>>, lists: seq<seq<nat>>, counts: seq<nat>, servers: nat, n: nat, average: nat) {
    && 0 < n && |lists| == |lists0| && |counts| == servers
    && (forall b: nat {:trigger lists[b]} :: b < |lists| ==> ParityMoved(f, servers, n, b, lists0[b], lists[b]))
    && (forall s: nat {:trigger counts[s]} :: s < servers ==>
          CountOk(f, lists0, lists, counts[s], servers, n, average, s))
    && (Saturated(f, servers, |lists|) ==>
          forall s: nat {:trigger counts[s]} :: s < servers ==> counts[s] == |Holding(lists, n, s)|)
  }

  ghost predicate CountOk(f: Mutable, lists0: seq<seq<nat>>, lists: seq<seq<nat>>, count: nat, servers: nat, n: nat, average: nat, s: nat)
    requires 0 < n
  {
    var load, kept := |Holding(lists0, n - 1, s)|, |Keeping(f, lists0, servers, n, s, |lists0|)|;
    && count == load + |Receiving(f, servers, |lists0|, s)|
    && |Holding(lists, n, s)| == count + kept
    && |Holding(lists, n, s)| <= (if load > average then load else average) + kept
  }

  lemma {:induction false} CountIsHolding(lists: seq<seq<nat>>, m: nat, s: nat)
    ensures HashRing.CountOn(lists, m, s) == |Holding(lists, m, s)|
    decreases |lists|
  {
    if lists == [] {
      assert Holding(lists, m, s) == {};
    } else {
      var k := |lists| - 1;
      CountIsHolding(lists[..k], m, s);
      HoldingNext(lists, m, s);
    }
  }

  lemma HoldingNext(lists: seq<seq<nat>>, m: nat, s: nat)
    requires lists != []
    ensures var k := |lists| - 1;
            |Holding(lists, m, s)| == |Holding(lists[..k], m, s)| + if m <= |lists[k]| && s in lists[k][..m] then 1 else 0
  {
    var k := |lists| - 1;
    var front := Holding(lists[..k], m, s);
    assert k !in front;
    assert Holding(lists, m, s) == if m <= |lists[k]| && s in lists[k][..m] then front + {k} else front;
  }

  lemma {:induction false} AssignedIsReceiving(f: Mutable, servers: nat, s: nat, k: nat)
    ensures Assigned(f, servers, s, k) == |Receiving(f, servers, k, s)|
    decreases k
  {
    if k == 0 {
      assert Receiving(f, servers, 0, s) == {};
    } else {
      AssignedIsReceiving(f, servers, s, k - 1);
      var front := Receiving(f, servers, k - 1, s);
      assert k - 1 !in front;
      assert Receiving(f, servers, k, s) == if Sends(f, servers, s, k - 1) then front + {k - 1} else front;
    }
  }

  lemma KeepingIs(c: Mutable, f: Mutable, lists: seq<seq<nat>>, servers: nat, n: nat, cap: int, x: int, s: nat, b: nat)
    requires FlowOk(c, f, lists, servers, n, cap, x) && b < |lists|
    ensures n <= |lists[b]|
    ensures Keeps(f, lists[b], servers, n, s, b) <==> Parity(f, servers, b) == servers && lists[b][n - 1] == s
  {
    SaturatedMeansPlaced(c, f, lists, servers, n, cap, x, b);
    FlowWithin(c, f, lists, servers, n, cap, x, BucketVertex(servers, b), 1);
    assert lists[b] == lists[b];
    ParityOfBound(f, servers, b, servers);
  }

  lemma {:induction false} ParityOfBound(f: Mutable, servers: nat, b: nat, k: nat)
    requires k <= servers
    ensures ParityOf(f, servers, b, k) <= servers
    decreases k
  {
    if k > 0 {
      ParityOfBound(f, servers, b, k - 1);
    }
  }

  lemma {:induction false} UnplacedIsKeeping(c: Mutable, f: Mutable, lists: seq<seq<nat>>, servers: nat, n: nat, cap: int, x: int, s: nat, k: nat)
    requires FlowOk(c, f, lists, servers, n, cap, x) && k <= |lists|
    ensures Unplaced(f, lists, servers, n, s, k) == |Keeping(f, lists, servers, n, s, k)|
    decreases k
  {
    if k == 0 {
      assert Keeping(f, lists, servers, n, s, 0) == {};
    } else {
      UnplacedIsKeeping(c, f, lists, servers, n, cap, x, s, k - 1);
      KeepingIs(c, f, lists, servers, n, cap, x, s, k - 1);
      KeepingNext(f, lists, servers, n, s, k - 1);
    }
  }

  lemma KeepingNext(f: Mutable, lists: seq<seq<nat>>, servers: nat, n: nat, s: nat, k: nat)
    requires 0 < n && k < |lists|
    ensures |Keeping(f, lists, servers, n, s, k + 1)| ==
            |Keeping(f, lists, servers, n, s, k)| + if Keeps(f, lists[k], servers, n, s, k) then 1 else 0
  {
    var front := Keeping(f, lists, servers, n, s, k);
    assert k !in front;
    assert Keeping(f, lists, servers, n, s, k + 1) == if Keeps(f, lists[k], servers, n, s, k) then front + {k} else front;
  }

  lemma MovedByFlow(c: Mutable, f: Mutable, lists: seq<seq<nat>>, servers: nat, n: nat, cap: int, x: int, b: nat)
    requires FlowOk(c, f, lists, servers, n, cap, x) && b < |lists|
    ensures ParityMoved(f, servers, n, b, lists[b], ListAfter(lists, f, servers, n, b, servers))
  {
    var before, after := lists[b], ListAfter(lists, f, servers, n, b, servers);
    assert n <= |lists[b]|;
    forall s: nat {:trigger Sends(f, servers, s, b)} | s < servers && Sends(f, servers, s, b)
      ensures after[n - 1] == s && after[n..] == before[n - 1..|before| - 1]
    {
      assert FlowTo(f, servers, s, b) > 0;
      ParityIs(c, f, lists, servers, n, cap, x, b, s);
    }
    if forall s: nat {:trigger Sends(f, servers, s, b)} :: s < servers ==> !Sends(f, servers, s, b) {
      NoneSends(f, servers, b, servers);
    }
  }

  lemma {:induction false} NoneSends(f: Mutable, servers: nat, b: nat, k: nat)
    requires k <= servers && forall s: nat {:trigger Sends(f, servers, s, b)} :: s < servers ==> !Sends(f, servers, s, b)
    ensures ParityOf(f, servers, b, k) == servers
    decreases k
  {
    if k > 0 {
      NoneSends(f, servers, b, k - 1);
      assert !Sends(f, servers, k - 1, b);
    }
  }

  lemma CountByFlow(c: Mutable, f: Mutable, lists0: seq<seq<nat>>, lists: seq<seq<nat>>, servers: nat, n: nat, cap: nat, x: int, s: nat, count0: nat)
    requires FlowOk(c, f, lists0, servers, n, cap, x) && s < servers && lists == ListsAfter(lists0, f, servers, n, servers)
    requires count0 == HashRing.CountOn(lists0, n - 1, s)
    ensures CountOk(f, lists0, lists, count0 + Assigned(f, servers, s, |lists0|), servers, n, cap, s)
  {
    var k := |lists0|;
    CountIsHolding(lists0, n - 1, s);
    CountIsHolding(lists, n, s);
    AssignedIsReceiving(f, servers, s, k);
    UnplacedIsKeeping(c, f, lists0, servers, n, cap, x, s, k);
    AllCountsExact(c, f, lists0, lists, servers, n, cap, x, s);
    LoadBound(c, f, lists0, servers, n, cap, x, s);
  }

  lemma AllCountsExact(c: Mutable, f: Mutable, lists0: seq<seq<nat>>, lists: seq<seq<nat>>, servers: nat, n: nat, cap: nat, x: int, s: nat)
    requires FlowOk(c, f, lists0, servers, n, cap, x) && s < servers && lists == ListsAfter(lists0, f, servers, n, servers)
    ensures HashRing.CountOn(lists, n, s) ==
            HashRing.CountOn(lists0, n - 1, s) + Assigned(f, servers, s, |lists0|) + Unplaced(f, lists0, servers, n, s, |lists0|)
  {
    var k := |lists0|;
    CountsExact(c, f, lists0, lists, servers, n, cap, x, s, k);
    assert lists[..k] == lists && lists0[..k] == lists0;
  }

  lemma SaturatedKeepsNone(f: Mutable, lists: seq<seq<nat>>, servers: nat, n: nat, s: nat)
    requires 0 < n && Saturated(f, servers, |lists|)
    ensures Keeping(f, lists, servers, n, s, |lists|) == {}
  {
    forall b: nat {:trigger Keeps(f, lists[b], servers, n, s, b)} | b < |lists|
      ensures !Keeps(f, lists[b], servers, n, s, b)
    {
      assert Cost(f, BucketVertex(servers, b), 1) == 1;
    }
  }

  /** What find_parity_mapping decodes is the placement of the flow. */
  lemma PlacedByFlow(c: Mutable, f: Mutable, lists0: seq<seq<nat>>, lists: seq<seq<nat>>, counts0: seq<nat>, counts: seq<nat>,
                     servers: nat, n: nat, cap: nat, x: int)
    requires FlowOk(c, f, lists0, servers, n, cap, x) && |counts0| == servers && HashRing.Counts(counts0, lists0, n - 1)
    requires lists == ListsAfter(lists0, f, servers, n, servers) && counts == CountsAfter(counts0, f, servers, |lists0|, servers)
    ensures Placed(f, lists0, lists, counts, servers, n, cap)
  {
    forall b: nat {:trigger lists[b]} | b < |lists|
      ensures ParityMoved(f, servers, n, b, lists0[b], lists[b])
    {
      MovedByFlow(c, f, lists0, servers, n, cap, x, b);
    }
    forall s: nat {:trigger counts[s]} | s < servers
      ensures CountOk(f, lists0, lists, counts[s], servers, n, cap, s)
      ensures Saturated(f, servers, |lists|) ==> counts[s] == |Holding(lists, n, s)|
    {
      assert counts0[s] == HashRing.CountOn(lists0, n - 1, s);
      CountByFlow(c, f, lists0, lists, servers, n, cap, x, s, counts0[s]);
      if Saturated(f, servers, |lists|) {
        SaturatedKeepsNone(f, lists0, servers, n, s);
      }
    }
  }

  /** The arcs of the network: from the source to server i what the average leaves beside its data, and nothing
      for a server without data; from server i to bucket b one unit unless data of b is on i; from every bucket
      to the sink one unit; and no other. */
  lemma NetworkArcs(c: Mutable, lists: seq<seq<nat>>, servers: nat, n: nat, average: nat)
    requires ListsOk(lists, servers, n) && IsNetwork(c, lists, servers, n, average)
    ensures |c| == 2 + servers + |lists|
    ensures forall i: nat {:trigger Cost(c, 0, 2 + i)} :: i < servers ==>
              var load := |Holding(lists, n - 1, i)|; Cost(c, 0, 2 + i) == if 0 < load < average then average - load else 0
    ensures forall i: nat, b: nat {:trigger Cost(c, 2 + i, 2 + servers + b)} :: i < servers && b < |lists| && n <= |lists[b]| ==>
              Cost(c, 2 + i, 2 + servers + b) == if i in lists[b][..n - 1] then 0 else 1
    ensures forall b: nat {:trigger Cost(c, 2 + servers + b, 1)} :: b < |lists| ==> Cost(c, 2 + servers + b, 1) == 1
    ensures forall v: nat, w: nat {:trigger Cost(c, v, w)} :: v < |c| && w < |c| && Cost(c, v, w) != 0 ==>
              (v == 0 && 2 <= w < 2 + servers) || (2 <= v < 2 + servers <= w) || (2 + servers <= v && w == 1)
  {
    forall i: nat | i < servers
      ensures DataLoad(lists, n, i) == |Holding(lists, n - 1, i)|
    {
      CountIsHolding(lists, n - 1, i);
    }
  }
}
