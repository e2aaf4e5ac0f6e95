/**
 From the ring to a repaired cluster: populate_hash_mapping with parity rebalancing, and chunk hits on the
 lists it leaves (CDNSimulator/src/cacheCluster.cpp).
 */
module ClusterPlacement {
  import opened Sequences
  import opened Finite
  import Sums
  import opened MaximumFlow
  import HashRing
  import ParityPlacement
  import ChunkRepair

  /** MAX_N_UNAVAIL. */
  const SPARE: nat := 2

  /** A list that chunk hits can be served from: n different servers and then the spare ones, all available. */
  ghost predicate Serves(list: seq<nat>, available: seq<bool>, n: nat) {
    && |list| == n + 2 && NoRepeats(list[..n])
    && forall j :: 0 <= j < |list| ==> list[j] < |available| && available[list[j]]
  }

  ghost predicate AllServe(lists: seq<seq<nat>>, available: seq<bool>, n: nat) {
    forall b: nat {:trigger lists[b]} :: b < |lists| ==> Serves(lists[b], available, n)
  }

  /** Lists as the ring gives them. */
  ghost predicate FromRing(lists: seq<seq<nat>>, available: seq<bool>, n: nat) {
    forall b: nat {:trigger lists[b]} :: b < |lists| ==>
      |lists[b]| == n + SPARE && NoRepeats(lists[b]) && forall j :: 0 <= j < |lists[b]| ==> lists[b][j] < |available| && available[lists[b][j]]
  }

  /** Whatever the flow, placing parity leaves a list that chunk hits can be served from, even where it makes a
      spare server repeat the parity server. */
  lemma ListAfterServes(c: Mutable, f: Mutable, lists: seq<seq<nat>>, n: nat, cap: int, x: int, available: seq<bool>, b: nat)
    requires FromRing(lists, available, n) && ParityPlacement.FlowOk(c, f, lists, |available|, n, cap, x) && b < |lists|
    ensures Serves(ParityPlacement.ListAfter(lists, f, |available|, n, b, |available|), available, n)
  {
    assert |lists[b]| == n + SPARE;
    forall y: nat, j: nat {:trigger lists[y][j]} | y < |lists| && j < |lists[y]|
      ensures available[lists[y][j]]
    {
      assert lists[y][j] < |available|;
    }
    ParityPlacement.PlacementOk(c, f, lists, |available|, n, cap, x, available, b);
    var list := ParityPlacement.ListAfter(lists, f, |available|, n, b, |available|);
    forall j | n <= j < |list|
      ensures list[j] < |available| && available[list[j]]
    {
      assert list[j] == lists[b][j] || list[j] == lists[b][j - 1];
    }
  }

  /** The parity server may also be the first spare one: a list with a repetition that is still served. */
  lemma ParityRepeats(list: seq<nat>, n: nat)
    requires 0 < n < |list|
    ensures var after := ParityPlacement.WithParity(list, n, list[n - 1]); after[n - 1] == after[n] && !NoRepeats(after)
  {
    var after := ParityPlacement.WithParity(list, n, list[n - 1]);
    assert after[n - 1] == after[n];
  }

  /** A chunk hit on a list that serves may be handed to _cache_hit_chunk_obj. */
  lemma ServesChunkHits(list: seq<nat>, available: seq<bool>, n: nat, held: seq<int>)
    requires Serves(list, available, n) && |held| == |available|
    ensures n <= |list| <= n + 2 && ChunkRepair.Mapped(list[..n], held) && ChunkRepair.InRange(list, held)
  {
  }

  ghost predicate NonNegative(c: Mutable) {
    forall v: nat, w: nat {:trigger Cost(c, v, w)} :: v < |c| && w < |c| ==> Cost(c, v, w) >= 0
  }

  /** f is an integral flow from vertex 0 to vertex 1. */
  ghost predicate Solved(c: Mutable, f: Mutable) {
    exists x: int {:trigger IsFlow(c, f, 0, 1, x)} :: IsFlow(c, f, 0, 1, x)
  }

  /** The solver returns an integral flow for every network. */
  ghost predicate Solves(solve: Mutable -> Mutable) {
    forall c: Mutable {:trigger solve(c)} :: |c| >= 2 && NonNegative(c) ==> Solved(c, solve(c))
  }

  /** The solver contract can be met: sending nothing is a flow. */
  lemma NothingSolves()
    ensures Solves((c: Mutable) => seq(|c|, _ => map[]))
  {
    var solve := (c: Mutable) => seq(|c|, _ => map[]);
    forall c: Mutable {:trigger solve(c)} | |c| >= 2 && NonNegative(c)
      ensures Solved(c, solve(c))
    {
      var f := solve(c);
      forall v: nat | v < |c|
        ensures NetOut(f, v) == 0
      {
        Sums.SumZero((w: nat) => Cost(f, v, w) - Cost(f, w, v), |f|);
      }
      assert IsFlow(c, f, 0, 1, 0);
    }
  }

  lemma RingListsOk(ring: HashRing.Ring, available: seq<bool>, hash: nat -> nat, lists: seq<seq<nat>>, n: nat)
    requires ring != [] && 0 < n && HashRing.BucketLists(ring, available, hash, n + SPARE, lists)
    ensures FromRing(lists, available, n) && ParityPlacement.ListsOk(lists, |available|, n)
  {
    forall b: nat {:trigger lists[b]} | b < |lists|
      ensures |lists[b]| == n + SPARE && NoRepeats(lists[b])
      ensures forall j :: 0 <= j < |lists[b]| ==> lists[b][j] < |available| && available[lists[b][j]]
    {
      HashRing.ListOk(ring, available, hash(b), n + SPARE, lists[b]);
    }
  }

  // ---------------------------------------------------------------------------
  // When placement aborts
  // ---------------------------------------------------------------------------

  /** The servers of the data chunks: the first n - 1 clockwise of the hash, if there are as many. */
  ghost function DataOf(ring: HashRing.Ring, available: seq<bool>, h: nat, n: nat): (data: seq<nat>)
    requires ring != [] && 0 < n
    ensures |data| <= n - 1
  {
    var order := HashRing.OrderOf(ring, available, h);
    if n - 1 <= |order| then order[..n - 1] else order
  }

  ghost predicate DataFrom(ring: HashRing.Ring, available: seq<bool>, h: nat, n: nat, s: nat)
    requires ring != [] && 0 < n
  {
    s in DataOf(ring, available, h, n)
  }

  /** Server s gets data of some bucket. */
  ghost predicate HasData(ring: HashRing.Ring, available: seq<bool>, hash: nat -> nat, buckets: nat, n: nat, s: nat)
    requires ring != [] && 0 < n
  {
    exists b: nat {:trigger DataFrom(ring, available, hash(b), n, s)} :: b < buckets && DataFrom(ring, available, hash(b), n, s)
  }

  /** No available server goes without data. */
  ghost predicate AllUsed(ring: HashRing.Ring, available: seq<bool>, hash: nat -> nat, buckets: nat, n: nat)
    requires ring != [] && 0 < n
  {
    forall s: nat {:trigger HasData(ring, available, hash, buckets, n, s)} ::
      s < |available| && available[s] ==> HasData(ring, available, hash, buckets, n, s)
  }

  lemma {:induction false} LoadSome(lists: seq<seq<nat>>, end: nat, s: nat)
    ensures HashRing.CountOn(lists, end, s) > 0 <==> exists b: nat :: b < |lists| && end <= |lists[b]| && s in lists[b][..end]
    decreases |lists|
  {
    if lists != [] {
      var rest := lists[..|lists| - 1];
      LoadSome(rest, end, s);
      assert forall b: nat :: b < |rest| ==> rest[b] == lists[b];
    }
  }

  /** The servers with data are those that the ring gives data. */
  lemma UnusedOnRing(ring: HashRing.Ring, available: seq<bool>, hash: nat -> nat, lists: seq<seq<nat>>, n: nat, s: nat)
    requires ring != [] && 0 < n && HashRing.BucketLists(ring, available, hash, n + SPARE, lists)
    ensures ParityPlacement.DataLoad(lists, n, s) > 0 <==> HasData(ring, available, hash, |lists|, n, s)
  {
    LoadSome(lists, n - 1, s);
    forall b: nat | b < |lists|
      ensures n - 1 <= |lists[b]| && (s in lists[b][..n - 1] <==> DataFrom(ring, available, hash(b), n, s))
    {
      assert HashRing.BucketList(ring, available, hash(b), n + SPARE, lists[b]);
      assert lists[b][..n - 1] == HashRing.OrderOf(ring, available, hash(b))[..n - 1];
    }
  }

  lemma UsedOnRing(ring: HashRing.Ring, available: seq<bool>, hash: nat -> nat, lists: seq<seq<nat>>, n: nat)
    requires ring != [] && 0 < n && HashRing.BucketLists(ring, available, hash, n + SPARE, lists)
    ensures AllUsed(ring, available, hash, |lists|, n) <==> forall s: nat :: !ParityPlacement.Unused(lists, available, n, s)
  {
    forall s: nat
      ensures ParityPlacement.DataLoad(lists, n, s) > 0 <==> HasData(ring, available, hash, |lists|, n, s)
    {
      UnusedOnRing(ring, available, hash, lists, n, s);
    }
    if AllUsed(ring, available, hash, |lists|, n) {
      forall s: nat
        ensures !ParityPlacement.Unused(lists, available, n, s)
      {
        assert s < |available| && available[s] ==> HasData(ring, available, hash, |lists|, n, s);
      }
    } else {
      var s: nat :| s < |available| && available[s] && !HasData(ring, available, hash, |lists|, n, s);
      assert ParityPlacement.Unused(lists, available, n, s);
    }
  }

  lemma {:induction false} ElementsCard(s: seq<nat>)
    ensures |ChunkRepair.Elements(s)| <= |s|
    decreases |s|
  {
    if s != [] {
      var front, x := s[..|s| - 1], s[|s| - 1];
      ElementsCard(front);
      assert s == front + [x];
      assert ChunkRepair.Elements(s) == ChunkRepair.Elements(front) + {x};
    }
  }

  ghost function Union(parts: seq<seq<nat>>): set<nat> {
    if parts == [] then {} else Union(parts[..|parts| - 1]) + ChunkRepair.Elements(parts[|parts| - 1])
  }

  lemma {:induction false} UnionHas(parts: seq<seq<nat>>, b: nat, s: nat)
    requires b < |parts| && s in parts[b]
    ensures s in Union(parts)
    decreases |parts|
  {
    if b < |parts| - 1 {
      UnionHas(parts[..|parts| - 1], b, s);
    } else {
      ChunkRepair.ElementsHas(parts[b], s);
    }
  }

  ghost predicate AtMost(parts: seq<seq<nat>>, m: nat) {
    forall b: nat {:trigger parts[b]} :: b < |parts| ==> |parts[b]| <= m
  }

  lemma {:induction false} UnionCard(parts: seq<seq<nat>>, k: nat, m: nat)
    requires AtMost(parts, m) && |parts| == k
    ensures |Union(parts)| <= k * m
    decreases |parts|
  {
    if parts != [] {
      var front, last := parts[..|parts| - 1], parts[|parts| - 1];
      UnionCard(front, k - 1, m);
      ElementsCard(last);
      TwoCards(Union(front), ChunkRepair.Elements(last));
      OneMore(k - 1, m);
    }
  }

  lemma TwoCards(a: set<nat>, b: set<nat>)
    ensures |a + b| <= |a| + |b|
  {
    assert |a + b| + |a * b| == |a| + |b|;
  }

  lemma OneMore(k: nat, m: nat)
    ensures (k + 1) * m == k * m + m
  {
  }

  /** The data servers of each bucket. */
  ghost function DataLists(ring: HashRing.Ring, available: seq<bool>, hash: nat -> nat, buckets: nat, n: nat): (parts: seq<seq<nat>>)
    requires ring != [] && 0 < n
    ensures |parts| == buckets
    ensures forall b: nat {:trigger parts[b]} :: b < buckets ==> parts[b] == DataOf(ring, available, hash(b), n)
  {
    if buckets == 0 then [] else DataLists(ring, available, hash, buckets - 1, n) + [DataOf(ring, available, hash(buckets - 1), n)]
  }

  lemma DataInUnion(ring: HashRing.Ring, available: seq<bool>, hash: nat -> nat, buckets: nat, n: nat, s: nat)
    requires ring != [] && 0 < n && HasData(ring, available, hash, buckets, n, s)
    ensures s in Union(DataLists(ring, available, hash, buckets, n))
  {
    var b: nat :| b < buckets && DataFrom(ring, available, hash(b), n, s);
    UnionHas(DataLists(ring, available, hash, buckets, n), b, s);
  }

  lemma DataAtMost(ring: HashRing.Ring, available: seq<bool>, hash: nat -> nat, buckets: nat, n: nat)
    requires ring != [] && 0 < n
    ensures AtMost(DataLists(ring, available, hash, buckets, n), n - 1)
  {
    var parts := DataLists(ring, available, hash, buckets, n);
    forall b: nat {:trigger parts[b]} | b < |parts| ensures |parts[b]| <= n - 1 {
      assert parts[b] == DataOf(ring, available, hash(b), n);
    }
  }

  lemma UsedInUnion(ring: HashRing.Ring, available: seq<bool>, hash: nat -> nat, buckets: nat, n: nat)
    requires ring != [] && 0 < n && AllUsed(ring, available, hash, buckets, n)
    ensures |HashRing.Available(available)| <= |Union(DataLists(ring, available, hash, buckets, n))|
  {
    var all, used := HashRing.Available(available), Union(DataLists(ring, available, hash, buckets, n));
    forall s | s in all
      ensures s in used
    {
      DataInUnion(ring, available, hash, buckets, n, s);
    }
    SubsetCard(all, used);
  }

  /** With more available servers than places for data one of them has none. */
  lemma MoreServersThanData(ring: HashRing.Ring, available: seq<bool>, hash: nat -> nat, buckets: nat, n: nat)
    requires ring != [] && 0 < n && |HashRing.Available(available)| > buckets * (n - 1)
    ensures !AllUsed(ring, available, hash, buckets, n)
  {
    var parts, m: nat := DataLists(ring, available, hash, buckets, n), n - 1;
    DataAtMost(ring, available, hash, buckets, n);
    UnionCard(parts, buckets, m);
    if AllUsed(ring, available, hash, buckets, n) {
      UsedInUnion(ring, available, hash, buckets, n);
    }
  }

  /** n servers with one virtual node each. */
  function PlainRing(servers: nat): HashRing.Ring {
    seq(servers, i requires 0 <= i < servers => HashRing.Vnode(i, i))
  }

  /** With 201 available servers and n = 3 every bucket of the 100 finds its servers, whatever the hash, and
      still the assertion fails. */
  lemma AssertionFails(hash: nat -> nat)
    ensures var available := seq<bool>(201, _ => true);
            HashRing.Enough(PlainRing(201), available, hash, 3 + SPARE, 100) && !AllUsed(PlainRing(201), available, hash, 100, 3)
  {
    var ring, available := PlainRing(201), seq<bool>(201, _ => true);
    AllAvailable(201);
    MoreServersThanData(ring, available, hash, 100, 3);
    forall b: nat | b < 100
      ensures 5 <= |HashRing.OrderOf(ring, available, hash(b))|
    {
      OrderHasAll(ring, available, hash(b));
    }
  }

  lemma AllAvailable(servers: nat)
    ensures var available := seq<bool>(servers, _ => true);
            |HashRing.Available(available)| == servers &&
            forall x :: x in HashRing.Available(available) ==> HashRing.OnRing(PlainRing(servers), x)
  {
    var available, ring := seq<bool>(servers, _ => true), PlainRing(servers);
    assert HashRing.Available(available) == Range(servers);
    forall x | x in HashRing.Available(available)
      ensures HashRing.OnRing(ring, x)
    {
      assert ring[x].server == x;
    }
  }

  /** When the available servers are all on the ring, every bucket finds as many as there are. */
  lemma OrderHasAll(ring: HashRing.Ring, available: seq<bool>, h: nat)
    requires ring != [] && forall x :: x in HashRing.Available(available) ==> HashRing.OnRing(ring, x)
    ensures |HashRing.OrderOf(ring, available, h)| == |HashRing.Available(available)|
  {
    HashRing.SuccessorExists(ring, h);
    var start: nat :| start < |ring| && HashRing.IsSuccessor(ring, h, start);
    HashRing.OrderIs(ring, available, h, start);
    HashRing.ClockwiseHasAll(ring, start, HashRing.Available(available));
  }

  // ---------------------------------------------------------------------------
  // Placing parity
  // ---------------------------------------------------------------------------

  lemma AvailableNext(available: seq<bool>, s: nat)
    requires s < |available|
    ensures |HashRing.Available(available[..s + 1])| == |HashRing.Available(available[..s])| + if available[s] then 1 else 0
  {
    var before, after := available[..s], available[..s + 1];
    assert after[s] == available[s] && forall x :: 0 <= x < s ==> after[x] == before[x];
    assert HashRing.Available(after) == if available[s] then HashRing.Available(before) + {s} else HashRing.Available(before);
  }

  /** n_avail_server. */
  method CountAvailable(available: seq<bool>) returns (count: nat)
    ensures count == |HashRing.Available(available)|
  {
    count := 0;
    assert HashRing.Available(available[..0]) == {};
    for s := 0 to |available|
      invariant count == |HashRing.Available(available[..s])|
    {
      AvailableNext(available, s);
      count := count + if available[s] then 1 else 0;
    }
    assert available[..|available|] == available;
  }

  lemma NetworkNonNegative(c: Mutable, lists: seq<seq<nat>>, servers: nat, n: nat, cap: int)
    requires ParityPlacement.ListsOk(lists, servers, n) && ParityPlacement.IsNetwork(c, lists, servers, n, cap)
    ensures NonNegative(c)
  {
  }

  /** c is a / b, rounded up. */
  ghost predicate RoundedUp(c: nat, a: nat, b: nat) {
    b > 0 && a <= c * b < a + b
  }

  /** The parity half of populate_hash_mapping, which is find_parity_mapping; not ok when its assertion fails. */
  method PlaceParity(lists0: seq<seq<nat>>, counts0: seq<nat>, available: seq<bool>, n: nat, solve: Mutable -> Mutable)
    returns (ok: bool, lists: seq<seq<nat>>, counts: seq<nat>, ghost c: Mutable, ghost average: nat)
    requires FromRing(lists0, available, n) && ParityPlacement.ListsOk(lists0, |available|, n) && lists0 != [] && Solves(solve)
    requires |counts0| == |available| && HashRing.Counts(counts0, lists0, n - 1)
    ensures ok <==> forall s: nat :: !ParityPlacement.Unused(lists0, available, n, s)
    ensures RoundedUp(average, |lists0| * n, |HashRing.Available(available)|)
    ensures ok ==> ParityPlacement.IsNetwork(c, lists0, |available|, n, average) && AllServe(lists, available, n)
    ensures ok ==> ParityPlacement.Placed(solve(c), lists0, lists, counts, |available|, n, average)
  {
    var servers := |available|;
    var count := CountAvailable(available);
    assert |lists0[0]| == n + SPARE;
    assert lists0[0][0] in HashRing.Available(available);
    var network, cap;
    ok, network, cap := ParityPlacement.BuildNetwork(lists0, available, n, count);
    c, average := network, cap;
    if !ok {
      return false, lists0, counts0, c, average;
    }
    NetworkNonNegative(c, lists0, servers, n, cap);
    var f := solve(network);
    ghost var x: int :| IsFlow(c, f, 0, 1, x);
    lists, counts := ParityPlacement.FindParityMapping(f, lists0, counts0, servers, n, c, cap, x);
    ParityPlacement.PlacedByFlow(c, f, lists0, lists, counts0, counts, servers, n, cap, x);
    forall b: nat {:trigger lists[b]} | b < |lists|
      ensures Serves(lists[b], available, n)
    {
      ListAfterServes(c, f, lists0, n, cap, x, available, b);
    }
  }

  /** Placement neither runs out of servers for a bucket nor leaves an available server without data. */
  ghost predicate Places(ring: HashRing.Ring, available: seq<bool>, hash: nat -> nat, buckets: nat, n: nat)
    requires ring != [] && 0 < n
  {
    HashRing.Enough(ring, available, hash, n + SPARE, buckets) && AllUsed(ring, available, hash, buckets, n)
  }

  /** populate_hash_mapping with parity rebalancing: every bucket gets a list that chunk hits can be served from,
      with its data on the first available servers clockwise of its hash and its parity where the flow through
      the network says. It aborts exactly when a bucket finds too few servers
      or, by an assertion, when an available server has no data. */
  method PopulateHashMapping(ring: HashRing.Ring, available: seq<bool>, hash: nat -> nat, buckets: nat, n: nat, solve: Mutable -> Mutable)
    returns (ok: bool, lists: seq<seq<nat>>, counts: seq<nat>, ghost lists0: seq<seq<nat>>, ghost c: Mutable, ghost average: nat)
    requires ring != [] && HashRing.Sorted(ring) && HashRing.ServersBelow(ring, |available|) && 0 < n && 0 < buckets && Solves(solve)
    ensures ok <==> Places(ring, available, hash, buckets, n)
    ensures ok ==> |lists0| == buckets && HashRing.BucketLists(ring, available, hash, n + 2, lists0)
    ensures ok ==> ParityPlacement.ListsOk(lists0, |available|, n) && RoundedUp(average, buckets * n, |HashRing.Available(available)|)
    ensures ok ==> ParityPlacement.IsNetwork(c, lists0, |available|, n, average) && AllServe(lists, available, n)
    ensures ok ==> ParityPlacement.Placed(solve(c), lists0, lists, counts, |available|, n, average)
  {
    var placed, data, dataCounts := HashRing.PopulateHashMapping(ring, available, hash, buckets, n, SPARE, n - 1);
    lists0 := data;
    if !placed {
      return false, data, dataCounts, data, [], 0;
    }
    RingListsOk(ring, available, hash, data, n);
    UsedOnRing(ring, available, hash, data, n);
    ok, lists, counts, c, average := PlaceParity(data, dataCounts, available, n, solve);
  }

  /** From ring and availability to a repaired cluster: the buckets are placed unless placement aborts, and then
      any chunk hit on any bucket leaves the chunks 0 to n - 1 on its n mapped servers, once each. */
  method PlaceAndServe(ring: HashRing.Ring, available: seq<bool>, hash: nat -> nat, buckets: nat, n: nat, k: nat, solve: Mutable -> Mutable,
                       cluster: ChunkRepair.Cluster, bucket: nat, probing: bool, prev: seq<nat>)
    returns (ok: bool, lists: seq<seq<nat>>, hit: bool, inRange: bool)
    requires ring != [] && HashRing.Sorted(ring) && HashRing.ServersBelow(ring, |available|) && Solves(solve)
    requires 0 < k <= n && bucket < buckets && cluster.nMiss.Length == n && cluster.held.Length == |available|
    requires ChunkRepair.IdsBelow(cluster.held[..], n) && |prev| <= 1 && ChunkRepair.InRange(prev, cluster.held[..])
    modifies cluster.held, cluster.nMiss
    ensures ok <==> Places(ring, available, hash, buckets, n)
    ensures ok ==> |lists| == buckets && Serves(lists[bucket], available, n)
    ensures ok ==> (hit <==> exists q :: 0 <= q < n && old(cluster.held[..])[lists[bucket][q]] >= 0)
    ensures ok && hit ==> ChunkRepair.Complete(cluster.held[..], lists[bucket][..n])
    ensures ok && hit ==> (inRange <==> !ChunkRepair.Overcounts(old(cluster.held[..]), lists[bucket], n, k, probing, true))
    ensures ok && hit && k < n ==> inRange
  {
    var counts;
    ghost var lists0, c, average;
    hit, inRange := false, false;
    ok, lists, counts, lists0, c, average := PopulateHashMapping(ring, available, hash, buckets, n, solve);
    if ok {
      var list := lists[bucket];
      ServesChunkHits(list, available, n, cluster.held[..]);
      hit := AnyChunk(cluster, list, n);
      if hit {
        var hits;
        hits, inRange := cluster.CacheHitChunk(list, n, k, probing, true, prev);
      }
    }
  }

  /** Whether one of the mapped servers holds a chunk. */
  method AnyChunk(cluster: ChunkRepair.Cluster, list: seq<nat>, n: nat) returns (hit: bool)
    requires n <= |list| && ChunkRepair.InRange(list, cluster.held[..])
    ensures hit <==> exists q :: 0 <= q < n && cluster.held[list[q]] >= 0
  {
    hit := false;
    for q := 0 to n
      invariant hit <==> exists p :: 0 <= p < q && cluster.held[list[p]] >= 0
    {
      if cluster.held[list[q]] >= 0 {
        hit := true;
      }
    }
  }
}
