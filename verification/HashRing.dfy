/**
 Consistent hashing (CDNSimulator/src/consistentHash.cpp) and the placement of buckets on servers that
 CDNSimulator/src/cacheCluster.cpp builds from it.
 */
module HashRing {
  import opened Sequences

  datatype Vnode = Vnode(point: nat, server: nat)

  type Ring = seq<Vnode>

  ghost predicate Sorted(ring: Ring) {
    forall i, j :: 0 <= i < j < |ring| ==> ring[i].point <= ring[j].point
  }

  /** idx is the first virtual node at or after h, or 0 when all are before it. */
  ghost predicate IsSuccessor(ring: Ring, h: nat, idx: nat) {
    || (idx < |ring| && ring[idx].point >= h && forall j :: 0 <= j < idx ==> ring[j].point < h)
    || (idx == 0 && forall j :: 0 <= j < |ring| ==> ring[j].point < h)
  }

  /** ch_ring_get_vnode_idx, after hashing the key. */
  method VnodeIdx(ring: Ring, h: nat) returns (idx: nat)
    requires ring != [] && Sorted(ring)
    ensures IsSuccessor(ring, h, idx) && idx < |ring|
  {
    var low, high: int := 0, |ring|;
    while true
      invariant 0 <= low <= high <= |ring| && (high < |ring| ==> ring[high].point >= h)
      invariant forall j :: 0 <= j < low ==> ring[j].point < h
      decreases high - low
    {
      var mid := (low + high) / 2;
      if mid == |ring| {
        return 0;
      }
      var value := ring[mid].point;
      var before := if mid == 0 then 0 else ring[mid - 1].point;
      if h <= value && h > before {
        return mid;
      }
      if h > value {
        low := mid + 1;
      } else {
        high := mid - 1;
      }
      if low > high {
        return 0;
      }
    }
  }

  /** The virtual node found is unique up to the choice of 0 for wrapping. */
  lemma SuccessorUnique(ring: Ring, h: nat, a: nat, b: nat)
    requires ring != [] && IsSuccessor(ring, h, a) && IsSuccessor(ring, h, b)
    ensures a == b
  {
  }

  lemma SuccessorExists(ring: Ring, h: nat)
    requires ring != []
    ensures exists idx: nat {:trigger IsSuccessor(ring, h, idx)} :: idx < |ring| && IsSuccessor(ring, h, idx)
  {
    var idx: nat := 0;
    while idx < |ring| && ring[idx].point < h
      invariant idx <= |ring| && forall j :: 0 <= j < idx ==> ring[j].point < h
    {
      idx := idx + 1;
    }
    assert IsSuccessor(ring, h, if idx == |ring| then 0 else idx);
  }

  // ---------------------------------------------------------------------------
  // Clockwise order
  // ---------------------------------------------------------------------------

  /** The servers of the virtual nodes from start on, once around. */
  function Around(ring: Ring, start: nat): (s: seq<nat>)
    ensures |s| == |ring|
  {
    seq<nat>(|ring|, i requires 0 <= i < |ring| => ring[(start + i) % |ring|].server)
  }

  /** The elements of s in the order in which they occur first. */
  ghost function FirstSeen(s: seq<nat>): seq<nat> {
    if s == [] then []
    else
      var f, x := FirstSeen(s[..|s| - 1]), s[|s| - 1];
      if x in f then f else f + [x]
  }

  ghost function Keep(s: seq<nat>, ok: set<nat>): seq<nat> {
    if s == [] then []
    else Keep(s[..|s| - 1], ok) + if s[|s| - 1] in ok then [s[|s| - 1]] else []
  }

  lemma FirstSeenPush(s: seq<nat>, x: nat)
    ensures FirstSeen(s + [x]) == if x in FirstSeen(s) then FirstSeen(s) else FirstSeen(s) + [x]
  {
    assert (s + [x])[..|s|] == s;
  }

  lemma KeepPush(s: seq<nat>, x: nat, ok: set<nat>)
    ensures Keep(s + [x], ok) == Keep(s, ok) + if x in ok then [x] else []
  {
    assert (s + [x])[..|s|] == s;
  }

  lemma {:induction false} FirstSeenHas(s: seq<nat>, x: nat)
    ensures x in FirstSeen(s) <==> x in s
    decreases |s|
  {
    if s != [] {
      FirstSeenHas(s[..|s| - 1], x);
      assert s == s[..|s| - 1] + [s[|s| - 1]];
    }
  }

  lemma {:induction false} FirstSeenNoRepeats(s: seq<nat>)
    ensures NoRepeats(FirstSeen(s))
    decreases |s|
  {
    if s != [] {
      FirstSeenNoRepeats(s[..|s| - 1]);
    }
  }

  lemma {:induction false} KeepHas(s: seq<nat>, ok: set<nat>, x: nat)
    ensures x in Keep(s, ok) <==> x in s && x in ok
    decreases |s|
  {
    if s != [] {
      KeepHas(s[..|s| - 1], ok, x);
      assert s == s[..|s| - 1] + [s[|s| - 1]];
    }
  }

  lemma {:induction false} KeepNoRepeats(s: seq<nat>, ok: set<nat>)
    requires NoRepeats(s)
    ensures NoRepeats(Keep(s, ok))
    decreases |s|
  {
    if s != [] {
      var rest, x := s[..|s| - 1], s[|s| - 1];
      KeepNoRepeats(rest, ok);
      KeepHas(rest, ok, x);
    }
  }

  /** The available servers in clockwise order from start. */
  ghost function Clockwise(ring: Ring, start: nat, ok: set<nat>): seq<nat> {
    Keep(FirstSeen(Around(ring, start)), ok)
  }

  lemma ClockwiseHas(ring: Ring, start: nat, ok: set<nat>, x: nat)
    ensures x in Clockwise(ring, start, ok) <==> x in Around(ring, start) && x in ok
    ensures NoRepeats(Clockwise(ring, start, ok))
  {
    KeepHas(FirstSeen(Around(ring, start)), ok, x);
    FirstSeenHas(Around(ring, start), x);
    FirstSeenNoRepeats(Around(ring, start));
    KeepNoRepeats(FirstSeen(Around(ring, start)), ok);
  }

  /** The server of the virtual node e steps clockwise of start. */
  function Passed(ring: Ring, start: nat, e: nat): nat
    requires ring != []
  {
    ring[(start + e) % |ring|].server
  }

  /** The first virtual node of server x is d steps clockwise of start. */
  ghost predicate FirstAfter(ring: Ring, start: nat, x: nat, d: nat)
    requires ring != []
  {
    d < |ring| && Passed(ring, start, d) == x && forall e: nat {:trigger Passed(ring, start, e)} :: e < d ==> Passed(ring, start, e) != x
  }

  lemma {:induction false} FirstSeenInOrder(s: seq<nat>, i: nat) returns (d: nat)
    requires i < |FirstSeen(s)|
    ensures d < |s| && s[d] == FirstSeen(s)[i] && s[d] !in s[..d] && FirstSeen(s)[..i] == FirstSeen(s[..d])
    decreases |s|
  {
    var front := s[..|s| - 1];
    if i < |FirstSeen(front)| {
      d := FirstSeenInOrder(front, i);
      assert front[..d] == s[..d];
      assert FirstSeen(s)[..i] == FirstSeen(front)[..i];
    } else {
      d := |s| - 1;
      FirstSeenHas(front, s[d]);
      assert FirstSeen(s)[..i] == FirstSeen(front);
    }
  }

  /** Servers seen earlier come earlier. */
  lemma FirstSeenApart(s: seq<nat>, i: nat, j: nat) returns (d: nat, e: nat)
    requires i < j < |FirstSeen(s)|
    ensures d < e < |s| && s[d] == FirstSeen(s)[i] && s[d] !in s[..d] && s[e] == FirstSeen(s)[j] && s[e] !in s[..e]
  {
    d := FirstSeenInOrder(s, i);
    e := FirstSeenInOrder(s, j);
    FirstSeenNoRepeats(s);
    assert FirstSeen(s)[..j][i] == FirstSeen(s)[i];
    FirstSeenHas(s[..e], s[d]);
    assert s[d] in s[..e];
  }

  /** Keeping some elements does not change their order. */
  lemma {:induction false} KeepInOrder(s: seq<nat>, ok: set<nat>, i: nat) returns (a: nat)
    requires i < |Keep(s, ok)|
    ensures a < |s| && s[a] == Keep(s, ok)[i] && |Keep(s[..a], ok)| == i
    decreases |s|
  {
    var front := s[..|s| - 1];
    if i < |Keep(front, ok)| {
      a := KeepInOrder(front, ok, i);
      assert front[..a] == s[..a];
    } else {
      a := |s| - 1;
    }
  }

  lemma {:induction false} KeepGrows(s: seq<nat>, ok: set<nat>, a: nat)
    requires a <= |s|
    ensures |Keep(s[..a], ok)| <= |Keep(s, ok)|
    decreases |s|
  {
    if a < |s| {
      var front := s[..|s| - 1];
      assert front[..a] == s[..a];
      KeepGrows(front, ok, a);
    } else {
      assert s[..a] == s;
    }
  }

  /** The clockwise order is by distance: of two servers in it the one whose first virtual node is met earlier on
      the way from start comes first. */
  lemma ClockwiseByDistance(ring: Ring, start: nat, ok: set<nat>, i: nat, j: nat) returns (d: nat, e: nat)
    requires start < |ring| && i < j < |Clockwise(ring, start, ok)|
    ensures var order := Clockwise(ring, start, ok);
            d < e && FirstAfter(ring, start, order[i], d) && FirstAfter(ring, start, order[j], e)
  {
    var around := Around(ring, start);
    var seen := FirstSeen(around);
    var a := KeepInOrder(seen, ok, i);
    var b := KeepInOrder(seen, ok, j);
    if b <= a {
      assert seen[..a][..b] == seen[..b];
      KeepGrows(seen[..a], ok, b);
    }
    d, e := FirstSeenApart(around, a, b);
    AroundFirst(ring, start, d);
    AroundFirst(ring, start, e);
  }

  lemma AroundAt(ring: Ring, start: nat, e: nat)
    requires e < |ring|
    ensures Around(ring, start)[e] == Passed(ring, start, e)
  {
  }

  lemma AroundFirst(ring: Ring, start: nat, d: nat)
    requires start < |ring| && d < |ring| && Around(ring, start)[d] !in Around(ring, start)[..d]
    ensures FirstAfter(ring, start, Around(ring, start)[d], d)
  {
    var around := Around(ring, start);
    AroundAt(ring, start, d);
    forall e: nat {:trigger Passed(ring, start, e)} | e < d
      ensures Passed(ring, start, e) != around[d]
    {
      AroundAt(ring, start, e);
      assert around[..d][e] == around[e];
    }
  }

  /** What has been picked after some virtual nodes is the beginning of what all of them give. */
  lemma {:induction false} PickedSoFar(s: seq<nat>, ok: set<nat>, n: nat)
    requires n <= |s|
    ensures Keep(FirstSeen(s[..n]), ok) <= Keep(FirstSeen(s), ok)
    decreases |s|
  {
    if n == |s| {
      assert s[..n] == s;
    } else {
      var rest := s[..|s| - 1];
      PickedSoFar(rest, ok, n);
      assert rest[..n] == s[..n];
      KeepPush(FirstSeen(rest), s[|s| - 1], ok);
    }
  }

  // ---------------------------------------------------------------------------
  // ch_ring_get_servers
  // ---------------------------------------------------------------------------

  /** The servers that have capacity left. */
  ghost function Free(capacity: seq<nat>): set<nat> {
    set x: nat | x < |capacity| && capacity[x] > 0
  }

  /** The capacities after one bucket has been put on each of the picked servers. */
  ghost function Used(capacity: seq<nat>, picked: seq<nat>): seq<nat> {
    seq(|capacity|, x requires 0 <= x < |capacity| => if x in picked && capacity[x] > 0 then capacity[x] - 1 else capacity[x])
  }

  ghost predicate ServersBelow(ring: Ring, n: nat) {
    forall i :: 0 <= i < |ring| ==> ring[i].server < n
  }

  /** The state of the selection loop after pos virtual nodes. */
  ghost predicate Selecting(around: seq<nat>, ok: set<nat>, pos: nat, checked: seq<bool>, picked: seq<nat>) {
    && pos <= |around| && picked == Keep(FirstSeen(around[..pos]), ok)
    && forall x: nat {:trigger checked[x]} :: x < |checked| ==> (checked[x] <==> x in FirstSeen(around[..pos]))
  }

  lemma SelectingNext(around: seq<nat>, ok: set<nat>, pos: nat, checked: seq<bool>, picked: seq<nat>)
    requires Selecting(around, ok, pos, checked, picked) && pos < |around| && around[pos] < |checked|
    ensures var x := around[pos];
            Selecting(around, ok, pos + 1, checked[x := true], if !checked[x] && x in ok then picked + [x] else picked)
  {
    var x := around[pos];
    assert around[..pos + 1] == around[..pos] + [x];
    FirstSeenPush(around[..pos], x);
    KeepPush(FirstSeen(around[..pos]), x, ok);
  }

  /** One virtual node of the selection loop. */
  method Consider(x: nat, checked: seq<bool>, picked: seq<nat>, capacity: seq<nat>) returns (picked': seq<nat>, capacity': seq<nat>)
    requires x < |checked| == |capacity|
    ensures if !checked[x] && capacity[x] > 0 then picked' == picked + [x] && capacity' == capacity[x := capacity[x] - 1]
            else picked' == picked && capacity' == capacity
  {
    picked', capacity' := picked, capacity;
    if !checked[x] {
      if capacity[x] > 0 {
        picked' := picked + [x];
        capacity' := capacity[x := capacity[x] - 1];
      }
    }
  }

  lemma UsedNext(capacity0: seq<nat>, capacity: seq<nat>, picked: seq<nat>, x: nat)
    requires capacity == Used(capacity0, picked) && x < |capacity0| && x !in picked && capacity[x] > 0
    ensures capacity[x := capacity[x] - 1] == Used(capacity0, picked + [x])
  {
  }

  /** One round of the selection loop: nothing changes once the walk is around. */
  method OneVnode(ring: Ring, start: nat, pos: nat, checked: seq<bool>, picked: seq<nat>, capacity: seq<nat>, ghost capacity0: seq<nat>)
    returns (checked': seq<bool>, picked': seq<nat>, capacity': seq<nat>)
    requires start < |ring| && ServersBelow(ring, |capacity0|) && |checked| == |capacity0| && capacity == Used(capacity0, picked)
    requires Selecting(Around(ring, start), Free(capacity0), pos, checked, picked)
    ensures |checked'| == |checked| && capacity' == Used(capacity0, picked') && |picked'| <= |picked| + 1
    ensures Selecting(Around(ring, start), Free(capacity0), if pos < |ring| then pos + 1 else pos, checked', picked')
    ensures pos == |ring| ==> picked' == picked
  {
    var x := ring[(start + pos) % |ring|].server;
    ghost var around, free := Around(ring, start), Free(capacity0);
    if pos < |ring| {
      assert x == around[pos];
      SelectingNext(around, free, pos, checked, picked);
      UnpickedHasAll(around, free, pos, checked, picked, capacity0, x);
    } else {
      OnceAround(ring, start, free, pos, checked, picked);
    }
    if !checked[x] && capacity[x] > 0 {
      UsedNext(capacity0, capacity, picked, x);
    }
    picked', capacity' := Consider(x, checked, picked, capacity);
    checked' := checked[x := true];
  }

  /** ch_ring_get_servers with capacities, from the virtual node found for the key: the first n servers
      with capacity left, in clockwise order; false stands for the call of abort. */
  method GetServers(ring: Ring, start: nat, n: nat, capacity0: seq<nat>) returns (ok: bool, picked: seq<nat>, capacity: seq<nat>)
    requires start < |ring| && ServersBelow(ring, |capacity0|)
    ensures ok <==> n <= |Clockwise(ring, start, Free(capacity0))|
    ensures ok ==> picked == Clockwise(ring, start, Free(capacity0))[..n] && capacity == Used(capacity0, picked)
  {
    ghost var around, free := Around(ring, start), Free(capacity0);
    var checked := seq(|capacity0|, _ => false);
    picked, capacity := [], capacity0;
    var pos: nat := 0;
    assert around[..0] == [];
    while |picked| < n
      invariant Selecting(around, free, pos, checked, picked) && |checked| == |capacity0| && |picked| <= n
      invariant capacity == Used(capacity0, picked)
      decreases |ring| - pos
    {
      checked, picked, capacity := OneVnode(ring, start, pos, checked, picked, capacity, capacity0);
      pos := pos + 1;
      if pos > |ring| {
        assert around[..|ring|] == around;
        return false, picked, capacity;
      }
    }
    PickedSoFar(around, free, pos);
    return true, picked, capacity;
  }

  /** A server that has not been checked has not been picked, so its capacity is untouched. */
  lemma UnpickedHasAll(around: seq<nat>, ok: set<nat>, pos: nat, checked: seq<bool>, picked: seq<nat>, capacity0: seq<nat>, x: nat)
    requires Selecting(around, ok, pos, checked, picked) && x < |checked| == |capacity0| && ok == Free(capacity0)
    ensures !checked[x] ==> x !in picked && Used(capacity0, picked)[x] == capacity0[x]
  {
    KeepHas(FirstSeen(around[..pos]), ok, x);
  }

  /** Once around, the next virtual node is one that has been checked. */
  lemma OnceAround(ring: Ring, start: nat, ok: set<nat>, pos: nat, checked: seq<bool>, picked: seq<nat>)
    requires start < |ring| && pos == |ring| && Selecting(Around(ring, start), ok, pos, checked, picked)
    requires ring[(start + pos) % |ring|].server < |checked|
    ensures checked[ring[(start + pos) % |ring|].server]
  {
    var around, x := Around(ring, start), ring[(start + pos) % |ring|].server;
    FullTurn(start, |ring|);
    assert around[0] == x && around[..pos] == around;
    FirstSeenHas(around, x);
  }

  lemma FullTurn(a: nat, n: nat)
    requires a < n
    ensures (a + n) % n == a == a % n
  {
    Quotient(a + n, n, 1, a);
    Quotient(a, n, 0, a);
  }

  lemma Quotient(x: nat, n: nat, q: nat, r: nat)
    requires n > 0 && r < n && x == q * n + r
    ensures x / n == q && x % n == r
  {
    var q' := x / n;
    assert x == q' * n + x % n;
    if q' > q {
      Multiples(q + 1, q', n);
    } else if q' < q {
      Multiples(q' + 1, q, n);
    }
  }

  lemma Multiples(a: nat, b: nat, n: nat)
    requires a <= b
    ensures a * n <= b * n && (a + 1) * n == a * n + n
  {
  }

  // ---------------------------------------------------------------------------
  // Enough servers
  // ---------------------------------------------------------------------------

  /** Every virtual node is passed, wherever the walk starts. */
  lemma AroundHas(ring: Ring, start: nat, i: nat)
    requires start < |ring| && i < |ring|
    ensures ring[i].server in Around(ring, start)
  {
    var n := |ring|;
    var j := if i >= start then i - start else i - start + n;
    if i >= start {
      Quotient(start + j, n, 0, i);
    } else {
      Quotient(start + j, n, 1, i);
    }
    assert Around(ring, start)[j] == ring[i].server;
  }

  ghost predicate OnRing(ring: Ring, x: nat) {
    exists i: nat :: i < |ring| && ring[i].server == x
  }

  /** When every available server has a virtual node, the clockwise order has all of them, so the selection
      aborts exactly when fewer servers are available than asked for. */
  lemma ClockwiseHasAll(ring: Ring, start: nat, ok: set<nat>)
    requires start < |ring| && forall x :: x in ok ==> OnRing(ring, x)
    ensures |Clockwise(ring, start, ok)| == |ok|
  {
    var order := Clockwise(ring, start, ok);
    ClockwiseHas(ring, start, ok, 0);
    forall x: nat
      ensures x in order <==> x in ok
    {
      ClockwiseHas(ring, start, ok, x);
      if x in ok {
        assert OnRing(ring, x);
        var i: nat :| i < |ring| && ring[i].server == x;
        AroundHas(ring, start, i);
      }
    }
    SameSize(order, ok);
  }

  lemma {:induction false} SameSize(s: seq<nat>, e: set<nat>)
    requires NoRepeats(s) && forall x: nat :: x in e <==> x in s
    ensures |e| == |s|
    decreases |s|
  {
    if s == [] {
      assert e == {};
    } else {
      var n := |s| - 1;
      assert s == s[..n] + [s[n]];
      assert s[n] !in s[..n];
      SameSize(s[..n], e - {s[n]});
    }
  }

  // ---------------------------------------------------------------------------
  // Placing buckets
  // ---------------------------------------------------------------------------

  /** The capacities that populate_hash_mapping starts from. */
  ghost predicate StartCapacity(capacity: seq<nat>, available: seq<bool>, buckets: nat, n: nat) {
    && |capacity| == |available|
    && forall x :: 0 <= x < |capacity| ==> capacity[x] == if available[x] then buckets * n else 0
  }

  /** Capacities after some buckets: available servers have at least one unit left per bucket to come. */
  ghost predicate CapacityLeft(capacity: seq<nat>, available: seq<bool>, left: nat) {
    && |capacity| == |available|
    && forall x {:trigger capacity[x]} :: 0 <= x < |capacity| ==> if available[x] then capacity[x] >= left else capacity[x] == 0
  }

  ghost function Available(available: seq<bool>): set<nat> {
    set x: nat | x < |available| && available[x]
  }

  /** As long as buckets are left, the servers with capacity are exactly the available ones. */
  lemma NeverExhausted(capacity: seq<nat>, available: seq<bool>, left: nat)
    requires CapacityLeft(capacity, available, left) && left > 0
    ensures Free(capacity) == Available(available)
  {
  }

  lemma OneLess(capacity: seq<nat>, available: seq<bool>, left: nat, picked: seq<nat>)
    requires CapacityLeft(capacity, available, left) && left > 0
    ensures CapacityLeft(Used(capacity, picked), available, left - 1)
  {
  }

  /** The available servers clockwise of a hash. */
  ghost function OrderOf(ring: Ring, available: seq<bool>, h: nat): seq<nat>
    requires ring != []
  {
    SuccessorExists(ring, h);
    var start: nat :| start < |ring| && IsSuccessor(ring, h, start);
    Clockwise(ring, start, Available(available))
  }

  lemma OrderIs(ring: Ring, available: seq<bool>, h: nat, start: nat)
    requires start < |ring| && IsSuccessor(ring, h, start)
    ensures OrderOf(ring, available, h) == Clockwise(ring, start, Available(available))
  {
    var other: nat :| other < |ring| && IsSuccessor(ring, h, other) &&
      OrderOf(ring, available, h) == Clockwise(ring, other, Available(available));
    SuccessorUnique(ring, h, start, other);
  }

  lemma OrderOk(ring: Ring, available: seq<bool>, h: nat)
    requires ring != []
    ensures var order := OrderOf(ring, available, h);
            NoRepeats(order) && forall j :: 0 <= j < |order| ==> order[j] < |available| && available[order[j]]
  {
    SuccessorExists(ring, h);
    var start: nat :| start < |ring| && IsSuccessor(ring, h, start);
    var ok := Available(available);
    OrderIs(ring, available, h, start);
    var order := Clockwise(ring, start, ok);
    ClockwiseHas(ring, start, ok, 0);
    forall j | 0 <= j < |order|
      ensures order[j] in ok
    {
      ClockwiseHas(ring, start, ok, order[j]);
    }
  }

  /** What a bucket is mapped to, given the hash of its number: the first m servers clockwise of it. */
  ghost predicate BucketList(ring: Ring, available: seq<bool>, h: nat, m: nat, list: seq<nat>)
    requires ring != []
  {
    m <= |OrderOf(ring, available, h)| && list == OrderOf(ring, available, h)[..m]
  }

  /** The lists are those of the first buckets. */
  ghost predicate BucketLists(ring: Ring, available: seq<bool>, hash: nat -> nat, m: nat, lists: seq<seq<nat>>)
    requires ring != []
  {
    forall b: nat {:trigger lists[b]} :: b < |lists| ==> BucketList(ring, available, hash(b), m, lists[b])
  }

  /** Each of the first buckets finds m servers. */
  ghost predicate Enough(ring: Ring, available: seq<bool>, hash: nat -> nat, m: nat, buckets: nat)
    requires ring != []
  {
    forall b: nat {:trigger OrderOf(ring, available, hash(b))} :: b < buckets ==> m <= |OrderOf(ring, available, hash(b))|
  }

  lemma ListsEnough(ring: Ring, available: seq<bool>, hash: nat -> nat, m: nat, lists: seq<seq<nat>>)
    requires ring != [] && BucketLists(ring, available, hash, m, lists)
    ensures Enough(ring, available, hash, m, |lists|)
  {
    forall b: nat | b < |lists| ensures m <= |OrderOf(ring, available, hash(b))| {
      assert BucketList(ring, available, hash(b), m, lists[b]);
    }
  }

  method InitCapacity(available: seq<bool>, buckets: nat, n: nat) returns (capacity: seq<nat>)
    ensures StartCapacity(capacity, available, buckets, n)
  {
    capacity := seq<nat>(|available|, _ => buckets * n);
    for x := 0 to |available|
      invariant |capacity| == |available|
      invariant forall y :: 0 <= y < |capacity| ==> capacity[y] == if y < x && !available[y] then 0 else buckets * n
    {
      if !available[x] {
        capacity := capacity[x := 0];
      }
    }
  }

  lemma EnoughToStart(capacity: seq<nat>, available: seq<bool>, buckets: nat, n: nat)
    requires StartCapacity(capacity, available, buckets, n) && n > 0
    ensures CapacityLeft(capacity, available, buckets)
  {
    Multiples(1, n, buckets);
  }

  /** The first `end` servers of every list, once per list. */
  ghost function CountOn(lists: seq<seq<nat>>, end: nat, x: nat): nat {
    if lists == [] then 0
    else CountOn(lists[..|lists| - 1], end, x) + if end <= |lists[|lists| - 1]| && x in lists[|lists| - 1][..end] then 1 else 0
  }

  ghost predicate Counts(counts: seq<nat>, lists: seq<seq<nat>>, end: nat) {
    forall x: nat {:trigger counts[x]} :: x < |counts| ==> counts[x] == CountOn(lists, end, x)
  }

  /** Count one bucket on each of the first `end` servers of its list. */
  method CountList(counts0: seq<nat>, list: seq<nat>, end: nat) returns (counts: seq<nat>)
    requires end <= |list| && NoRepeats(list) && forall j :: 0 <= j < |list| ==> list[j] < |counts0|
    ensures |counts| == |counts0|
    ensures forall x: nat {:trigger counts[x]} :: x < |counts| ==> counts[x] == counts0[x] + if x in list[..end] then 1 else 0
  {
    counts := counts0;
    for j := 0 to end
      invariant |counts| == |counts0|
      invariant forall x: nat {:trigger counts[x]} :: x < |counts| ==> counts[x] == counts0[x] + if x in list[..j] then 1 else 0
    {
      assert list[..j + 1] == list[..j] + [list[j]];
      counts := counts[list[j] := counts[list[j]] + 1];
    }
  }

  lemma CountsNext(counts: seq<nat>, counts': seq<nat>, lists: seq<seq<nat>>, list: seq<nat>, end: nat)
    requires Counts(counts, lists, end) && |counts'| == |counts| && end <= |list|
    requires forall x: nat {:trigger counts'[x]} :: x < |counts| ==> counts'[x] == counts[x] + if x in list[..end] then 1 else 0
    ensures Counts(counts', lists + [list], end)
  {
    assert (lists + [list])[..|lists|] == lists;
  }

  /** One bucket of populate_hash_mapping. */
  method PlaceBucket(ring: Ring, available: seq<bool>, h: nat, m: nat, capacity: seq<nat>, ghost left: nat)
    returns (ok: bool, list: seq<nat>, capacity': seq<nat>)
    requires ring != [] && Sorted(ring) && ServersBelow(ring, |available|) && CapacityLeft(capacity, available, left) && left > 0
    ensures ok <==> m <= |OrderOf(ring, available, h)|
    ensures ok ==> BucketList(ring, available, h, m, list) && CapacityLeft(capacity', available, left - 1)
  {
    var start := VnodeIdx(ring, h);
    NeverExhausted(capacity, available, left);
    ok, list, capacity' := GetServers(ring, start, m, capacity);
    OneLess(capacity, available, left, list);
    OrderIs(ring, available, h, start);
  }

  lemma ListOk(ring: Ring, available: seq<bool>, h: nat, m: nat, list: seq<nat>)
    requires ring != [] && BucketList(ring, available, h, m, list)
    ensures |list| == m && NoRepeats(list)
    ensures forall j :: 0 <= j < m ==> list[j] < |available| && available[list[j]]
  {
    OrderOk(ring, available, h);
  }

  /** populate_hash_mapping, without parity rebalancing: bucket b goes to the first available servers
      clockwise of the hash of b, and it aborts exactly when some bucket finds too few; the capacities play no
      part, since they are never used up. */
  method PopulateHashMapping(ring: Ring, available: seq<bool>, hash: nat -> nat, buckets: nat, n: nat, spare: nat, end: nat)
    returns (ok: bool, lists: seq<seq<nat>>, counts: seq<nat>)
    requires ring != [] && Sorted(ring) && ServersBelow(ring, |available|) && 0 < n && end <= n
    ensures ok ==> |lists| == buckets && |counts| == |available| && Counts(counts, lists, end)
    ensures ok ==> BucketLists(ring, available, hash, n + spare, lists)
    ensures ok <==> Enough(ring, available, hash, n + spare, buckets)
  {
    lists := [];
    counts := seq<nat>(|available|, _ => 0);
    var capacity := InitCapacity(available, buckets, n);
    EnoughToStart(capacity, available, buckets, n);
    for b := 0 to buckets
      invariant |lists| == b && |counts| == |available| && CapacityLeft(capacity, available, buckets - b)
      invariant BucketLists(ring, available, hash, n + spare, lists) && Counts(counts, lists, end)
    {
      var placed, list, after := PlaceBucket(ring, available, hash(b), n + spare, capacity, buckets - b);
      if !placed {
        return false, lists, counts;
      }
      ListOk(ring, available, hash(b), n + spare, list);
      var more := CountList(counts, list, end);
      CountsNext(counts, more, lists, list, end);
      lists, capacity, counts := lists + [list], after, more;
    }
    ListsEnough(ring, available, hash, n + spare, lists);
    ok := true;
  }

  // ---------------------------------------------------------------------------
  // Losing a server
  // ---------------------------------------------------------------------------

  ghost function Without(s: seq<nat>, x: nat): seq<nat> {
    if s == [] then [] else Without(s[..|s| - 1], x) + if s[|s| - 1] == x then [] else [s[|s| - 1]]
  }

  lemma WithoutPush(s: seq<nat>, y: nat, x: nat)
    ensures Without(s + [y], x) == Without(s, x) + if y == x then [] else [y]
  {
    assert (s + [y])[..|s|] == s;
  }

  /** Losing a server takes it out of the clockwise order and leaves the others where they are. */
  lemma {:induction false} KeepWithout(s: seq<nat>, ok: set<nat>, x: nat)
    ensures Keep(s, ok - {x}) == Without(Keep(s, ok), x)
    decreases |s|
  {
    if s != [] {
      var rest, y := s[..|s| - 1], s[|s| - 1];
      KeepWithout(rest, ok, x);
      WithoutPush(Keep(rest, ok), y, x);
      assert Keep(rest, ok) + [] == Keep(rest, ok);
    }
  }

  lemma {:induction false} WithoutAbsent(s: seq<nat>, x: nat)
    requires x !in s
    ensures Without(s, x) == s
    decreases |s|
  {
    if s != [] {
      WithoutAbsent(s[..|s| - 1], x);
    }
  }

  lemma {:induction false} WithoutConcat(a: seq<nat>, b: seq<nat>, x: nat)
    ensures Without(a + b, x) == Without(a, x) + Without(b, x)
    decreases |b|
  {
    if b == [] {
      assert a + b == a;
    } else {
      WithoutConcat(a, b[..|b| - 1], x);
      assert (a + b)[..|a + b| - 1] == a + b[..|b| - 1];
    }
  }

  lemma WithoutMiddle(u: seq<nat>, x: nat, v: seq<nat>)
    requires x !in u && x !in v
    ensures Without(u + [x] + v, x) == u + v
  {
    var ux := u + [x];
    WithoutTail(u, x);
    WithoutConcat(ux, v, x);
    WithoutAbsent(v, x);
  }

  lemma WithoutTail(u: seq<nat>, x: nat)
    requires x !in u
    ensures Without(u + [x], x) == u
  {
    WithoutPush(u, x, x);
    WithoutAbsent(u, x);
    assert u + [] == u;
  }

  lemma WithoutOne(s: seq<nat>, x: nat)
    requires NoRepeats(s) && x in s
    ensures |Without(s, x)| == |s| - 1
  {
    var p :| 0 <= p < |s| && s[p] == x;
    var u, v := s[..p], s[p + 1..];
    assert s == u + [x] + v;
    assert x !in u && x !in v;
    WithoutMiddle(u, x, v);
  }

  /** A list a out of a clockwise order a + b, when server x is lost. */
  lemma LossParts(a: seq<nat>, b: seq<nat>, x: nat)
    requires NoRepeats(a) && (x in a ==> x !in b)
    ensures x !in a ==> Without(a + b, x) == a + Without(b, x)
    ensures x in a ==> Without(a + b, x) == Without(a, x) + b && |Without(a, x)| == |a| - 1
  {
    WithoutConcat(a, b, x);
    if x in a {
      WithoutOne(a, x);
      WithoutAbsent(b, x);
    } else {
      WithoutAbsent(a, x);
    }
  }

  lemma PrefixOf(a: seq<nat>, b: seq<nat>, n: nat)
    requires n <= |a|
    ensures (a + b)[..n] == a[..n]
  {
  }

  /** The first m servers of the order before and after the loss. */
  lemma ListAfterLoss(order: seq<nat>, x: nat, m: nat)
    requires NoRepeats(order) && m <= |order| && m <= |Without(order, x)|
    ensures x !in order[..m] ==> Without(order, x)[..m] == order[..m]
    ensures x in order[..m] ==> m > 0 && Without(order, x)[..m - 1] == Without(order[..m], x)
  {
    var a, b := order[..m], order[m..];
    assert order == a + b;
    assert x in a ==> x !in b;
    LossParts(a, b, x);
    if x in a {
      PrefixOf(Without(a, x), b, m - 1);
    } else {
      PrefixOf(a, Without(b, x), m);
    }
  }

  /** Losing server x changes only the lists that contained it, and in those the survivors keep their order. */
  lemma LosingAServer(ring: Ring, available: seq<bool>, h: nat, m: nat, before: seq<nat>, after: seq<nat>, x: nat)
    requires ring != [] && x < |available| && BucketList(ring, available, h, m, before)
    requires BucketList(ring, available[x := false], h, m, after)
    ensures x !in before ==> after == before
    ensures x in before ==> m > 0 && after[..m - 1] == Without(before, x)
  {
    var ok, ok' := Available(available), Available(available[x := false]);
    SuccessorExists(ring, h);
    var start: nat :| start < |ring| && IsSuccessor(ring, h, start);
    OrderIs(ring, available, h, start);
    OrderIs(ring, available[x := false], h, start);
    LossOnRing(ring, start, ok, x);
    assert ok' == ok - {x};
    ListAfterLoss(Clockwise(ring, start, ok), x, m);
  }

  lemma LossOnRing(ring: Ring, start: nat, ok: set<nat>, x: nat)
    ensures Clockwise(ring, start, ok - {x}) == Without(Clockwise(ring, start, ok), x) && NoRepeats(Clockwise(ring, start, ok))
  {
    KeepWithout(FirstSeen(Around(ring, start)), ok, x);
    ClockwiseHas(ring, start, ok, x);
  }
}
