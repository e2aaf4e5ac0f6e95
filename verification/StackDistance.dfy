/**
 One pass over a trace of unit-size objects, with a splay tree of access times, against the LRU cache
 of every capacity (CDNSimulator/libCacheSim/profiler/profilerLRU.c,
 CDNSimulator/libCacheSim/profiler/include/distInternal.h).
 */
module StackDistance {
  import opened Sequences
  import opened Recency
  import SplayTree
  import SplayInPlace
  import opened LruCaches

  // ---------------------------------------------------------------------------
  // The LRU stack
  // ---------------------------------------------------------------------------

  /** A position of x, which is the only one in a list without repetitions; the length if there is none. */
  ghost function IndexOf(s: seq<nat>, x: nat): (i: nat)
    ensures i <= |s| && (i < |s| <==> x in s) && (i < |s| ==> s[i] == x)
  {
    if x in s then var i: nat :| i < |s| && s[i] == x; i else |s|
  }

  /** Take element i out, if there is one, and put x at the end. */
  ghost function Moved<T>(s: seq<T>, i: nat, x: T): seq<T> {
    (if i < |s| then s[..i] + s[i + 1..] else s) + [x]
  }

  lemma MovedAt<T>(s: seq<T>, i: nat, x: T)
    ensures |Moved(s, i, x)| == if i < |s| then |s| else |s| + 1
    ensures Moved(s, i, x)[|Moved(s, i, x)| - 1] == x
    ensures forall j {:trigger Moved(s, i, x)[j]} :: 0 <= j < |Moved(s, i, x)| - 1 ==>
              Moved(s, i, x)[j] == s[if j < i then j else j + 1]
  {
  }

  /** The objects of a trace from least to most recently used. */
  ghost function Stack(trace: seq<nat>): seq<nat> {
    if trace == [] then [] else Push(Stack(trace[..|trace| - 1]), trace[|trace| - 1])
  }

  ghost function Push(s: seq<nat>, id: nat): seq<nat> {
    Moved(s, IndexOf(s, id), id)
  }

  lemma PushNoRepeats(s: seq<nat>, id: nat)
    requires NoRepeats(s)
    ensures NoRepeats(Push(s, id))
  {
    var i := IndexOf(s, id);
    MovedAt(s, i, id);
    var p := Push(s, id);
    forall j, k | 0 <= j < k < |p|
      ensures p[j] != p[k]
    {
    }
  }

  lemma {:induction false} StackNoRepeats(trace: seq<nat>)
    ensures NoRepeats(Stack(trace))
    decreases |trace|
  {
    if trace != [] {
      StackNoRepeats(trace[..|trace| - 1]);
      PushNoRepeats(Stack(trace[..|trace| - 1]), trace[|trace| - 1]);
    }
  }

  lemma {:induction false} StackHas(trace: seq<nat>, id: nat)
    ensures id in Stack(trace) <==> id in trace
    decreases |trace|
  {
    if trace != [] {
      var rest, last := trace[..|trace| - 1], trace[|trace| - 1];
      StackHas(rest, id);
      PushHas(Stack(rest), last, id);
      InPrefix(trace, id);
    }
  }

  lemma InPrefix(s: seq<nat>, x: nat)
    requires s != []
    ensures x in s <==> x in s[..|s| - 1] || x == s[|s| - 1]
  {
    assert s == s[..|s| - 1] + [s[|s| - 1]];
  }

  lemma PushHas(s: seq<nat>, id: nat, x: nat)
    ensures x in Push(s, id) <==> x in s || x == id
  {
    var i, p := IndexOf(s, id), Push(s, id);
    MovedAt(s, i, id);
    if x in s && x != id {
      var j :| 0 <= j < |s| && s[j] == x;
      assert p[if j < i then j else j - 1] == x;
    }
    assert p[|p| - 1] == id;
  }

  /** How many objects are above the last request of the trace in the stack before it; -1 on its first access. */
  ghost function Depth(trace: seq<nat>): int
    requires trace != []
  {
    var s := Stack(trace[..|trace| - 1]);
    var i := IndexOf(s, trace[|trace| - 1]);
    if i == |s| then -1 else |s| - 1 - i
  }

  // ---------------------------------------------------------------------------
  // LRU caches of every capacity
  // ---------------------------------------------------------------------------

  ghost function Units(s: seq<nat>): seq<Obj> {
    seq(|s|, i requires 0 <= i < |s| => Obj(s[i], 1))
  }

  /** The contents of an LRU cache after a trace of unit-size objects. */
  ghost function Contents(trace: seq<nat>, capacity: nat): seq<Obj> {
    if trace == [] then []
    else Requested(Contents(trace[..|trace| - 1], capacity), capacity, Obj(trace[|trace| - 1], 1))
  }

  /** The number of hits LRU_get scores. */
  ghost function LruHits(trace: seq<nat>, capacity: nat): nat {
    if trace == [] then 0
    else
      var rest := trace[..|trace| - 1];
      LruHits(rest, capacity) + if Cached(Contents(rest, capacity), trace[|trace| - 1]) then 1 else 0
  }

  /** The last n elements. */
  ghost function LastN(s: seq<nat>, n: nat): seq<nat> {
    if |s| <= n then s else s[|s| - n..]
  }

  lemma {:induction false} TotalUnits(s: seq<nat>)
    ensures Total(Units(s)) == |s|
    decreases |s|
  {
    if s != [] {
      TotalUnits(s[1..]);
      assert Units(s)[1..] == Units(s[1..]);
    }
  }

  lemma {:induction false} TrimmedUnits(s: seq<nat>, n: nat)
    ensures Trimmed(Units(s), n) == Units(LastN(s, n))
    decreases |s|
  {
    TotalUnits(s);
    if |s| > n {
      TrimmedUnits(s[1..], n);
      assert Units(s)[1..] == Units(s[1..]);
      assert LastN(s[1..], n) == LastN(s, n);
    }
  }

  lemma PositionUnits(s: seq<nat>, id: nat)
    requires NoRepeats(s)
    ensures Position(Units(s), id) == IndexOf(s, id)
  {
    var p, i := Position(Units(s), id), IndexOf(s, id);
    assert p < |s| ==> s[p] == id;
    assert i < |s| ==> Units(s)[i].id == id;
  }

  lemma TouchedUnits(s: seq<nat>, id: nat)
    requires NoRepeats(s)
    ensures Touched(Units(s), Obj(id, 1)) == Units(Push(s, id))
  {
    PositionUnits(s, id);
    UnitsMoved(s, IndexOf(s, id), id);
  }

  lemma LastNoRepeats(s: seq<nat>, n: nat)
    requires NoRepeats(s)
    ensures NoRepeats(LastN(s, n))
  {
  }

  lemma UnitsMoved(s: seq<nat>, i: nat, id: nat)
    ensures Moved(Units(s), i, Obj(id, 1)) == Units(Moved(s, i, id))
  {
    MovedAt(s, i, id);
    MovedAt(Units(s), i, Obj(id, 1));
  }

  /** The e-th object from the top. */
  ghost function FromTop(s: seq<nat>, e: nat): nat
    requires e < |s|
  {
    s[|s| - 1 - e]
  }

  /** How far from the top an object is; the size of the stack if it is not there. */
  ghost function DepthOf(s: seq<nat>, id: nat): nat {
    if id in s then |s| - 1 - IndexOf(s, id) else |s|
  }

  lemma LastFromTop(s: seq<nat>, n: nat, e: nat)
    requires e < |LastN(s, n)|
    ensures e < |s| && FromTop(LastN(s, n), e) == FromTop(s, e)
  {
  }

  lemma DepthFromTop(s: seq<nat>, id: nat, e: nat)
    requires NoRepeats(s) && e < |s|
    ensures FromTop(s, e) == id <==> DepthOf(s, id) == e
  {
  }

  /** The depth of an object in the last n elements of the stack. */
  lemma LastDepth(s: seq<nat>, n: nat, id: nat)
    requires NoRepeats(s)
    ensures var c := LastN(s, n); DepthOf(c, id) == if DepthOf(s, id) < |c| then DepthOf(s, id) else |c|
  {
    var c := LastN(s, n);
    LastNoRepeats(s, n);
    if DepthOf(s, id) < |c| {
      LastFromTop(s, n, DepthOf(s, id));
      DepthFromTop(s, id, DepthOf(s, id));
      DepthFromTop(c, id, DepthOf(s, id));
    } else if DepthOf(c, id) < |c| {
      LastFromTop(s, n, DepthOf(c, id));
      DepthFromTop(c, id, DepthOf(c, id));
      DepthFromTop(s, id, DepthOf(c, id));
    }
  }

  /** Pushing, seen from the top of the stack. */
  lemma PushFromTop(s: seq<nat>, id: nat, e: nat)
    requires e < |Push(s, id)|
    ensures |Push(s, id)| == if DepthOf(s, id) < |s| then |s| else |s| + 1
    ensures FromTop(Push(s, id), e) ==
            if e == 0 then id else if e > DepthOf(s, id) then FromTop(s, e) else FromTop(s, e - 1)
  {
    MovedAt(s, IndexOf(s, id), id);
  }

  lemma PushSizes(s: seq<nat>, n: nat, id: nat)
    requires NoRepeats(s)
    ensures |LastN(Push(LastN(s, n), id), n)| == |LastN(Push(s, id), n)|
  {
    LastDepth(s, n, id);
    MovedAt(LastN(s, n), IndexOf(LastN(s, n), id), id);
    MovedAt(s, IndexOf(s, id), id);
  }

  lemma PushLastAt(s: seq<nat>, n: nat, id: nat, e: nat)
    requires NoRepeats(s) && e < n && e < |Push(LastN(s, n), id)| && e < |Push(s, id)|
    ensures FromTop(Push(LastN(s, n), id), e) == FromTop(Push(s, id), e)
  {
    var c := LastN(s, n);
    LastDepth(s, n, id);
    PushFromTop(s, id, e);
    PushFromTop(c, id, e);
    if e > 0 {
      LastFromTop(s, n, if e > DepthOf(c, id) then e else e - 1);
    }
  }

  lemma FromTopAt(s: seq<nat>, k: nat)
    requires k < |s|
    ensures s[k] == FromTop(s, |s| - 1 - k)
  {
  }

  /** The last n of a pushed stack are what pushing onto the last n leaves after trimming. */
  lemma PushLast(s: seq<nat>, n: nat, id: nat)
    requires NoRepeats(s)
    ensures LastN(Push(LastN(s, n), id), n) == LastN(Push(s, id), n)
  {
    var a, b := Push(LastN(s, n), id), Push(s, id);
    var x, y := LastN(a, n), LastN(b, n);
    PushSizes(s, n, id);
    forall k: nat | k < |x|
      ensures x[k] == y[k]
    {
      var e := |x| - 1 - k;
      FromTopAt(x, k);
      FromTopAt(y, k);
      LastFromTop(a, n, e);
      LastFromTop(b, n, e);
      PushLastAt(s, n, id, e);
    }
  }

  /** Inclusion: the cache of capacity n holds the n topmost objects of the stack. */
  lemma {:induction false} ContentsAreTop(trace: seq<nat>, n: nat)
    ensures Contents(trace, n) == Units(LastN(Stack(trace), n))
    decreases |trace|
  {
    if trace != [] {
      var rest, id := trace[..|trace| - 1], trace[|trace| - 1];
      var s := Stack(rest);
      ContentsAreTop(rest, n);
      StackNoRepeats(rest);
      var c := LastN(s, n);
      LastNoRepeats(s, n);
      TouchedUnits(c, id);
      TrimmedUnits(Push(c, id), n);
      PushLast(s, n, id);
    }
  }

  /** A request hits a cache of capacity n exactly when fewer than n objects are above it. */
  lemma HitIffShallow(trace: seq<nat>, n: nat)
    requires trace != []
    ensures Cached(Contents(trace[..|trace| - 1], n), trace[|trace| - 1]) <==> 0 <= Depth(trace) < n
  {
    var rest, id := trace[..|trace| - 1], trace[|trace| - 1];
    ContentsAreTop(rest, n);
    StackNoRepeats(rest);
    LastNoRepeats(Stack(rest), n);
    PositionUnits(LastN(Stack(rest), n), id);
    LastDepth(Stack(rest), n, id);
  }

  // ---------------------------------------------------------------------------
  // The depth is the number of distinct objects since the last access
  // ---------------------------------------------------------------------------

  ghost function Ids(s: seq<nat>): set<nat> {
    set i: nat | i < |s| :: s[i]
  }

  lemma IdsHas(s: seq<nat>, x: nat)
    ensures x in Ids(s) <==> x in s
  {
    if x in s {
      var i: nat :| i < |s| && s[i] == x;
    }
  }

  ghost function Above(s: seq<nat>, id: nat): seq<nat> {
    var i := IndexOf(s, id);
    if i < |s| then s[i + 1..] else []
  }

  /** From an access of id at time k on, the objects above it are those requested since. */
  lemma {:induction false} AboveAreSince(trace: seq<nat>, k: nat)
    requires k < |trace| && trace[k] !in trace[k + 1..]
    ensures trace[k] in Stack(trace) && Ids(Above(Stack(trace), trace[k])) == Ids(trace[k + 1..])
    decreases |trace|
  {
    var n, id := |trace| - 1, trace[k];
    var rest := trace[..n];
    StackHas(trace, id);
    if k == n {
      StackNoRepeats(rest);
      NothingAbove(Stack(rest), id);
      assert trace[k + 1..] == [];
    } else {
      assert trace[k + 1..] == rest[k + 1..] + [trace[n]];
      AboveAreSince(rest, k);
      AbovePushed(rest, trace[k + 1..], k, trace[n]);
    }
  }

  lemma AbovePushed(rest: seq<nat>, since: seq<nat>, k: nat, x: nat)
    requires k < |rest| && since == rest[k + 1..] + [x] && x != rest[k]
    requires rest[k] in Stack(rest) && Ids(Above(Stack(rest), rest[k])) == Ids(rest[k + 1..])
    ensures Ids(Above(Push(Stack(rest), x), rest[k])) == Ids(since)
  {
    StackNoRepeats(rest);
    PushAbove(Stack(rest), rest[k], x);
    IdsAppend(rest[k + 1..], x);
  }

  lemma IdsAppend(s: seq<nat>, x: nat)
    ensures Ids(s + [x]) == Ids(s) + {x}
  {
    forall y: nat
      ensures y in Ids(s + [x]) <==> y in Ids(s) + {x}
    {
      IdsHas(s + [x], y);
      IdsHas(s, y);
    }
  }

  lemma NothingAbove(s: seq<nat>, id: nat)
    requires NoRepeats(s)
    ensures Above(Push(s, id), id) == []
  {
    var p := Push(s, id);
    PushNoRepeats(s, id);
    MovedAt(s, IndexOf(s, id), id);
    assert p[|p| - 1] == id;
  }

  /** Where id is after x has been pushed. */
  lemma PushedIndex(s: seq<nat>, id: nat, x: nat)
    requires NoRepeats(s) && id in s && x != id
    ensures IndexOf(Push(s, x), id) == if IndexOf(s, x) < IndexOf(s, id) then IndexOf(s, id) - 1 else IndexOf(s, id)
  {
    var i, j, p := IndexOf(s, id), IndexOf(s, x), Push(s, x);
    MovedAt(s, j, x);
    PushNoRepeats(s, x);
    var i' := if j < i then i - 1 else i;
    assert p[i'] == id;
    var k := IndexOf(p, id);
    assert k <= i' && p[k] == id;
  }

  /** Pushing x onto the stack adds it to what is above any other object. */
  lemma PushAbove(s: seq<nat>, id: nat, x: nat)
    requires NoRepeats(s) && id in s && x != id
    ensures Ids(Above(Push(s, x), id)) == Ids(Above(s, id)) + {x}
  {
    var a, b := Above(s, id), Above(Push(s, x), id);
    PushedIndex(s, id, x);
    MovedAt(s, IndexOf(s, x), x);
    forall y: nat
      ensures y in Ids(b) <==> y in Ids(a) + {x}
    {
      IdsHas(a, y);
      IdsHas(b, y);
      AboveFrom(s, id, x, y);
      AboveStays(s, id, x, y);
    }
  }

  lemma AboveFrom(s: seq<nat>, id: nat, x: nat, y: nat)
    requires NoRepeats(s) && id in s && x != id
    ensures y in Above(Push(s, x), id) ==> y in Above(s, id) || y == x
  {
    var j, p := IndexOf(s, x), Push(s, x);
    if y in Above(p, id) {
      var q := AboveAt(p, id, y);
      PushedIndex(s, id, x);
      MovedAt(s, j, x);
      if q < |p| - 1 {
        AboveIndex(s, id, if q < j then q else q + 1);
      }
    }
  }

  lemma AboveAt(s: seq<nat>, id: nat, y: nat) returns (q: nat)
    requires y in Above(s, id)
    ensures IndexOf(s, id) < q < |s| && s[q] == y
  {
    var k: nat :| k < |Above(s, id)| && Above(s, id)[k] == y;
    q := IndexOf(s, id) + 1 + k;
  }

  lemma AboveStays(s: seq<nat>, id: nat, x: nat, y: nat)
    requires NoRepeats(s) && id in s && x != id
    ensures y in Above(s, id) || y == x ==> y in Above(Push(s, x), id)
  {
    if y == x {
      PushedIsAbove(s, id, x);
    } else if y in Above(s, id) {
      var q := AboveAt(s, id, y);
      OtherStaysAbove(s, id, x, q);
    }
  }

  lemma AboveIndex(s: seq<nat>, id: nat, q: nat)
    requires IndexOf(s, id) < q < |s|
    ensures s[q] in Above(s, id)
  {
    assert Above(s, id)[q - IndexOf(s, id) - 1] == s[q];
  }

  lemma PushedIsAbove(s: seq<nat>, id: nat, x: nat)
    requires NoRepeats(s) && id in s && x != id
    ensures x in Above(Push(s, x), id)
  {
    PushedIndex(s, id, x);
    MovedAt(s, IndexOf(s, x), x);
    AboveIndex(Push(s, x), id, |Push(s, x)| - 1);
  }

  lemma OtherStaysAbove(s: seq<nat>, id: nat, x: nat, q: nat)
    requires NoRepeats(s) && id in s && x != id && IndexOf(s, id) < q < |s| && s[q] != x
    ensures s[q] in Above(Push(s, x), id)
  {
    var j, p := IndexOf(s, x), Push(s, x);
    PushedIndex(s, id, x);
    MovedAt(s, j, x);
    var r := if q < j then q else q - 1;
    assert p[r] == s[q];
    AboveIndex(p, id, r);
  }

  lemma {:induction false} CountIds(s: seq<nat>)
    requires NoRepeats(s)
    ensures |Ids(s)| == |s|
    decreases |s|
  {
    if s != [] {
      var n := |s| - 1;
      CountIds(s[..n]);
      assert Ids(s) == Ids(s[..n]) + {s[n]};
      IdsHas(s[..n], s[n]);
    }
  }

  /** The depth of a request whose object was last accessed at time k. */
  lemma DepthIsDistinct(trace: seq<nat>, k: nat)
    requires trace != [] && k < |trace| - 1 && trace[k] == trace[|trace| - 1] && trace[k] !in trace[k + 1..|trace| - 1]
    ensures Depth(trace) == |Ids(trace[k + 1..|trace| - 1])|
  {
    var rest := trace[..|trace| - 1];
    assert rest[k + 1..] == trace[k + 1..|trace| - 1];
    AboveAreSince(rest, k);
    StackNoRepeats(rest);
    CountIds(Above(Stack(rest), trace[k]));
  }

  // ---------------------------------------------------------------------------
  // Access times
  // ---------------------------------------------------------------------------

  /** The time of the last access of each object of the stack, in the same order. */
  ghost function Times(trace: seq<nat>): seq<int> {
    if trace == [] then []
    else Moved(Times(trace[..|trace| - 1]), IndexOf(Stack(trace[..|trace| - 1]), trace[|trace| - 1]), |trace| - 1)
  }

  ghost predicate TimeAt(trace: seq<nat>, s: seq<nat>, times: seq<int>, i: int) {
    0 <= i < |times| == |s| ==> 0 <= times[i] < |trace| && trace[times[i]] == s[i]
  }

  ghost predicate TimesOk(trace: seq<nat>) {
    && |Times(trace)| == |Stack(trace)| && SplayTree.Sorted(Times(trace))
    && forall i {:trigger TimeAt(trace, Stack(trace), Times(trace), i)} :: TimeAt(trace, Stack(trace), Times(trace), i)
  }

  lemma TimesBelow(trace: seq<nat>)
    requires TimesOk(trace)
    ensures SplayTree.Below(Times(trace), |trace|) && forall i :: 0 <= i < |Times(trace)| ==> Times(trace)[i] >= 0
  {
    var times := Times(trace);
    forall i | 0 <= i < |times|
      ensures 0 <= times[i] < |trace|
    {
      assert TimeAt(trace, Stack(trace), times, i);
    }
  }

  lemma MovedSorted(times: seq<int>, i: nat, n: int)
    requires SplayTree.Sorted(times) && SplayTree.Below(times, n)
    ensures SplayTree.Sorted(Moved(times, i, n))
  {
    MovedAt(times, i, n);
    var t := Moved(times, i, n);
    forall j, k | 0 <= j < k < |t|
      ensures t[j] < t[k]
    {
    }
  }

  lemma MovedTime(trace: seq<nat>, s: seq<nat>, times: seq<int>, i: nat, j: int)
    requires trace != [] && |times| == |s|
    requires forall k {:trigger TimeAt(trace[..|trace| - 1], s, times, k)} :: TimeAt(trace[..|trace| - 1], s, times, k)
    ensures TimeAt(trace, Moved(s, i, trace[|trace| - 1]), Moved(times, i, |trace| - 1), j)
  {
    MovedAt(s, i, trace[|trace| - 1]);
    MovedAt(times, i, |trace| - 1);
    assert TimeAt(trace[..|trace| - 1], s, times, if j < i then j else j + 1);
  }

  lemma {:induction false} TimesAreOk(trace: seq<nat>)
    ensures TimesOk(trace)
    decreases |trace|
  {
    if trace != [] {
      var n := |trace| - 1;
      var rest := trace[..n];
      TimesAreOk(rest);
      TimesBelow(rest);
      var i := IndexOf(Stack(rest), trace[n]);
      MovedAt(Stack(rest), i, trace[n]);
      MovedAt(Times(rest), i, n);
      MovedSorted(Times(rest), i, n);
      forall j {:trigger TimeAt(trace, Stack(trace), Times(trace), j)}
        ensures TimeAt(trace, Stack(trace), Times(trace), j)
      {
        MovedTime(trace, Stack(rest), Times(rest), i, j);
      }
    }
  }

  /** The keys of the tree: time 0 is never taken out. */
  ghost function TreeKeys(times: seq<int>): seq<int> {
    if times == [] || times[0] == 0 then times else [0] + times
  }

  /** The hash table gives the last access of an object. */
  ghost predicate LastOk(s: seq<nat>, times: seq<int>, last: map<nat, nat>, id: nat) {
    && (id in last <==> id in s)
    && (id in last && IndexOf(s, id) < |times| ==> last[id] == times[IndexOf(s, id)])
  }

  /** What the hash table and the tree hold after a trace. */
  ghost predicate StateOk(trace: seq<nat>, tree: SplayTree.Tree, last: map<nat, nat>) {
    && SplayTree.Sized(tree) && SplayTree.Keys(tree) == TreeKeys(Times(trace)) && SplayTree.Sorted(SplayTree.Keys(tree))
    && forall id {:trigger LastOk(Stack(trace), Times(trace), last, id)} :: LastOk(Stack(trace), Times(trace), last, id)
  }

  /** What the profiler takes the stack distance of the last request to be: an object last accessed at
      time 0 looks as if it had not been accessed. */
  ghost function Profiled(trace: seq<nat>): int
    requires trace != []
  {
    var rest := trace[..|trace| - 1];
    var i := IndexOf(Stack(rest), trace[|trace| - 1]);
    if i < |Times(rest)| && Times(rest)[i] == 0 then -1 else Depth(trace)
  }

  lemma MemberSplit(s: seq<int>, q: nat)
    requires SplayTree.Sorted(s) && q < |s|
    ensures SplayTree.Less(s, s[q]) == s[..q] && SplayTree.More(s, s[q]) == s[q + 1..]
  {
    SortedAround(s, q);
    Rejoin(s, q);
    SplitAt(s, s[..q], s[q], s[q + 1..]);
  }

  lemma Rejoin(s: seq<int>, q: nat)
    requires q < |s|
    ensures s == s[..q] + [s[q]] + s[q + 1..]
  {
  }

  lemma SplitAt(s: seq<int>, a: seq<int>, k: int, b: seq<int>)
    requires s == a + [k] + b && SplayTree.Below(a, k) && SplayTree.Above(b, k)
    ensures SplayTree.Less(s, k) == a && SplayTree.More(s, k) == b
  {
    SplayTree.SplitAround(a, b, k);
  }

  lemma SortedAround(s: seq<int>, q: nat)
    requires SplayTree.Sorted(s) && q < |s|
    ensures SplayTree.Below(s[..q], s[q]) && SplayTree.Above(s[q + 1..], s[q])
  {
  }

  /** The position of a time among the keys of the tree. */
  ghost function KeyAt(times: seq<int>, i: nat): nat {
    if times != [] && times[0] == 0 then i else i + 1
  }

  lemma KeyOf(times: seq<int>, i: nat)
    requires i < |times|
    ensures KeyAt(times, i) < |TreeKeys(times)| && TreeKeys(times)[KeyAt(times, i)] == times[i]
    ensures |TreeKeys(times)| - 1 - KeyAt(times, i) == |times| - 1 - i
  {
  }

  lemma KeysBelow(trace: seq<nat>)
    requires TimesOk(trace)
    ensures SplayTree.Below(TreeKeys(Times(trace)), |trace|)
  {
    TimesBelow(trace);
    TreeKeysBelow(Times(trace), |trace|);
  }

  lemma TreeKeysBelow(times: seq<int>, n: int)
    requires SplayTree.Below(times, n) && forall i :: 0 <= i < |times| ==> times[i] >= 0
    ensures SplayTree.Below(TreeKeys(times), n)
  {
    assert times != [] ==> 0 <= times[0] < n;
  }

  /** After a first access the keys gain the current time. */
  lemma KeysAppend(times: seq<int>, n: int)
    requires times != [] || n == 0
    ensures TreeKeys(times + [n]) == TreeKeys(times) + [n]
  {
  }

  /** The profiler leaves time 0 in the tree. */
  lemma KeysZero(times: seq<int>, n: int)
    requires times != [] && times[0] == 0 && n > 0 && SplayTree.Sorted(times)
    ensures TreeKeys(times[1..] + [n]) == TreeKeys(times) + [n]
  {
    assert times == [0] + times[1..];
  }

  /** Any other time is replaced by the current one. */
  lemma KeysMove(times: seq<int>, i: nat, n: int)
    requires i < |times| && times[i] > 0 && n > 0 && SplayTree.Sorted(times)
    ensures var s, q := TreeKeys(times), KeyAt(times, i); q < |s| && TreeKeys(Moved(times, i, n)) == Moved(s, q, n)
  {
    MovedAt(times, i, n);
    var t := Moved(times, i, n);
    if times[0] == 0 {
      assert t[0] == 0;
    } else {
      FirstStays(times, i, n);
      assert [0] + t == Moved([0] + times, i + 1, n);
    }
  }

  lemma FirstStays(times: seq<int>, i: nat, n: int)
    requires i < |times| && times[i] > 0 && n > 0 && SplayTree.Sorted(times) && times[0] != 0
    ensures Moved(times, i, n)[0] != 0
  {
    MovedAt(times, i, n);
    assert i == 0 && |times| > 1 ==> times[1] > times[0];
  }

  /** get_stack_dist_add_req. */
  method GetStackDistAddReq(id: nat, ts: nat, nodes: SplayInPlace.Nodes, root: SplayInPlace.Ptr, last: map<nat, nat>,
                            ghost tree: SplayTree.Tree, ghost trace: seq<nat>)
    returns (dist: int, root': SplayInPlace.Ptr, last': map<nat, nat>, ghost tree': SplayTree.Tree)
    requires ts == |trace| && StateOk(trace, tree, last) && SplayInPlace.Exactly(nodes.cells, root, tree)
    modifies nodes
    ensures StateOk(trace + [id], tree', last') && SplayInPlace.Exactly(nodes.cells, root', tree')
    ensures dist == Profiled(trace + [id]) >= -1
  {
    var before := if id in last then last[id] else 0;
    ghost var i := IndexOf(Stack(trace), id);
    assert LastOk(Stack(trace), Times(trace), last, id);
    TimesAreOk(trace);
    KeysBelow(trace);
    ProfiledIs(trace, id);
    if before == 0 {
      dist := -1;
      root', tree' := AddTime(ts, nodes, root, tree);
      FirstAccess(trace, id, tree);
    } else {
      dist, root', tree' := Reuse(before, ts, nodes, root, tree, trace, i);
    }
    last' := last[id := ts];
    LastUpdated(trace, id, last);
  }

  /** The current time is later than all in the tree, so its node is new. */
  method AddTime(ts: nat, nodes: SplayInPlace.Nodes, root: SplayInPlace.Ptr, ghost tree: SplayTree.Tree)
    returns (root': SplayInPlace.Ptr, ghost tree': SplayTree.Tree)
    requires SplayInPlace.Exactly(nodes.cells, root, tree) && SplayTree.Below(SplayTree.Keys(tree), ts)
    modifies nodes
    ensures tree' == SplayTree.Inserted(ts, tree) && SplayInPlace.Exactly(nodes.cells, root', tree')
  {
    SplayInPlace.KeySetHas(tree, ts);
    ghost var cells := nodes.cells;
    root' := nodes.InsertAt(ts, root, tree);
    tree' := SplayTree.Inserted(ts, tree);
    SplayInPlace.ExactlyInserted(cells, nodes.cells, root, tree, ts);
  }

  /** The time is brought to the root, the later ones are counted, and it is taken out. */
  method TakeOut(time: nat, nodes: SplayInPlace.Nodes, root: SplayInPlace.Ptr, ghost tree: SplayTree.Tree)
    returns (dist: int, root': SplayInPlace.Ptr, ghost tree': SplayTree.Tree)
    requires SplayInPlace.Exactly(nodes.cells, root, tree) && time in SplayTree.Keys(tree)
    modifies nodes
    ensures SplayInPlace.Exactly(nodes.cells, root', tree')
    ensures var s := SplayTree.Keys(tree);
            dist == |SplayTree.More(s, time)| && SplayTree.Keys(tree') == SplayTree.Less(s, time) + SplayTree.More(s, time)
  {
    SplayInPlace.SortedApart(tree);
    SplayInPlace.KeySetHas(tree, time);
    ghost var cells, r := nodes.cells, SplayTree.Splayed(time, tree);
    SplayTree.SplayedSides(time, tree);
    SplayTree.SplayedRoot(time, tree);
    SplayInPlace.SplayedOnce(time, tree);
    root' := nodes.SplayAt(time, root, tree);
    SplayInPlace.ExactlySplayed(cells, nodes.cells, root, tree, time);
    SplayInPlace.RootValue(nodes.cells, r.right);
    SplayTree.SizeOfSized(r.right);
    dist := SplayInPlace.Value(nodes.cells, nodes.cells[root'.key].right);
    SplayTree.DeletedKeys(time, r);
    cells := nodes.cells;
    root' := nodes.SplayDeleteAt(time, root', r);
    tree' := SplayTree.Deleted(time, r);
    SplayInPlace.ExactlyDeleted(cells, nodes.cells, SplayInPlace.RootOf(r), r, time);
  }

  lemma ProfiledIs(trace: seq<nat>, id: nat)
    requires TimesOk(trace)
    ensures var i := IndexOf(Stack(trace), id);
            Profiled(trace + [id]) == if i == |Times(trace)| || Times(trace)[i] == 0 then -1 else |Times(trace)| - 1 - i
    ensures Times(trace + [id]) == Moved(Times(trace), IndexOf(Stack(trace), id), |trace|)
    ensures Stack(trace + [id]) == Push(Stack(trace), id)
  {
    Prefix(trace, id);
  }

  /** The object was last accessed at time `before`, which is in the tree. */
  method Reuse(before: nat, ts: nat, nodes: SplayInPlace.Nodes, root: SplayInPlace.Ptr,
               ghost tree: SplayTree.Tree, ghost trace: seq<nat>, ghost i: nat)
    returns (dist: int, root': SplayInPlace.Ptr, ghost tree': SplayTree.Tree)
    requires ts == |trace| && TimesOk(trace) && i < |Times(trace)| && Times(trace)[i] == before > 0
    requires SplayTree.Keys(tree) == TreeKeys(Times(trace)) && SplayInPlace.Exactly(nodes.cells, root, tree)
    modifies nodes
    ensures dist == |Times(trace)| - 1 - i && SplayInPlace.Exactly(nodes.cells, root', tree')
    ensures SplayTree.Keys(tree') == TreeKeys(Moved(Times(trace), i, ts))
  {
    ghost var times, s := Times(trace), TreeKeys(Times(trace));
    ghost var q := KeyAt(times, i);
    KeyOf(times, i);
    KeysBelow(trace);
    KeysMove(times, i, ts);
    MemberSplit(s, q);
    dist, root', tree' := TakeOut(before, nodes, root, tree);
    StillBelow(s, q, ts);
    SplayTree.InsertedKeys(ts, tree');
    SplayTree.SplitBelow(s[..q] + s[q + 1..], ts);
    root', tree' := AddTime(ts, nodes, root', tree');
  }

  lemma StillBelow(s: seq<int>, q: nat, n: int)
    requires q < |s| && SplayTree.Below(s, n)
    ensures SplayTree.Below(s[..q] + s[q + 1..], n)
  {
  }

  lemma Prefix(trace: seq<nat>, id: nat)
    ensures (trace + [id])[..|trace + [id]| - 1] == trace
  {
  }

  lemma FirstAccess(trace: seq<nat>, id: nat, tree: SplayTree.Tree)
    requires TimesOk(trace) && SplayTree.Below(TreeKeys(Times(trace)), |trace|)
    requires SplayTree.Sized(tree) && SplayTree.Keys(tree) == TreeKeys(Times(trace)) && SplayTree.Sorted(SplayTree.Keys(tree))
    requires var i := IndexOf(Stack(trace), id); i == |Times(trace)| || Times(trace)[i] == 0
    ensures var r := SplayTree.Inserted(|trace|, tree);
            SplayTree.Sized(r) && SplayTree.Sorted(SplayTree.Keys(r)) && SplayTree.Keys(r) == TreeKeys(Times(trace + [id]))
  {
    NonemptyTimes(trace);
    TimesBelow(trace);
    Prefix(trace, id);
    InsertTime(tree, Times(trace), |trace|);
    if IndexOf(Stack(trace), id) < |Times(trace)| {
      LaterTimes(Times(trace), IndexOf(Stack(trace), id));
    }
    KeysFirst(Times(trace), IndexOf(Stack(trace), id), |trace|);
  }

  lemma InsertTime(tree: SplayTree.Tree, times: seq<int>, n: int)
    requires SplayTree.Below(TreeKeys(times), n)
    requires SplayTree.Sized(tree) && SplayTree.Keys(tree) == TreeKeys(times) && SplayTree.Sorted(SplayTree.Keys(tree))
    ensures var r := SplayTree.Inserted(n, tree);
            SplayTree.Sized(r) && SplayTree.Sorted(SplayTree.Keys(r)) && SplayTree.Keys(r) == TreeKeys(times) + [n]
  {
    SplayTree.InsertedKeys(n, tree);
    SplayTree.SplitBelow(TreeKeys(times), n);
    assert TreeKeys(times) + [n] + [] == TreeKeys(times) + [n];
  }

  lemma KeysFirst(times: seq<int>, i: nat, n: int)
    requires SplayTree.Sorted(times) && (i == |times| || (i == 0 < |times| && times[i] == 0))
    requires SplayTree.Below(times, n) && (times == [] ==> n == 0)
    ensures TreeKeys(Moved(times, i, n)) == TreeKeys(times) + [n]
  {
    if i == |times| {
      KeysAppend(times, n);
    } else {
      KeysZero(times, n);
      assert times[..0] + times[1..] == times[1..];
    }
  }

  lemma LaterTimes(times: seq<int>, i: nat)
    requires SplayTree.Sorted(times) && i < |times| && forall j :: 0 <= j < |times| ==> times[j] >= 0
    ensures i > 0 ==> times[i] > 0
  {
    assert times[0] >= 0;
  }

  lemma NonemptyTimes(trace: seq<nat>)
    ensures Times(trace) != [] || |trace| == 0
  {
    if trace != [] {
      MovedAt(Times(trace[..|trace| - 1]), IndexOf(Stack(trace[..|trace| - 1]), trace[|trace| - 1]), |trace| - 1);
    }
  }

  lemma LastUpdated(trace: seq<nat>, id: nat, last: map<nat, nat>)
    requires |Times(trace)| == |Stack(trace)|
    requires forall x {:trigger LastOk(Stack(trace), Times(trace), last, x)} :: LastOk(Stack(trace), Times(trace), last, x)
    ensures var last', t := last[id := |trace|], trace + [id];
            forall x {:trigger LastOk(Stack(t), Times(t), last', x)} :: LastOk(Stack(t), Times(t), last', x)
  {
    var last', t := last[id := |trace|], trace + [id];
    Prefix(trace, id);
    StackNoRepeats(trace);
    forall x {:trigger LastOk(Stack(t), Times(t), last', x)}
      ensures LastOk(Stack(t), Times(t), last', x)
    {
      assert LastOk(Stack(trace), Times(trace), last, x);
      LastOfPush(Stack(trace), Times(trace), last, id, |trace|, x);
    }
  }

  lemma LastOfPush(s: seq<nat>, times: seq<int>, last: map<nat, nat>, id: nat, n: nat, x: nat)
    requires NoRepeats(s) && |times| == |s| && LastOk(s, times, last, x)
    ensures LastOk(Push(s, id), Moved(times, IndexOf(s, id), n), last[id := n], x)
  {
    PushHas(s, id, x);
    if x in s || x == id {
      PushIndex(s, times, id, x, n);
    }
  }

  /** An object keeps its time when another one, or itself, is pushed. */
  lemma PushIndex(s: seq<nat>, times: seq<int>, id: nat, x: nat, n: nat)
    requires NoRepeats(s) && |times| == |s| && (x in s || x == id)
    ensures var i := IndexOf(s, id); var s', times' := Push(s, id), Moved(times, i, n);
            && |times'| == |s'| && IndexOf(s', x) < |s'|
            && times'[IndexOf(s', x)] == if x == id then n else times[IndexOf(s, x)]
  {
    var i, s' := IndexOf(s, id), Push(s, id);
    MovedAt(s, i, id);
    MovedAt(times, i, n);
    if x == id {
      PushNoRepeats(s, id);
      assert s'[|s'| - 1] == x && IndexOf(s', x) <= |s'| - 1;
      assert s'[IndexOf(s', x)] == x;
    } else {
      PushedIndex(s, x, id);
    }
  }

  // ---------------------------------------------------------------------------
  // Counting hits
  // ---------------------------------------------------------------------------

  /** What the profiler takes the distances of the requests to be. */
  ghost function Distances(trace: seq<nat>): seq<int> {
    if trace == [] then [] else Distances(trace[..|trace| - 1]) + [Profiled(trace)]
  }

  lemma DistancesPrefix(trace: seq<nat>, n: nat)
    requires n < |trace|
    ensures Distances(trace[..n + 1]) == Distances(trace[..n]) + [Profiled(trace[..n + 1])]
  {
    assert trace[..n + 1][..n] == trace[..n];
  }

  ghost function CountAt(ds: seq<int>, d: int): nat {
    if ds == [] then 0 else CountAt(ds[..|ds| - 1], d) + if ds[|ds| - 1] == d then 1 else 0
  }

  /** How many distances are below x, not counting -1. */
  ghost function CountBelow(ds: seq<int>, x: nat): nat {
    if ds == [] then 0 else CountBelow(ds[..|ds| - 1], x) + if 0 <= ds[|ds| - 1] < x then 1 else 0
  }

  /** The hits at size x according to the profiler. */
  ghost function ProfiledHits(trace: seq<nat>, x: nat): nat {
    CountBelow(Distances(trace), x)
  }

  lemma {:induction false} CountBelowStep(ds: seq<int>, x: nat)
    ensures CountBelow(ds, x + 1) == CountBelow(ds, x) + CountAt(ds, x)
    decreases |ds|
  {
    if ds != [] {
      CountBelowStep(ds[..|ds| - 1], x);
    }
  }

  lemma {:induction false} CountBelowZero(ds: seq<int>)
    ensures CountBelow(ds, 0) == 0
    decreases |ds|
  {
    if ds != [] {
      CountBelowZero(ds[..|ds| - 1]);
    }
  }

  lemma CountPush(ds: seq<int>, dist: int, d: int)
    ensures CountAt(ds + [dist], d) == CountAt(ds, d) + if dist == d then 1 else 0
  {
    assert (ds + [dist])[..|ds|] == ds;
  }

  /** Entry x counts the distances x - 1. */
  ghost predicate Counted(hits: seq<nat>, ds: seq<int>) {
    && hits != [] && hits[0] == 0
    && forall x: nat {:trigger hits[x]} :: 0 < x < |hits| ==> hits[x] == CountAt(ds, x - 1)
  }

  /** One more request, at distance dist. */
  lemma CountedNext(hits: seq<nat>, hits': seq<nat>, ds: seq<int>, dist: int)
    requires Counted(hits, ds)
    requires hits' == if 0 <= dist && dist + 1 < |hits| then hits[dist + 1 := hits[dist + 1] + 1] else hits
    ensures Counted(hits', ds + [dist])
  {
    forall x: nat {:trigger hits'[x]} | 0 < x < |hits'|
      ensures hits'[x] == CountAt(ds + [dist], x - 1)
    {
      CountPush(ds, dist, x - 1);
      assert hits[x] == CountAt(ds, x - 1);
    }
  }

  method NextDistance(trace: seq<nat>, ts: nat, nodes: SplayInPlace.Nodes, root: SplayInPlace.Ptr, last: map<nat, nat>,
                      ghost tree: SplayTree.Tree)
    returns (dist: int, root': SplayInPlace.Ptr, last': map<nat, nat>, ghost tree': SplayTree.Tree)
    requires ts < |trace| && StateOk(trace[..ts], tree, last) && SplayInPlace.Exactly(nodes.cells, root, tree)
    modifies nodes
    ensures StateOk(trace[..ts + 1], tree', last') && SplayInPlace.Exactly(nodes.cells, root', tree')
    ensures dist == Profiled(trace[..ts + 1]) >= -1
  {
    assert trace[..ts + 1] == trace[..ts] + [trace[ts]];
    dist, root', last', tree' := GetStackDistAddReq(trace[ts], ts, nodes, root, last, tree, trace[..ts]);
  }

  method OneRequest(trace: seq<nat>, ts: nat, nodes: SplayInPlace.Nodes, root: SplayInPlace.Ptr, last: map<nat, nat>,
                    hits: array<nat>, ghost tree: SplayTree.Tree)
    returns (root': SplayInPlace.Ptr, last': map<nat, nat>, ghost tree': SplayTree.Tree)
    requires ts < |trace| && StateOk(trace[..ts], tree, last) && Counted(hits[..], Distances(trace[..ts]))
    requires SplayInPlace.Exactly(nodes.cells, root, tree)
    modifies nodes, hits
    ensures StateOk(trace[..ts + 1], tree', last') && Counted(hits[..], Distances(trace[..ts + 1]))
    ensures SplayInPlace.Exactly(nodes.cells, root', tree')
  {
    var dist;
    dist, root', last', tree' := NextDistance(trace, ts, nodes, root, last, tree);
    CountRequest(hits, dist, trace, ts);
  }

  method CountRequest(hits: array<nat>, dist: int, ghost trace: seq<nat>, ghost n: nat)
    requires n < |trace| && Counted(hits[..], Distances(trace[..n])) && dist == Profiled(trace[..n + 1]) >= -1
    modifies hits
    ensures Counted(hits[..], Distances(trace[..n + 1]))
  {
    ghost var before := hits[..];
    AddTo(hits, dist);
    CountedRequest(before, hits[..], trace, n, dist);
  }

  lemma CountedRequest(hits: seq<nat>, hits': seq<nat>, trace: seq<nat>, n: nat, dist: int)
    requires n < |trace| && Counted(hits, Distances(trace[..n])) && dist == Profiled(trace[..n + 1])
    requires hits' == if 0 <= dist && dist + 1 < |hits| then hits[dist + 1 := hits[dist + 1] + 1] else hits
    ensures Counted(hits', Distances(trace[..n + 1]))
  {
    CountedNext(hits, hits', Distances(trace[..n]), dist);
    DistancesPrefix(trace, n);
  }

  method AddTo(hits: array<nat>, dist: int)
    requires dist >= -1
    modifies hits
    ensures hits[..] == if 0 <= dist && dist + 1 < hits.Length then old(hits[..])[dist + 1 := old(hits[dist + 1]) + 1]
                        else old(hits[..])
  {
    if dist != -1 {
      if dist + 1 < hits.Length {
        hits[dist + 1] := hits[dist + 1] + 1;
      }
    }
  }

  lemma NothingCounted(trace: seq<nat>, hits: seq<nat>)
    requires hits != [] && forall x :: 0 <= x < |hits| ==> hits[x] == 0
    ensures StateOk(trace[..0], SplayTree.Leaf, map[]) && Counted(hits, Distances(trace[..0]))
  {
    assert trace[..0] == [];
  }

  /** The request loop of _get_lru_hit_cnt. */
  method CountDistances(trace: seq<nat>, size: nat) returns (hits: array<nat>)
    ensures fresh(hits) && hits.Length == size + 1 && Counted(hits[..], Distances(trace))
  {
    hits := new nat[size + 1](_ => 0);
    var nodes := new SplayInPlace.Nodes();
    var root, last := SplayInPlace.Null, map[];
    ghost var tree := SplayTree.Leaf;
    var ts := 0;
    NothingCounted(trace, hits[..]);
    while ts < |trace|
      invariant ts <= |trace| && StateOk(trace[..ts], tree, last) && Counted(hits[..], Distances(trace[..ts]))
      invariant SplayInPlace.Exactly(nodes.cells, root, tree)
    {
      root, last, tree := OneRequest(trace, ts, nodes, root, last, hits, tree);
      ts := ts + 1;
    }
    assert trace[..ts] == trace;
  }

  /** The cumulative counts of the sizes below n. */
  ghost function Cumulative(ds: seq<int>, n: nat): seq<nat> {
    seq(n, x requires 0 <= x < n => CountBelow(ds, x))
  }

  lemma Accumulates(hits: seq<nat>, ds: seq<int>)
    requires Counted(hits, ds)
    ensures var sums := Cumulative(ds, |hits|);
            sums[0] == 0 && forall x: nat {:trigger sums[x]} :: 0 < x < |sums| ==> sums[x] == hits[x] + sums[x - 1]
  {
    CountBelowZero(ds);
    var sums := Cumulative(ds, |hits|);
    forall x: nat {:trigger sums[x]} | 0 < x < |sums|
      ensures sums[x] == hits[x] + sums[x - 1]
    {
      CountBelowStep(ds, x - 1);
    }
  }

  /** The prefix-sum loop of _get_lru_hit_cnt. */
  method PrefixSums(hits: array<nat>, ghost sums: seq<nat>)
    requires |sums| == hits.Length > 0 && sums[0] == hits[0]
    requires forall x: nat {:trigger sums[x]} :: 0 < x < |sums| ==> sums[x] == hits[x] + sums[x - 1]
    modifies hits
    ensures hits[..] == sums
  {
    for i := 1 to hits.Length
      invariant forall x: nat {:trigger hits[x]} :: x < i ==> hits[x] == sums[x]
      invariant forall x: nat {:trigger hits[x]} :: i <= x < hits.Length ==> hits[x] == old(hits[x])
    {
      assert sums[i] == old(hits[i]) + sums[i - 1];
      hits[i] := hits[i] + hits[i - 1];
    }
  }

  /** _get_lru_hit_cnt: for every x up to size, the requests the profiler takes to be hits at size x. */
  method GetLruHitCnt(trace: seq<nat>, size: nat) returns (hits: array<nat>)
    ensures hits.Length == size + 1
    ensures forall x: nat {:trigger ProfiledHits(trace, x)} :: x <= size ==> hits[x] == ProfiledHits(trace, x)
  {
    hits := CountDistances(trace, size);
    ghost var sums := Cumulative(Distances(trace), size + 1);
    Accumulates(hits[..], Distances(trace));
    PrefixSums(hits, sums);
    assert forall x: nat :: x <= size ==> hits[x] == hits[..][x] == sums[x];
  }

  // ---------------------------------------------------------------------------
  // One pass against all simulations
  // ---------------------------------------------------------------------------

  ghost function FirstIndex(s: seq<nat>, x: nat): (i: nat)
    ensures i <= |s| && (i < |s| ==> s[i] == x)
    ensures forall j :: 0 <= j < i ==> s[j] != x
  {
    if s == [] || s[0] == x then 0
    else
      var i := FirstIndex(s[1..], x);
      assert forall j :: 0 < j < i + 1 ==> s[j] == s[1..][j - 1];
      i + 1
  }

  /** When the first object of the trace is requested for the second time; the length if never. */
  ghost function Again(trace: seq<nat>): nat
    requires trace != []
  {
    FirstIndex(trace[1..], trace[0]) + 1
  }

  /** The request before which no other request of the first object comes. */
  lemma AgainIs(trace: seq<nat>, n: nat)
    requires trace != []
    ensures Again(trace) == n <==>
            0 < n <= |trace| && (forall k :: 0 < k < n ==> trace[k] != trace[0]) && (n < |trace| ==> trace[n] == trace[0])
  {
    var s := trace[1..];
    assert forall k :: 0 < k < |trace| ==> trace[k] == s[k - 1];
    var i := FirstIndex(s, trace[0]);
    assert i < |s| ==> s[i] == trace[i + 1];
  }

  /** The first object is requested again after fewer than x other distinct objects. */
  ghost predicate Lost(trace: seq<nat>, x: nat) {
    trace != [] && Again(trace) < |trace| && |Ids(trace[1..Again(trace)])| < x
  }

  /** Time 0 is the last access of the last request's object exactly when this is its second access. */
  lemma ZeroMeansAgain(trace: seq<nat>)
    requires |trace| > 1
    ensures var rest := trace[..|trace| - 1]; var i := IndexOf(Stack(rest), trace[|trace| - 1]);
            (i < |Times(rest)| && Times(rest)[i] == 0) <==> Again(trace) == |trace| - 1
  {
    var n := |trace| - 1;
    var rest := trace[..n];
    var i := IndexOf(Stack(rest), trace[n]);
    TimesAreOk(rest);
    AgainIs(trace, n);
    StackHas(rest, trace[n]);
    if i < |Times(rest)| {
      LastAccess(rest, i);
      assert TimeAt(rest, Stack(rest), Times(rest), i);
      var k: nat := Times(rest)[i];
      OnlyAccess(trace, k);
    } else {
      assert rest[0] in rest;
    }
  }

  /** The object of the last request was last accessed at time k before. */
  lemma OnlyAccess(trace: seq<nat>, k: nat)
    requires |trace| > 1 && k < |trace| - 1 && trace[k] == trace[|trace| - 1]
    requires trace[k] !in trace[..|trace| - 1][k + 1..]
    ensures k == 0 <==> (forall j :: 0 < j < |trace| - 1 ==> trace[j] != trace[0]) && trace[|trace| - 1] == trace[0]
  {
    var after := trace[..|trace| - 1][k + 1..];
    assert forall j :: k < j < |trace| - 1 ==> trace[j] == after[j - k - 1];
  }

  /** The time of an object of the stack is its last access. */
  lemma {:induction false} LastAccess(trace: seq<nat>, i: nat)
    requires TimesOk(trace) && i < |Times(trace)|
    ensures var k := Times(trace)[i]; 0 <= k < |trace| && trace[k] !in trace[k + 1..]
    decreases |trace|
  {
    TimesBelow(trace);
    var n := |trace| - 1;
    var rest := trace[..n];
    var p := IndexOf(Stack(rest), trace[n]);
    TimesAreOk(rest);
    MovedAt(Times(rest), p, n);
    if i < |Times(trace)| - 1 {
      var j := if i < p then i else i + 1;
      LastAccess(rest, j);
      NotLast(trace, i);
      StillLast(trace, Times(rest)[j]);
    }
  }

  lemma StillLast(trace: seq<nat>, k: nat)
    requires k < |trace| - 1 && trace[..|trace| - 1][k] !in trace[..|trace| - 1][k + 1..] && trace[k] != trace[|trace| - 1]
    ensures trace[k] !in trace[k + 1..]
  {
    assert trace[k + 1..] == trace[..|trace| - 1][k + 1..] + [trace[|trace| - 1]];
  }

  /** An object that is not on top of the stack is not the last one requested. */
  lemma NotLast(trace: seq<nat>, i: nat)
    requires trace != [] && TimesOk(trace) && i < |Times(trace)| - 1
    ensures 0 <= Times(trace)[i] < |trace| && trace[Times(trace)[i]] != trace[|trace| - 1]
  {
    assert TimeAt(trace, Stack(trace), Times(trace), i);
    StackNoRepeats(trace);
    var rest := trace[..|trace| - 1];
    MovedAt(Stack(rest), IndexOf(Stack(rest), trace[|trace| - 1]), trace[|trace| - 1]);
  }

  /** The hits that one pass misses: exactly one at every size at which the second request of the first
      object is a hit. */
  lemma {:induction false} ProfilerMissesOne(trace: seq<nat>, x: nat)
    ensures LruHits(trace, x) == ProfiledHits(trace, x) + if Lost(trace, x) then 1 else 0
    decreases |trace|
  {
    if trace != [] {
      var n := |trace| - 1;
      ProfilerMissesOne(trace[..n], x);
      HitsStep(trace, x);
      if n == 0 {
        HitIffShallow(trace, x);
        assert trace[..n] == [] && Stack(trace[..n]) == [];
        assert Again(trace) == 1;
      } else {
        LostGrows(trace, x);
        LastRequest(trace, x);
      }
    }
  }

  /** The last request is a hit at size x exactly when the profiler takes it to be one or loses it. */
  lemma LastRequest(trace: seq<nat>, x: nat)
    requires |trace| > 1
    ensures Cached(Contents(trace[..|trace| - 1], x), trace[|trace| - 1]) <==>
            0 <= Profiled(trace) < x || (Lost(trace, x) && Again(trace) == |trace| - 1)
    ensures !(0 <= Profiled(trace) < x && Again(trace) == |trace| - 1)
  {
    var n := |trace| - 1;
    HitIffShallow(trace, x);
    ZeroMeansAgain(trace);
    if Again(trace) == n {
      AgainDepth(trace);
    }
  }

  lemma AgainDepth(trace: seq<nat>)
    requires |trace| > 1 && Again(trace) == |trace| - 1
    ensures Depth(trace) == |Ids(trace[1..|trace| - 1])|
  {
    var n := |trace| - 1;
    AgainIs(trace, n);
    assert forall j :: 0 <= j < n - 1 ==> trace[1..n][j] == trace[j + 1];
    DepthIsDistinct(trace, 0);
  }

  lemma HitsStep(trace: seq<nat>, x: nat)
    requires trace != []
    ensures ProfiledHits(trace, x) == ProfiledHits(trace[..|trace| - 1], x) + if 0 <= Profiled(trace) < x then 1 else 0
  {
    var n := |trace| - 1;
    DistancesPrefix(trace, n);
    assert trace[..n + 1] == trace;
    var ds := Distances(trace[..n]);
    assert (ds + [Profiled(trace)])[..|ds|] == ds;
  }

  /** A hit is lost before the last request exactly when the second request of the first object is earlier. */
  lemma LostGrows(trace: seq<nat>, x: nat)
    requires |trace| > 1
    ensures var rest := trace[..|trace| - 1];
            Lost(rest, x) <==> Lost(trace, x) && Again(trace) < |trace| - 1
  {
    var n := |trace| - 1;
    var rest := trace[..n];
    var i := Again(trace);
    AgainIs(trace, i);
    AgainIs(rest, if i < n then i else n);
    assert i < n ==> rest[1..i] == trace[1..i];
  }

  /** Mattson equivalence, exactly: the hit counts of one pass are those of the LRU caches of all sizes up
      to `size` if and only if the first object of the trace is not requested again within reach. */
  lemma OnePassIsAllSimulations(trace: seq<nat>, size: nat)
    ensures (forall x: nat {:trigger ProfiledHits(trace, x)} :: x <= size ==> ProfiledHits(trace, x) == LruHits(trace, x))
            <==> !Lost(trace, size)
  {
    forall x: nat {:trigger ProfiledHits(trace, x)} | x <= size
      ensures LruHits(trace, x) == ProfiledHits(trace, x) + if Lost(trace, x) then 1 else 0
    {
      ProfilerMissesOne(trace, x);
    }
    assert ProfiledHits(trace, size) + (if Lost(trace, size) then 1 else 0) == LruHits(trace, size);
  }

  /** Two requests of one object: the second is a hit for LRU and not for the profiler. */
  lemma SecondRequestLost()
    ensures LruHits([7, 7], 1) == 1 && ProfiledHits([7, 7], 1) == 0
  {
    var trace := [7, 7];
    assert trace[1..] == [7] && trace[1..1] == [];
    assert Again(trace) == 1 && Ids(trace[1..1]) == {};
    assert Lost(trace, 1);
    ProfilerMissesOne(trace, 1);
    assert trace[..1] == [7] && [7][..0] == [];
    assert LruHits([7], 1) == 0;
    HitIffShallow(trace, 1);
    assert Stack([7]) == [7];
  }

  /** The simulation: LRU_get on every request. */
  method Simulate(trace: seq<nat>, capacity: nat, hash: nat -> nat, power: nat) returns (hits: nat)
    requires capacity > 0
    ensures hits == LruHits(trace, capacity)
  {
    var cache := new LruCache(hash, capacity, power);
    hits := 0;
    assert trace[..0] == [];
    for i := 0 to |trace|
      invariant fresh(cache) && cache.Valid() && cache.capacity == capacity
      invariant cache.Contents() == Contents(trace[..i], capacity) && hits == LruHits(trace[..i], capacity)
    {
      assert trace[..i + 1][..i] == trace[..i];
      var hit := cache.Get(Obj(trace[i], 1));
      hits := hits + if hit then 1 else 0;
    }
    assert trace[..|trace|] == trace;
  }
}
