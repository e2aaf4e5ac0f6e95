/**
 What an LRU cache is meant to do, on a plain list of objects from least to most recently used.
 */
module Recency {

  datatype Obj = Obj(id: nat, size: nat)

  /** The first position of an object with this identifier, or the length. */
  function Position(s: seq<Obj>, id: nat): (i: nat)
    ensures i <= |s| && (i < |s| ==> s[i].id == id)
    ensures forall j :: 0 <= j < i ==> s[j].id != id
  {
    if s == [] then 0
    else if s[0].id == id then 0
    else
      var i := Position(s[1..], id);
      assert forall j :: 0 < j < i + 1 ==> s[j] == s[1..][j - 1];
      i + 1
  }

  predicate Cached(s: seq<Obj>, id: nat) {
    Position(s, id) < |s|
  }

  /** The object becomes the most recently used one, with the size of the request. */
  function Touched(s: seq<Obj>, o: Obj): seq<Obj> {
    var i := Position(s, o.id);
    if i < |s| then s[..i] + s[i + 1..] + [o] else s + [o]
  }

  function Total(s: seq<Obj>): nat {
    if s == [] then 0 else s[0].size + Total(s[1..])
  }

  /** Evict the least recently used objects until the rest fits. */
  function Trimmed(s: seq<Obj>, capacity: nat): seq<Obj>
    decreases |s|
  {
    if s == [] || Total(s) <= capacity then s else Trimmed(s[1..], capacity)
  }

  /** The contents after one request. An object larger than the cache is not inserted, but when it is there its
      size changes all the same and nothing is evicted. */
  function Requested(s: seq<Obj>, capacity: nat, o: Obj): seq<Obj> {
    if o.size <= capacity then Trimmed(Touched(s, o), capacity)
    else if Cached(s, o.id) then Touched(s, o)
    else s
  }

  /** What is left after eviction is the longest end of the list that fits. */
  lemma {:induction false} TrimmedIsLongest(s: seq<Obj>, capacity: nat) returns (k: nat)
    ensures k <= |s| && Trimmed(s, capacity) == s[k..] && Total(s[k..]) <= capacity
    ensures forall j :: 0 <= j < k ==> Total(s[j..]) > capacity
    decreases |s|
  {
    k := 0;
    if s != [] && Total(s) > capacity {
      var rest := TrimmedIsLongest(s[1..], capacity);
      k := rest + 1;
      assert s[1..][rest..] == s[k..];
      forall j | 0 <= j < k
        ensures Total(s[j..]) > capacity
      {
        assert j > 0 ==> s[1..][j - 1..] == s[j..];
      }
    }
  }

  /** A request makes its object the last one, with its size, and keeps the order of the others. */
  lemma TouchedIs(s: seq<Obj>, o: Obj)
    ensures var t := Touched(s, o);
            && t[|t| - 1] == o && (!Cached(s, o.id) ==> t[..|t| - 1] == s)
            && forall i: nat :: i < |s| && s[i].id == o.id && (forall j: nat :: j < i ==> s[j].id != o.id) ==>
                 t[..|t| - 1] == s[..i] + s[i + 1..]
  {
  }

  lemma {:induction false} TrimmedFits(s: seq<Obj>, capacity: nat)
    ensures Total(Trimmed(s, capacity)) <= capacity
    decreases |s|
  {
    if s != [] && Total(s) > capacity {
      TrimmedFits(s[1..], capacity);
    }
  }

  /** A cache within its capacity stays so exactly unless an object larger than the cache is hit. */
  lemma StaysWithin(s: seq<Obj>, capacity: nat, o: Obj)
    requires Total(s) <= capacity
    ensures Total(Requested(s, capacity, o)) <= capacity <==> o.size <= capacity || !Cached(s, o.id)
  {
    if o.size <= capacity {
      TrimmedFits(Touched(s, o), capacity);
    } else if Cached(s, o.id) {
      var i := Position(s, o.id);
      TotalConcat(s[..i] + s[i + 1..], [o]);
      TotalOne(o);
    }
  }

  lemma {:induction false} TotalConcat(a: seq<Obj>, b: seq<Obj>)
    ensures Total(a + b) == Total(a) + Total(b)
    decreases |a|
  {
    if a == [] {
      assert a + b == b;
    } else {
      TotalConcat(a[1..], b);
      assert (a + b)[1..] == a[1..] + b;
    }
  }

  lemma TotalOne(o: Obj)
    ensures Total([o]) == o.size
  {
    assert [o][1..] == [];
  }

  /** Taking one object out takes its size off the total. */
  lemma TotalTouched(s: seq<Obj>, o: Obj)
    ensures var i := Position(s, o.id);
            Total(Touched(s, o)) == Total(s) + o.size - (if i < |s| then s[i].size else 0)
  {
    var i := Position(s, o.id);
    TotalOne(o);
    if i < |s| {
      TotalConcat(s[..i] + s[i + 1..], [o]);
      TotalWithout(s, i);
    } else {
      TotalConcat(s, [o]);
    }
  }

  lemma TotalWithout(s: seq<Obj>, i: nat)
    requires i < |s|
    ensures Total(s[..i] + s[i + 1..]) == Total(s) - s[i].size
  {
    TotalConcat(s[..i], s[i + 1..]);
    TotalConcat(s[..i], s[i..]);
    assert s == s[..i] + s[i..] && s[i..][1..] == s[i + 1..];
  }
}
