/**
 Critical sections of the cuckoo hash map that touch single slots: lookup, insertion, erasure,
 update and the displacement of one entry to its other bucket.
 */
module CuckooSteps {
  import opened CuckooTable

  // ---------------------------------------------------------------------------
  // Writing one slot
  // ---------------------------------------------------------------------------

  function SetSlot(t: Table, i: nat, j: nat, s: Slot): Table
    requires i < |t.buckets| && j < |t.buckets[i]|
  {
    t.(buckets := t.buckets[i := t.buckets[i][j := s]])
  }

  /** Change the element counter of the lock of bucket i. */
  function Count(t: Table, i: nat, d: int): Table
    requires LockOf(i) < |t.counters|
  {
    t.(counters := t.counters[LockOf(i) := t.counters[LockOf(i)] + d])
  }

  lemma SetSlotAt(t: Table, i: nat, j: nat, s: Slot, p: Pos)
    requires i < |t.buckets| && j < |t.buckets[i]|
    ensures Live(SetSlot(t, i, j, s), p) <==> Live(t, p)
    ensures Live(t, p) ==> At(SetSlot(t, i, j, s), p) == if p == New(i, j) then s else At(t, p)
  {
  }

  lemma SetSlotShape(t: Table, i: nat, j: nat, s: Slot)
    requires Shape(t) && i < |t.buckets| && j < |t.buckets[i]|
    requires LockOf(i) < |t.migrated| && t.migrated[LockOf(i)]
    ensures Shape(SetSlot(t, i, j, s))
  {
    var u := SetSlot(t, i, j, s);
    assert Unmigrated(u.migrated) == Unmigrated(t.migrated);
    forall x: nat {:trigger u.buckets[x]} | x < |u.buckets| && LockOf(x) < |u.migrated| && !u.migrated[LockOf(x)]
      ensures AllEmpty(u.buckets[x])
    {
      assert x != i && u.buckets[x] == t.buckets[x];
    }
  }

  lemma {:induction false} CounterSumUpdate(s: seq<int>, l: nat, d: int)
    requires l < |s|
    ensures CounterSum(s[l := s[l] + d]) == CounterSum(s) + d
    decreases |s|
  {
    var n := |s| - 1;
    var u := s[l := s[l] + d];
    if l == n {
      assert u[..n] == s[..n];
    } else {
      CounterSumUpdate(s[..n], l, d);
      assert u[..n] == s[..n][l := s[..n][l] + d];
    }
  }

  /** Counting does not touch slots. */
  lemma CountKeeps(t: Table, i: nat, d: int, p: Pos)
    requires LockOf(i) < |t.counters|
    ensures Live(Count(t, i, d), p) <==> Live(t, p)
    ensures Live(t, p) ==> At(Count(t, i, d), p) == At(t, p)
  {
  }

  lemma CountShape(t: Table, i: nat, d: int)
    requires Shape(t) && LockOf(i) < |t.counters|
    ensures Shape(Count(t, i, d)) && CounterSum(Count(t, i, d).counters) == CounterSum(t.counters) + d
  {
    CounterSumUpdate(t.counters, LockOf(i), d);
  }

  // ---------------------------------------------------------------------------
  // Lookup
  // ---------------------------------------------------------------------------

  /** try_read_from_bucket: the first slot from `from` on that holds the key, or the width. */
  function SlotOf(b: Bucket, k: Key, partial: nat, from: nat): (j: nat)
    requires from <= |b|
    ensures from <= j <= |b|
    ensures j < |b| ==> b[j].Full? && b[j].key == k
    decreases |b| - from
  {
    if from == |b| then from
    else if b[from].Full? && b[from].partial == partial && b[from].key == k then from
    else SlotOf(b, k, partial, from + 1)
  }

  lemma {:induction false} SlotOfFinds(b: Bucket, k: Key, partial: nat, from: nat, j: nat)
    requires from <= j < |b| && b[j].Full? && b[j].key == k && b[j].partial == partial
    ensures SlotOf(b, k, partial, from) <= j
    decreases |b| - from
  {
    if from < j {
      SlotOfFinds(b, k, partial, from + 1, j);
    }
  }

  datatype Found = Hit(bucket: nat, slot: nat) | Miss

  /** Both locks of the key are migrated, as they are whenever they are held. */
  ghost predicate Holding(t: Table, k: Key)
    requires Shape(t)
  {
    var i1, i2 := First(t.power, t.hash(k)), Second(t.power, t.hash(k));
    && i1 < |t.buckets| && i2 < |t.buckets|
    && LockOf(i1) < |t.migrated| && t.migrated[LockOf(i1)]
    && LockOf(i2) < |t.migrated| && t.migrated[LockOf(i2)]
  }

  /** cuckoo_find. */
  function Find(t: Table, k: Key): Found
    requires First(t.power, t.hash(k)) < |t.buckets| && Second(t.power, t.hash(k)) < |t.buckets|
  {
    var i1, i2 := First(t.power, t.hash(k)), Second(t.power, t.hash(k));
    var partial := PartialKey(t.hash(k));
    var j1 := SlotOf(t.buckets[i1], k, partial, 0);
    if j1 < |t.buckets[i1]| then Hit(i1, j1)
    else
      var j2 := SlotOf(t.buckets[i2], k, partial, 0);
      if j2 < |t.buckets[i2]| then Hit(i2, j2) else Miss
  }

  /** Holding its locks, a stored key is in one of its current buckets, not in an old one. */
  lemma StoredIsNew(t: Table, m: map<Key, Value>, loc: map<Key, Pos>, k: Key)
    requires Represents(t, m, loc) && k in m && Holding(t, k)
    ensures loc[k].New?
  {
    assert Located(t, m, loc, k);
    if loc[k].Old? {
      LocksStay(t.power - 1, t.hash(k));
    }
  }

  /** Lookup under the locks agrees with the abstract map. */
  lemma FindAgrees(t: Table, m: map<Key, Value>, loc: map<Key, Pos>, k: Key)
    requires Represents(t, m, loc) && Holding(t, k)
    ensures if k in m then Find(t, k).Hit? && loc[k] == New(Find(t, k).bucket, Find(t, k).slot)
            else Find(t, k).Miss?
  {
    var i1, i2 := First(t.power, t.hash(k)), Second(t.power, t.hash(k));
    if k in m {
      StoredIsNew(t, m, loc, k);
      assert Located(t, m, loc, k);
      SlotOfFinds(t.buckets[loc[k].bucket], k, PartialKey(t.hash(k)), 0, loc[k].slot);
    }
    var r := Find(t, k);
    if r.Hit? {
      assert Known(t, m, loc, New(r.bucket, r.slot));
    }
  }

  // ---------------------------------------------------------------------------
  // Insertion, erasure, update
  // ---------------------------------------------------------------------------

  /** add_to_bucket. */
  function Add(t: Table, i: nat, j: nat, k: Key, v: Value): Table
    requires i < |t.buckets| && j < |t.buckets[i]| && LockOf(i) < |t.counters|
  {
    Count(SetSlot(t, i, j, Full(k, v, PartialKey(t.hash(k)))), i, 1)
  }

  /** Slots after writing one and counting. */
  lemma SetAndCountAt(t: Table, i: nat, j: nat, s: Slot, d: int, p: Pos)
    requires i < |t.buckets| && j < |t.buckets[i]| && LockOf(i) < |t.counters|
    ensures Live(Count(SetSlot(t, i, j, s), i, d), p) <==> Live(t, p)
    ensures Live(t, p) ==> At(Count(SetSlot(t, i, j, s), i, d), p) == if p == New(i, j) then s else At(t, p)
  {
    SetSlotAt(t, i, j, s, p);
    CountKeeps(SetSlot(t, i, j, s), i, d, p);
  }

  lemma SetAndCountShape(t: Table, i: nat, j: nat, s: Slot, d: int)
    requires Shape(t) && i < |t.buckets| && j < |t.buckets[i]|
    requires LockOf(i) < |t.migrated| && t.migrated[LockOf(i)]
    ensures Shape(Count(SetSlot(t, i, j, s), i, d))
    ensures CounterSum(Count(SetSlot(t, i, j, s), i, d).counters) == CounterSum(t.counters) + d
  {
    SetSlotShape(t, i, j, s);
    CountShape(SetSlot(t, i, j, s), i, d);
  }

  lemma AddLocated(t: Table, m: map<Key, Value>, loc: map<Key, Pos>, i: nat, j: nat, k: Key, v: Value, x: Key)
    requires i < |t.buckets| && j < |t.buckets[i]| && t.buckets[i][j].Empty? && LockOf(i) < |t.counters|
    requires Candidate(t.power, t.hash(k), i) && (x == k || Located(t, m, loc, x))
    ensures Located(Add(t, i, j, k, v), m[k := v], loc[k := New(i, j)], x)
  {
    SetAndCountAt(t, i, j, Entry(t, k, v), 1, if x == k then New(i, j) else loc[x]);
  }

  lemma AddKnown(t: Table, m: map<Key, Value>, loc: map<Key, Pos>, i: nat, j: nat, k: Key, v: Value, p: Pos)
    requires i < |t.buckets| && j < |t.buckets[i]| && LockOf(i) < |t.counters|
    requires k !in m && Known(t, m, loc, p)
    ensures Known(Add(t, i, j, k, v), m[k := v], loc[k := New(i, j)], p)
  {
    SetAndCountAt(t, i, j, Entry(t, k, v), 1, p);
  }

  lemma AddRepresents(t: Table, m: map<Key, Value>, loc: map<Key, Pos>, i: nat, j: nat, k: Key, v: Value)
    requires Represents(t, m, loc) && k !in m && Candidate(t.power, t.hash(k), i)
    requires i < |t.buckets| && j < |t.buckets[i]| && t.buckets[i][j].Empty?
    requires LockOf(i) < |t.migrated| && t.migrated[LockOf(i)]
    ensures Represents(Add(t, i, j, k, v), m[k := v], loc[k := New(i, j)])
  {
    var u, m', loc' := Add(t, i, j, k, v), m[k := v], loc[k := New(i, j)];
    SetAndCountShape(t, i, j, Entry(t, k, v), 1);
    forall x {:trigger Located(u, m', loc', x)} | x in m'
      ensures Located(u, m', loc', x)
    {
      assert x != k ==> Located(t, m, loc, x);
      AddLocated(t, m, loc, i, j, k, v, x);
    }
    forall p {:trigger Known(u, m', loc', p)}
      ensures Known(u, m', loc', p)
    {
      assert Known(t, m, loc, p);
      AddKnown(t, m, loc, i, j, k, v, p);
    }
    assert |m'| == |m| + 1;
  }

  /** del_from_bucket. */
  function Remove(t: Table, i: nat, j: nat): Table
    requires i < |t.buckets| && j < |t.buckets[i]| && LockOf(i) < |t.counters|
  {
    Count(SetSlot(t, i, j, Empty), i, -1)
  }

  lemma RemoveLocated(t: Table, m: map<Key, Value>, loc: map<Key, Pos>, i: nat, j: nat, k: Key, x: Key)
    requires i < |t.buckets| && j < |t.buckets[i]| && LockOf(i) < |t.counters|
    requires Located(t, m, loc, k) && loc[k] == New(i, j) && x != k && Located(t, m, loc, x)
    ensures Located(Remove(t, i, j), m - {k}, loc - {k}, x)
  {
    SetAndCountAt(t, i, j, Empty, -1, loc[x]);
  }

  lemma RemoveKnown(t: Table, m: map<Key, Value>, loc: map<Key, Pos>, i: nat, j: nat, k: Key, p: Pos)
    requires i < |t.buckets| && j < |t.buckets[i]| && LockOf(i) < |t.counters|
    requires Located(t, m, loc, k) && loc[k] == New(i, j) && Known(t, m, loc, p)
    ensures Known(Remove(t, i, j), m - {k}, loc - {k}, p)
  {
    SetAndCountAt(t, i, j, Empty, -1, p);
  }

  lemma RemoveRepresents(t: Table, m: map<Key, Value>, loc: map<Key, Pos>, i: nat, j: nat, k: Key)
    requires Represents(t, m, loc) && k in m && loc[k] == New(i, j)
    requires i < |t.buckets| && j < |t.buckets[i]|
    requires LockOf(i) < |t.migrated| && t.migrated[LockOf(i)]
    ensures Represents(Remove(t, i, j), m - {k}, loc - {k})
  {
    var u, m', loc' := Remove(t, i, j), m - {k}, loc - {k};
    SetAndCountShape(t, i, j, Empty, -1);
    assert Located(t, m, loc, k);
    forall x {:trigger Located(u, m', loc', x)} | x in m'
      ensures Located(u, m', loc', x)
    {
      assert Located(t, m, loc, x);
      RemoveLocated(t, m, loc, i, j, k, x);
    }
    forall p {:trigger Known(u, m', loc', p)}
      ensures Known(u, m', loc', p)
    {
      assert Known(t, m, loc, p);
      RemoveKnown(t, m, loc, i, j, k, p);
    }
    assert m.Keys == m'.Keys + {k};
  }

  /** Writing the mapped value through the functor of update_fn. */
  function Assign(t: Table, i: nat, j: nat, v: Value): Table
    requires i < |t.buckets| && j < |t.buckets[i]| && t.buckets[i][j].Full?
  {
    SetSlot(t, i, j, t.buckets[i][j].(value := v))
  }

  lemma AssignRepresents(t: Table, m: map<Key, Value>, loc: map<Key, Pos>, i: nat, j: nat, k: Key, v: Value)
    requires Represents(t, m, loc) && k in m && loc[k] == New(i, j)
    requires i < |t.buckets| && j < |t.buckets[i]| && t.buckets[i][j].Full?
    requires LockOf(i) < |t.migrated| && t.migrated[LockOf(i)]
    ensures Represents(Assign(t, i, j, v), m[k := v], loc)
  {
    var e := t.buckets[i][j].(value := v);
    var u, m' := Assign(t, i, j, v), m[k := v];
    SetSlotShape(t, i, j, e);
    assert Located(t, m, loc, k);
    forall x {:trigger Located(u, m', loc, x)} | x in m'
      ensures Located(u, m', loc, x)
    {
      assert Located(t, m, loc, x);
      SetSlotAt(t, i, j, e, loc[x]);
    }
    forall p {:trigger Known(u, m', loc, p)}
      ensures Known(u, m', loc, p)
    {
      SetSlotAt(t, i, j, e, p);
      assert Known(t, m, loc, p);
    }
    assert m'.Keys == m.Keys;
  }

  // ---------------------------------------------------------------------------
  // Displacement
  // ---------------------------------------------------------------------------

  /** setKV at the target, then eraseKV at the source; the counters are left alone. */
  function Displace(t: Table, i: nat, j: nat, i': nat, j': nat): Table
    requires i < |t.buckets| && j < |t.buckets[i]| && i' < |t.buckets| && j' < |t.buckets[i']|
    requires Widths(t.buckets, t.width)
  {
    SetSlot(SetSlot(t, i', j', t.buckets[i][j]), i, j, Empty)
  }

  lemma DisplaceAt(t: Table, i: nat, j: nat, i': nat, j': nat, p: Pos)
    requires i < |t.buckets| && j < |t.buckets[i]| && i' < |t.buckets| && j' < |t.buckets[i']|
    requires Widths(t.buckets, t.width)
    ensures Live(Displace(t, i, j, i', j'), p) <==> Live(t, p)
    ensures Live(t, p) && p != New(i, j) && p != New(i', j') ==> At(Displace(t, i, j, i', j'), p) == At(t, p)
    ensures At(Displace(t, i, j, i', j'), New(i, j)) == Empty
    ensures New(i, j) != New(i', j') ==> At(Displace(t, i, j, i', j'), New(i', j')) == t.buckets[i][j]
  {
    SetSlotAt(t, i', j', t.buckets[i][j], p);
    SetSlotAt(SetSlot(t, i', j', t.buckets[i][j]), i, j, Empty, p);
  }

  /** The displacement is one the code makes: from an occupied slot to a free one in the other bucket. */
  ghost predicate CanDisplace(t: Table, i: nat, j: nat, i': nat, j': nat) {
    && Widths(t.buckets, t.width)
    && i < |t.buckets| && j < |t.buckets[i]| && i' < |t.buckets| && j' < |t.buckets[i']|
    && t.buckets[i][j].Full? && t.buckets[i'][j'].Empty?
    && i' == AltIndex(t.power, PartialKey(t.hash(t.buckets[i][j].key)), i)
  }

  lemma DisplaceLocated(t: Table, m: map<Key, Value>, loc: map<Key, Pos>, i: nat, j: nat, i': nat, j': nat, x: Key)
    requires CanDisplace(t, i, j, i', j') && Located(t, m, loc, x) && Known(t, m, loc, New(i, j))
    ensures Located(Displace(t, i, j, i', j'), m, loc[t.buckets[i][j].key := New(i', j')], x)
  {
    var k := t.buckets[i][j].key;
    DisplaceAt(t, i, j, i', j', if x == k then New(i', j') else loc[x]);
    if x == k {
      AlternateIsCandidate(t.power, t.hash(k), i);
    }
  }

  lemma DisplaceKnown(t: Table, m: map<Key, Value>, loc: map<Key, Pos>, i: nat, j: nat, i': nat, j': nat, p: Pos)
    requires CanDisplace(t, i, j, i', j') && Known(t, m, loc, p) && Known(t, m, loc, New(i, j))
    ensures Known(Displace(t, i, j, i', j'), m, loc[t.buckets[i][j].key := New(i', j')], p)
  {
    DisplaceAt(t, i, j, i', j', p);
  }

  /** Moving an entry to its other bucket changes its location but not the map. */
  lemma DisplaceRepresents(t: Table, m: map<Key, Value>, loc: map<Key, Pos>, i: nat, j: nat, i': nat, j': nat)
    requires Represents(t, m, loc) && CanDisplace(t, i, j, i', j')
    requires LockOf(i) < |t.migrated| && t.migrated[LockOf(i)]
    requires LockOf(i') < |t.migrated| && t.migrated[LockOf(i')]
    ensures Represents(Displace(t, i, j, i', j'), m, loc[t.buckets[i][j].key := New(i', j')])
  {
    var u, loc' := Displace(t, i, j, i', j'), loc[t.buckets[i][j].key := New(i', j')];
    assert Known(t, m, loc, New(i, j));
    SetSlotShape(t, i', j', t.buckets[i][j]);
    SetSlotShape(SetSlot(t, i', j', t.buckets[i][j]), i, j, Empty);
    forall x {:trigger Located(u, m, loc', x)} | x in m
      ensures Located(u, m, loc', x)
    {
      assert Located(t, m, loc, x);
      DisplaceLocated(t, m, loc, i, j, i', j', x);
    }
    forall p {:trigger Known(u, m, loc', p)}
      ensures Known(u, m, loc', p)
    {
      assert Known(t, m, loc, p);
      DisplaceKnown(t, m, loc, i, j, i', j', p);
    }
  }
}
