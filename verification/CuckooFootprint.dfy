/**
 What a critical section of the cuckoo hash map reads and writes. Short of doubling and clearing, which
 hold all locks, it depends on and changes nothing but what belongs to the locks it holds; sections
 with disjoint locks commute, which is what makes it sound to treat each as one step.
 */
module CuckooFootprint {
  import Finite
  import opened CuckooTable
  import opened CuckooSteps
  import opened CuckooResize
  import opened CuckooProtocol

  // ---------------------------------------------------------------------------
  // What belongs to a lock
  // ---------------------------------------------------------------------------

  ghost predicate SameSizes(t: Table, u: Table) {
    SameKind(t, u) && |u.buckets| == |t.buckets| && |u.migrated| == |t.migrated| && |u.counters| == |t.counters|
  }

  /** Bucket i has the same contents in both tables. */
  ghost predicate SameBucket(t: Table, u: Table, i: nat) {
    i < |t.buckets| && i < |u.buckets| ==> t.buckets[i] == u.buckets[i]
  }

  /** Lock l has the same flag and counter. */
  ghost predicate SameLock(t: Table, u: Table, l: nat) {
    && (l < |t.migrated| && l < |u.migrated| ==> t.migrated[l] == u.migrated[l])
    && (l < |t.counters| && l < |u.counters| ==> t.counters[l] == u.counters[l])
  }

  /** Bucket i of the old table still waits to be migrated. */
  ghost predicate Awaited(t: Table, i: nat) {
    LockOf(i) < |t.migrated| && !t.migrated[LockOf(i)]
  }

  ghost predicate SameOld(t: Table, u: Table, i: nat) {
    Awaited(t, i) && Awaited(u, i) ==>
      (i < |t.prior| <==> i < |u.prior|) && (i < |t.prior| ==> t.prior[i] == u.prior[i])
  }

  /** Two tables agree on everything that belongs to the given locks: buckets, old buckets that have not
      been migrated, flags and counters. */
  ghost predicate Agree(t: Table, u: Table, locks: set<nat>) {
    && SameSizes(t, u)
    && (forall i: nat {:trigger SameBucket(t, u, i)} :: LockOf(i) in locks ==> SameBucket(t, u, i))
    && (forall l: nat {:trigger SameLock(t, u, l)} :: l in locks ==> SameLock(t, u, l))
    && (forall i: nat {:trigger SameOld(t, u, i)} :: LockOf(i) in locks ==> SameOld(t, u, i))
  }

  /** u comes from t without touching the given locks; the old table may have been freed. */
  ghost predicate Spares(t: Table, u: Table, locks: set<nat>) {
    Agree(t, u, locks) && (u.prior == t.prior || u.prior == [])
  }

  lemma AgreeFewer(t: Table, u: Table, locks: set<nat>, fewer: set<nat>)
    requires Agree(t, u, locks) && fewer <= locks
    ensures Agree(t, u, fewer)
  {
    forall i: nat {:trigger SameBucket(t, u, i)} | LockOf(i) in fewer ensures SameBucket(t, u, i) {}
    forall l: nat {:trigger SameLock(t, u, l)} | l in fewer ensures SameLock(t, u, l) {}
    forall i: nat {:trigger SameOld(t, u, i)} | LockOf(i) in fewer ensures SameOld(t, u, i) {}
  }

  lemma AgreeTrans(t: Table, u: Table, w: Table, locks: set<nat>)
    requires Agree(t, u, locks) && Agree(u, w, locks)
    ensures Agree(t, w, locks)
  {
    forall i: nat {:trigger SameBucket(t, w, i)} | LockOf(i) in locks ensures SameBucket(t, w, i) {
      assert SameBucket(t, u, i) && SameBucket(u, w, i);
    }
    forall l: nat {:trigger SameLock(t, w, l)} | l in locks ensures SameLock(t, w, l) {
      assert SameLock(t, u, l) && SameLock(u, w, l);
    }
    forall i: nat {:trigger SameOld(t, w, i)} | LockOf(i) in locks ensures SameOld(t, w, i) {
      assert SameOld(t, u, i) && SameOld(u, w, i) && SameLock(t, u, LockOf(i));
    }
  }

  lemma SparesTrans(t: Table, u: Table, w: Table, locks: set<nat>)
    requires Spares(t, u, locks) && Spares(u, w, locks)
    ensures Spares(t, w, locks)
  {
    AgreeTrans(t, u, w, locks);
  }

  lemma SparesSelf(t: Table, locks: set<nat>)
    ensures Spares(t, t, locks)
  {
  }

  // ---------------------------------------------------------------------------
  // Taking locks
  // ---------------------------------------------------------------------------

  lemma MigrateSpares(t: Table, l: nat, others: set<nat>)
    requires Shape(t) && l < |t.migrated| && l !in others
    ensures Spares(t, Migrate(t, l), others)
  {
    if !t.migrated[l] {
      UnmigratedMeansOld(t, l);
      var u := Migrated(t, l);
      forall i: nat {:trigger SameOld(t, u, i)} | LockOf(i) in others ensures SameOld(t, u, i) {
        if Awaited(t, i) {
          TwoUnmigrated(t.migrated, l, LockOf(i));
        }
      }
    }
  }

  lemma SamePart(t: Table, u: Table, l: nat, i: nat, locks: set<nat>)
    requires Splittable(t) && Splittable(u) && Agree(t, u, locks) && l in locks
    requires l < |t.migrated| && !t.migrated[l] && i < |t.buckets| && LockOf(i) == l
    ensures Part(t.hash, t.power - 1, t.prior, i) == Part(u.hash, u.power - 1, u.prior, i)
  {
    SplitLock(t.power - 1, i);
    assert SameLock(t, u, l) && SameOld(t, u, Source(t.power - 1, i));
  }

  lemma MigratedAgree(t: Table, u: Table, l: nat, locks: set<nat>)
    requires Shape(t) && Shape(u) && Splittable(t) && Splittable(u) && Agree(t, u, locks)
    requires l in locks && l < |t.migrated| && !t.migrated[l]
    ensures Agree(Migrated(t, l), Migrated(u, l), locks)
  {
    var t', u' := Migrated(t, l), Migrated(u, l);
    forall i: nat {:trigger SameBucket(t', u', i)} | LockOf(i) in locks
      ensures SameBucket(t', u', i)
    {
      if i < |t.buckets| {
        MigratedBucket(t, l, i);
        MigratedBucket(u, l, i);
        assert SameBucket(t, u, i);
        if LockOf(i) == l {
          SamePart(t, u, l, i, locks);
        }
      }
    }
    forall x: nat {:trigger SameLock(t', u', x)} | x in locks
      ensures SameLock(t', u', x)
    {
      assert SameLock(t, u, x);
    }
    assert SameLock(t, u, l);
    OldAgree(t, u, l, locks);
  }

  lemma OldAgree(t: Table, u: Table, l: nat, locks: set<nat>)
    requires Splittable(t) && Splittable(u) && Agree(t, u, locks) && l < |t.migrated|
    requires |Unmigrated(t.migrated)| == t.remaining && |Unmigrated(u.migrated)| == u.remaining
    requires !t.migrated[l] && !u.migrated[l]
    ensures forall i: nat {:trigger SameOld(Migrated(t, l), Migrated(u, l), i)} ::
              LockOf(i) in locks ==> SameOld(Migrated(t, l), Migrated(u, l), i)
  {
    var t', u' := Migrated(t, l), Migrated(u, l);
    forall i: nat {:trigger SameOld(t', u', i)} | LockOf(i) in locks
      ensures SameOld(t', u', i)
    {
      assert SameOld(t, u, i) && SameLock(t, u, LockOf(i));
      if Awaited(t', i) && Awaited(u', i) {
        TwoUnmigrated(t.migrated, l, LockOf(i));
        TwoUnmigrated(u.migrated, l, LockOf(i));
      }
    }
  }

  lemma MigrateAgree(t: Table, u: Table, l: nat, locks: set<nat>)
    requires Shape(t) && Shape(u) && Agree(t, u, locks) && l in locks && l < |t.migrated|
    ensures Agree(Migrate(t, l), Migrate(u, l), locks)
  {
    assert SameLock(t, u, l);
    if !t.migrated[l] {
      UnmigratedMeansOld(t, l);
      UnmigratedMeansOld(u, l);
      MigratedAgree(t, u, l, locks);
    }
  }

  lemma LockOneSpares(t: Table, i: nat, others: set<nat>)
    requires Shape(t) && i < |t.buckets| && LockOf(i) !in others
    ensures Spares(t, LockOne(t, i), others)
  {
    LockInRange(t.power, i);
    MigrateSpares(t, LockOf(i), others);
  }

  lemma LockOneAgree(t: Table, u: Table, i: nat, locks: set<nat>)
    requires Shape(t) && Shape(u) && Agree(t, u, locks) && i < |t.buckets| && LockOf(i) in locks
    ensures Agree(LockOne(t, i), LockOne(u, i), locks)
  {
    LockInRange(t.power, i);
    MigrateAgree(t, u, LockOf(i), locks);
  }

  lemma LockTwoSpares(t: Table, a: nat, b: nat, others: set<nat>)
    requires Shape(t) && a < |t.buckets| && b < |t.buckets| && LockOf(a) !in others && LockOf(b) !in others
    ensures Spares(t, LockTwo(t, a, b), others)
  {
    var first, second := if LockOf(b) < LockOf(a) then b else a, if LockOf(b) < LockOf(a) then a else b;
    LockOneSpares(t, first, others);
    LockOneSpares(LockOne(t, first), second, others);
    SparesTrans(t, LockOne(t, first), LockTwo(t, a, b), others);
  }

  lemma LockTwoAgree(t: Table, u: Table, a: nat, b: nat, locks: set<nat>)
    requires Shape(t) && Shape(u) && Agree(t, u, locks)
    requires a < |t.buckets| && b < |t.buckets| && LockOf(a) in locks && LockOf(b) in locks
    ensures Agree(LockTwo(t, a, b), LockTwo(u, a, b), locks)
  {
    var first, second := if LockOf(b) < LockOf(a) then b else a, if LockOf(b) < LockOf(a) then a else b;
    LockOneAgree(t, u, first, locks);
    LockOneAgree(LockOne(t, first), LockOne(u, first), second, locks);
  }

  lemma LockThreeSpares(t: Table, a: nat, b: nat, c: nat, others: set<nat>)
    requires Shape(t) && a < |t.buckets| && b < |t.buckets| && c < |t.buckets|
    requires LockOf(a) !in others && LockOf(b) !in others && LockOf(c) !in others
    ensures Spares(t, LockThree(t, a, b, c), others)
  {
    var first := if LockOf(c) < LockOf(a) && LockOf(c) < LockOf(b) then c else if LockOf(b) < LockOf(a) then b else a;
    LockOneSpares(t, first, others);
    var u := LockOne(t, first);
    if LockOf(c) < LockOf(a) && LockOf(c) < LockOf(b) {
      LockTwoSpares(u, a, b, others);
    } else if LockOf(b) < LockOf(a) {
      LockTwoSpares(u, a, c, others);
    } else {
      LockTwoSpares(u, b, c, others);
    }
    SparesTrans(t, u, LockThree(t, a, b, c), others);
  }

  lemma LockThreeAgree(t: Table, u: Table, a: nat, b: nat, c: nat, locks: set<nat>)
    requires Shape(t) && Shape(u) && Agree(t, u, locks)
    requires a < |t.buckets| && b < |t.buckets| && c < |t.buckets|
    requires LockOf(a) in locks && LockOf(b) in locks && LockOf(c) in locks
    ensures Agree(LockThree(t, a, b, c), LockThree(u, a, b, c), locks)
  {
    if LockOf(c) < LockOf(a) && LockOf(c) < LockOf(b) {
      LockOneAgree(t, u, c, locks);
      LockTwoAgree(LockOne(t, c), LockOne(u, c), a, b, locks);
    } else if LockOf(b) < LockOf(a) {
      LockOneAgree(t, u, b, locks);
      LockTwoAgree(LockOne(t, b), LockOne(u, b), a, c, locks);
    } else {
      LockOneAgree(t, u, a, locks);
      LockTwoAgree(LockOne(t, a), LockOne(u, a), b, c, locks);
    }
  }

  /** The locks of the two buckets of a key. */
  function KeyLocks(hash: Key -> nat, power: nat, k: Key): set<nat> {
    {LockOf(First(power, hash(k))), LockOf(Second(power, hash(k)))}
  }

  lemma LockKeySpares(t: Table, k: Key, others: set<nat>)
    requires Shape(t) && KeyLocks(t.hash, t.power, k) !! others
    ensures Spares(t, LockKey(t, k), others)
  {
    CandidateInRange(t.power, t.hash(k));
    LockTwoSpares(t, First(t.power, t.hash(k)), Second(t.power, t.hash(k)), others);
  }

  lemma LockKeyAgree(t: Table, u: Table, k: Key, locks: set<nat>)
    requires Shape(t) && Shape(u) && Agree(t, u, locks) && KeyLocks(t.hash, t.power, k) <= locks
    ensures Agree(LockKey(t, k), LockKey(u, k), locks)
  {
    CandidateInRange(t.power, t.hash(k));
    LockTwoAgree(t, u, First(t.power, t.hash(k)), Second(t.power, t.hash(k)), locks);
  }

  lemma LockKeyAndSpares(t: Table, k: Key, bucket: nat, others: set<nat>)
    requires Shape(t) && bucket < |t.buckets| && KeyLocks(t.hash, t.power, k) !! others && LockOf(bucket) !in others
    ensures Spares(t, LockKeyAnd(t, k, bucket), others)
  {
    CandidateInRange(t.power, t.hash(k));
    LockThreeSpares(t, First(t.power, t.hash(k)), Second(t.power, t.hash(k)), bucket, others);
  }

  lemma LockKeyAndAgree(t: Table, u: Table, k: Key, bucket: nat, locks: set<nat>)
    requires Shape(t) && Shape(u) && Agree(t, u, locks) && bucket < |t.buckets|
    requires KeyLocks(t.hash, t.power, k) <= locks && LockOf(bucket) in locks
    ensures Agree(LockKeyAnd(t, k, bucket), LockKeyAnd(u, k, bucket), locks)
  {
    CandidateInRange(t.power, t.hash(k));
    LockThreeAgree(t, u, First(t.power, t.hash(k)), Second(t.power, t.hash(k)), bucket, locks);
  }

  // ---------------------------------------------------------------------------
  // Writing slots and counters
  // ---------------------------------------------------------------------------

  lemma SetSlotSpares(t: Table, i: nat, j: nat, s: Slot, others: set<nat>)
    requires i < |t.buckets| && j < |t.buckets[i]| && LockOf(i) !in others
    ensures Spares(t, SetSlot(t, i, j, s), others)
  {
  }

  lemma SetSlotAgree(t: Table, u: Table, i: nat, j: nat, s: Slot, locks: set<nat>)
    requires Agree(t, u, locks) && i < |t.buckets| && j < |t.buckets[i]| && LockOf(i) in locks
    ensures j < |u.buckets[i]| && Agree(SetSlot(t, i, j, s), SetSlot(u, i, j, s), locks)
  {
    assert SameBucket(t, u, i);
    var t', u' := SetSlot(t, i, j, s), SetSlot(u, i, j, s);
    forall x: nat {:trigger SameBucket(t', u', x)} | LockOf(x) in locks ensures SameBucket(t', u', x) {
      assert SameBucket(t, u, x);
    }
    forall l: nat {:trigger SameLock(t', u', l)} | l in locks ensures SameLock(t', u', l) {
      assert SameLock(t, u, l);
    }
    forall x: nat {:trigger SameOld(t', u', x)} | LockOf(x) in locks ensures SameOld(t', u', x) {
      assert SameOld(t, u, x);
    }
  }

  lemma CountSpares(t: Table, i: nat, d: int, others: set<nat>)
    requires LockOf(i) < |t.counters| && LockOf(i) !in others
    ensures Spares(t, Count(t, i, d), others)
  {
  }

  lemma CountAgree(t: Table, u: Table, i: nat, d: int, locks: set<nat>)
    requires Agree(t, u, locks) && LockOf(i) < |t.counters| && LockOf(i) in locks
    ensures Agree(Count(t, i, d), Count(u, i, d), locks)
  {
    assert SameLock(t, u, LockOf(i));
    var t', u' := Count(t, i, d), Count(u, i, d);
    forall x: nat {:trigger SameBucket(t', u', x)} | LockOf(x) in locks ensures SameBucket(t', u', x) {
      assert SameBucket(t, u, x);
    }
    forall l: nat {:trigger SameLock(t', u', l)} | l in locks ensures SameLock(t', u', l) {
      assert SameLock(t, u, l);
    }
    forall x: nat {:trigger SameOld(t', u', x)} | LockOf(x) in locks ensures SameOld(t', u', x) {
      assert SameOld(t, u, x);
    }
  }

  lemma SetAndCountSpares(t: Table, i: nat, j: nat, s: Slot, d: int, others: set<nat>)
    requires i < |t.buckets| && j < |t.buckets[i]| && LockOf(i) < |t.counters| && LockOf(i) !in others
    ensures Spares(t, Count(SetSlot(t, i, j, s), i, d), others)
  {
    SetSlotSpares(t, i, j, s, others);
    CountSpares(SetSlot(t, i, j, s), i, d, others);
    SparesTrans(t, SetSlot(t, i, j, s), Count(SetSlot(t, i, j, s), i, d), others);
  }

  lemma SetAndCountAgree(t: Table, u: Table, i: nat, j: nat, s: Slot, d: int, locks: set<nat>)
    requires Agree(t, u, locks) && i < |t.buckets| && j < |t.buckets[i]| && LockOf(i) < |t.counters| && LockOf(i) in locks
    ensures j < |u.buckets[i]| && Agree(Count(SetSlot(t, i, j, s), i, d), Count(SetSlot(u, i, j, s), i, d), locks)
  {
    SetSlotAgree(t, u, i, j, s, locks);
    CountAgree(SetSlot(t, i, j, s), SetSlot(u, i, j, s), i, d, locks);
  }

  lemma DisplaceSpares(t: Table, i: nat, j: nat, i': nat, j': nat, others: set<nat>)
    requires i < |t.buckets| && j < |t.buckets[i]| && i' < |t.buckets| && j' < |t.buckets[i']| && Widths(t.buckets, t.width)
    requires LockOf(i) !in others && LockOf(i') !in others
    ensures Spares(t, Displace(t, i, j, i', j'), others)
  {
    var mid := SetSlot(t, i', j', t.buckets[i][j]);
    SetSlotSpares(t, i', j', t.buckets[i][j], others);
    SetSlotSpares(mid, i, j, Empty, others);
    SparesTrans(t, mid, Displace(t, i, j, i', j'), others);
  }

  lemma DisplaceAgree(t: Table, u: Table, i: nat, j: nat, i': nat, j': nat, locks: set<nat>)
    requires i < |t.buckets| && j < |t.buckets[i]| && i' < |t.buckets| && j' < |t.buckets[i']| && Widths(t.buckets, t.width)
    requires Agree(t, u, locks) && Widths(u.buckets, u.width) && LockOf(i) in locks && LockOf(i') in locks
    ensures Agree(Displace(t, i, j, i', j'), Displace(u, i, j, i', j'), locks)
  {
    assert SameBucket(t, u, i);
    SetSlotAgree(t, u, i', j', t.buckets[i][j], locks);
    SetSlotAgree(SetSlot(t, i', j', t.buckets[i][j]), SetSlot(u, i', j', t.buckets[i][j]), i, j, Empty, locks);
  }

  // ---------------------------------------------------------------------------
  // Critical sections
  // ---------------------------------------------------------------------------

  /** Two effects that cannot be told apart under the given locks. */
  ghost predicate Alike(e: Effect, f: Effect, locks: set<nat>) {
    Agree(e.table, f.table, locks) && e.phase == f.phase && e.outcome == f.outcome
  }

  lemma FinishAtSpares(t: Table, op: Op, i: nat, j: nat, others: set<nat>)
    requires !op.Clear? && Writable(t, i, j) && t.buckets[i][j].Full? && LockOf(i) !in others
    ensures Spares(t, FinishAt(t, op, i, j).table, others)
  {
    var verdict := op.fn(t.buckets[i][j].value);
    if verdict.erase {
      SetAndCountSpares(t, i, j, Empty, -1, others);
    } else {
      SetSlotSpares(t, i, j, t.buckets[i][j].(value := verdict.value), others);
    }
  }

  lemma FinishAtAlike(t: Table, u: Table, op: Op, i: nat, j: nat, locks: set<nat>)
    requires Agree(t, u, locks) && LockOf(i) in locks
    requires !op.Clear? && Writable(t, i, j) && t.buckets[i][j].Full?
    ensures Writable(u, i, j) && u.buckets[i][j].Full?
    ensures Alike(FinishAt(t, op, i, j), FinishAt(u, op, i, j), locks)
  {
    assert SameBucket(t, u, i);
    var verdict := op.fn(t.buckets[i][j].value);
    if verdict.erase {
      SetAndCountAgree(t, u, i, j, Empty, -1, locks);
    } else {
      SetSlotAgree(t, u, i, j, t.buckets[i][j].(value := verdict.value), locks);
    }
  }

  lemma AddAtAlike(t: Table, u: Table, op: Op, i: nat, j: nat, locks: set<nat>)
    requires Agree(t, u, locks) && LockOf(i) in locks && op.UpraseFn? && Writable(t, i, j)
    ensures Writable(u, i, j) && Alike(AddAt(t, op, i, j), AddAt(u, op, i, j), locks)
  {
    SetAndCountAgree(t, u, i, j, Entry(t, op.key, op.value), 1, locks);
  }

  lemma AddAtSpares(t: Table, op: Op, i: nat, j: nat, others: set<nat>)
    requires op.UpraseFn? && Writable(t, i, j) && LockOf(i) !in others
    ensures Spares(t, AddAt(t, op, i, j).table, others)
  {
    SetAndCountSpares(t, i, j, Entry(t, op.key, op.value), 1, others);
  }

  lemma TryFindSpares(t: Table, op: Op, others: set<nat>)
    requires op.EraseFn? && KeyOurs(t, op.key) && KeyLocks(t.hash, t.power, op.key) !! others
    ensures Spares(t, TryFind(t, op).table, others)
  {
    match Find(t, op.key)
    case Hit(i, j) =>
      FindHolds(t, op.key);
      FinishAtSpares(t, op, i, j, others);
    case Miss =>
      SparesSelf(t, others);
  }

  lemma SameFind(t: Table, u: Table, k: Key, locks: set<nat>)
    requires KeyOurs(t, k) && KeyOurs(u, k) && Agree(t, u, locks) && KeyLocks(t.hash, t.power, k) <= locks
    ensures Find(t, k) == Find(u, k)
  {
    assert SameBucket(t, u, First(t.power, t.hash(k))) && SameBucket(t, u, Second(t.power, t.hash(k)));
  }

  lemma TryFindAlike(t: Table, u: Table, op: Op, locks: set<nat>)
    requires op.EraseFn? && KeyOurs(t, op.key) && KeyOurs(u, op.key)
    requires Agree(t, u, locks) && KeyLocks(t.hash, t.power, op.key) <= locks
    ensures Alike(TryFind(t, op), TryFind(u, op), locks)
  {
    SameFind(t, u, op.key, locks);
    match Find(t, op.key)
    case Hit(i, j) =>
      FindHolds(t, op.key);
      FinishAtAlike(t, u, op, i, j, locks);
    case Miss =>
  }

  lemma TryInsertSpares(t: Table, op: Op, others: set<nat>)
    requires op.UpraseFn? && KeyOurs(t, op.key) && KeyLocks(t.hash, t.power, op.key) !! others
    ensures Spares(t, TryInsert(t, op).table, others)
  {
    var i1, i2 := First(t.power, t.hash(op.key)), Second(t.power, t.hash(op.key));
    var partial := PartialKey(t.hash(op.key));
    var s1, s2 := SpotIn(t.buckets[i1], op.key, partial), SpotIn(t.buckets[i2], op.key, partial);
    if s1.Duplicate? {
      FinishAtSpares(t, op, i1, s1.slot, others);
    } else if s2.Duplicate? {
      FinishAtSpares(t, op, i2, s2.slot, others);
    } else if s1.Vacant? {
      AddAtSpares(t, op, i1, s1.slot, others);
    } else if s2.Vacant? {
      AddAtSpares(t, op, i2, s2.slot, others);
    } else {
      SparesSelf(t, others);
    }
  }

  lemma TryInsertAlike(t: Table, u: Table, op: Op, locks: set<nat>)
    requires op.UpraseFn? && KeyOurs(t, op.key) && KeyOurs(u, op.key)
    requires Agree(t, u, locks) && KeyLocks(t.hash, t.power, op.key) <= locks
    ensures Alike(TryInsert(t, op), TryInsert(u, op), locks)
  {
    var i1, i2 := First(t.power, t.hash(op.key)), Second(t.power, t.hash(op.key));
    assert SameBucket(t, u, i1) && SameBucket(t, u, i2);
    var partial := PartialKey(t.hash(op.key));
    var s1, s2 := SpotIn(t.buckets[i1], op.key, partial), SpotIn(t.buckets[i2], op.key, partial);
    if s1.Duplicate? {
      FinishAtAlike(t, u, op, i1, s1.slot, locks);
    } else if s2.Duplicate? {
      FinishAtAlike(t, u, op, i2, s2.slot, locks);
    } else if s1.Vacant? {
      AddAtAlike(t, u, op, i1, s1.slot, locks);
    } else if s2.Vacant? {
      AddAtAlike(t, u, op, i2, s2.slot, locks);
    }
  }

  lemma BeginSpares(t: Table, op: Op, others: set<nat>)
    requires Shape(t) && !op.Clear? && KeyLocks(t.hash, t.power, op.key) !! others
    ensures Spares(t, Begin(t, op).table, others)
  {
    var u := LockKey(t, op.key);
    LockKeySpares(t, op.key, others);
    if op.EraseFn? {
      TryFindSpares(u, op, others);
    } else {
      TryInsertSpares(u, op, others);
    }
    SparesTrans(t, u, Begin(t, op).table, others);
  }

  lemma BeginAlike(t: Table, u: Table, op: Op, locks: set<nat>)
    requires Shape(t) && Shape(u) && !op.Clear? && Agree(t, u, locks) && KeyLocks(t.hash, t.power, op.key) <= locks
    ensures Alike(Begin(t, op), Begin(u, op), locks)
  {
    LockKeyAgree(t, u, op.key, locks);
    if op.EraseFn? {
      TryFindAlike(LockKey(t, op.key), LockKey(u, op.key), op, locks);
    } else {
      TryInsertAlike(LockKey(t, op.key), LockKey(u, op.key), op, locks);
    }
  }

  lemma VisitSpares(t: Table, op: Op, power: nat, path: seq<Record>, bucket: nat, others: set<nat>)
    requires Shape(t) && LockOf(bucket) !in others
    ensures Spares(t, Visit(t, op, power, path, bucket).table, others)
  {
    SparesSelf(t, others);
    if t.power == power && bucket < |t.buckets| {
      LockOneSpares(t, bucket, others);
    }
  }

  lemma VisitAlike(t: Table, u: Table, op: Op, power: nat, path: seq<Record>, bucket: nat, locks: set<nat>)
    requires Shape(t) && Shape(u) && Agree(t, u, locks) && LockOf(bucket) in locks
    ensures Alike(Visit(t, op, power, path, bucket), Visit(u, op, power, path, bucket), locks)
  {
    if t.power == power && bucket < |t.buckets| {
      LockOneAgree(t, u, bucket, locks);
    }
  }

  lemma ExtendSpares(t: Table, op: Op, power: nat, path: seq<Record>, second: bool, slot: nat, last: bool, others: set<nat>)
    requires op.UpraseFn? && Shape(t) && slot < t.width && LockOf(NextBucket(t, op, power, path, second)) !in others
    ensures Spares(t, Extend(t, op, power, path, second, slot, last).table, others)
  {
    SparesSelf(t, others);
    if t.power == power {
      NextBucketInRange(t, op, power, path, second);
      LockOneSpares(t, NextBucket(t, op, power, path, second), others);
    }
  }

  lemma ExtendAlike(t: Table, u: Table, op: Op, power: nat, path: seq<Record>, second: bool, slot: nat, last: bool,
                    locks: set<nat>)
    requires op.UpraseFn? && Shape(t) && Shape(u) && slot < t.width
    requires Agree(t, u, locks) && LockOf(NextBucket(t, op, power, path, second)) in locks
    ensures Alike(Extend(t, op, power, path, second, slot, last), Extend(u, op, power, path, second, slot, last), locks)
  {
    if t.power == power {
      NextBucketInRange(t, op, power, path, second);
      var bucket := NextBucket(t, op, power, path, second);
      LockOneAgree(t, u, bucket, locks);
      assert SameBucket(LockOne(t, bucket), LockOne(u, bucket), bucket);
    }
  }

  lemma RecheckSpares(t: Table, op: Op, i: nat, j: nat, others: set<nat>)
    requires op.UpraseFn? && KeyOurs(t, op.key) && Writable(t, i, j)
    requires KeyLocks(t.hash, t.power, op.key) !! others && LockOf(i) !in others
    ensures Spares(t, Recheck(t, op, i, j).table, others)
  {
    match Find(t, op.key)
    case Hit(i', j') =>
      FindHolds(t, op.key);
      FinishAtSpares(t, op, i', j', others);
    case Miss =>
      AddAtSpares(t, op, i, j, others);
  }

  lemma RecheckAlike(t: Table, u: Table, op: Op, i: nat, j: nat, locks: set<nat>)
    requires op.UpraseFn? && KeyOurs(t, op.key) && KeyOurs(u, op.key) && Writable(t, i, j) && Writable(u, i, j)
    requires Agree(t, u, locks) && KeyLocks(t.hash, t.power, op.key) <= locks && LockOf(i) in locks
    ensures Alike(Recheck(t, op, i, j), Recheck(u, op, i, j), locks)
  {
    SameFind(t, u, op.key, locks);
    match Find(t, op.key)
    case Hit(i', j') =>
      FindHolds(t, op.key);
      FinishAtAlike(t, u, op, i', j', locks);
    case Miss =>
      AddAtAlike(t, u, op, i, j, locks);
  }

  lemma MoveNothingSpares(t: Table, op: Op, power: nat, path: seq<Record>, others: set<nat>)
    requires op.UpraseFn? && Shape(t) && path != [] && PathOk(t.hash, t.width, power, op.key, path)
    requires KeyLocks(t.hash, power, op.key) !! others
    ensures Spares(t, MoveNothing(t, op, power, path).table, others)
  {
    SparesSelf(t, others);
    if t.power == power {
      assert RecordOk(t.hash, t.width, power, op.key, path, 0);
      var u := LockKey(t, op.key);
      LockKeySpares(t, op.key, others);
      if u.buckets[path[0].bucket][path[0].slot].Empty? {
        RecheckSpares(u, op, path[0].bucket, path[0].slot, others);
        SparesTrans(t, u, MoveNothing(t, op, power, path).table, others);
      }
    }
  }

  lemma MoveNothingAlike(t: Table, u: Table, op: Op, power: nat, path: seq<Record>, locks: set<nat>)
    requires op.UpraseFn? && Shape(t) && Shape(u) && path != [] && PathOk(t.hash, t.width, power, op.key, path)
    requires Agree(t, u, locks) && KeyLocks(t.hash, power, op.key) <= locks
    ensures Alike(MoveNothing(t, op, power, path), MoveNothing(u, op, power, path), locks)
  {
    if t.power == power {
      assert RecordOk(t.hash, t.width, power, op.key, path, 0);
      LockKeyAgree(t, u, op.key, locks);
      var t', u' := LockKey(t, op.key), LockKey(u, op.key);
      assert SameBucket(t', u', path[0].bucket);
      if t'.buckets[path[0].bucket][path[0].slot].Empty? {
        RecheckAlike(t', u', op, path[0].bucket, path[0].slot, locks);
      }
    }
  }

  lemma MoveOnPathSpares(t: Table, op: Op, power: nat, path: seq<Record>, depth: nat, others: set<nat>)
    requires op.UpraseFn? && Shape(t) && 1 < depth < |path| && PathOk(t.hash, t.width, power, op.key, path)
    requires LockOf(path[depth - 1].bucket) !in others && LockOf(path[depth].bucket) !in others
    ensures Spares(t, MoveOnPath(t, op, power, path, depth).table, others)
  {
    SparesSelf(t, others);
    if t.power == power {
      assert RecordOk(t.hash, t.width, power, op.key, path, depth - 1) && RecordOk(t.hash, t.width, power, op.key, path, depth);
      var from, to := path[depth - 1], path[depth];
      var u := LockTwo(t, from.bucket, to.bucket);
      LockTwoSpares(t, from.bucket, to.bucket, others);
      if StillValid(u, from, to) {
        DisplaceSpares(u, from.bucket, from.slot, to.bucket, to.slot, others);
        SparesTrans(t, u, Displace(u, from.bucket, from.slot, to.bucket, to.slot), others);
      }
    }
  }

  lemma SameValid(t: Table, u: Table, from: Record, to: Record, locks: set<nat>)
    requires Shape(t) && Shape(u) && Agree(t, u, locks) && LockOf(from.bucket) in locks && LockOf(to.bucket) in locks
    requires from.bucket < |t.buckets| && from.slot < t.width && to.bucket < |t.buckets| && to.slot < t.width
    ensures StillValid(t, from, to) <==> StillValid(u, from, to)
  {
    assert SameBucket(t, u, from.bucket) && SameBucket(t, u, to.bucket);
  }

  lemma MoveOnPathAlike(t: Table, u: Table, op: Op, power: nat, path: seq<Record>, depth: nat, locks: set<nat>)
    requires op.UpraseFn? && Shape(t) && Shape(u) && 1 < depth < |path| && PathOk(t.hash, t.width, power, op.key, path)
    requires Agree(t, u, locks) && LockOf(path[depth - 1].bucket) in locks && LockOf(path[depth].bucket) in locks
    ensures Alike(MoveOnPath(t, op, power, path, depth), MoveOnPath(u, op, power, path, depth), locks)
  {
    if t.power == power {
      assert RecordOk(t.hash, t.width, power, op.key, path, depth - 1) && RecordOk(t.hash, t.width, power, op.key, path, depth);
      var from, to := path[depth - 1], path[depth];
      LockTwoAgree(t, u, from.bucket, to.bucket, locks);
      var t', u' := LockTwo(t, from.bucket, to.bucket), LockTwo(u, from.bucket, to.bucket);
      SameValid(t', u', from, to, locks);
      if StillValid(t', from, to) {
        DisplaceAgree(t', u', from.bucket, from.slot, to.bucket, to.slot, locks);
      }
    }
  }

  lemma MoveLastSpares(t: Table, op: Op, power: nat, path: seq<Record>, others: set<nat>)
    requires op.UpraseFn? && Shape(t) && 1 < |path| && PathOk(t.hash, t.width, power, op.key, path)
    requires KeyLocks(t.hash, power, op.key) !! others && LockOf(path[1].bucket) !in others
    ensures Spares(t, MoveLast(t, op, power, path).table, others)
  {
    SparesSelf(t, others);
    if t.power == power {
      assert RecordOk(t.hash, t.width, power, op.key, path, 0) && RecordOk(t.hash, t.width, power, op.key, path, 1);
      var from, to := path[0], path[1];
      var u := LockKeyAnd(t, op.key, to.bucket);
      LockKeyAndSpares(t, op.key, to.bucket, others);
      if StillValid(u, from, to) {
        LastDisplaced(u, op, path);
        var w := Displace(u, from.bucket, from.slot, to.bucket, to.slot);
        DisplaceSpares(u, from.bucket, from.slot, to.bucket, to.slot, others);
        SparesTrans(t, u, w, others);
        RecheckSpares(w, op, from.bucket, from.slot, others);
        SparesTrans(t, w, MoveLast(t, op, power, path).table, others);
      }
    }
  }

  lemma MoveLastAlike(t: Table, u: Table, op: Op, power: nat, path: seq<Record>, locks: set<nat>)
    requires op.UpraseFn? && Shape(t) && Shape(u) && 1 < |path| && PathOk(t.hash, t.width, power, op.key, path)
    requires Agree(t, u, locks) && KeyLocks(t.hash, power, op.key) <= locks && LockOf(path[1].bucket) in locks
    ensures Alike(MoveLast(t, op, power, path), MoveLast(u, op, power, path), locks)
  {
    if t.power == power {
      assert RecordOk(t.hash, t.width, power, op.key, path, 0) && RecordOk(t.hash, t.width, power, op.key, path, 1);
      var from, to := path[0], path[1];
      LockKeyAndAgree(t, u, op.key, to.bucket, locks);
      var t', u' := LockKeyAnd(t, op.key, to.bucket), LockKeyAnd(u, op.key, to.bucket);
      SameValid(t', u', from, to, locks);
      if StillValid(t', from, to) {
        LastDisplaced(t', op, path);
        LastDisplaced(u', op, path);
        DisplaceAgree(t', u', from.bucket, from.slot, to.bucket, to.slot, locks);
        RecheckAlike(Displace(t', from.bucket, from.slot, to.bucket, to.slot),
                     Displace(u', from.bucket, from.slot, to.bucket, to.slot), op, from.bucket, from.slot, locks);
      }
    }
  }

  // ---------------------------------------------------------------------------
  // Steps of the transition system
  // ---------------------------------------------------------------------------

  /** The step holds some locks only; doubling and clearing hold them all. */
  predicate Local(phase: Phase, choice: Choice) {
    !choice.Go? || !(phase.Expanding? || (phase.Waiting? && phase.op.Clear?))
  }

  /** The locks a step takes. */
  function HeldLocks(t: Table, phase: Phase, choice: Choice): set<nat>
    requires PhaseOk(t, phase) && Local(phase, choice)
  {
    match phase
    case Idle => {}
    case Waiting(op) => if choice.Go? then KeyLocks(t.hash, t.power, op.key) else {}
    case Searching(op, power, path) =>
      (match choice
       case Look(bucket) => {LockOf(bucket)}
       case Fill(second, _, _) => {LockOf(NextBucket(t, op, power, path, second))}
       case _ => {})
    case Moving(op, power, path, depth) =>
      if !choice.Go? then {}
      else if depth == 0 then KeyLocks(t.hash, power, op.key)
      else if depth == 1 then KeyLocks(t.hash, power, op.key) + {LockOf(path[1].bucket)}
      else {LockOf(path[depth - 1].bucket), LockOf(path[depth].bucket)}
    case Expanding(_, _) => {}
  }

  /** A critical section writes nothing that belongs to a lock it does not hold, other than freeing the
      old table once every lock has been migrated. */
  lemma AdvanceSpares(t: Table, phase: Phase, choice: Choice, others: set<nat>)
    requires Shape(t) && PhaseOk(t, phase) && !phase.Idle? && Local(phase, choice)
    requires HeldLocks(t, phase, choice) !! others
    ensures Spares(t, Advance(t, phase, choice).table, others)
  {
    SparesSelf(t, others);
    match phase
    case Waiting(op) =>
      if choice.Go? {
        BeginSpares(t, op, others);
      }
    case Searching(op, power, path) =>
      match choice {
        case Look(bucket) => VisitSpares(t, op, power, path, bucket, others);
        case Fill(second, slot, last) =>
          if slot < t.width {
            ExtendSpares(t, op, power, path, second, slot, last, others);
          }
        case _ =>
      }
    case Moving(op, power, path, depth) =>
      if choice.Go? {
        if depth == 0 {
          MoveNothingSpares(t, op, power, path, others);
        } else if depth == 1 {
          MoveLastSpares(t, op, power, path, others);
        } else {
          MoveOnPathSpares(t, op, power, path, depth, others);
        }
      }
    case Expanding(_, _) =>
  }

  /** A critical section reads nothing but what belongs to the locks it holds: on two tables that agree
      there it takes the same turn, gives the same answer and leaves tables that agree there. */
  lemma AdvanceAlike(t: Table, u: Table, phase: Phase, choice: Choice, locks: set<nat>)
    requires Shape(t) && Shape(u) && PhaseOk(t, phase) && PhaseOk(u, phase) && !phase.Idle? && Local(phase, choice)
    requires Agree(t, u, locks) && HeldLocks(t, phase, choice) <= locks
    ensures Alike(Advance(t, phase, choice), Advance(u, phase, choice), locks)
  {
    match phase
    case Waiting(op) =>
      if choice.Go? {
        BeginAlike(t, u, op, locks);
      }
    case Searching(op, power, path) =>
      match choice {
        case Look(bucket) => VisitAlike(t, u, op, power, path, bucket, locks);
        case Fill(second, slot, last) =>
          if slot < t.width {
            ExtendAlike(t, u, op, power, path, second, slot, last, locks);
          }
        case _ =>
      }
    case Moving(op, power, path, depth) =>
      if choice.Go? {
        if depth == 0 {
          MoveNothingAlike(t, u, op, power, path, locks);
        } else if depth == 1 {
          MoveLastAlike(t, u, op, power, path, locks);
        } else {
          MoveOnPathAlike(t, u, op, power, path, depth, locks);
        }
      }
    case Expanding(_, _) =>
  }

  // ---------------------------------------------------------------------------
  // Steps with disjoint locks commute
  // ---------------------------------------------------------------------------

  lemma AgreeSym(t: Table, u: Table, locks: set<nat>)
    requires Agree(t, u, locks)
    ensures Agree(u, t, locks)
  {
    forall i: nat {:trigger SameBucket(u, t, i)} | LockOf(i) in locks ensures SameBucket(u, t, i) {
      assert SameBucket(t, u, i);
    }
    forall l: nat {:trigger SameLock(u, t, l)} | l in locks ensures SameLock(u, t, l) {
      assert SameLock(t, u, l);
    }
    forall i: nat {:trigger SameOld(u, t, i)} | LockOf(i) in locks ensures SameOld(u, t, i) {
      assert SameOld(t, u, i);
    }
  }

  lemma AgreeBoth(t: Table, u: Table, some: set<nat>, more: set<nat>)
    requires Agree(t, u, some) && Agree(t, u, more)
    ensures Agree(t, u, some + more)
  {
    forall i: nat {:trigger SameBucket(t, u, i)} | LockOf(i) in some + more ensures SameBucket(t, u, i) {}
    forall l: nat {:trigger SameLock(t, u, l)} | l in some + more ensures SameLock(t, u, l) {}
    forall i: nat {:trigger SameOld(t, u, i)} | LockOf(i) in some + more ensures SameOld(t, u, i) {}
  }

  /** Tables that agree on every lock, each with the old buckets of a third table or none, are equal. */
  lemma AgreeEqual(t: Table, u: Table, prior: seq<Bucket>, locks: set<nat>)
    requires Shape(t) && Shape(u) && Agree(t, u, locks) && forall l: nat :: l < |t.migrated| ==> l in locks
    requires (t.prior == prior || t.prior == []) && (u.prior == prior || u.prior == [])
    ensures t == u
  {
    forall i: nat | i < |t.buckets| ensures t.buckets[i] == u.buckets[i] {
      LockInRange(t.power, i);
      assert SameBucket(t, u, i);
    }
    forall l: nat | l < |t.migrated| ensures t.migrated[l] == u.migrated[l] && t.counters[l] == u.counters[l] {
      assert SameLock(t, u, l);
    }
    assert t.buckets == u.buckets && t.migrated == u.migrated && t.counters == u.counters;
    OldFreedWhenMigrated(t);
    OldFreedWhenMigrated(u);
  }

  /** a and b come from t by steps that hold the locks some and more; ab and ba by both, in either order. */
  lemma SquareCloses(t: Table, a: Table, b: Table, ab: Table, ba: Table, some: set<nat>, more: set<nat>, rest: set<nat>)
    requires Spares(t, a, rest) && Spares(a, ab, some + rest) && Agree(b, ab, more)
    requires Spares(t, b, rest) && Spares(b, ba, more + rest) && Agree(a, ba, some)
    requires Shape(ab) && Shape(ba) && forall l: nat :: l < |t.migrated| ==> l in some + more + rest
    ensures ab == ba
  {
    AgreeFewer(a, ab, some + rest, some);
    AgreeFewer(a, ab, some + rest, rest);
    AgreeFewer(b, ba, more + rest, more);
    AgreeFewer(b, ba, more + rest, rest);
    AgreeSym(a, ab, some);
    AgreeTrans(ab, a, ba, some);
    AgreeSym(b, ab, more);
    AgreeTrans(ab, b, ba, more);
    AgreeTrans(t, a, ab, rest);
    AgreeTrans(t, b, ba, rest);
    AgreeSym(t, ab, rest);
    AgreeTrans(ab, t, ba, rest);
    AgreeBoth(ab, ba, some, more);
    AgreeBoth(ab, ba, some + more, rest);
    AgreeEqual(ab, ba, t.prior, some + more + rest);
  }

  /** What a step does to the table and to the thread that takes it. */
  function Turn(t: Table, phase: Phase, choice: Choice): Effect
    requires Shape(t) && PhaseOk(t, phase)
  {
    if phase.Idle? then Effect(t, if choice.Call? then Waiting(choice.op) else Idle, None)
    else if choice.Throw? && phase.Expanding? then Effect(t, Idle, None)
    else Advance(t, phase, choice)
  }

  /** The event a step adds to the history, if any. */
  function Logged(n: nat, phase: Phase, e: Effect): seq<Event> {
    if e.outcome.Some? && !phase.Idle? then [Event(n, phase.op, e.outcome.value)] else []
  }

  lemma StepIsTurn(c: Config, n: nat, choice: Choice)
    requires Inv(c) && n < |c.threads|
    ensures var e := Turn(c.table, c.threads[n], choice);
            Step(c, n, choice) == Config(e.table, c.threads[n := e.phase], c.history + Logged(n, c.threads[n], e))
  {
  }

  lemma TurnSpares(t: Table, phase: Phase, choice: Choice, others: set<nat>)
    requires Shape(t) && PhaseOk(t, phase) && Local(phase, choice) && HeldLocks(t, phase, choice) !! others
    ensures Spares(t, Turn(t, phase, choice).table, others)
  {
    SparesSelf(t, others);
    if !phase.Idle? && !(choice.Throw? && phase.Expanding?) {
      AdvanceSpares(t, phase, choice, others);
    }
  }

  lemma TurnAlike(t: Table, u: Table, phase: Phase, choice: Choice, locks: set<nat>)
    requires Shape(t) && Shape(u) && PhaseOk(t, phase) && PhaseOk(u, phase) && Local(phase, choice)
    requires Agree(t, u, locks) && HeldLocks(t, phase, choice) <= locks
    ensures Alike(Turn(t, phase, choice), Turn(u, phase, choice), locks)
  {
    if !phase.Idle? && !(choice.Throw? && phase.Expanding?) {
      AdvanceAlike(t, u, phase, choice, locks);
    }
  }

  lemma SameHeld(t: Table, u: Table, phase: Phase, choice: Choice)
    requires SameKind(t, u) && PhaseOk(t, phase) && PhaseOk(u, phase) && Local(phase, choice)
    ensures HeldLocks(u, phase, choice) == HeldLocks(t, phase, choice)
  {
  }

  /** Two turns that start from t, and each after the other. */
  lemma TurnsCommute(t: Table, p: Phase, x: Choice, q: Phase, y: Choice)
    requires Shape(t) && PhaseOk(t, p) && PhaseOk(t, q) && Local(p, x) && Local(q, y)
    requires HeldLocks(t, p, x) !! HeldLocks(t, q, y)
    requires Shape(Turn(t, p, x).table) && PhaseOk(Turn(t, p, x).table, q)
    requires Shape(Turn(t, q, y).table) && PhaseOk(Turn(t, q, y).table, p)
    requires Shape(Turn(Turn(t, p, x).table, q, y).table) && Shape(Turn(Turn(t, q, y).table, p, x).table)
    ensures var e, f := Turn(t, p, x), Turn(t, q, y); var ef, fe := Turn(e.table, q, y), Turn(f.table, p, x);
            ef.table == fe.table && ef.phase == f.phase && ef.outcome == f.outcome && fe.phase == e.phase && fe.outcome == e.outcome
  {
    var e, f := Turn(t, p, x), Turn(t, q, y);
    var ours, theirs := HeldLocks(t, p, x), HeldLocks(t, q, y);
    var rest := Finite.Range(|t.migrated|) - ours - theirs;
    TurnSpares(t, p, x, theirs + rest);
    TurnSpares(t, q, y, ours + rest);
    AgreeFewer(t, e.table, theirs + rest, theirs);
    AgreeFewer(t, f.table, ours + rest, ours);
    AgreeFewer(t, e.table, theirs + rest, rest);
    AgreeFewer(t, f.table, ours + rest, rest);
    TurnAlike(t, e.table, q, y, theirs);
    TurnAlike(t, f.table, p, x, ours);
    SameHeld(t, e.table, q, y);
    SameHeld(t, f.table, p, x);
    TurnSpares(e.table, q, y, ours + rest);
    TurnSpares(f.table, p, x, theirs + rest);
    SquareCloses(t, e.table, f.table, Turn(e.table, q, y).table, Turn(f.table, p, x).table, ours, theirs, rest);
  }

  lemma NextIsTurn(c: Config, n: nat, choice: Choice, other: nat)
    requires Inv(c) && n < |c.threads| && other < |c.threads| && other != n
    ensures var e, c' := Turn(c.table, c.threads[n], choice), Next(c, Action(n, choice));
            && c' == Config(e.table, c.threads[n := e.phase], c.history + Logged(n, c.threads[n], e))
            && Shape(e.table) && PhaseOk(e.table, c.threads[other])
  {
    StepIsTurn(c, n, choice);
    assert Next(c, Action(n, choice)).threads[other] == c.threads[other];
  }

  /** Thread b takes a step after thread a. */
  lemma TwoTurns(c: Config, a: nat, x: Choice, b: nat, y: Choice)
    requires Inv(c) && a < |c.threads| && b < |c.threads| && a != b
    ensures var e := Turn(c.table, c.threads[a], x);
            && Shape(e.table) && PhaseOk(e.table, c.threads[b])
            && var ef := Turn(e.table, c.threads[b], y);
            && Shape(ef.table)
            && Next(Next(c, Action(a, x)), Action(b, y)) ==
               Config(ef.table, c.threads[a := e.phase][b := ef.phase],
                      c.history + Logged(a, c.threads[a], e) + Logged(b, c.threads[b], ef))
  {
    NextIsTurn(c, a, x, b);
    NextIsTurn(Next(c, Action(a, x)), b, y, a);
  }

  /** Both orders end in the same table and threads when each turn is the same in either. */
  lemma SameEnd(threads: seq<Phase>, a: nat, b: nat, e: Effect, f: Effect, ef: Effect, fe: Effect)
    requires a < |threads| && b < |threads| && a != b && ef.table == fe.table
    requires ef.phase == f.phase && ef.outcome == f.outcome && fe.phase == e.phase && fe.outcome == e.outcome
    ensures threads[a := e.phase][b := ef.phase] == threads[b := f.phase][a := fe.phase]
    ensures Logged(b, threads[b], ef) == Logged(b, threads[b], f) && Logged(a, threads[a], fe) == Logged(a, threads[a], e)
  {
  }

  /** Two threads whose critical sections hold no lock in common may take their steps in either order:
      the table, the threads and both answers come out the same. */
  lemma DisjointSectionsCommute(c: Config, a: nat, x: Choice, b: nat, y: Choice)
    requires Inv(c) && a < |c.threads| && b < |c.threads| && a != b
    requires Local(c.threads[a], x) && Local(c.threads[b], y)
    requires HeldLocks(c.table, c.threads[a], x) !! HeldLocks(c.table, c.threads[b], y)
    ensures var ab := Next(Next(c, Action(a, x)), Action(b, y)); var ba := Next(Next(c, Action(b, y)), Action(a, x));
            var logA := Logged(a, c.threads[a], Turn(c.table, c.threads[a], x));
            var logB := Logged(b, c.threads[b], Turn(c.table, c.threads[b], y));
            && ab.table == ba.table && ab.threads == ba.threads
            && ab.history == c.history + logA + logB && ba.history == c.history + logB + logA
  {
    TwoTurns(c, a, x, b, y);
    TwoTurns(c, b, y, a, x);
    TurnsCommute(c.table, c.threads[a], x, c.threads[b], y);
    var e, f := Turn(c.table, c.threads[a], x), Turn(c.table, c.threads[b], y);
    SameEnd(c.threads, a, b, e, f, Turn(e.table, c.threads[b], y), Turn(f.table, c.threads[a], x));
  }
}
