/**
 What every critical section of the cuckoo hash map achieves: which operations finish in it, where a new
 element goes, and that a thread whose path nobody disturbs comes to the end of it.
 */
module CuckooProgress {
  import opened CuckooTable
  import opened CuckooSteps
  import opened CuckooResize
  import opened CuckooProtocol

  // ---------------------------------------------------------------------------
  // The first critical section
  // ---------------------------------------------------------------------------

  ghost predicate HasRoom(b: Bucket) {
    exists j: nat :: j < |b| && b[j].Empty?
  }

  /** j is the last empty slot. */
  ghost predicate LastFree(b: Bucket, j: nat) {
    j < |b| && b[j].Empty? && forall x :: j < x < |b| ==> b[x].Full?
  }

  lemma {:induction false} LastEmptyIs(b: Bucket, n: nat)
    requires n <= |b|
    ensures LastEmpty(b, n) < n ==> forall x :: LastEmpty(b, n) < x < n ==> b[x].Full?
    ensures LastEmpty(b, n) == n ==> forall x :: 0 <= x < n ==> b[x].Full?
    decreases n
  {
    if n > 0 {
      LastEmptyIs(b, n - 1);
    }
  }

  lemma SpotInIs(b: Bucket, k: Key, partial: nat)
    ensures SpotIn(b, k, partial).Vacant? ==> LastFree(b, SpotIn(b, k, partial).slot)
    ensures !SpotIn(b, k, partial).Duplicate? ==> (SpotIn(b, k, partial).Vacant? <==> HasRoom(b))
  {
    LastEmptyIs(b, |b|);
  }

  /** find, update, erase and clear finish in their first critical section. */
  lemma BeginFinishes(t: Table, op: Op)
    requires Shape(t) && !op.UpraseFn?
    ensures Begin(t, op).outcome.Some?
  {
  }

  /** An insertion finishes in its first critical section if and only if the key is there or one of its two
      buckets has an empty slot; otherwise it goes on to search for a path. */
  lemma BeginInserts(t: Table, m: map<Key, Value>, op: Op)
    requires op.UpraseFn? && Stands(t, m) && Shape(t)
    ensures var u := LockKey(t, op.key); var i1, i2 := First(u.power, u.hash(op.key)), Second(u.power, u.hash(op.key));
            && Ours(u, i1) && Ours(u, i2)
            && (Begin(t, op).outcome.Some? <==> op.key in m || HasRoom(u.buckets[i1]) || HasRoom(u.buckets[i2]))
            && (Begin(t, op).outcome.None? ==> Begin(t, op) == Effect(u, Searching(op, t.power, []), None))
  {
    var u, k := LockKey(t, op.key), op.key;
    LockKeyStands(t, m, k);
    var i1, i2, partial := First(u.power, u.hash(k)), Second(u.power, u.hash(k)), PartialKey(u.hash(k));
    SpotInIs(u.buckets[i1], k, partial);
    SpotInIs(u.buckets[i2], k, partial);
    if SpotIn(u.buckets[i1], k, partial).Duplicate? {
      FoundValue(u, m, i1, SpotIn(u.buckets[i1], k, partial).slot, k);
    } else if SpotIn(u.buckets[i2], k, partial).Duplicate? {
      FoundValue(u, m, i2, SpotIn(u.buckets[i2], k, partial).slot, k);
    } else {
      MissMeansAbsent(u, m, k);
    }
  }

  /** Where an absent key goes: the last empty slot of its first bucket, or of its second one when the first
      is full. */
  lemma BeginAddsTo(t: Table, m: map<Key, Value>, op: Op) returns (i: nat, j: nat)
    requires op.UpraseFn? && Stands(t, m) && Shape(t) && op.key !in m && Begin(t, op).outcome.Some?
    ensures var u := LockKey(t, op.key); var i1, i2 := First(u.power, u.hash(op.key)), Second(u.power, u.hash(op.key));
            && Ours(u, i1) && Ours(u, i2) && LockOf(i) < |u.counters|
            && i == (if HasRoom(u.buckets[i1]) then i1 else i2) && LastFree(u.buckets[i], j)
            && Begin(t, op) == Effect(Add(u, i, j, op.key, op.value), Idle, Some(Inserted))
  {
    var u, k := LockKey(t, op.key), op.key;
    LockKeyStands(t, m, k);
    BeginInserts(t, m, op);
    var i1, i2, partial := First(u.power, u.hash(k)), Second(u.power, u.hash(k)), PartialKey(u.hash(k));
    var s1, s2 := SpotIn(u.buckets[i1], k, partial), SpotIn(u.buckets[i2], k, partial);
    SpotInIs(u.buckets[i1], k, partial);
    SpotInIs(u.buckets[i2], k, partial);
    NotThere(u, m, i1, k, partial);
    NotThere(u, m, i2, k, partial);
    i, j := i1, 0;
    if s1.Vacant? {
      j := s1.slot;
    } else {
      i, j := i2, s2.slot;
    }
  }

  lemma NotThere(u: Table, m: map<Key, Value>, i: nat, k: Key, partial: nat)
    requires Stands(u, m) && k !in m && Shape(u) && Ours(u, i)
    ensures !SpotIn(u.buckets[i], k, partial).Duplicate?
  {
    if SpotIn(u.buckets[i], k, partial).Duplicate? {
      FoundValue(u, m, i, SpotIn(u.buckets[i], k, partial).slot, k);
    }
  }

  /** In every reachable state the next step of a lookup, an update, an erasure or a clear answers it, and answers
      what the map says; so does that of an insertion whose key is there or has room. */
  lemma NextStepAnswers(c: Config, n: nat)
    requires Inv(c) && n < |c.threads| && c.threads[n].Waiting?
    requires var op := c.threads[n].op; op.UpraseFn? ==> Begin(c.table, op).outcome.Some?
    ensures var op := c.threads[n].op; var c' := Step(c, n, Go);
            c'.threads == c.threads[n := Idle] && c'.history == c.history + [Event(n, op, Answer(Replay(c.history), op))]
  {
    var op := c.threads[n].op;
    if !op.UpraseFn? {
      BeginFinishes(c.table, op);
    }
    AdvanceGood(c.table, Replay(c.history), c.threads[n], Go);
    assert Advance(c.table, c.threads[n], Go) == Begin(c.table, op);
  }

  // ---------------------------------------------------------------------------
  // Along a path
  // ---------------------------------------------------------------------------

  /** A step that finds another hashpower starts the operation again. */
  lemma StalePath(t: Table, op: Op, power: nat, path: seq<Record>, depth: nat, second: bool, slot: nat, last: bool, bucket: nat)
    requires op.UpraseFn? && Shape(t) && PhaseOk(t, Moving(op, power, path, depth)) && t.power != power && slot < t.width
    ensures Advance(t, Moving(op, power, path, depth), Go) == Effect(t, Waiting(op), None)
    ensures Extend(t, op, power, path, second, slot, last) == Visit(t, op, power, path, bucket) == Effect(t, Waiting(op), None)
    ensures Expand(t, op, power) == Effect(t, Waiting(op), None)
  {
  }

  /** At an unchanged hashpower, the last part of an insertion at depth 0 finishes if and only if the slot is
      still empty; otherwise the search begins again. */
  lemma MoveNothingFinishes(t: Table, op: Op, path: seq<Record>)
    requires op.UpraseFn? && Shape(t) && path != [] && PathOk(t.hash, t.width, t.power, op.key, path)
    ensures var u, e := LockKey(t, op.key), MoveNothing(t, op, t.power, path);
            && RecordOk(t.hash, t.width, t.power, op.key, path, 0)
            && if u.buckets[path[0].bucket][path[0].slot].Empty? then e.outcome.Some?
               else e == Effect(u, Searching(op, t.power, []), None)
  {
    assert RecordOk(t.hash, t.width, t.power, op.key, path, 0);
  }

  /** So does the last displacement together with the insertion, if and only if it is still valid. */
  lemma MoveLastFinishes(t: Table, op: Op, path: seq<Record>)
    requires op.UpraseFn? && Shape(t) && 1 < |path| && PathOk(t.hash, t.width, t.power, op.key, path)
    ensures RecordOk(t.hash, t.width, t.power, op.key, path, 0) && RecordOk(t.hash, t.width, t.power, op.key, path, 1)
    ensures var u, e := LockKeyAnd(t, op.key, path[1].bucket), MoveLast(t, op, t.power, path);
            if StillValid(u, path[0], path[1]) then e.outcome.Some? else e == Effect(u, Searching(op, t.power, []), None)
  {
    assert RecordOk(t.hash, t.width, t.power, op.key, path, 0) && RecordOk(t.hash, t.width, t.power, op.key, path, 1);
  }

  /** A displacement before that moves the entry and goes one position down the path if it is still valid, and
      otherwise moves nothing and searches again. */
  lemma MoveOnPathGoesDown(t: Table, op: Op, path: seq<Record>, depth: nat)
    requires op.UpraseFn? && Shape(t) && 1 < depth < |path| && PathOk(t.hash, t.width, t.power, op.key, path)
    ensures RecordOk(t.hash, t.width, t.power, op.key, path, depth - 1) && RecordOk(t.hash, t.width, t.power, op.key, path, depth)
    ensures var from, to := path[depth - 1], path[depth]; var u := LockTwo(t, from.bucket, to.bucket);
            MoveOnPath(t, op, t.power, path, depth) ==
            if StillValid(u, from, to)
            then Effect(Displace(u, from.bucket, from.slot, to.bucket, to.slot), Moving(op, t.power, path, depth - 1), None)
            else Effect(u, Searching(op, t.power, []), None)
  {
    assert RecordOk(t.hash, t.width, t.power, op.key, path, depth - 1) && RecordOk(t.hash, t.width, t.power, op.key, path, depth);
  }

  /** Expansion at the expected hashpower doubles the table, after which the operation starts again. */
  lemma ExpandRaises(t: Table, op: Op)
    requires Shape(t)
    ensures Expand(t, op, t.power).phase == Waiting(op) && Expand(t, op, t.power).table.power == t.power + 1
    ensures |Expand(t, op, t.power).table.buckets| == 2 * |t.buckets|
  {
    MigrateFromKind(t, 0);
  }

  // ---------------------------------------------------------------------------
  // A path that nobody disturbs
  // ---------------------------------------------------------------------------

  /** A position of a path is in a migrated bucket and holds a key with the hash that was seen there. */
  ghost predicate Occupied(t: Table, r: Record) {
    && Ours(t, r.bucket) && r.slot < |t.buckets[r.bucket]| && t.buckets[r.bucket][r.slot].Full?
    && t.hash(t.buckets[r.bucket][r.slot].key) == r.hash
  }

  ghost predicate Vacated(t: Table, r: Record) {
    Ours(t, r.bucket) && r.slot < |t.buckets[r.bucket]| && t.buckets[r.bucket][r.slot].Empty?
  }

  ghost predicate SameSlot(r: Record, s: Record) {
    r.bucket == s.bucket && r.slot == s.slot
  }

  /** The positions before depth are occupied as the search saw them, no two of the first depth + 1 are the
      same slot. */
  ghost predicate Undisturbed(t: Table, path: seq<Record>, depth: nat)
    requires depth <= |path|
  {
    && (forall n: nat {:trigger path[n]} :: n < depth ==> Occupied(t, path[n]))
    && (forall n: nat, p: nat {:trigger path[n], path[p]} :: n < p <= depth && p < |path| ==> !SameSlot(path[n], path[p]))
  }

  /** The search has seen everything up to an empty slot at its end. */
  ghost predicate Ready(t: Table, k: Key, path: seq<Record>, depth: nat) {
    && Shape(t) && depth < |path| && PathOk(t.hash, t.width, t.power, k, path)
    && Undisturbed(t, path, depth) && Vacated(t, path[depth])
  }

  /** Taking locks leaves migrated buckets as they are. */
  ghost predicate SameOurs(t: Table, u: Table) {
    && SameKind(t, u) && Shape(u)
    && forall x: nat {:trigger Ours(u, x)} {:trigger u.buckets[x]} :: Ours(t, x) ==> Ours(u, x) && u.buckets[x] == t.buckets[x]
  }

  lemma LockOneSame(t: Table, i: nat)
    requires Shape(t) && i < |t.buckets|
    ensures SameOurs(t, LockOne(t, i))
  {
    LockInRange(t.power, i);
    var u := LockOne(t, i);
    forall x: nat {:trigger Ours(u, x)} | Ours(t, x)
      ensures Ours(u, x) && u.buckets[x] == t.buckets[x]
    {
    }
  }

  lemma LockTwoSame(t: Table, a: nat, b: nat)
    requires Shape(t) && a < |t.buckets| && b < |t.buckets|
    ensures SameOurs(t, LockTwo(t, a, b))
  {
    var first, second := if LockOf(b) < LockOf(a) then b else a, if LockOf(b) < LockOf(a) then a else b;
    LockOneSame(t, first);
    LockOneSame(LockOne(t, first), second);
    SameTrans(t, LockOne(t, first), LockTwo(t, a, b));
  }

  lemma SameTrans(t: Table, u: Table, w: Table)
    requires SameOurs(t, u) && SameOurs(u, w)
    ensures SameOurs(t, w)
  {
    forall x: nat {:trigger Ours(w, x)} | Ours(t, x)
      ensures Ours(w, x) && w.buckets[x] == t.buckets[x]
    {
      assert Ours(u, x);
    }
  }

  lemma LockThreeSame(t: Table, a: nat, b: nat, c: nat)
    requires Shape(t) && a < |t.buckets| && b < |t.buckets| && c < |t.buckets|
    ensures SameOurs(t, LockThree(t, a, b, c))
  {
    var first := if LockOf(c) < LockOf(a) && LockOf(c) < LockOf(b) then c else if LockOf(b) < LockOf(a) then b else a;
    var u := LockOne(t, first);
    LockOneSame(t, first);
    if LockOf(c) < LockOf(a) && LockOf(c) < LockOf(b) {
      LockTwoSame(u, a, b);
    } else if LockOf(b) < LockOf(a) {
      LockTwoSame(u, a, c);
    } else {
      LockTwoSame(u, b, c);
    }
    SameTrans(t, u, LockThree(t, a, b, c));
  }

  lemma StaysReady(t: Table, u: Table, k: Key, path: seq<Record>, depth: nat)
    requires Ready(t, k, path, depth) && SameOurs(t, u)
    ensures Ready(u, k, path, depth)
  {
    forall n: nat {:trigger path[n]} | n < depth
      ensures Occupied(u, path[n])
    {
      assert Occupied(t, path[n]) && Ours(u, path[n].bucket);
    }
    assert Ours(u, path[depth].bucket);
  }

  /** After the displacement the path is ready one position further down. */
  lemma DownReady(t: Table, k: Key, path: seq<Record>, depth: nat)
    requires Ready(t, k, path, depth) && 0 < depth
    ensures StillValid(t, path[depth - 1], path[depth])
    ensures var from, to := path[depth - 1], path[depth]; var u := Displace(t, from.bucket, from.slot, to.bucket, to.slot);
            Shape(u) && SameKind(t, u) ==> Ready(u, k, path, depth - 1)
  {
    assert Occupied(t, path[depth - 1]);
    var from, to := path[depth - 1], path[depth];
    var u := Displace(t, from.bucket, from.slot, to.bucket, to.slot);
    forall n: nat {:trigger path[n]} | n < depth - 1
      ensures Occupied(u, path[n])
    {
      assert Occupied(t, path[n]) && !SameSlot(path[n], path[depth - 1]) && !SameSlot(path[n], path[depth]);
    }
  }

  lemma DisplacedShape(t: Table, k: Key, path: seq<Record>, depth: nat)
    requires Ready(t, k, path, depth) && 0 < depth
    ensures var from, to := path[depth - 1], path[depth];
            var u := Displace(t, from.bucket, from.slot, to.bucket, to.slot); Shape(u) && SameKind(t, u)
  {
    assert Occupied(t, path[depth - 1]);
    var from, to := path[depth - 1], path[depth];
    SetSlotShape(t, to.bucket, to.slot, t.buckets[from.bucket][from.slot]);
    SetSlotShape(SetSlot(t, to.bucket, to.slot, t.buckets[from.bucket][from.slot]), from.bucket, from.slot, Empty);
  }

  /** One step of the thread alone on a ready path: it finishes at depth 0 and 1 and goes down otherwise. */
  lemma StepOnReady(t: Table, op: Op, path: seq<Record>, depth: nat)
    requires op.UpraseFn? && Ready(t, op.key, path, depth)
    ensures var e := Advance(t, Moving(op, t.power, path, depth), Go);
            if depth <= 1 then e.outcome.Some?
            else e.outcome.None? && e.phase == Moving(op, t.power, path, depth - 1) && e.table.power == t.power &&
                 Ready(e.table, op.key, path, depth - 1)
  {
    assert RecordOk(t.hash, t.width, t.power, op.key, path, depth);
    if depth == 0 {
      MoveNothingFinishes(t, op, path);
      CandidateInRange(t.power, t.hash(op.key));
      LockTwoSame(t, First(t.power, t.hash(op.key)), Second(t.power, t.hash(op.key)));
      StaysReady(t, LockKey(t, op.key), op.key, path, 0);
    } else if depth == 1 {
      MoveLastFinishes(t, op, path);
      CandidateInRange(t.power, t.hash(op.key));
      LockThreeSame(t, First(t.power, t.hash(op.key)), Second(t.power, t.hash(op.key)), path[1].bucket);
      StaysReady(t, LockKeyAnd(t, op.key, path[1].bucket), op.key, path, 1);
      DownReady(LockKeyAnd(t, op.key, path[1].bucket), op.key, path, 1);
    } else {
      MoveOnPathGoesDown(t, op, path, depth);
      var u := LockTwo(t, path[depth - 1].bucket, path[depth].bucket);
      LockTwoSame(t, path[depth - 1].bucket, path[depth].bucket);
      StaysReady(t, u, op.key, path, depth);
      DisplacedShape(u, op.key, path, depth);
      DownReady(u, op.key, path, depth);
    }
  }

  /** The thread takes k steps alone. */
  ghost function Alone(t: Table, phase: Phase, k: nat): Effect
    requires Shape(t) && PhaseOk(t, phase) && !phase.Idle?
    decreases k
  {
    var e := Advance(t, phase, Go);
    if k <= 1 || e.phase.Idle? || !(Shape(e.table) && PhaseOk(e.table, e.phase)) then e else Alone(e.table, e.phase, k - 1)
  }

  /** A thread alone on a ready path finishes its insertion within as many steps as the path is deep. */
  lemma {:induction false} PathFinishes(t: Table, op: Op, path: seq<Record>, depth: nat)
    requires op.UpraseFn? && Ready(t, op.key, path, depth)
    ensures Alone(t, Moving(op, t.power, path, depth), depth).outcome.Some?
    decreases depth
  {
    StepOnReady(t, op, path, depth);
    if depth > 1 {
      PathFinishes(Advance(t, Moving(op, t.power, path, depth), Go).table, op, path, depth - 1);
    }
  }

  /** The search keeps what it has seen: the next position is in the other bucket of the key before it, and at
      an empty slot the path is ready. */
  lemma ExtendSees(t: Table, op: Op, path: seq<Record>, second: bool, slot: nat)
    requires op.UpraseFn? && Shape(t) && slot < t.width && PathOk(t.hash, t.width, t.power, op.key, path)
    requires Undisturbed(t, path, |path|)
    ensures NextBucket(t, op, t.power, path, second) ==
            if path == [] then if second then Second(t.power, t.hash(op.key)) else First(t.power, t.hash(op.key))
            else AltIndex(t.power, PartialKey(path[|path| - 1].hash), path[|path| - 1].bucket)
    ensures var b := NextBucket(t, op, t.power, path, second); var e := Extend(t, op, t.power, path, second, slot, false);
            (forall n: nat {:trigger path[n]} :: n < |path| ==> !(path[n].bucket == b && path[n].slot == slot)) ==>
              && (e.phase.Searching? || e.phase.Moving?) && e.phase.power == t.power == e.table.power && e.phase.op == op
              && PathOk(t.hash, t.width, t.power, op.key, e.phase.path)
              && |e.phase.path| == |path| + 1 && e.phase.path[..|path|] == path
              && e.phase.path[|path|].bucket == b && e.phase.path[|path|].slot == slot
              && if e.phase.Moving? then e.phase.depth == |path| && Ready(e.table, op.key, e.phase.path, |path|)
                 else Undisturbed(e.table, e.phase.path, |path| + 1)
  {
    NextBucketInRange(t, op, t.power, path, second);
    var b := NextBucket(t, op, t.power, path, second);
    LockOneSame(t, b);
    var u := LockOne(t, b);
    var s := u.buckets[b][slot];
    var r := Record(b, slot, if s.Full? then u.hash(s.key) else 0);
    PathGrows(t.hash, t.width, t.power, op.key, path, r);
    StillUndisturbed(t, u, path);
    if forall n: nat {:trigger path[n]} :: n < |path| ==> !SameSlot(path[n], r) {
      LongerUndisturbed(u, path, r);
    }
  }

  lemma StillUndisturbed(t: Table, u: Table, path: seq<Record>)
    requires Undisturbed(t, path, |path|) && SameOurs(t, u)
    ensures Undisturbed(u, path, |path|)
  {
    forall n: nat {:trigger path[n]} | n < |path|
      ensures Occupied(u, path[n])
    {
      assert Occupied(t, path[n]) && Ours(u, path[n].bucket);
    }
  }

  lemma LongerUndisturbed(u: Table, path: seq<Record>, r: Record)
    requires Undisturbed(u, path, |path|) && forall n: nat {:trigger path[n]} :: n < |path| ==> !SameSlot(path[n], r)
    ensures Undisturbed(u, path + [r], |path|) && (Occupied(u, r) ==> Undisturbed(u, path + [r], |path| + 1))
  {
    var longer := path + [r];
    assert forall n: nat {:trigger longer[n]} :: n < |path| ==> longer[n] == path[n];
    assert longer[|path|] == r;
  }
}
