/**
 The cuckoo hash map as a transition system. Every thread runs one operation at a time; a step is one
 critical section of one thread, from taking its locks to releasing them. Whatever the interleaving,
 the operations take effect one after the other on a plain map.
 */
module CuckooProtocol {
  import opened Bits
  import opened CuckooTable
  import opened CuckooSteps
  import opened CuckooResize

  // ---------------------------------------------------------------------------
  // The specification: operations on a map
  // ---------------------------------------------------------------------------

  /** What a functor makes of the value it is given: the new value, and whether to erase the element. */
  datatype Verdict = Verdict(value: Value, erase: bool)

  /** erase_fn (which find_fn, update_fn and erase specialise), uprase_fn (which insert, upsert and
      insert_or_assign specialise) and clear. */
  datatype Op = EraseFn(key: Key, fn: Value -> Verdict) | UpraseFn(key: Key, fn: Value -> Verdict, value: Value) | Clear

  /** Seen: the key was there, with this value; Inserted: uprase_fn added it. */
  datatype Outcome = Seen(value: Value) | Absent | Inserted | Cleared

  ghost function ApplyFn(m: map<Key, Value>, k: Key, fn: Value -> Verdict): map<Key, Value>
    requires k in m
  {
    if fn(m[k]).erase then m - {k} else m[k := fn(m[k]).value]
  }

  ghost function After(m: map<Key, Value>, op: Op): map<Key, Value> {
    match op
    case EraseFn(k, fn) => if k in m then ApplyFn(m, k, fn) else m
    case UpraseFn(k, fn, v) => if k in m then ApplyFn(m, k, fn) else m[k := v]
    case Clear => map[]
  }

  ghost function Answer(m: map<Key, Value>, op: Op): Outcome {
    match op
    case EraseFn(k, fn) => if k in m then Seen(m[k]) else Absent
    case UpraseFn(k, fn, v) => if k in m then Seen(m[k]) else Inserted
    case Clear => Cleared
  }

  datatype Event = Event(thread: nat, op: Op, outcome: Outcome)

  /** The map after the operations of a history, one after the other. */
  ghost function Replay(h: seq<Event>): map<Key, Value> {
    if h == [] then map[] else After(Replay(h[..|h| - 1]), h[|h| - 1].op)
  }

  /** Every answer is the one the map gives at that point of the history. */
  ghost predicate Legal(h: seq<Event>) {
    h == [] || (Legal(h[..|h| - 1]) && h[|h| - 1].outcome == Answer(Replay(h[..|h| - 1]), h[|h| - 1].op))
  }

  // ---------------------------------------------------------------------------
  // Tables and maps
  // ---------------------------------------------------------------------------

  ghost predicate Stands(t: Table, m: map<Key, Value>) {
    exists loc {:trigger Represents(t, m, loc)} :: Represents(t, m, loc)
  }

  /** Bucket i exists and its lock is held with its buckets migrated. */
  ghost predicate Ours(t: Table, i: nat) {
    i < |t.buckets| && LockOf(i) < |t.migrated| && t.migrated[LockOf(i)]
  }

  /** The old buckets are freed exactly when every lock has been migrated. */
  lemma OldFreedWhenMigrated(t: Table)
    requires Shape(t)
    ensures t.prior == [] <==> AllMigrated(t)
  {
    if AllMigrated(t) {
      assert Unmigrated(t.migrated) == {};
    } else {
      var l :| 0 <= l < |t.migrated| && !t.migrated[l];
      UnmigratedMeansOld(t, l);
    }
  }

  /** lock_one with the expected hashpower: take the lock of bucket i and migrate its buckets. */
  function LockOne(t: Table, i: nat): (u: Table)
    requires Shape(t) && i < |t.buckets|
    ensures Shape(u) && SameKind(t, u) && |u.buckets| == |t.buckets| && Ours(u, i)
    ensures forall x: nat {:trigger Ours(t, x)} {:trigger Ours(u, x)} :: Ours(t, x) ==> Ours(u, x)
  {
    LockInRange(t.power, i);
    MigrateKeepsShape(t, LockOf(i));
    Migrate(t, LockOf(i))
  }

  lemma LockOneStands(t: Table, m: map<Key, Value>, i: nat)
    requires Stands(t, m) && Shape(t) && i < |t.buckets|
    ensures Stands(LockOne(t, i), m)
  {
    LockInRange(t.power, i);
    var loc :| Represents(t, m, loc);
    MigrateRepresents(t, m, loc, LockOf(i));
  }

  /** lock_two: the lower lock first. */
  function LockTwo(t: Table, a: nat, b: nat): (u: Table)
    requires Shape(t) && a < |t.buckets| && b < |t.buckets|
    ensures Shape(u) && SameKind(t, u) && |u.buckets| == |t.buckets| && Ours(u, a) && Ours(u, b)
    ensures forall x: nat {:trigger Ours(t, x)} {:trigger Ours(u, x)} :: Ours(t, x) ==> Ours(u, x)
  {
    if LockOf(b) < LockOf(a) then LockOne(LockOne(t, b), a) else LockOne(LockOne(t, a), b)
  }

  lemma LockTwoStands(t: Table, m: map<Key, Value>, a: nat, b: nat)
    requires Stands(t, m) && Shape(t) && a < |t.buckets| && b < |t.buckets|
    ensures Stands(LockTwo(t, a, b), m)
  {
    var first, second := if LockOf(b) < LockOf(a) then b else a, if LockOf(b) < LockOf(a) then a else b;
    LockOneStands(t, m, first);
    LockOneStands(LockOne(t, first), m, second);
  }

  /** lock_three: in the order of the locks. */
  function LockThree(t: Table, a: nat, b: nat, c: nat): (u: Table)
    requires Shape(t) && a < |t.buckets| && b < |t.buckets| && c < |t.buckets|
    ensures Shape(u) && SameKind(t, u) && |u.buckets| == |t.buckets| && Ours(u, a) && Ours(u, b) && Ours(u, c)
  {
    if LockOf(c) < LockOf(a) && LockOf(c) < LockOf(b) then LockTwo(LockOne(t, c), a, b)
    else if LockOf(b) < LockOf(a) then LockTwo(LockOne(t, b), a, c)
    else LockTwo(LockOne(t, a), b, c)
  }

  lemma LockThreeStands(t: Table, m: map<Key, Value>, a: nat, b: nat, c: nat)
    requires Stands(t, m) && Shape(t) && a < |t.buckets| && b < |t.buckets| && c < |t.buckets|
    ensures Stands(LockThree(t, a, b, c), m)
  {
    if LockOf(c) < LockOf(a) && LockOf(c) < LockOf(b) {
      LockOneStands(t, m, c);
      LockTwoStands(LockOne(t, c), m, a, b);
    } else if LockOf(b) < LockOf(a) {
      LockOneStands(t, m, b);
      LockTwoStands(LockOne(t, b), m, a, c);
    } else {
      LockOneStands(t, m, a);
      LockTwoStands(LockOne(t, a), m, b, c);
    }
  }

  // ---------------------------------------------------------------------------
  // Under the locks of a key
  // ---------------------------------------------------------------------------

  /** Slot j of bucket i holds key k, and its lock is held. */
  ghost predicate Holds(t: Table, i: nat, j: nat, k: Key) {
    Ours(t, i) && LockOf(i) < |t.counters| && j < |t.buckets[i]| && t.buckets[i][j].Full? && t.buckets[i][j].key == k
  }

  lemma FindHolds(t: Table, k: Key)
    requires Shape(t) && Ours(t, First(t.power, t.hash(k))) && Ours(t, Second(t.power, t.hash(k))) && Find(t, k).Hit?
    ensures Holds(t, Find(t, k).bucket, Find(t, k).slot, k)
  {
  }

  lemma FoundValue(t: Table, m: map<Key, Value>, i: nat, j: nat, k: Key)
    requires Stands(t, m) && Holds(t, i, j, k)
    ensures k in m && t.buckets[i][j].value == m[k]
  {
    var loc :| Represents(t, m, loc);
    assert Known(t, m, loc, New(i, j));
    assert Located(t, m, loc, k);
  }

  lemma MissMeansAbsent(t: Table, m: map<Key, Value>, k: Key)
    requires Stands(t, m) && Shape(t) && Ours(t, First(t.power, t.hash(k))) && Ours(t, Second(t.power, t.hash(k)))
    requires Find(t, k).Miss?
    ensures k !in m
  {
    var loc :| Represents(t, m, loc);
    FindAgrees(t, m, loc, k);
  }

  /** Run the functor on a found element and erase the element if it says so. */
  function RunFn(t: Table, i: nat, j: nat, fn: Value -> Verdict): Table
    requires i < |t.buckets| && j < |t.buckets[i]| && t.buckets[i][j].Full? && LockOf(i) < |t.counters|
  {
    var verdict := fn(t.buckets[i][j].value);
    if verdict.erase then Remove(t, i, j) else Assign(t, i, j, verdict.value)
  }

  lemma RunFnStands(t: Table, m: map<Key, Value>, i: nat, j: nat, k: Key, fn: Value -> Verdict)
    requires Stands(t, m) && Holds(t, i, j, k)
    ensures k in m && Stands(RunFn(t, i, j, fn), ApplyFn(m, k, fn))
  {
    FoundValue(t, m, i, j, k);
    var loc :| Represents(t, m, loc);
    assert Known(t, m, loc, New(i, j));
    if fn(m[k]).erase {
      RemoveRepresents(t, m, loc, i, j, k);
    } else {
      AssignRepresents(t, m, loc, i, j, k, fn(m[k]).value);
    }
  }

  lemma AddStands(t: Table, m: map<Key, Value>, i: nat, j: nat, k: Key, v: Value)
    requires Stands(t, m) && k !in m && Candidate(t.power, t.hash(k), i)
    requires Ours(t, i) && j < |t.buckets[i]| && t.buckets[i][j].Empty? && LockOf(i) < |t.counters|
    ensures Stands(Add(t, i, j, k, v), m[k := v])
  {
    var loc :| Represents(t, m, loc);
    AddRepresents(t, m, loc, i, j, k, v);
  }

  lemma DisplaceStands(t: Table, m: map<Key, Value>, i: nat, j: nat, i': nat, j': nat)
    requires Stands(t, m) && CanDisplace(t, i, j, i', j') && Ours(t, i) && Ours(t, i')
    ensures Stands(Displace(t, i, j, i', j'), m)
  {
    var loc :| Represents(t, m, loc);
    DisplaceRepresents(t, m, loc, i, j, i', j');
  }

  lemma DoubleStands(t: Table, m: map<Key, Value>)
    requires Stands(t, m) && Shape(t)
    ensures Stands(Double(t), m) && Shape(Double(t)) && Double(t).power == t.power + 1
    ensures Double(t).hash == t.hash && Double(t).width == t.width
  {
    var loc :| Represents(t, m, loc);
    var loc' := DoubleRepresents(t, m, loc);
    MigrateFromKind(t, 0);
  }

  // ---------------------------------------------------------------------------
  // Empty tables
  // ---------------------------------------------------------------------------

  /** A new table, or the table after cuckoo_clear. */
  function Fresh(hash: Key -> nat, width: nat, power: nat): Table {
    Table(hash, width, power, EmptyBuckets(Pow2(power), width), [],
          seq(LockCount(power), _ => true), Zeros(LockCount(power)), 0)
  }

  lemma FreshStands(hash: Key -> nat, width: nat, power: nat)
    ensures Shape(Fresh(hash, width, power)) && Stands(Fresh(hash, width, power), map[])
  {
    var t := Fresh(hash, width, power);
    FreshShape(hash, width, power);
    SumOfZeros(LockCount(power));
    forall p {:trigger Known(t, map[], map[], p)}
      ensures Known(t, map[], map[], p)
    {
      FreshEmpty(hash, width, power, p);
    }
    assert Represents(t, map[], map[]);
  }

  lemma SumOfZeros(n: nat)
    ensures CounterSum(Zeros(n)) == 0
  {
    CounterSumZeros([], n);
    assert [] + Zeros(n) == Zeros(n);
  }

  lemma FreshShape(hash: Key -> nat, width: nat, power: nat)
    ensures Shape(Fresh(hash, width, power))
  {
    assert Unmigrated(Fresh(hash, width, power).migrated) == {};
  }

  lemma FreshEmpty(hash: Key -> nat, width: nat, power: nat, p: Pos)
    ensures Live(Fresh(hash, width, power), p) ==> At(Fresh(hash, width, power), p).Empty?
  {
  }

  // ---------------------------------------------------------------------------
  // Room for a new element
  // ---------------------------------------------------------------------------

  /** The last empty slot among the first n, or n when there is none. */
  function LastEmpty(b: Bucket, n: nat): (j: nat)
    requires n <= |b|
    ensures j <= n && (j < n ==> b[j].Empty?)
  {
    if n == 0 then 0
    else if b[n - 1].Empty? then n - 1
    else
      var j := LastEmpty(b, n - 1);
      if j == n - 1 then n else j
  }

  datatype Spot = Duplicate(slot: nat) | Vacant(slot: nat) | NoRoom

  function SpotIn(b: Bucket, k: Key, partial: nat): (s: Spot)
    ensures s.Duplicate? ==> s.slot < |b| && b[s.slot].Full? && b[s.slot].key == k
    ensures s.Vacant? ==> s.slot < |b| && b[s.slot].Empty?
    ensures s.Duplicate? <==> SlotOf(b, k, partial, 0) < |b|
  {
    var j := SlotOf(b, k, partial, 0);
    if j < |b| then Duplicate(j)
    else
      var e := LastEmpty(b, |b|);
      if e < |b| then Vacant(e) else NoRoom
  }

  // ---------------------------------------------------------------------------
  // Threads
  // ---------------------------------------------------------------------------

  /** One position of a cuckoo path; hash is that of the key seen there. */
  datatype Record = Record(bucket: nat, slot: nat, hash: nat)

  /** Waiting: about to take the locks of its key. Searching: building a cuckoo path for hashpower
      power. Moving: about to displace path[depth - 1] to path[depth]. Expanding: found no path. */
  datatype Phase =
    | Idle
    | Waiting(op: Op)
    | Searching(op: Op, power: nat, path: seq<Record>)
    | Moving(op: Op, power: nat, path: seq<Record>, depth: nat)
    | Expanding(op: Op, power: nat)

  datatype Option<T> = None | Some(value: T)

  /** What a critical section leaves behind; outcome is set when the operation has finished. */
  datatype Effect = Effect(table: Table, phase: Phase, outcome: Option<Outcome>)

  ghost predicate RecordOk(hash: Key -> nat, width: nat, power: nat, k: Key, path: seq<Record>, n: nat)
    requires n < |path|
  {
    && path[n].bucket < Pow2(power) && path[n].slot < width
    && if n == 0 then Candidate(power, hash(k), path[0].bucket)
       else path[n].bucket == AltIndex(power, PartialKey(path[n - 1].hash), path[n - 1].bucket)
  }

  ghost predicate PathOk(hash: Key -> nat, width: nat, power: nat, k: Key, path: seq<Record>) {
    forall n: nat {:trigger RecordOk(hash, width, power, k, path, n)} ::
      n < |path| ==> RecordOk(hash, width, power, k, path, n)
  }

  ghost predicate PhaseOk(t: Table, phase: Phase) {
    match phase
    case Idle => true
    case Waiting(_) => true
    case Searching(op, power, path) => op.UpraseFn? && power <= t.power && PathOk(t.hash, t.width, power, op.key, path)
    case Moving(op, power, path, depth) =>
      op.UpraseFn? && power <= t.power && depth < |path| && PathOk(t.hash, t.width, power, op.key, path)
    case Expanding(op, power) => op.UpraseFn? && power <= t.power
  }

  /** The effect is the whole operation, applied to m, or leaves the map alone and goes on with op. */
  ghost predicate Good(t: Table, m: map<Key, Value>, op: Op, e: Effect) {
    && Shape(e.table) && PhaseOk(e.table, e.phase)
    && e.table.hash == t.hash && e.table.width == t.width && e.table.power >= t.power
    && match e.outcome
       case Some(o) => e.phase.Idle? && o == Answer(m, op) && Stands(e.table, After(m, op))
       case None => !e.phase.Idle? && e.phase.op == op && Stands(e.table, m)
  }

  lemma StillOk(t: Table, u: Table, phase: Phase)
    requires PhaseOk(t, phase) && u.hash == t.hash && u.width == t.width && u.power >= t.power
    ensures PhaseOk(u, phase)
  {
  }

  function Retry(t: Table, op: Op): Effect {
    Effect(t, Waiting(op), None)
  }

  /** The element of the operation is at slot j of bucket i. */
  function FinishAt(t: Table, op: Op, i: nat, j: nat): Effect
    requires !op.Clear? && i < |t.buckets| && j < |t.buckets[i]| && t.buckets[i][j].Full? && LockOf(i) < |t.counters|
  {
    Effect(RunFn(t, i, j, op.fn), Idle, Some(Seen(t.buckets[i][j].value)))
  }

  lemma ShapeOf(t: Table, m: map<Key, Value>)
    requires Stands(t, m)
    ensures Shape(t)
  {
  }

  lemma RunFnKind(t: Table, i: nat, j: nat, fn: Value -> Verdict)
    requires i < |t.buckets| && j < |t.buckets[i]| && t.buckets[i][j].Full? && LockOf(i) < |t.counters|
    ensures SameKind(t, RunFn(t, i, j, fn))
  {
  }

  lemma FinishAtGood(t: Table, m: map<Key, Value>, op: Op, i: nat, j: nat)
    requires !op.Clear? && Stands(t, m) && Holds(t, i, j, op.key)
    ensures Good(t, m, op, FinishAt(t, op, i, j))
  {
    FoundValue(t, m, i, j, op.key);
    RunFnStands(t, m, i, j, op.key, op.fn);
    RunFnKind(t, i, j, op.fn);
    ShapeOf(RunFn(t, i, j, op.fn), ApplyFn(m, op.key, op.fn));
  }

  function AddAt(t: Table, op: Op, i: nat, j: nat): Effect
    requires op.UpraseFn? && i < |t.buckets| && j < |t.buckets[i]| && LockOf(i) < |t.counters|
  {
    Effect(Add(t, i, j, op.key, op.value), Idle, Some(Inserted))
  }

  lemma AddAtGood(t: Table, m: map<Key, Value>, op: Op, i: nat, j: nat)
    requires op.UpraseFn? && Stands(t, m) && op.key !in m && Candidate(t.power, t.hash(op.key), i)
    requires Ours(t, i) && j < |t.buckets[i]| && t.buckets[i][j].Empty? && LockOf(i) < |t.counters|
    ensures Good(t, m, op, AddAt(t, op, i, j))
  {
    AddStands(t, m, i, j, op.key, op.value);
    ShapeOf(Add(t, i, j, op.key, op.value), m[op.key := op.value]);
  }

  // ---------------------------------------------------------------------------
  // Critical sections
  // ---------------------------------------------------------------------------

  /** Both buckets of the key, with their locks held. */
  function LockKey(t: Table, k: Key): (u: Table)
    requires Shape(t)
    ensures Shape(u) && SameKind(t, u)
    ensures Ours(u, First(u.power, u.hash(k))) && Ours(u, Second(u.power, u.hash(k)))
  {
    CandidateInRange(t.power, t.hash(k));
    LockTwo(t, First(t.power, t.hash(k)), Second(t.power, t.hash(k)))
  }

  lemma LockKeyStands(t: Table, m: map<Key, Value>, k: Key)
    requires Stands(t, m) && Shape(t)
    ensures Stands(LockKey(t, k), m)
  {
    CandidateInRange(t.power, t.hash(k));
    LockTwoStands(t, m, First(t.power, t.hash(k)), Second(t.power, t.hash(k)));
  }

  /** cuckoo_insert up to run_cuckoo, with the locks held. */
  function TryInsert(t: Table, op: Op): Effect
    requires op.UpraseFn? && Shape(t)
    requires Ours(t, First(t.power, t.hash(op.key))) && Ours(t, Second(t.power, t.hash(op.key)))
  {
    var i1, i2 := First(t.power, t.hash(op.key)), Second(t.power, t.hash(op.key));
    var partial := PartialKey(t.hash(op.key));
    var s1, s2 := SpotIn(t.buckets[i1], op.key, partial), SpotIn(t.buckets[i2], op.key, partial);
    if s1.Duplicate? then FinishAt(t, op, i1, s1.slot)
    else if s2.Duplicate? then FinishAt(t, op, i2, s2.slot)
    else if s1.Vacant? then AddAt(t, op, i1, s1.slot)
    else if s2.Vacant? then AddAt(t, op, i2, s2.slot)
    else Effect(t, Searching(op, t.power, []), None)
  }

  lemma TryInsertGood(t: Table, m: map<Key, Value>, op: Op)
    requires op.UpraseFn? && Stands(t, m) && Shape(t)
    requires Ours(t, First(t.power, t.hash(op.key))) && Ours(t, Second(t.power, t.hash(op.key)))
    ensures Good(t, m, op, TryInsert(t, op))
  {
    var i1, i2 := First(t.power, t.hash(op.key)), Second(t.power, t.hash(op.key));
    var partial := PartialKey(t.hash(op.key));
    var s1, s2 := SpotIn(t.buckets[i1], op.key, partial), SpotIn(t.buckets[i2], op.key, partial);
    if s1.Duplicate? {
      FinishAtGood(t, m, op, i1, s1.slot);
    } else if s2.Duplicate? {
      FinishAtGood(t, m, op, i2, s2.slot);
    } else {
      MissMeansAbsent(t, m, op.key);
      if s1.Vacant? {
        AddAtGood(t, m, op, i1, s1.slot);
      } else if s2.Vacant? {
        AddAtGood(t, m, op, i2, s2.slot);
      }
    }
  }

  function TryFind(t: Table, op: Op): Effect
    requires op.EraseFn? && Shape(t)
    requires Ours(t, First(t.power, t.hash(op.key))) && Ours(t, Second(t.power, t.hash(op.key)))
  {
    match Find(t, op.key)
    case Hit(i, j) => FindHolds(t, op.key); FinishAt(t, op, i, j)
    case Miss => Effect(t, Idle, Some(Absent))
  }

  lemma TryFindGood(t: Table, m: map<Key, Value>, op: Op)
    requires op.EraseFn? && Stands(t, m) && Shape(t)
    requires Ours(t, First(t.power, t.hash(op.key))) && Ours(t, Second(t.power, t.hash(op.key)))
    ensures Good(t, m, op, TryFind(t, op))
  {
    match Find(t, op.key)
    case Hit(i, j) =>
      FindHolds(t, op.key);
      FinishAtGood(t, m, op, i, j);
    case Miss =>
      MissMeansAbsent(t, m, op.key);
  }

  /** snapshot_and_lock_two, then the operation as far as it gets without releasing the locks. */
  function Begin(t: Table, op: Op): Effect
    requires Shape(t)
  {
    match op
    case EraseFn(k, _) => TryFind(LockKey(t, k), op)
    case UpraseFn(k, _, _) => TryInsert(LockKey(t, k), op)
    case Clear => Effect(Fresh(t.hash, t.width, t.power), Idle, Some(Cleared))
  }

  lemma BeginGood(t: Table, m: map<Key, Value>, op: Op)
    requires Stands(t, m) && Shape(t)
    ensures Good(t, m, op, Begin(t, op))
  {
    match op
    case EraseFn(k, _) =>
      LockKeyStands(t, m, k);
      TryFindGood(LockKey(t, k), m, op);
    case UpraseFn(k, _, _) =>
      LockKeyStands(t, m, k);
      TryInsertGood(LockKey(t, k), m, op);
    case Clear =>
      FreshStands(t.hash, t.width, t.power);
  }

  /** One bucket looked at by slot_search. */
  function Visit(t: Table, op: Op, power: nat, path: seq<Record>, bucket: nat): Effect
    requires Shape(t)
  {
    if t.power != power then Retry(t, op)
    else if bucket < |t.buckets| then Effect(LockOne(t, bucket), Searching(op, power, path), None)
    else Effect(t, Searching(op, power, path), None)
  }

  lemma VisitGood(t: Table, m: map<Key, Value>, op: Op, power: nat, path: seq<Record>, bucket: nat)
    requires Stands(t, m) && Shape(t) && PhaseOk(t, Searching(op, power, path))
    ensures Good(t, m, op, Visit(t, op, power, path, bucket))
  {
    if t.power == power && bucket < |t.buckets| {
      LockOneStands(t, m, bucket);
    }
  }

  /** The bucket of the next position of a path. */
  function NextBucket(t: Table, op: Op, power: nat, path: seq<Record>, second: bool): nat
    requires op.UpraseFn?
  {
    if path == [] then if second then Second(power, t.hash(op.key)) else First(power, t.hash(op.key))
    else AltIndex(power, PartialKey(path[|path| - 1].hash), path[|path| - 1].bucket)
  }

  lemma NextBucketInRange(t: Table, op: Op, power: nat, path: seq<Record>, second: bool)
    requires op.UpraseFn?
    ensures NextBucket(t, op, power, path, second) < Pow2(power)
  {
    CandidateInRange(power, t.hash(op.key));
    if path != [] {
      var r := path[|path| - 1];
      LowBound(Xor(r.bucket, Tag(PartialKey(r.hash))), power);
    }
  }

  /** cuckoopath_search fills in the next position of the path, whose slot slot_search has chosen; last
      says that the path is not meant to go on. */
  function Extend(t: Table, op: Op, power: nat, path: seq<Record>, second: bool, slot: nat, last: bool): Effect
    requires op.UpraseFn? && Shape(t) && slot < t.width
  {
    if t.power != power then Retry(t, op)
    else
      NextBucketInRange(t, op, power, path, second);
      var bucket := NextBucket(t, op, power, path, second);
      var u := LockOne(t, bucket);
      var s := u.buckets[bucket][slot];
      var longer := path + [Record(bucket, slot, if s.Full? then u.hash(s.key) else 0)];
      Effect(u, if s.Empty? || last then Moving(op, power, longer, |path|) else Searching(op, power, longer), None)
  }

  lemma RecordStays(hash: Key -> nat, width: nat, power: nat, k: Key, path: seq<Record>, longer: seq<Record>, n: nat)
    requires n < |path| && path <= longer && RecordOk(hash, width, power, k, path, n)
    ensures RecordOk(hash, width, power, k, longer, n)
  {
    assert longer[n] == path[n] && (n > 0 ==> longer[n - 1] == path[n - 1]);
  }

  lemma PathGrows(hash: Key -> nat, width: nat, power: nat, k: Key, path: seq<Record>, r: Record)
    requires PathOk(hash, width, power, k, path) && RecordOk(hash, width, power, k, path + [r], |path|)
    ensures PathOk(hash, width, power, k, path + [r])
  {
    var longer := path + [r];
    forall n: nat {:trigger RecordOk(hash, width, power, k, longer, n)} | n < |longer|
      ensures RecordOk(hash, width, power, k, longer, n)
    {
      if n < |path| {
        assert RecordOk(hash, width, power, k, path, n);
        RecordStays(hash, width, power, k, path, longer, n);
      }
    }
  }

  lemma ExtendGood(t: Table, m: map<Key, Value>, op: Op, power: nat, path: seq<Record>, second: bool, slot: nat, last: bool)
    requires Stands(t, m) && Shape(t) && PhaseOk(t, Searching(op, power, path)) && slot < t.width
    ensures Good(t, m, op, Extend(t, op, power, path, second, slot, last))
  {
    if t.power == power {
      NextBucketInRange(t, op, power, path, second);
      var bucket := NextBucket(t, op, power, path, second);
      LockOneStands(t, m, bucket);
      var s := LockOne(t, bucket).buckets[bucket][slot];
      PathGrows(t.hash, t.width, power, op.key, path, Record(bucket, slot, if s.Full? then t.hash(s.key) else 0));
    }
  }

  /** The rest of cuckoo_insert once run_cuckoo has freed slot j of bucket i and holds the key's locks:
      the key may have been inserted by another thread in the meantime. */
  function Recheck(t: Table, op: Op, i: nat, j: nat): Effect
    requires op.UpraseFn? && Shape(t) && i < |t.buckets| && j < |t.buckets[i]| && LockOf(i) < |t.counters|
    requires Ours(t, First(t.power, t.hash(op.key))) && Ours(t, Second(t.power, t.hash(op.key)))
  {
    match Find(t, op.key)
    case Hit(i', j') => FindHolds(t, op.key); FinishAt(t, op, i', j')
    case Miss => AddAt(t, op, i, j)
  }

  lemma RecheckGood(t: Table, m: map<Key, Value>, op: Op, i: nat, j: nat)
    requires op.UpraseFn? && Stands(t, m) && Shape(t) && Candidate(t.power, t.hash(op.key), i)
    requires i < |t.buckets| && j < |t.buckets[i]| && LockOf(i) < |t.counters| && t.buckets[i][j].Empty?
    requires Ours(t, First(t.power, t.hash(op.key))) && Ours(t, Second(t.power, t.hash(op.key)))
    ensures Good(t, m, op, Recheck(t, op, i, j))
  {
    match Find(t, op.key)
    case Hit(i', j') =>
      FindHolds(t, op.key);
      FinishAtGood(t, m, op, i', j');
    case Miss =>
      MissMeansAbsent(t, m, op.key);
      AddAtGood(t, m, op, i, j);
  }

  /** cuckoopath_move at depth 0: the search saw an empty slot in one of the key's buckets. */
  function MoveNothing(t: Table, op: Op, power: nat, path: seq<Record>): Effect
    requires op.UpraseFn? && Shape(t) && path != [] && PathOk(t.hash, t.width, power, op.key, path)
  {
    if t.power != power then Retry(t, op)
    else
      assert RecordOk(t.hash, t.width, power, op.key, path, 0);
      var u := LockKey(t, op.key);
      var at := path[0];
      if u.buckets[at.bucket][at.slot].Full? then Effect(u, Searching(op, power, []), None)
      else Recheck(u, op, at.bucket, at.slot)
  }

  lemma MoveNothingGood(t: Table, m: map<Key, Value>, op: Op, power: nat, path: seq<Record>)
    requires op.UpraseFn? && Stands(t, m) && Shape(t) && path != [] && PathOk(t.hash, t.width, power, op.key, path)
    requires power <= t.power
    ensures Good(t, m, op, MoveNothing(t, op, power, path))
  {
    if t.power == power {
      assert RecordOk(t.hash, t.width, power, op.key, path, 0);
      LockKeyStands(t, m, op.key);
      var u := LockKey(t, op.key);
      if u.buckets[path[0].bucket][path[0].slot].Empty? {
        RecheckGood(u, m, op, path[0].bucket, path[0].slot);
      }
    }
  }

  /** cuckoopath_move finds the path still valid: the target is free, and the source holds a key with
      the hash seen by the search. */
  predicate StillValid(t: Table, from: Record, to: Record)
    requires from.bucket < |t.buckets| && from.slot < |t.buckets[from.bucket]|
    requires to.bucket < |t.buckets| && to.slot < |t.buckets[to.bucket]|
  {
    var s := t.buckets[from.bucket][from.slot];
    t.buckets[to.bucket][to.slot].Empty? && s.Full? && t.hash(s.key) == from.hash
  }

  /** One displacement above depth 1. */
  function MoveOnPath(t: Table, op: Op, power: nat, path: seq<Record>, depth: nat): Effect
    requires op.UpraseFn? && Shape(t) && 1 < depth < |path| && PathOk(t.hash, t.width, power, op.key, path)
  {
    if t.power != power then Retry(t, op)
    else
      assert RecordOk(t.hash, t.width, power, op.key, path, depth - 1) && RecordOk(t.hash, t.width, power, op.key, path, depth);
      var from, to := path[depth - 1], path[depth];
      var u := LockTwo(t, from.bucket, to.bucket);
      if !StillValid(u, from, to) then Effect(u, Searching(op, power, []), None)
      else Effect(Displace(u, from.bucket, from.slot, to.bucket, to.slot), Moving(op, power, path, depth - 1), None)
  }

  lemma ValidDisplaces(t: Table, k: Key, path: seq<Record>, depth: nat)
    requires Shape(t) && 0 < depth < |path|
    requires RecordOk(t.hash, t.width, t.power, k, path, depth - 1) && RecordOk(t.hash, t.width, t.power, k, path, depth)
    requires StillValid(t, path[depth - 1], path[depth])
    ensures CanDisplace(t, path[depth - 1].bucket, path[depth - 1].slot, path[depth].bucket, path[depth].slot)
  {
  }

  lemma MoveOnPathGood(t: Table, m: map<Key, Value>, op: Op, power: nat, path: seq<Record>, depth: nat)
    requires op.UpraseFn? && Stands(t, m) && Shape(t) && power <= t.power
    requires 1 < depth < |path| && PathOk(t.hash, t.width, power, op.key, path)
    ensures Good(t, m, op, MoveOnPath(t, op, power, path, depth))
  {
    if t.power == power {
      assert RecordOk(t.hash, t.width, power, op.key, path, depth - 1) && RecordOk(t.hash, t.width, power, op.key, path, depth);
      var from, to := path[depth - 1], path[depth];
      LockTwoStands(t, m, from.bucket, to.bucket);
      var u := LockTwo(t, from.bucket, to.bucket);
      if StillValid(u, from, to) {
        ValidDisplaces(u, op.key, path, depth);
        DisplaceStands(u, m, from.bucket, from.slot, to.bucket, to.slot);
        ShapeOf(Displace(u, from.bucket, from.slot, to.bucket, to.slot), m);
      }
    }
  }

  /** The locks that the last displacement takes: those of the key and that of the target. */
  function LockKeyAnd(t: Table, k: Key, bucket: nat): (u: Table)
    requires Shape(t) && bucket < |t.buckets|
    ensures Shape(u) && SameKind(t, u) && |u.buckets| == |t.buckets| && Ours(u, bucket)
    ensures Ours(u, First(u.power, u.hash(k))) && Ours(u, Second(u.power, u.hash(k)))
  {
    CandidateInRange(t.power, t.hash(k));
    LockThree(t, First(t.power, t.hash(k)), Second(t.power, t.hash(k)), bucket)
  }

  /** A displacement takes no lock and frees its source. */
  lemma AfterDisplace(t: Table, i: nat, j: nat, i': nat, j': nat)
    requires CanDisplace(t, i, j, i', j')
    ensures var u := Displace(t, i, j, i', j');
            && SameKind(t, u) && u.counters == t.counters
            && i < |u.buckets| && j < |u.buckets[i]| && u.buckets[i][j].Empty?
            && forall x: nat {:trigger Ours(u, x)} :: Ours(t, x) ==> Ours(u, x)
  {
  }

  /** Both buckets of the key are there, their locks are held and their old buckets migrated. */
  ghost predicate KeyOurs(t: Table, k: Key) {
    Shape(t) && Ours(t, First(t.power, t.hash(k))) && Ours(t, Second(t.power, t.hash(k)))
  }

  ghost predicate Writable(t: Table, i: nat, j: nat) {
    i < |t.buckets| && j < |t.buckets[i]| && LockOf(i) < |t.counters|
  }

  /** The table after the last displacement, before the second lookup. */
  lemma LastDisplaced(u: Table, op: Op, path: seq<Record>)
    requires op.UpraseFn? && KeyOurs(u, op.key) && 1 < |path| && PathOk(u.hash, u.width, u.power, op.key, path)
    requires path[1].bucket < |u.buckets| && Ours(u, path[1].bucket) && path[1].slot < u.width
    requires path[0].bucket < |u.buckets| && path[0].slot < u.width && StillValid(u, path[0], path[1])
    ensures var w := Displace(u, path[0].bucket, path[0].slot, path[1].bucket, path[1].slot);
            SameKind(u, w) && KeyOurs(w, op.key) && Writable(w, path[0].bucket, path[0].slot)
  {
    var from, to := path[0], path[1];
    assert RecordOk(u.hash, u.width, u.power, op.key, path, 0) && RecordOk(u.hash, u.width, u.power, op.key, path, 1);
    ValidDisplaces(u, op.key, path, 1);
    AfterDisplace(u, from.bucket, from.slot, to.bucket, to.slot);
    SetSlotShape(u, to.bucket, to.slot, u.buckets[from.bucket][from.slot]);
    SetSlotShape(SetSlot(u, to.bucket, to.slot, u.buckets[from.bucket][from.slot]), from.bucket, from.slot, Empty);
  }

  /** The last displacement, out of one of the key's own buckets, and the insertion, in one critical section. */
  function MoveLast(t: Table, op: Op, power: nat, path: seq<Record>): Effect
    requires op.UpraseFn? && Shape(t) && 1 < |path| && PathOk(t.hash, t.width, power, op.key, path)
  {
    if t.power != power then Retry(t, op)
    else
      assert RecordOk(t.hash, t.width, power, op.key, path, 0) && RecordOk(t.hash, t.width, power, op.key, path, 1);
      var from, to := path[0], path[1];
      var u := LockKeyAnd(t, op.key, to.bucket);
      if !StillValid(u, from, to) then Effect(u, Searching(op, power, []), None)
      else
        var w := Displace(u, from.bucket, from.slot, to.bucket, to.slot);
        LastDisplaced(u, op, path);
        Recheck(w, op, from.bucket, from.slot)
  }

  lemma LockKeyAndStands(t: Table, m: map<Key, Value>, k: Key, bucket: nat)
    requires Stands(t, m) && Shape(t) && bucket < |t.buckets|
    ensures Stands(LockKeyAnd(t, k, bucket), m)
  {
    CandidateInRange(t.power, t.hash(k));
    LockThreeStands(t, m, First(t.power, t.hash(k)), Second(t.power, t.hash(k)), bucket);
  }

  lemma MoveLastGood(t: Table, m: map<Key, Value>, op: Op, power: nat, path: seq<Record>)
    requires op.UpraseFn? && Stands(t, m) && Shape(t) && power <= t.power
    requires 1 < |path| && PathOk(t.hash, t.width, power, op.key, path)
    ensures Good(t, m, op, MoveLast(t, op, power, path))
  {
    if t.power == power {
      assert RecordOk(t.hash, t.width, power, op.key, path, 0) && RecordOk(t.hash, t.width, power, op.key, path, 1);
      var from, to := path[0], path[1];
      LockKeyAndStands(t, m, op.key, to.bucket);
      var u := LockKeyAnd(t, op.key, to.bucket);
      if StillValid(u, from, to) {
        ValidDisplaces(u, op.key, path, 1);
        DisplaceStands(u, m, from.bucket, from.slot, to.bucket, to.slot);
        AfterDisplace(u, from.bucket, from.slot, to.bucket, to.slot);
        var w := Displace(u, from.bucket, from.slot, to.bucket, to.slot);
        ShapeOf(w, m);
        RecheckGood(w, m, op, from.bucket, from.slot);
      }
    }
  }

  /** cuckoo_fast_double, unless another thread has changed the hashpower. */
  function Expand(t: Table, op: Op, power: nat): Effect
    requires Shape(t)
  {
    Effect(if t.power == power then Double(t) else t, Waiting(op), None)
  }

  lemma ExpandGood(t: Table, m: map<Key, Value>, op: Op, power: nat)
    requires Stands(t, m) && Shape(t)
    ensures Good(t, m, op, Expand(t, op, power))
  {
    if t.power == power {
      DoubleStands(t, m);
    }
  }

  // ---------------------------------------------------------------------------
  // The transition system
  // ---------------------------------------------------------------------------

  /** The choices the scheduler and the unlocked search make. */
  datatype Choice =
    | Call(op: Op)
    | Go
    | Look(bucket: nat)
    | Fill(second: bool, slot: nat, last: bool)
    | GiveUp
    | Throw

  datatype Config = Config(table: Table, threads: seq<Phase>, history: seq<Event>)

  ghost predicate Inv(c: Config) {
    && Shape(c.table) && Stands(c.table, Replay(c.history)) && Legal(c.history)
    && forall n: nat {:trigger c.threads[n]} :: n < |c.threads| ==> PhaseOk(c.table, c.threads[n])
  }

  /** One step of a thread in the middle of an operation; choices that make no sense in its phase do nothing. */
  function Advance(t: Table, phase: Phase, choice: Choice): Effect
    requires Shape(t) && PhaseOk(t, phase) && !phase.Idle?
  {
    match phase
    case Waiting(op) => if choice.Go? then Begin(t, op) else Effect(t, phase, None)
    case Searching(op, power, path) =>
      (match choice
       case Look(bucket) => Visit(t, op, power, path, bucket)
       case Fill(second, slot, last) =>
         if slot < t.width then Extend(t, op, power, path, second, slot, last) else Effect(t, phase, None)
       case GiveUp => Effect(t, Expanding(op, power), None)
       case _ => Effect(t, phase, None))
    case Moving(op, power, path, depth) =>
      if !choice.Go? then Effect(t, phase, None)
      else if depth == 0 then MoveNothing(t, op, power, path)
      else if depth == 1 then MoveLast(t, op, power, path)
      else MoveOnPath(t, op, power, path, depth)
    case Expanding(op, power) => if choice.Go? then Expand(t, op, power) else Effect(t, phase, None)
  }

  lemma AdvanceGood(t: Table, m: map<Key, Value>, phase: Phase, choice: Choice)
    requires Stands(t, m) && Shape(t) && PhaseOk(t, phase) && !phase.Idle?
    ensures Good(t, m, phase.op, Advance(t, phase, choice))
  {
    match phase
    case Waiting(op) =>
      BeginGood(t, m, op);
    case Searching(op, power, path) =>
      match choice {
        case Look(bucket) => VisitGood(t, m, op, power, path, bucket);
        case Fill(second, slot, last) =>
          if slot < t.width {
            ExtendGood(t, m, op, power, path, second, slot, last);
          }
        case _ =>
      }
    case Moving(op, power, path, depth) =>
      if depth == 0 {
        MoveNothingGood(t, m, op, power, path);
      } else if depth == 1 {
        MoveLastGood(t, m, op, power, path);
      } else {
        MoveOnPathGood(t, m, op, power, path, depth);
      }
    case Expanding(op, power) =>
      ExpandGood(t, m, op, power);
  }

  /** One critical section of thread n. Throw is the exception of a resize that is not allowed: the
      operation is abandoned without effect. */
  function Step(c: Config, n: nat, choice: Choice): Config
    requires Inv(c)
  {
    if n >= |c.threads| then c
    else
      var phase := c.threads[n];
      if phase.Idle? then
        if choice.Call? then c.(threads := c.threads[n := Waiting(choice.op)]) else c
      else if choice.Throw? && phase.Expanding? then c.(threads := c.threads[n := Idle])
      else
        var e := Advance(c.table, phase, choice);
        Config(e.table, c.threads[n := e.phase],
               if e.outcome.Some? then c.history + [Event(n, phase.op, e.outcome.value)] else c.history)
  }

  lemma HistoryGrows(h: seq<Event>, e: Event)
    requires Legal(h) && e.outcome == Answer(Replay(h), e.op)
    ensures Legal(h + [e]) && Replay(h + [e]) == After(Replay(h), e.op)
  {
    assert (h + [e])[..|h + [e]| - 1] == h;
  }

  lemma ThreadsStillOk(t: Table, u: Table, threads: seq<Phase>, n: nat, phase: Phase)
    requires n < |threads| && PhaseOk(u, phase) && u.hash == t.hash && u.width == t.width && u.power >= t.power
    requires forall x: nat {:trigger threads[x]} :: x < |threads| ==> PhaseOk(t, threads[x])
    ensures forall x: nat {:trigger threads[n := phase][x]} :: x < |threads| ==> PhaseOk(u, threads[n := phase][x])
  {
    forall x: nat {:trigger threads[n := phase][x]} | x < |threads|
      ensures PhaseOk(u, threads[n := phase][x])
    {
      if x != n {
        StillOk(t, u, threads[x]);
      }
    }
  }

  /** Every critical section keeps the invariant, answers at most the operation its own thread runs,
      and never lowers the hashpower. */
  lemma StepKeeps(c: Config, n: nat, choice: Choice)
    requires Inv(c)
    ensures Inv(Step(c, n, choice)) && |Step(c, n, choice).threads| == |c.threads|
    ensures Step(c, n, choice).table.power >= c.table.power
    ensures var h := Step(c, n, choice).history;
            h == c.history ||
            (n < |c.threads| && !c.threads[n].Idle? && |h| == |c.history| + 1 &&
             h[..|c.history|] == c.history && h[|c.history|].thread == n && h[|c.history|].op == c.threads[n].op)
  {
    if n < |c.threads| {
      var phase := c.threads[n];
      var c' := Step(c, n, choice);
      if phase.Idle? {
        if choice.Call? {
          ThreadsStillOk(c.table, c.table, c.threads, n, Waiting(choice.op));
        }
      } else if choice.Throw? && phase.Expanding? {
        ThreadsStillOk(c.table, c.table, c.threads, n, Idle);
      } else {
        AdvanceGood(c.table, Replay(c.history), phase, choice);
        var e := Advance(c.table, phase, choice);
        ThreadsStillOk(c.table, e.table, c.threads, n, e.phase);
        if e.outcome.Some? {
          HistoryGrows(c.history, Event(n, phase.op, e.outcome.value));
        }
      }
    }
  }

  datatype Action = Action(thread: nat, choice: Choice)

  ghost function Next(c: Config, a: Action): (c': Config)
    requires Inv(c)
    ensures Inv(c')
  {
    StepKeeps(c, a.thread, a.choice);
    Step(c, a.thread, a.choice)
  }

  /** A run: any interleaving of critical sections. */
  ghost function Run(c: Config, actions: seq<Action>): (c': Config)
    requires Inv(c)
    ensures Inv(c')
  {
    if actions == [] then c else Next(Run(c, actions[..|actions| - 1]), actions[|actions| - 1])
  }

  function Initial(hash: Key -> nat, width: nat, power: nat, threads: nat): (c: Config)
    ensures Inv(c)
  {
    FreshStands(hash, width, power);
    Config(Fresh(hash, width, power), seq(threads, _ => Idle), [])
  }

  lemma {:induction false} LegalAnswers(h: seq<Event>, i: nat)
    requires Legal(h) && i < |h|
    ensures h[i].outcome == Answer(Replay(h[..i]), h[i].op)
    decreases |h|
  {
    if i < |h| - 1 {
      LegalAnswers(h[..|h| - 1], i);
      assert h[..|h| - 1][..i] == h[..i];
    }
  }

  /** Linearizability: in every run of any number of threads, each answer is the one a plain map gives
      when the finished operations are applied to it one after the other, the table stands for that
      map, and the counters of the locks add up to its size. */
  lemma Linearizable(hash: Key -> nat, width: nat, power: nat, threads: nat, actions: seq<Action>)
    ensures var c := Run(Initial(hash, width, power, threads), actions); var h := c.history;
            && Stands(c.table, Replay(h))
            && CounterSum(c.table.counters) == |Replay(h)|
            && forall i: nat {:trigger h[i]} :: i < |h| ==> h[i].outcome == Answer(Replay(h[..i]), h[i].op)
  {
    var c := Run(Initial(hash, width, power, threads), actions);
    var h := c.history;
    var loc :| Represents(c.table, Replay(h), loc);
    forall i: nat {:trigger h[i]} | i < |h|
      ensures h[i].outcome == Answer(Replay(h[..i]), h[i].op)
    {
      LegalAnswers(h, i);
    }
  }

  /** In every reachable state each key of the map is in exactly one live slot, in one of its two
      candidate buckets, and nothing else is in the table. */
  lemma OneSlotPerKey(c: Config, k: Key) returns (p: Pos)
    requires Inv(c) && k in Replay(c.history)
    ensures Stored(c.table, p, k, Replay(c.history)[k])
    ensures forall q :: Live(c.table, q) && At(c.table, q).Full? && At(c.table, q).key == k ==> q == p
  {
    var m := Replay(c.history);
    var loc :| Represents(c.table, m, loc);
    p := loc[k];
    assert Located(c.table, m, loc, k);
    forall q | Live(c.table, q) && At(c.table, q).Full? && At(c.table, q).key == k
      ensures q == p
    {
      assert Known(c.table, m, loc, q);
    }
  }

  lemma NothingElse(c: Config, p: Pos)
    requires Inv(c) && Live(c.table, p) && At(c.table, p).Full?
    ensures At(c.table, p).key in Replay(c.history) && At(c.table, p).value == Replay(c.history)[At(c.table, p).key]
  {
    var m := Replay(c.history);
    var loc :| Represents(c.table, m, loc);
    assert Known(c.table, m, loc, p);
    assert Located(c.table, m, loc, At(c.table, p).key);
  }

  // ---------------------------------------------------------------------------
  // The loops
  // ---------------------------------------------------------------------------

  /** The slot holds the key; a table of simple keys does not look at the partial keys. */
  predicate Matches(simple: bool, partial: nat, k: Key, s: Slot) {
    s.Full? && (simple || s.partial == partial) && s.key == k
  }

  /** Where the key is stored it is stored with this partial key. */
  ghost predicate PartialsRight(b: Bucket, k: Key, partial: nat) {
    forall j :: 0 <= j < |b| && b[j].Full? && b[j].key == k ==> b[j].partial == partial
  }

  /** In a table that stands for a map the partial keys are right, so that comparing them or not makes no
      difference. */
  lemma PartialsStored(t: Table, m: map<Key, Value>, i: nat, k: Key)
    requires Stands(t, m) && i < |t.buckets|
    ensures PartialsRight(t.buckets[i], k, PartialKey(t.hash(k)))
  {
    var loc :| Represents(t, m, loc);
    forall j: nat | j < |t.buckets[i]| && t.buckets[i][j].Full? && t.buckets[i][j].key == k
      ensures t.buckets[i][j].partial == PartialKey(t.hash(k))
    {
      assert Known(t, m, loc, New(i, j));
      assert Located(t, m, loc, k);
    }
  }

  /** try_read_from_bucket: the first slot that matches, or -1. */
  method TryReadFromBucket(b: Bucket, simple: bool, partial: nat, k: Key) returns (slot: int)
    ensures -1 <= slot < |b| && (slot >= 0 ==> Matches(simple, partial, k, b[slot]))
    ensures forall j :: 0 <= j < (if slot == -1 then |b| else slot) ==> !Matches(simple, partial, k, b[j])
    ensures !simple || PartialsRight(b, k, partial) ==>
              slot == if SlotOf(b, k, partial, 0) < |b| then SlotOf(b, k, partial, 0) else -1
  {
    for i := 0 to |b|
      invariant forall j :: 0 <= j < i ==> !Matches(simple, partial, k, b[j])
      invariant !simple || PartialsRight(b, k, partial) ==> SlotOf(b, k, partial, 0) == SlotOf(b, k, partial, i)
    {
      if b[i].Empty? || (!simple && partial != b[i].partial) {
        continue;
      } else if b[i].key == k {
        return i;
      }
    }
    return -1;
  }

  /** try_find_insert_bucket: a duplicate, or else the last empty slot. */
  method TryFindInsertBucket(b: Bucket, simple: bool, partial: nat, k: Key) returns (ok: bool, slot: int)
    ensures -1 <= slot < |b| && (!ok ==> slot >= 0 && Matches(simple, partial, k, b[slot]))
    ensures forall j :: 0 <= j < (if ok then |b| else slot) ==> !Matches(simple, partial, k, b[j])
    ensures ok ==> (slot >= 0 ==> b[slot].Empty?) && forall j :: slot < j < |b| ==> b[j].Full?
    ensures !simple || PartialsRight(b, k, partial) ==>
              match SpotIn(b, k, partial)
              case Duplicate(j) => !ok && slot == j
              case Vacant(j) => ok && slot == j
              case NoRoom => ok && slot == -1
  {
    slot := -1;
    for i := 0 to |b|
      invariant forall j :: 0 <= j < i ==> !Matches(simple, partial, k, b[j])
      invariant !simple || PartialsRight(b, k, partial) ==> SlotOf(b, k, partial, 0) == SlotOf(b, k, partial, i)
      invariant -1 <= slot < i && (slot >= 0 ==> b[slot].Empty?) && forall j :: slot < j < i ==> b[j].Full?
      invariant slot == if LastEmpty(b, i) < i then LastEmpty(b, i) else -1
    {
      if b[i].Full? {
        if !simple && partial != b[i].partial {
          continue;
        }
        if b[i].key == k {
          return false, i;
        }
      } else {
        slot := i;
      }
    }
    return true, slot;
  }

  /** size: the sum of the counters, which is the number of elements. */
  method Size(t: Table, ghost m: map<Key, Value>) returns (s: int)
    requires Stands(t, m)
    ensures s == |m|
  {
    s := 0;
    for i := 0 to |t.counters|
      invariant s == CounterSum(t.counters[..i])
    {
      assert t.counters[..i + 1][..i] == t.counters[..i];
      s := s + t.counters[i];
    }
    assert t.counters[..|t.counters|] == t.counters;
    ghost var loc :| Represents(t, m, loc);
  }
}
