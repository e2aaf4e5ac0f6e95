/**
 size() of the cuckoo hash map, which adds up the counters of the locks one by one without taking any of
 them, while other threads go on.
 */
module CuckooSize {
  import opened CuckooTable
  import opened CuckooSteps
  import opened CuckooResize
  import opened CuckooProtocol

  // ---------------------------------------------------------------------------
  // What a critical section does to the counters
  // ---------------------------------------------------------------------------

  /** At most one counter changes, by at most one, and only when an operation finishes. */
  ghost predicate Bumped(s: seq<int>, s': seq<int>, finished: bool) {
    s' == s || (finished && |s'| == |s| && exists l: nat :: l < |s| && -1 <= s'[l] - s[l] <= 1 && s' == s[l := s'[l]])
  }

  ghost predicate Bumps(t: Table, e: Effect) {
    Bumped(t.counters, e.table.counters, e.outcome.Some?)
  }

  lemma MigrateCounters(t: Table, l: nat)
    requires Shape(t) && l < |t.migrated|
    ensures Migrate(t, l).counters == t.counters
  {
  }

  lemma LockOneCounters(t: Table, i: nat)
    requires Shape(t) && i < |t.buckets|
    ensures LockOne(t, i).counters == t.counters
  {
    LockInRange(t.power, i);
    MigrateCounters(t, LockOf(i));
  }

  lemma LockTwoCounters(t: Table, a: nat, b: nat)
    requires Shape(t) && a < |t.buckets| && b < |t.buckets|
    ensures LockTwo(t, a, b).counters == t.counters
  {
    var first, second := if LockOf(b) < LockOf(a) then b else a, if LockOf(b) < LockOf(a) then a else b;
    LockOneCounters(t, first);
    LockOneCounters(LockOne(t, first), second);
  }

  lemma LockThreeCounters(t: Table, a: nat, b: nat, c: nat)
    requires Shape(t) && a < |t.buckets| && b < |t.buckets| && c < |t.buckets|
    ensures LockThree(t, a, b, c).counters == t.counters
  {
    if LockOf(c) < LockOf(a) && LockOf(c) < LockOf(b) {
      LockOneCounters(t, c);
      LockTwoCounters(LockOne(t, c), a, b);
    } else if LockOf(b) < LockOf(a) {
      LockOneCounters(t, b);
      LockTwoCounters(LockOne(t, b), a, c);
    } else {
      LockOneCounters(t, a);
      LockTwoCounters(LockOne(t, a), b, c);
    }
  }

  lemma LockKeyCounters(t: Table, k: Key)
    requires Shape(t)
    ensures LockKey(t, k).counters == t.counters
  {
    CandidateInRange(t.power, t.hash(k));
    LockTwoCounters(t, First(t.power, t.hash(k)), Second(t.power, t.hash(k)));
  }

  lemma LockKeyAndCounters(t: Table, k: Key, bucket: nat)
    requires Shape(t) && bucket < |t.buckets|
    ensures LockKeyAnd(t, k, bucket).counters == t.counters
  {
    CandidateInRange(t.power, t.hash(k));
    LockThreeCounters(t, First(t.power, t.hash(k)), Second(t.power, t.hash(k)), bucket);
  }

  lemma CountBumps(t: Table, u: Table, i: nat, d: int)
    requires LockOf(i) < |t.counters| && -1 <= d <= 1 && u.counters == t.counters
    ensures Bumped(t.counters, Count(u, i, d).counters, true)
  {
    var s, s' := t.counters, Count(u, i, d).counters;
    assert s' == s[LockOf(i) := s'[LockOf(i)]];
  }

  lemma FinishAtBumps(t: Table, op: Op, i: nat, j: nat)
    requires !op.Clear? && Writable(t, i, j) && t.buckets[i][j].Full?
    ensures Bumps(t, FinishAt(t, op, i, j))
  {
    CountBumps(t, SetSlot(t, i, j, Empty), i, -1);
  }

  lemma AddAtBumps(t: Table, op: Op, i: nat, j: nat)
    requires op.UpraseFn? && Writable(t, i, j)
    ensures Bumps(t, AddAt(t, op, i, j))
  {
    CountBumps(t, SetSlot(t, i, j, Entry(t, op.key, op.value)), i, 1);
  }

  lemma TryFindBumps(t: Table, op: Op)
    requires op.EraseFn? && KeyOurs(t, op.key)
    ensures Bumps(t, TryFind(t, op))
  {
    match Find(t, op.key)
    case Hit(i, j) =>
      FindHolds(t, op.key);
      FinishAtBumps(t, op, i, j);
    case Miss =>
  }

  lemma TryInsertBumps(t: Table, op: Op)
    requires op.UpraseFn? && KeyOurs(t, op.key)
    ensures Bumps(t, TryInsert(t, op))
  {
    var i1, i2 := First(t.power, t.hash(op.key)), Second(t.power, t.hash(op.key));
    var partial := PartialKey(t.hash(op.key));
    var s1, s2 := SpotIn(t.buckets[i1], op.key, partial), SpotIn(t.buckets[i2], op.key, partial);
    if s1.Duplicate? {
      FinishAtBumps(t, op, i1, s1.slot);
    } else if s2.Duplicate? {
      FinishAtBumps(t, op, i2, s2.slot);
    } else if s1.Vacant? {
      AddAtBumps(t, op, i1, s1.slot);
    } else if s2.Vacant? {
      AddAtBumps(t, op, i2, s2.slot);
    }
  }

  lemma BeginBumps(t: Table, op: Op)
    requires Shape(t) && !op.Clear?
    ensures Bumps(t, Begin(t, op))
  {
    LockKeyCounters(t, op.key);
    if op.EraseFn? {
      TryFindBumps(LockKey(t, op.key), op);
    } else {
      TryInsertBumps(LockKey(t, op.key), op);
    }
  }

  lemma RecheckBumps(t: Table, op: Op, i: nat, j: nat)
    requires op.UpraseFn? && KeyOurs(t, op.key) && Writable(t, i, j)
    ensures Bumps(t, Recheck(t, op, i, j))
  {
    match Find(t, op.key)
    case Hit(i', j') =>
      FindHolds(t, op.key);
      FinishAtBumps(t, op, i', j');
    case Miss =>
      AddAtBumps(t, op, i, j);
  }

  lemma SearchBumps(t: Table, op: Op, power: nat, path: seq<Record>, choice: Choice)
    requires Shape(t) && PhaseOk(t, Searching(op, power, path))
    ensures Bumps(t, Advance(t, Searching(op, power, path), choice))
  {
    if t.power == power {
      match choice {
        case Look(bucket) =>
          if bucket < |t.buckets| {
            LockOneCounters(t, bucket);
          }
        case Fill(second, slot, last) =>
          NextBucketInRange(t, op, power, path, second);
          LockOneCounters(t, NextBucket(t, op, power, path, second));
        case _ =>
      }
    }
  }

  lemma MoveNothingBumps(t: Table, op: Op, power: nat, path: seq<Record>)
    requires op.UpraseFn? && Shape(t) && path != [] && PathOk(t.hash, t.width, power, op.key, path)
    ensures Bumps(t, MoveNothing(t, op, power, path))
  {
    if t.power == power {
      assert RecordOk(t.hash, t.width, power, op.key, path, 0);
      var u := LockKey(t, op.key);
      LockKeyCounters(t, op.key);
      if u.buckets[path[0].bucket][path[0].slot].Empty? {
        RecheckBumps(u, op, path[0].bucket, path[0].slot);
      }
    }
  }

  lemma MoveOnPathBumps(t: Table, op: Op, power: nat, path: seq<Record>, depth: nat)
    requires op.UpraseFn? && Shape(t) && 1 < depth < |path| && PathOk(t.hash, t.width, power, op.key, path)
    ensures Bumps(t, MoveOnPath(t, op, power, path, depth))
  {
    if t.power == power {
      assert RecordOk(t.hash, t.width, power, op.key, path, depth - 1) && RecordOk(t.hash, t.width, power, op.key, path, depth);
      LockTwoCounters(t, path[depth - 1].bucket, path[depth].bucket);
    }
  }

  lemma MoveLastBumps(t: Table, op: Op, power: nat, path: seq<Record>)
    requires op.UpraseFn? && Shape(t) && 1 < |path| && PathOk(t.hash, t.width, power, op.key, path)
    ensures Bumps(t, MoveLast(t, op, power, path))
  {
    if t.power == power {
      assert RecordOk(t.hash, t.width, power, op.key, path, 0) && RecordOk(t.hash, t.width, power, op.key, path, 1);
      var from, to := path[0], path[1];
      var u := LockKeyAnd(t, op.key, to.bucket);
      LockKeyAndCounters(t, op.key, to.bucket);
      if StillValid(u, from, to) {
        LastDisplaced(u, op, path);
        RecheckBumps(Displace(u, from.bucket, from.slot, to.bucket, to.slot), op, from.bucket, from.slot);
      }
    }
  }

  lemma {:induction false} MigrateFromCounters(t: Table, l: nat)
    requires Shape(t) && l <= |t.migrated|
    ensures MigrateFrom(t, l).counters == t.counters
    decreases |t.migrated| - l
  {
    if l < |t.migrated| {
      MigrateKeepsShape(t, l);
      MigrateCounters(t, l);
      MigrateFromCounters(Migrate(t, l), l + 1);
    }
  }

  /** Doubling appends counters of zero, if any. */
  lemma DoubleCounters(t: Table)
    requires Shape(t)
    ensures |Double(t).counters| >= |t.counters|
    ensures |Double(t).counters| == |t.counters| ==> Double(t).counters == t.counters
  {
    MigrateFromCounters(t, 0);
  }

  /** The step neither clears the table nor extends the array of locks. */
  ghost predicate Steady(t: Table, phase: Phase, choice: Choice)
    requires Shape(t) && PhaseOk(t, phase) && !phase.Idle?
  {
    && !(phase.Waiting? && phase.op.Clear? && choice.Go?)
    && |Advance(t, phase, choice).table.counters| == |t.counters|
  }

  lemma AdvanceBumps(t: Table, phase: Phase, choice: Choice)
    requires Shape(t) && PhaseOk(t, phase) && !phase.Idle? && Steady(t, phase, choice)
    ensures Bumps(t, Advance(t, phase, choice))
  {
    match phase
    case Waiting(op) =>
      if choice.Go? {
        BeginBumps(t, op);
      }
    case Searching(op, power, path) =>
      SearchBumps(t, op, power, path, choice);
    case Moving(op, power, path, depth) =>
      if choice.Go? {
        if depth == 0 {
          MoveNothingBumps(t, op, power, path);
        } else if depth == 1 {
          MoveLastBumps(t, op, power, path);
        } else {
          MoveOnPathBumps(t, op, power, path, depth);
        }
      }
    case Expanding(op, power) =>
      DoubleCounters(t);
  }

  // ---------------------------------------------------------------------------
  // The scan
  // ---------------------------------------------------------------------------

  /** A step of the scan, which reads the next counter, or a critical section of another thread. */
  datatype Tick = Read | Other(action: Action)

  /** size() after it has read some counters. */
  datatype Scan = Scan(config: Config, next: nat, sum: int)

  ghost predicate StepSteady(c: Config, a: Action)
    requires Inv(c)
  {
    a.thread < |c.threads| && !c.threads[a.thread].Idle? && !(a.choice.Throw? && c.threads[a.thread].Expanding?) ==>
      Steady(c.table, c.threads[a.thread], a.choice)
  }

  ghost predicate TickOk(s: Scan, k: Tick) {
    && Inv(s.config)
    && match k
       case Read => s.next < |s.config.table.counters|
       case Other(a) => StepSteady(s.config, a)
  }

  ghost function Ticked(s: Scan, k: Tick): (s': Scan)
    requires TickOk(s, k)
    ensures Inv(s'.config)
  {
    match k
    case Read => Scan(s.config, s.next + 1, s.sum + s.config.table.counters[s.next])
    case Other(a) => s.(config := CuckooProtocol.Next(s.config, a))
  }

  /** The ticks can be taken one after the other. */
  ghost predicate Runs(s: Scan, ticks: seq<Tick>)
    decreases |ticks|
  {
    ticks == [] || (TickOk(s, ticks[0]) && Runs(Ticked(s, ticks[0]), ticks[1..]))
  }

  ghost function Scanned(s: Scan, ticks: seq<Tick>): Scan
    requires Runs(s, ticks)
    decreases |ticks|
  {
    if ticks == [] then s else Scanned(Ticked(s, ticks[0]), ticks[1..])
  }

  /** What has been read and what is still to be read. */
  ghost function Expected(s: Scan): int {
    s.sum + if s.next <= |s.config.table.counters| then CounterSum(s.config.table.counters[s.next..]) else 0
  }

  lemma {:induction false} CounterSumFirst(s: seq<int>)
    requires s != []
    ensures CounterSum(s) == s[0] + CounterSum(s[1..])
    decreases |s|
  {
    if |s| > 1 {
      var front := s[..|s| - 1];
      CounterSumFirst(front);
      assert s[1..][..|s| - 2] == front[1..];
    }
  }

  lemma BumpedTail(s: seq<int>, s': seq<int>, finished: bool, i: nat)
    requires Bumped(s, s', finished) && i <= |s|
    ensures |s'| == |s|
    ensures var d := CounterSum(s'[i..]) - CounterSum(s[i..]); if finished then -1 <= d <= 1 else d == 0
  {
    if s' != s {
      var l: nat :| l < |s| && -1 <= s'[l] - s[l] <= 1 && s' == s[l := s'[l]];
      if i <= l {
        assert s'[i..] == s[i..][l - i := s[i..][l - i] + (s'[l] - s[l])];
        CounterSumUpdate(s[i..], l - i, s'[l] - s[l]);
      } else {
        assert s'[i..] == s[i..];
      }
    }
  }

  /** The operations that finish in a tick. */
  ghost function Finished(s: Scan, s': Scan): int {
    |s'.config.history| - |s.config.history|
  }

  lemma OtherExpected(s: Scan, a: Action)
    requires TickOk(s, Other(a)) && s.next <= |s.config.table.counters|
    ensures var s' := Ticked(s, Other(a));
            && |s'.config.table.counters| == |s.config.table.counters| && 0 <= Finished(s, s')
            && -Finished(s, s') <= Expected(s') - Expected(s) <= Finished(s, s')
  {
    var c := s.config;
    if a.thread < |c.threads| && !c.threads[a.thread].Idle? && !(a.choice.Throw? && c.threads[a.thread].Expanding?) {
      AdvanceBumps(c.table, c.threads[a.thread], a.choice);
      var e := Advance(c.table, c.threads[a.thread], a.choice);
      BumpedTail(c.table.counters, e.table.counters, e.outcome.Some?, s.next);
    }
  }

  lemma TickExpected(s: Scan, k: Tick)
    requires TickOk(s, k) && s.next <= |s.config.table.counters|
    ensures var s' := Ticked(s, k);
            && |s'.config.table.counters| == |s.config.table.counters| && s'.next <= |s.config.table.counters|
            && 0 <= Finished(s, s') && -Finished(s, s') <= Expected(s') - Expected(s) <= Finished(s, s')
  {
    match k
    case Read =>
      var rest := s.config.table.counters[s.next..];
      CounterSumFirst(rest);
      assert rest[1..] == s.config.table.counters[s.next + 1..];
    case Other(a) =>
      OtherExpected(s, a);
  }

  lemma {:induction false} ScanExpected(s: Scan, ticks: seq<Tick>)
    requires Runs(s, ticks) && s.next <= |s.config.table.counters|
    ensures var s' := Scanned(s, ticks);
            && |s'.config.table.counters| == |s.config.table.counters| && s'.next <= |s.config.table.counters|
            && 0 <= Finished(s, s') && -Finished(s, s') <= Expected(s') - Expected(s) <= Finished(s, s')
    decreases |ticks|
  {
    if ticks != [] {
      TickExpected(s, ticks[0]);
      ScanExpected(Ticked(s, ticks[0]), ticks[1..]);
    }
  }

  /** size() run beside any other critical sections that neither clear the table nor extend the array of
      locks: the result differs from the number of keys at its start by no more than the number of operations
      that finish meanwhile. When none finishes it is the number of keys. */
  lemma SizeIsClose(c: Config, ticks: seq<Tick>)
    requires Inv(c) && Runs(Scan(c, 0, 0), ticks) && Scanned(Scan(c, 0, 0), ticks).next == |c.table.counters|
    ensures var s := Scanned(Scan(c, 0, 0), ticks); var n := |s.config.history| - |c.history|;
            0 <= n && |Replay(c.history)| - n <= s.sum <= |Replay(c.history)| + n
  {
    var loc :| Represents(c.table, Replay(c.history), loc);
    assert c.table.counters[0..] == c.table.counters;
    ScanExpected(Scan(c, 0, 0), ticks);
  }

  // ---------------------------------------------------------------------------
  // The counter of one lock
  // ---------------------------------------------------------------------------

  /** The occupied slots in the buckets of lock l. */
  ghost function Occupants(t: Table, l: nat): set<Pos> {
    set i: nat, j: nat | i < |t.buckets| && j < |t.buckets[i]| && LockOf(i) == l && t.buckets[i][j].Full? :: New(i, j)
  }

  /** Every counter is the number of elements under its lock. */
  ghost predicate CountedPerLock(t: Table) {
    forall l: nat {:trigger Occupants(t, l)} :: l < |t.counters| ==> t.counters[l] == |Occupants(t, l)|
  }

  lemma DisplacedOccupants(t: Table, i: nat, j: nat, i': nat, j': nat, l: nat)
    requires CanDisplace(t, i, j, i', j')
    ensures New(i, j) in Occupants(t, LockOf(i)) && New(i', j') !in Occupants(t, l)
    ensures var u := Displace(t, i, j, i', j');
            Occupants(u, l) == Occupants(t, l) - {New(i, j)} + if LockOf(i') == l then {New(i', j')} else {}
  {
    var u := Displace(t, i, j, i', j');
    forall x: nat, y: nat
      ensures New(x, y) in Occupants(u, l) <==>
              New(x, y) in Occupants(t, l) - {New(i, j)} + if LockOf(i') == l then {New(i', j')} else {}
    {
      if x < |t.buckets| && y < |t.buckets[x]| {
        DisplaceAt(t, i, j, i', j', New(x, y));
      }
    }
    forall p
      ensures p in Occupants(u, l) ==> p.New?
      ensures p in Occupants(t, l) ==> p.New?
    {
    }
    forall p
      ensures p in Occupants(u, l) <==> p in Occupants(t, l) - {New(i, j)} + if LockOf(i') == l then {New(i', j')} else {}
    {
      if p.New? {
        assert p == New(p.bucket, p.slot);
      }
    }
  }

  /** A displacement leaves all counters alone, so that counters which are right for each lock stay right if and
      only if the entry stays under its lock. Only their sum is kept by every step. */
  lemma DisplaceCounts(t: Table, i: nat, j: nat, i': nat, j': nat)
    requires CanDisplace(t, i, j, i', j') && CountedPerLock(t) && LockOf(i) < |t.counters| && LockOf(i') < |t.counters|
    ensures CountedPerLock(Displace(t, i, j, i', j')) <==> LockOf(i) == LockOf(i')
  {
    var u := Displace(t, i, j, i', j');
    forall l: nat {:trigger Occupants(u, l)} | l < |t.counters|
      ensures |Occupants(u, l)| == |Occupants(t, l)| - (if l == LockOf(i) then 1 else 0) + if l == LockOf(i') then 1 else 0
    {
      DisplacedOccupants(t, i, j, i', j', l);
      if l != LockOf(i) {
        assert New(i, j) !in Occupants(t, l);
      }
    }
    assert Occupants(t, LockOf(i)) == Occupants(t, LockOf(i)) && u.counters == t.counters;
    if LockOf(i) != LockOf(i') {
      assert |Occupants(u, LockOf(i))| != u.counters[LockOf(i)];
    }
  }
}
