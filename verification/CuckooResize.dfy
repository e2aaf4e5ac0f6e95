/**
 Doubling the cuckoo table and migrating the old buckets lazily, one lock at a time.
 */
module CuckooResize {
  import opened Bits
  import opened CuckooTable

  // ---------------------------------------------------------------------------
  // move_bucket
  // ---------------------------------------------------------------------------

  /** Whether move_bucket sends an entry of old bucket i to bucket i + 2^power of the doubled table. */
  predicate GoesHigh(hash: Key -> nat, power: nat, i: nat, s: Slot) {
    s.Full? && var h := hash(s.key);
    (i == First(power, h) && First(power + 1, h) == i + Pow2(power)) ||
    (i == Second(power, h) && Second(power + 1, h) == i + Pow2(power))
  }

  /** For each slot of old bucket i, whether its entry goes high. */
  function Marks(hash: Key -> nat, power: nat, i: nat, b: Bucket): (up: seq<bool>)
    ensures |up| == |b| && forall j :: 0 <= j < |b| && up[j] ==> b[j].Full?
  {
    seq(|b|, j requires 0 <= j < |b| => GoesHigh(hash, power, i, b[j]))
  }

  /** What stays at its own slot of bucket i. */
  function LowPart(up: seq<bool>, b: Bucket): (r: Bucket)
    requires |up| == |b|
    ensures |r| == |b|
  {
    seq(|b|, j requires 0 <= j < |b| => if up[j] then Empty else b[j])
  }

  /** What the first n slots leave in the low bucket. */
  function LowPrefix(up: seq<bool>, b: Bucket, n: nat): (r: Bucket)
    requires n <= |up| == |b|
    ensures |r| == |b|
  {
    seq(|b|, j requires 0 <= j < |b| => if j < n && !up[j] then b[j] else Empty)
  }

  lemma LowPrefixNext(up: seq<bool>, b: Bucket, n: nat)
    requires n < |up| == |b|
    ensures LowPrefix(up, b, n)[n].Empty?
    ensures LowPrefix(up, b, n + 1) == if up[n] then LowPrefix(up, b, n) else LowPrefix(up, b, n)[n := b[n]]
  {
    var p, q := LowPrefix(up, b, n), LowPrefix(up, b, n + 1);
    assert q == if up[n] then p else p[n := b[n]];
  }

  /** The entries of the first n slots that go high, in slot order. */
  function Rising(up: seq<bool>, b: Bucket, n: nat): (r: seq<Slot>)
    requires n <= |b| == |up|
    ensures |r| <= n
  {
    if n == 0 then []
    else
      var r := Rising(up, b, n - 1);
      if up[n - 1] then r + [b[n - 1]] else r
  }

  /** What goes to bucket i + 2^power, packed from slot 0. */
  function HighPart(up: seq<bool>, b: Bucket): (r: Bucket)
    requires |up| == |b|
    ensures |r| == |b|
  {
    Padded(Rising(up, b, |b|), |b|)
  }

  /** Entries packed from slot 0 of an otherwise empty bucket of n slots. */
  function Padded(r: seq<Slot>, n: nat): (b: Bucket)
    requires |r| <= n
    ensures |b| == n
  {
    r + seq(n - |r|, _ => Empty)
  }

  lemma PaddedPush(r: seq<Slot>, n: nat, s: Slot)
    requires |r| < n
    ensures Padded(r, n)[|r|].Empty? && Padded(r, n)[|r| := s] == Padded(r + [s], n)
  {
  }

  /** The slot of the high bucket that the entry at slot j goes to. */
  function Rank(up: seq<bool>, b: Bucket, j: nat): nat
    requires j <= |b| == |up|
  {
    |Rising(up, b, j)|
  }

  lemma {:induction false} RisingHas(up: seq<bool>, b: Bucket, n: nat, j: nat)
    requires j < n <= |b| == |up| && up[j]
    ensures Rank(up, b, j) < |Rising(up, b, n)|
    ensures Rising(up, b, n)[Rank(up, b, j)] == b[j]
    decreases n
  {
    if j < n - 1 {
      RisingHas(up, b, n - 1, j);
    }
  }

  lemma {:induction false} RisingFrom(up: seq<bool>, b: Bucket, n: nat, r: nat) returns (j: nat)
    requires n <= |b| == |up| && r < |Rising(up, b, n)|
    ensures j < n && up[j] && Rank(up, b, j) == r
    ensures Rising(up, b, n)[r] == b[j]
    decreases n
  {
    if r < |Rising(up, b, n - 1)| {
      j := RisingFrom(up, b, n - 1, r);
    } else {
      j := n - 1;
    }
  }

  /** The two buckets an old bucket is split into while they are written; Clobbered as soon as an
      occupied slot has been written. */
  datatype Halves = Halves(low: Bucket, high: Bucket) | Clobbered

  /** One call of setKV in move_bucket. */
  datatype Write = Write(up: bool, slot: nat, entry: Slot)

  ghost function Place(h: Halves, w: Write): Halves {
    match h
    case Clobbered => Clobbered
    case Halves(low, high) =>
      if w.up && w.slot < |high| && high[w.slot].Empty? then Halves(low, high[w.slot := w.entry])
      else if !w.up && w.slot < |low| && low[w.slot].Empty? then Halves(low[w.slot := w.entry], high)
      else Clobbered
  }

  ghost function PlaceAll(h: Halves, writes: seq<Write>): Halves {
    if writes == [] then h
    else Place(PlaceAll(h, writes[..|writes| - 1]), writes[|writes| - 1])
  }

  lemma PlaceOneMore(h: Halves, writes: seq<Write>, w: Write)
    ensures PlaceAll(h, writes + [w]) == Place(PlaceAll(h, writes), w)
  {
    assert (writes + [w])[..|writes|] == writes;
  }

  lemma EmptyHalves(up: seq<bool>, b: Bucket, low: Bucket, high: Bucket)
    requires |up| == |b| == |low| == |high| && AllEmpty(low) && AllEmpty(high)
    ensures low == LowPrefix(up, b, 0) && high == Padded(Rising(up, b, 0), |b|)
  {
  }

  /** The loop of move_bucket on the two target buckets: entries go to the same slot of the low bucket
      or to the next free slot of the high one.  The calls of setKV, in order, are returned; replaying
      them gives the two buckets, which is to say that each found its slot empty. */
  method MoveBucket(hash: Key -> nat, power: nat, i: nat, b: Bucket, low0: Bucket, high0: Bucket)
    returns (low: Bucket, high: Bucket, ghost writes: seq<Write>)
    requires |low0| == |high0| == |b| && AllEmpty(low0) && AllEmpty(high0)
    ensures low == LowPart(Marks(hash, power, i, b), b) && high == HighPart(Marks(hash, power, i, b), b)
    ensures PlaceAll(Halves(low0, high0), writes) == Halves(low, high)
  {
    low, high, writes := low0, high0, [];
    var newSlot: nat := 0;
    ghost var up := Marks(hash, power, i, b);
    EmptyHalves(up, b, low, high);
    for slot := 0 to |b|
      invariant |low| == |high| == |up| == |b| && newSlot <= slot
      invariant low == LowPrefix(up, b, slot)
      invariant newSlot == |Rising(up, b, slot)| && high == Padded(Rising(up, b, slot), |b|)
      invariant PlaceAll(Halves(low0, high0), writes) == Halves(low, high)
    {
      LowPrefixNext(up, b, slot);
      if b[slot].Empty? {
        assert low[slot := Empty] == low;
        continue;
      }
      var rises := GoesHigh(hash, power, i, b[slot]);
      assert rises == up[slot];
      if rises {
        PaddedPush(Rising(up, b, slot), |b|, b[slot]);
        PlaceOneMore(Halves(low0, high0), writes, Write(true, newSlot, b[slot]));
        writes := writes + [Write(true, newSlot, b[slot])];
        high := high[newSlot := b[slot]];
        newSlot := newSlot + 1;
      } else {
        PlaceOneMore(Halves(low0, high0), writes, Write(false, slot, b[slot]));
        writes := writes + [Write(false, slot, b[slot])];
        low := low[slot := b[slot]];
      }
    }
    assert low == LowPart(up, b);
  }

  /** Where the entry at slot j of old bucket i goes. */
  function Destination(hash: Key -> nat, power: nat, i: nat, b: Bucket, j: nat): Pos
    requires j < |b|
  {
    var up := Marks(hash, power, i, b);
    if up[j] then New(i + Pow2(power), Rank(up, b, j)) else New(i, j)
  }

  /** A moved entry lands in a candidate bucket of the doubled table. */
  lemma DestinationIsCandidate(hash: Key -> nat, power: nat, i: nat, b: Bucket, j: nat)
    requires j < |b| && b[j].Full? && Candidate(power, hash(b[j].key), i)
    ensures Candidate(power + 1, hash(b[j].key), Destination(hash, power, i, b, j).bucket)
  {
    CandidatesGrow(power, hash(b[j].key));
  }

  /** The two buckets that old bucket i is split into. */
  function Part(hash: Key -> nat, power: nat, prior: seq<Bucket>, i: nat): Bucket
    requires |prior| == Pow2(power) && i < Pow2(power + 1)
  {
    var i0 := Source(power, i);
    var up := Marks(hash, power, i0, prior[i0]);
    if i < Pow2(power) then LowPart(up, prior[i0]) else HighPart(up, prior[i0])
  }

  /** The old bucket that bucket i of the doubled table is filled from. */
  function Source(power: nat, i: nat): nat {
    if i < Pow2(power) then i else i - Pow2(power)
  }

  lemma PartAtDestination(hash: Key -> nat, power: nat, prior: seq<Bucket>, i: nat, j: nat)
    requires |prior| == Pow2(power) && i < |prior| && j < |prior[i]| && prior[i][j].Full?
    ensures var d := Destination(hash, power, i, prior[i], j);
            d.New? && d.bucket < Pow2(power + 1) && d.slot < |prior[i]| == |Part(hash, power, prior, d.bucket)| &&
            Part(hash, power, prior, d.bucket)[d.slot] == prior[i][j]
  {
    var up := Marks(hash, power, i, prior[i]);
    if up[j] {
      RisingHas(up, prior[i], |prior[i]|, j);
    }
  }

  /** Every occupied slot of a split bucket is the destination of an occupied slot of the old bucket. */
  lemma PartSource(hash: Key -> nat, power: nat, prior: seq<Bucket>, i: nat, j: nat) returns (i0: nat, j0: nat)
    requires |prior| == Pow2(power) && i < Pow2(power + 1)
    requires j < |Part(hash, power, prior, i)| && Part(hash, power, prior, i)[j].Full?
    ensures i0 < |prior| && i0 == Source(power, i) && j0 < |prior[i0]|
    ensures prior[i0][j0] == Part(hash, power, prior, i)[j] && Destination(hash, power, i0, prior[i0], j0) == New(i, j)
  {
    i0 := Source(power, i);
    if i < Pow2(power) {
      j0 := j;
    } else {
      j0 := RisingFrom(Marks(hash, power, i0, prior[i0]), prior[i0], |prior[i0]|, j);
    }
  }

  // ---------------------------------------------------------------------------
  // rehash_lock
  // ---------------------------------------------------------------------------

  lemma UnmigratedMeansOld(t: Table, l: nat)
    requires Shape(t) && l < |t.migrated| && !t.migrated[l]
    ensures t.remaining > 0 && t.power > LOCK_POWER && |t.prior| == Pow2(t.power - 1) && Widths(t.prior, t.width)
  {
    assert l in Unmigrated(t.migrated);
  }

  /** Migrating the buckets of lock l; a migrated lock is left alone. */
  function Migrate(t: Table, l: nat): Table
    requires Shape(t) && l < |t.migrated|
  {
    if t.migrated[l] then t
    else
      UnmigratedMeansOld(t, l);
      Migrated(t, l)
  }

  /** There are old buckets to migrate. */
  ghost predicate Splittable(t: Table) {
    t.power > LOCK_POWER && |t.prior| == Pow2(t.power - 1) && |t.buckets| == Pow2(t.power) && t.remaining > 0
  }

  function Migrated(t: Table, l: nat): Table
    requires Splittable(t) && l < |t.migrated|
  {
    t.(buckets := seq(|t.buckets|, i requires 0 <= i < |t.buckets| =>
                        if LockOf(i) == l then Parts(t)[i] else t.buckets[i]),
       migrated := t.migrated[l := true],
       remaining := t.remaining - 1,
       prior := if t.remaining == 1 then [] else t.prior)
  }

  lemma PartsAt(t: Table, i: nat)
    requires t.power > 0 && |t.prior| == Pow2(t.power - 1) && i < Pow2(t.power)
    ensures Parts(t)[i] == Part(t.hash, t.power - 1, t.prior, i)
  {
  }

  lemma MigratedBucket(t: Table, l: nat, i: nat)
    requires Splittable(t) && l < |t.migrated| && i < |t.buckets|
    ensures Migrated(t, l).buckets[i] == if LockOf(i) == l then Part(t.hash, t.power - 1, t.prior, i) else t.buckets[i]
  {
    PartsAt(t, i);
  }

  /** Old buckets split into the buckets of the doubled table. */
  function Parts(t: Table): (parts: seq<Bucket>)
    requires t.power > 0 && |t.prior| == Pow2(t.power - 1)
    ensures |parts| == Pow2(t.power)
  {
    seq(Pow2(t.power), i requires 0 <= i < Pow2(t.power) => Part(t.hash, t.power - 1, t.prior, i))
  }

  /** The buckets of lock l that are filled from old buckets below ind have their new contents. */
  ghost predicate MovedBelow(power: nat, before: seq<Bucket>, parts: seq<Bucket>, l: nat, ind: nat, buckets: seq<Bucket>) {
    && |buckets| == |before| == |parts| == Pow2(power + 1)
    && forall i: nat {:trigger buckets[i]} :: i < |buckets| ==>
         buckets[i] == if LockOf(i) == l && Source(power, i) < ind then parts[i] else before[i]
  }

  /** Fill the two buckets that old bucket ind is split into. */
  function FillTwo(power: nat, parts: seq<Bucket>, buckets: seq<Bucket>, ind: nat): seq<Bucket>
    requires |parts| == |buckets| == Pow2(power + 1) && ind < Pow2(power)
  {
    buckets[ind := parts[ind]][ind + Pow2(power) := parts[ind + Pow2(power)]]
  }

  lemma FillTwoAt(power: nat, parts: seq<Bucket>, buckets: seq<Bucket>, ind: nat, i: nat)
    requires |parts| == |buckets| == Pow2(power + 1) && ind < Pow2(power) && i < |buckets|
    ensures |FillTwo(power, parts, buckets, ind)| == |buckets|
    ensures FillTwo(power, parts, buckets, ind)[i] ==
            if i == ind || i == ind + Pow2(power) then parts[i] else buckets[i]
  {
  }

  lemma NextSource(power: nat, l: nat, ind: nat, i: nat)
    requires power >= LOCK_POWER && ind < Pow2(power) && LockOf(ind) == l && i < Pow2(power + 1)
    ensures LockOf(i) == l && Source(power, i) < ind + Pow2(LOCK_POWER) <==>
            (LockOf(i) == l && Source(power, i) < ind) || i == ind || i == ind + Pow2(power)
  {
    SplitLock(power, i);
    if LockOf(i) == l && ind < Source(power, i) {
      LowSpacing(ind, Source(power, i), LOCK_POWER);
    }
  }

  lemma MovedNext(power: nat, before: seq<Bucket>, parts: seq<Bucket>, l: nat, ind: nat, buckets: seq<Bucket>)
    requires power >= LOCK_POWER && MovedBelow(power, before, parts, l, ind, buckets)
    requires ind < Pow2(power) && LockOf(ind) == l
    ensures MovedBelow(power, before, parts, l, ind + Pow2(LOCK_POWER), FillTwo(power, parts, buckets, ind))
  {
    var filled := FillTwo(power, parts, buckets, ind);
    forall i: nat {:trigger filled[i]} | i < |filled|
      ensures filled[i] == if LockOf(i) == l && Source(power, i) < ind + Pow2(LOCK_POWER) then parts[i] else before[i]
    {
      NextSource(power, l, ind, i);
      FillTwoAt(power, parts, buckets, ind, i);
    }
  }

  lemma NoneBelow(power: nat, before: seq<Bucket>, parts: seq<Bucket>, l: nat)
    requires power >= LOCK_POWER && |before| == |parts| == Pow2(power + 1) && LockOf(l) == l
    ensures MovedBelow(power, before, parts, l, l, before)
  {
    forall i: nat | i < |before| && LockOf(i) == l
      ensures Source(power, i) >= l
    {
      SplitLock(power, i);
      if Source(power, i) < l {
        LowSpacing(Source(power, i), l, LOCK_POWER);
        LowBound(l, LOCK_POWER);
      }
    }
  }

  lemma SplitLock(power: nat, i: nat)
    requires LOCK_POWER <= power && i < Pow2(power + 1)
    ensures LockOf(i) == LockOf(Source(power, i))
  {
    if i >= Pow2(power) {
      LowOfShifted(i - Pow2(power), LOCK_POWER, power);
    }
  }

  lemma PartHalves(hash: Key -> nat, power: nat, prior: seq<Bucket>, i: nat)
    requires |prior| == Pow2(power) && i < Pow2(power)
    ensures Part(hash, power, prior, i) == LowPart(Marks(hash, power, i, prior[i]), prior[i])
    ensures Part(hash, power, prior, i + Pow2(power)) == HighPart(Marks(hash, power, i, prior[i]), prior[i])
  {
  }

  /** The two buckets that old bucket ind is split into are as wide as it and empty. */
  ghost predicate TargetsEmpty(prior: seq<Bucket>, buckets: seq<Bucket>, ind: nat)
    requires |buckets| == 2 * |prior| && ind < |prior|
  {
    && |buckets[ind]| == |buckets[ind + |prior|]| == |prior[ind]|
    && AllEmpty(buckets[ind]) && AllEmpty(buckets[ind + |prior|])
  }

  method SplitBucket(t: Table, buckets: seq<Bucket>, ind: nat) returns (low: Bucket, high: Bucket)
    requires t.power > 0 && |t.prior| == Pow2(t.power - 1) && |buckets| == 2 * |t.prior| && ind < |t.prior|
    requires TargetsEmpty(t.prior, buckets, ind)
    ensures low == Parts(t)[ind] && high == Parts(t)[ind + |t.prior|]
  {
    ghost var writes;
    low, high, writes := MoveBucket(t.hash, t.power - 1, ind, t.prior[ind], buckets[ind], buckets[ind + |t.prior|]);
    PartsHalves(t, ind, low, high);
  }

  lemma PartsHalves(t: Table, ind: nat, low: Bucket, high: Bucket)
    requires t.power > 0 && |t.prior| == Pow2(t.power - 1) && ind < |t.prior|
    requires low == LowPart(Marks(t.hash, t.power - 1, ind, t.prior[ind]), t.prior[ind])
    requires high == HighPart(Marks(t.hash, t.power - 1, ind, t.prior[ind]), t.prior[ind])
    ensures low == Parts(t)[ind] && high == Parts(t)[ind + |t.prior|]
  {
    PartsAt(t, ind);
    PartsAt(t, ind + |t.prior|);
    PartHalves(t.hash, t.power - 1, t.prior, ind);
  }

  method MoveOne(t: Table, buckets: seq<Bucket>, ind: nat) returns (moved: seq<Bucket>)
    requires t.power > 0 && |t.prior| == Pow2(t.power - 1) && |buckets| == Pow2(t.power) && ind < |t.prior|
    requires TargetsEmpty(t.prior, buckets, ind)
    ensures moved == FillTwo(t.power - 1, Parts(t), buckets, ind)
  {
    var low, high := SplitBucket(t, buckets, ind);
    moved := buckets[ind := low][ind + |t.prior| := high];
  }

  /** The buckets of lock l are still as empty as they were when the table was doubled. */
  ghost predicate Awaiting(t: Table, l: nat)
    requires |t.buckets| == 2 * |t.prior|
  {
    forall ind: nat {:trigger TargetsEmpty(t.prior, t.buckets, ind)} ::
      ind < |t.prior| && LockOf(ind) == l ==> TargetsEmpty(t.prior, t.buckets, ind)
  }

  lemma UnmigratedAwaits(t: Table, l: nat)
    requires Shape(t) && l < |t.migrated| && !t.migrated[l] && |t.buckets| == 2 * |t.prior|
    ensures Awaiting(t, l)
  {
    UnmigratedMeansOld(t, l);
    forall ind: nat {:trigger TargetsEmpty(t.prior, t.buckets, ind)} | ind < |t.prior| && LockOf(ind) == l
      ensures TargetsEmpty(t.prior, t.buckets, ind)
    {
      SplitLock(t.power - 1, ind + |t.prior|);
    }
  }

  lemma TargetsStillEmpty(t: Table, l: nat, buckets: seq<Bucket>, ind: nat)
    requires t.power > LOCK_POWER && |t.prior| == Pow2(t.power - 1) && ind < |t.prior| && LockOf(ind) == l
    requires MovedBelow(t.power - 1, t.buckets, Parts(t), l, ind, buckets)
    requires Awaiting(t, l)
    ensures TargetsEmpty(t.prior, buckets, ind)
  {
    assert TargetsEmpty(t.prior, t.buckets, ind);
    assert buckets[ind] == t.buckets[ind] && buckets[ind + |t.prior|] == t.buckets[ind + |t.prior|];
  }

  /** One round of the loop of rehash_lock. */
  method MoveNext(t: Table, l: nat, buckets: seq<Bucket>, ind: nat) returns (moved: seq<Bucket>, next: nat)
    requires t.power > LOCK_POWER && |t.prior| == Pow2(t.power - 1) && ind < |t.prior| && LockOf(ind) == l
    requires MovedBelow(t.power - 1, t.buckets, Parts(t), l, ind, buckets)
    requires Awaiting(t, l)
    ensures next == ind + Pow2(LOCK_POWER) && LockOf(next) == l
    ensures MovedBelow(t.power - 1, t.buckets, Parts(t), l, next, moved)
  {
    MovedNext(t.power - 1, t.buckets, Parts(t), l, ind, buckets);
    TargetsStillEmpty(t, l, buckets, ind);
    NextOfLock(ind);
    moved := MoveOne(t, buckets, ind);
    next := ind + Pow2(LOCK_POWER);
  }

  lemma NextOfLock(ind: nat)
    ensures LockOf(ind + Pow2(LOCK_POWER)) == LockOf(ind)
  {
    LowOfShifted(ind, LOCK_POWER, LOCK_POWER);
  }

  /** The loop of rehash_lock over the old buckets of lock l, kMaxNumLocks apart. */
  method MoveBucketsOf(t: Table, l: nat) returns (buckets: seq<Bucket>)
    requires t.power > LOCK_POWER && |t.prior| == Pow2(t.power - 1) && |t.buckets| == Pow2(t.power) && LockOf(l) == l
    requires Awaiting(t, l)
    ensures MovedBelow(t.power - 1, t.buckets, Parts(t), l, |t.prior|, buckets)
  {
    buckets := t.buckets;
    var ind: nat := l;
    NoneBelow(t.power - 1, t.buckets, Parts(t), l);
    while ind < |t.prior|
      invariant LockOf(ind) == l
      invariant MovedBelow(t.power - 1, t.buckets, Parts(t), l, ind, buckets)
      decreases |t.prior| - ind
    {
      buckets, ind := MoveNext(t, l, buckets, ind);
    }
    AllBelow(t.power - 1, t.buckets, Parts(t), l, ind, buckets);
  }

  lemma AllBelow(power: nat, before: seq<Bucket>, parts: seq<Bucket>, l: nat, ind: nat, buckets: seq<Bucket>)
    requires MovedBelow(power, before, parts, l, ind, buckets) && Pow2(power) <= ind
    ensures MovedBelow(power, before, parts, l, Pow2(power), buckets)
  {
  }

  method RehashLock(t: Table, l: nat) returns (u: Table)
    requires Shape(t) && l < |t.migrated|
    ensures u == Migrate(t, l)
  {
    if t.migrated[l] {
      return t;
    }
    UnmigratedMeansOld(t, l);
    LowBound(l, LOCK_POWER);
    UnmigratedAwaits(t, l);
    var buckets := MoveBucketsOf(t, l);
    MigrateIs(t, l, buckets);
    u := t.(buckets := buckets, migrated := t.migrated[l := true], remaining := t.remaining - 1);
    if t.remaining == 1 {
      u := u.(prior := []);
    }
  }

  lemma MigrateIs(t: Table, l: nat, buckets: seq<Bucket>)
    requires Shape(t) && l < |t.migrated| && !t.migrated[l] && t.power > 0 && |t.prior| == Pow2(t.power - 1)
    requires MovedBelow(t.power - 1, t.buckets, Parts(t), l, |t.prior|, buckets)
    ensures Migrate(t, l).buckets == buckets
  {
  }

  ghost function MovedPos(t: Table, l: nat, p: Pos): Pos {
    if p.Old? && t.power > 0 && p.bucket < |t.prior| && p.slot < |t.prior[p.bucket]| && LockOf(p.bucket) == l
    then Destination(t.hash, t.power - 1, p.bucket, t.prior[p.bucket], p.slot)
    else p
  }

  ghost function MovedAll(t: Table, l: nat, loc: map<Key, Pos>): map<Key, Pos> {
    map k | k in loc :: MovedPos(t, l, loc[k])
  }

  lemma MigrateSized(t: Table, l: nat)
    requires Shape(t) && l < |t.migrated| && !t.migrated[l]
    ensures Sized(Migrate(t, l)) && OldKept(Migrate(t, l))
  {
    UnmigratedMeansOld(t, l);
    var u := Migrate(t, l);
    assert Unmigrated(u.migrated) == Unmigrated(t.migrated) - {l};
    forall i | 0 <= i < |u.buckets|
      ensures |u.buckets[i]| == u.width
    {
    }
  }

  lemma MigrateShape(t: Table, l: nat)
    requires Shape(t) && l < |t.migrated| && !t.migrated[l]
    ensures Shape(Migrate(t, l))
  {
    MigrateSized(t, l);
    var u := Migrate(t, l);
    forall i: nat {:trigger u.buckets[i]} | i < |u.buckets| && LockOf(i) < |u.migrated| && !u.migrated[LockOf(i)]
      ensures AllEmpty(u.buckets[i])
    {
      assert u.buckets[i] == t.buckets[i];
    }
  }

  lemma DestinationLock(hash: Key -> nat, power: nat, i: nat, b: Bucket, j: nat)
    requires LOCK_POWER <= power && j < |b|
    ensures LockOf(Destination(hash, power, i, b, j).bucket) == LockOf(i)
  {
    LowOfShifted(i, LOCK_POWER, power);
  }

  lemma MigrateLive(t: Table, l: nat, p: Pos)
    requires Shape(t) && l < |t.migrated| && !t.migrated[l] && LockOf(p.bucket) != l
    ensures Live(Migrate(t, l), p) <==> Live(t, p)
    ensures Live(t, p) ==> At(Migrate(t, l), p) == At(t, p)
  {
    UnmigratedMeansOld(t, l);
    if p.Old? && Live(t, p) {
      assert LockOf(p.bucket) in Unmigrated(t.migrated) && l in Unmigrated(t.migrated);
      TwoUnmigrated(t.migrated, l, LockOf(p.bucket));
    }
  }

  lemma MigrateLocated(t: Table, m: map<Key, Value>, loc: map<Key, Pos>, l: nat, k: Key)
    requires Shape(t) && l < |t.migrated| && !t.migrated[l] && Located(t, m, loc, k)
    ensures Located(Migrate(t, l), m, MovedAll(t, l, loc), k)
  {
    UnmigratedMeansOld(t, l);
    if LockOf(loc[k].bucket) != l {
      MigrateLive(t, l, loc[k]);
      LocatedAgain(t, Migrate(t, l), m, loc, MovedAll(t, l, loc), k);
    } else {
      StillOld(t, m, loc, l, k);
      MovedLocated(t, m, loc, l, k);
    }
  }

  lemma LocatedAgain(t: Table, u: Table, m: map<Key, Value>, loc: map<Key, Pos>, loc': map<Key, Pos>, k: Key)
    requires Located(t, m, loc, k) && k in loc' && loc'[k] == loc[k] && u.hash == t.hash && u.power == t.power
    requires Live(u, loc[k]) && At(u, loc[k]) == At(t, loc[k])
    ensures Located(u, m, loc', k)
  {
  }

  lemma MovedLocated(t: Table, m: map<Key, Value>, loc: map<Key, Pos>, l: nat, k: Key)
    requires Splittable(t) && l < |t.migrated| && Located(t, m, loc, k) && loc[k].Old? && LockOf(loc[k].bucket) == l
    ensures Located(Migrated(t, l), m, MovedAll(t, l, loc), k)
  {
    var i, j := loc[k].bucket, loc[k].slot;
    MovedStored(t, l, i, j, k, m[k]);
    MovedPosOld(t, l, i, j);
    assert MovedAll(t, l, loc)[k] == MovedPos(t, l, loc[k]);
  }

  lemma MovedPosOld(t: Table, l: nat, i: nat, j: nat)
    requires t.power > 0 && i < |t.prior| && j < |t.prior[i]| && LockOf(i) == l
    ensures MovedPos(t, l, Old(i, j)) == Destination(t.hash, t.power - 1, i, t.prior[i], j)
  {
  }

  /** A key whose bucket belongs to an unmigrated lock is still in the old table. */
  lemma StillOld(t: Table, m: map<Key, Value>, loc: map<Key, Pos>, l: nat, k: Key)
    requires Shape(t) && l < |t.migrated| && !t.migrated[l] && Located(t, m, loc, k) && LockOf(loc[k].bucket) == l
    ensures loc[k].Old?
  {
  }

  lemma MovedAt(t: Table, l: nat, i: nat, j: nat)
    requires Splittable(t) && l < |t.migrated| && LockOf(i) == l
    requires Live(t, Old(i, j)) && At(t, Old(i, j)).Full?
    ensures var d := Destination(t.hash, t.power - 1, i, t.prior[i], j);
            Live(Migrated(t, l), d) && At(Migrated(t, l), d) == At(t, Old(i, j))
  {
    PartAtDestination(t.hash, t.power - 1, t.prior, i, j);
    DestinationLock(t.hash, t.power - 1, i, t.prior[i], j);
    MigratedAt(t, l, Destination(t.hash, t.power - 1, i, t.prior[i], j));
  }

  /** After the migration of lock l its buckets hold what was split into them. */
  lemma MigratedAt(t: Table, l: nat, d: Pos)
    requires Splittable(t) && l < |t.migrated|
    requires d.New? && d.bucket < Pow2(t.power) && LockOf(d.bucket) == l
    requires d.slot < |Part(t.hash, t.power - 1, t.prior, d.bucket)|
    ensures Live(Migrated(t, l), d) && At(Migrated(t, l), d) == Part(t.hash, t.power - 1, t.prior, d.bucket)[d.slot]
  {
    MigratedBucket(t, l, d.bucket);
    NewAt(Migrated(t, l), d.bucket, d.slot, Part(t.hash, t.power - 1, t.prior, d.bucket));
  }

  lemma NewAt(u: Table, i: nat, j: nat, b: Bucket)
    requires i < |u.buckets| && u.buckets[i] == b && j < |b|
    ensures Live(u, New(i, j)) && At(u, New(i, j)) == b[j]
  {
  }

  lemma StoredElsewhere(t: Table, u: Table, p: Pos, d: Pos, k: Key, v: Value)
    requires Stored(t, p, k, v) && u.hash == t.hash && Live(u, d) && At(u, d) == At(t, p) && Placed(u, d, k)
    ensures Stored(u, d, k, v)
  {
  }

  lemma MovedPlaced(t: Table, l: nat, i: nat, j: nat, k: Key)
    requires Splittable(t) && l < |t.migrated| && i < |t.prior| && j < |t.prior[i]|
    requires t.prior[i][j].Full? && t.prior[i][j].key == k && Candidate(t.power - 1, t.hash(k), i)
    ensures Placed(Migrated(t, l), Destination(t.hash, t.power - 1, i, t.prior[i], j), k)
  {
    DestinationIsCandidate(t.hash, t.power - 1, i, t.prior[i], j);
  }

  lemma MovedStored(t: Table, l: nat, i: nat, j: nat, k: Key, v: Value)
    requires Splittable(t) && l < |t.migrated| && LockOf(i) == l && Stored(t, Old(i, j), k, v)
    ensures Stored(Migrated(t, l), Destination(t.hash, t.power - 1, i, t.prior[i], j), k, v)
  {
    MovedAt(t, l, i, j);
    MovedPlaced(t, l, i, j, k);
    StoredElsewhere(t, Migrated(t, l), Old(i, j), Destination(t.hash, t.power - 1, i, t.prior[i], j), k, v);
  }

  lemma TwoUnmigrated(migrated: seq<bool>, a: nat, b: nat)
    requires a != b && a in Unmigrated(migrated) && b in Unmigrated(migrated)
    ensures |Unmigrated(migrated)| >= 2
  {
    assert |Unmigrated(migrated) - {a} - {b}| == |Unmigrated(migrated)| - 2;
  }

  lemma MigrateKnown(t: Table, m: map<Key, Value>, loc: map<Key, Pos>, l: nat, p: Pos)
    requires Represents(t, m, loc) && l < |t.migrated| && !t.migrated[l]
    ensures Known(Migrate(t, l), m, MovedAll(t, l, loc), p)
  {
    UnmigratedMeansOld(t, l);
    if LockOf(p.bucket) != l {
      assert Known(t, m, loc, p);
      MigrateLive(t, l, p);
    } else if Live(Migrated(t, l), p) && At(Migrated(t, l), p).Full? {
      var i0, j0 := MovedFrom(t, l, p);
      assert Known(t, m, loc, Old(i0, j0));
    }
  }

  lemma MovedSlot(t: Table, l: nat, p: Pos)
    requires Splittable(t) && l < |t.migrated| && !t.migrated[l] && LockOf(p.bucket) == l
    requires Live(Migrated(t, l), p)
    ensures p.New? && p.bucket < Pow2(t.power)
    ensures var part := Part(t.hash, t.power - 1, t.prior, p.bucket); p.slot < |part| && part[p.slot] == At(Migrated(t, l), p)
  {
    if p.New? {
      MigratedBucket(t, l, p.bucket);
    }
  }

  /** Whatever is in a bucket of lock l after its migration was moved there. */
  lemma MovedFrom(t: Table, l: nat, p: Pos) returns (i0: nat, j0: nat)
    requires Splittable(t) && l < |t.migrated| && !t.migrated[l] && LockOf(p.bucket) == l
    requires Live(Migrated(t, l), p) && At(Migrated(t, l), p).Full?
    ensures Live(t, Old(i0, j0)) && At(t, Old(i0, j0)) == At(Migrated(t, l), p) && MovedPos(t, l, Old(i0, j0)) == p
  {
    MovedSlot(t, l, p);
    SplitLock(t.power - 1, p.bucket);
    i0, j0 := PartSource(t.hash, t.power - 1, t.prior, p.bucket, p.slot);
    MovedPosOld(t, l, i0, j0);
  }

  /** Migrating one lock changes locations but not the map, and leaves the buckets of other locks alone. */
  lemma MigrateRepresents(t: Table, m: map<Key, Value>, loc: map<Key, Pos>, l: nat)
    requires Represents(t, m, loc) && l < |t.migrated|
    ensures Represents(Migrate(t, l), m, if t.migrated[l] then loc else MovedAll(t, l, loc))
    ensures Migrate(t, l).migrated == t.migrated[l := true]
    ensures forall i :: 0 <= i < |t.buckets| && LockOf(i) != l ==> Migrate(t, l).buckets[i] == t.buckets[i]
  {
    if !t.migrated[l] {
      MigrateShape(t, l);
      var u, loc' := Migrate(t, l), MovedAll(t, l, loc);
      forall k {:trigger Located(u, m, loc', k)} | k in m
        ensures Located(u, m, loc', k)
      {
        assert Located(t, m, loc, k);
        MigrateLocated(t, m, loc, l, k);
      }
      forall p {:trigger Known(u, m, loc', p)}
        ensures Known(u, m, loc', p)
      {
        MigrateKnown(t, m, loc, l, p);
      }
    }
  }

  // ---------------------------------------------------------------------------
  // cuckoo_fast_double
  // ---------------------------------------------------------------------------

  lemma MigrateKeepsShape(t: Table, l: nat)
    requires Shape(t) && l < |t.migrated|
    ensures Shape(Migrate(t, l)) && Migrate(t, l).migrated == t.migrated[l := true] && Migrate(t, l).power == t.power
  {
    if !t.migrated[l] {
      MigrateShape(t, l);
    }
  }

  /** Migrating the locks from l on, as cuckoo_fast_double does before it grows the table. */
  function MigrateFrom(t: Table, l: nat): (u: Table)
    requires Shape(t) && l <= |t.migrated|
    ensures Shape(u) && |u.migrated| == |t.migrated| && u.power == t.power
    ensures forall x :: 0 <= x < |t.migrated| ==> u.migrated[x] == (t.migrated[x] || l <= x)
    decreases |t.migrated| - l
  {
    if l == |t.migrated| then t
    else
      MigrateKeepsShape(t, l);
      MigrateFrom(Migrate(t, l), l + 1)
  }

  lemma {:induction false} MigrateFromRepresents(t: Table, m: map<Key, Value>, loc: map<Key, Pos>, l: nat)
    returns (loc': map<Key, Pos>)
    requires Represents(t, m, loc) && l <= |t.migrated|
    ensures Represents(MigrateFrom(t, l), m, loc')
    decreases |t.migrated| - l
  {
    if l == |t.migrated| {
      loc' := loc;
    } else {
      MigrateRepresents(t, m, loc, l);
      loc' := MigrateFromRepresents(Migrate(t, l), m, if t.migrated[l] then loc else MovedAll(t, l, loc), l + 1);
    }
  }

  function Zeros(n: nat): seq<int> {
    seq(n, _ => 0)
  }

  function EmptyBuckets(n: nat, width: nat): seq<Bucket> {
    seq(n, _ => seq(width, _ => Empty))
  }

  lemma LockCountGrows(power: nat)
    ensures LockCount(power) <= LockCount(power + 1)
    ensures power >= LOCK_POWER ==> LockCount(power) == LockCount(power + 1)
  {
    Pow2Grows(if power < LOCK_POWER then power else LOCK_POWER, if power + 1 < LOCK_POWER then power + 1 else LOCK_POWER);
  }

  /** Growing a fully migrated table: the locks array is extended, then either all old buckets are
      moved at once or, from kMaxNumLocks buckets on, all locks are marked unmigrated. */
  function Grow(t: Table): Table
    requires Sized(t)
  {
    LockCountGrows(t.power);
    var counters := t.counters + Zeros(LockCount(t.power + 1) - |t.counters|);
    if t.power < LOCK_POWER then
      Table(t.hash, t.width, t.power + 1,
            seq(Pow2(t.power + 1), i requires 0 <= i < Pow2(t.power + 1) => Part(t.hash, t.power, t.buckets, i)),
            [], seq(|counters|, _ => true), counters, 0)
    else
      Table(t.hash, t.width, t.power + 1, EmptyBuckets(Pow2(t.power + 1), t.width),
            t.buckets, seq(|counters|, _ => false), counters, |counters|)
  }

  lemma {:induction false} CounterSumZeros(s: seq<int>, n: nat)
    ensures CounterSum(s + Zeros(n)) == CounterSum(s)
    decreases n
  {
    if n == 0 {
      assert s + Zeros(0) == s;
    } else {
      var u := s + Zeros(n);
      assert u[..|u| - 1] == s + Zeros(n - 1);
      CounterSumZeros(s, n - 1);
    }
  }

  lemma {:induction false} AllUnmigrated(n: nat)
    ensures |Unmigrated(seq(n, _ => false))| == n
    decreases n
  {
    var all := seq(n, _ => false);
    if n == 0 {
      assert Unmigrated(all) == {};
    } else {
      AllUnmigrated(n - 1);
      assert Unmigrated(all) == Unmigrated(seq(n - 1, _ => false)) + {n - 1};
    }
  }

  ghost predicate AllMigrated(t: Table) {
    forall l :: 0 <= l < |t.migrated| ==> t.migrated[l]
  }

  lemma AllMigratedNothingOld(t: Table, p: Pos)
    requires Shape(t) && AllMigrated(t)
    ensures t.prior == [] && (Live(t, p) ==> p.New?)
  {
    assert Unmigrated(t.migrated) == {};
  }

  lemma GrowShape(t: Table)
    requires Shape(t) && AllMigrated(t)
    ensures Shape(Grow(t)) && CounterSum(Grow(t).counters) == CounterSum(t.counters)
  {
    var u := Grow(t);
    LockCountGrows(t.power);
    CounterSumZeros(t.counters, LockCount(t.power + 1) - |t.counters|);
    if t.power < LOCK_POWER {
      assert Unmigrated(u.migrated) == {};
      forall i | 0 <= i < |u.buckets|
        ensures |u.buckets[i]| == u.width
      {
      }
    } else {
      AllUnmigrated(|u.migrated|);
    }
  }

  /** Where a slot of the grown-from table is afterwards. */
  ghost function GrownPos(t: Table, p: Pos): Pos {
    if t.power < LOCK_POWER then
      if p.bucket < |t.buckets| && p.slot < |t.buckets[p.bucket]|
      then Destination(t.hash, t.power, p.bucket, t.buckets[p.bucket], p.slot) else p
    else Old(p.bucket, p.slot)
  }

  ghost function GrownAll(t: Table, loc: map<Key, Pos>): map<Key, Pos> {
    map k | k in loc :: GrownPos(t, loc[k])
  }

  lemma GrowAt(t: Table, i: nat, j: nat)
    requires Shape(t) && AllMigrated(t) && Live(t, New(i, j)) && At(t, New(i, j)).Full?
    ensures var d := GrownPos(t, New(i, j)); Live(Grow(t), d) && At(Grow(t), d) == At(t, New(i, j))
  {
    if t.power < LOCK_POWER {
      PartAtDestination(t.hash, t.power, t.buckets, i, j);
    } else {
      LockInRange(t.power, i);
      LockCountGrows(t.power);
    }
  }

  lemma GrowPlaced(t: Table, i: nat, j: nat, k: Key)
    requires Sized(t) && Live(t, New(i, j)) && At(t, New(i, j)).Full? && At(t, New(i, j)).key == k
    requires Candidate(t.power, t.hash(k), i)
    ensures Placed(Grow(t), GrownPos(t, New(i, j)), k)
  {
    if t.power < LOCK_POWER {
      DestinationIsCandidate(t.hash, t.power, i, t.buckets[i], j);
    }
  }

  lemma GrowLocated(t: Table, m: map<Key, Value>, loc: map<Key, Pos>, k: Key)
    requires Shape(t) && AllMigrated(t) && Located(t, m, loc, k)
    ensures Located(Grow(t), m, GrownAll(t, loc), k)
  {
    var p := loc[k];
    AllMigratedNothingOld(t, p);
    GrowAt(t, p.bucket, p.slot);
    GrowPlaced(t, p.bucket, p.slot, k);
  }

  lemma GrowKnown(t: Table, m: map<Key, Value>, loc: map<Key, Pos>, p: Pos)
    requires Represents(t, m, loc) && AllMigrated(t)
    ensures Known(Grow(t), m, GrownAll(t, loc), p)
  {
    var u := Grow(t);
    if Live(u, p) && At(u, p).Full? {
      if t.power < LOCK_POWER {
        var i0, j0 := PartSource(t.hash, t.power, t.buckets, p.bucket, p.slot);
        assert Known(t, m, loc, New(i0, j0));
      } else {
        assert Known(t, m, loc, New(p.bucket, p.slot));
      }
    }
  }

  lemma GrowRepresents(t: Table, m: map<Key, Value>, loc: map<Key, Pos>)
    requires Represents(t, m, loc) && AllMigrated(t)
    ensures Represents(Grow(t), m, GrownAll(t, loc))
  {
    GrowShape(t);
    var u, loc' := Grow(t), GrownAll(t, loc);
    forall k {:trigger Located(u, m, loc', k)} | k in m
      ensures Located(u, m, loc', k)
    {
      assert Located(t, m, loc, k);
      GrowLocated(t, m, loc, k);
    }
    forall p {:trigger Known(u, m, loc', p)}
      ensures Known(u, m, loc', p)
    {
      GrowKnown(t, m, loc, p);
    }
  }

  /** cuckoo_fast_double under all locks, when the hashpower is still the expected one. */
  function Double(t: Table): Table
    requires Shape(t)
  {
    Grow(MigrateFrom(t, 0))
  }

  /** Doubling preserves the map. */
  lemma DoubleRepresents(t: Table, m: map<Key, Value>, loc: map<Key, Pos>) returns (loc': map<Key, Pos>)
    requires Represents(t, m, loc)
    ensures Represents(Double(t), m, loc') && Double(t).power == t.power + 1
  {
    var moved := MigrateFromRepresents(t, m, loc, 0);
    var u := MigrateFrom(t, 0);
    GrowRepresents(u, m, moved);
    loc' := GrownAll(u, moved);
  }

  ghost predicate SameKind(t: Table, u: Table) {
    u.hash == t.hash && u.width == t.width && u.power == t.power
  }

  lemma {:induction false} MigrateFromKind(t: Table, l: nat)
    requires Shape(t) && l <= |t.migrated|
    ensures SameKind(t, MigrateFrom(t, l))
    decreases |t.migrated| - l
  {
    if l < |t.migrated| {
      MigrateKeepsShape(t, l);
      MigrateFromKind(Migrate(t, l), l + 1);
    }
  }

  /** Old buckets below n have been split into the doubled table. */
  ghost predicate SplitBelow(hash: Key -> nat, power: nat, prior: seq<Bucket>, n: nat, buckets: seq<Bucket>)
    requires |prior| == Pow2(power)
  {
    && |buckets| == Pow2(power + 1)
    && forall i: nat {:trigger buckets[i]} ::
         i < |buckets| && Source(power, i) < n ==> buckets[i] == Part(hash, power, prior, i)
  }

  lemma SplitNext(hash: Key -> nat, power: nat, prior: seq<Bucket>, n: nat, buckets: seq<Bucket>, low: Bucket, high: Bucket)
    requires |prior| == Pow2(power) && n < |prior| && SplitBelow(hash, power, prior, n, buckets)
    requires low == Part(hash, power, prior, n) && high == Part(hash, power, prior, n + Pow2(power))
    ensures SplitBelow(hash, power, prior, n + 1, buckets[n := low][n + Pow2(power) := high])
  {
    var next := buckets[n := low][n + Pow2(power) := high];
    forall i: nat {:trigger next[i]} | i < |next| && Source(power, i) < n + 1
      ensures next[i] == Part(hash, power, prior, i)
    {
      assert i != n && i != n + Pow2(power) ==> next[i] == buckets[i];
    }
  }

  /** The buckets that old buckets from n on will be split into are empty. */
  ghost predicate EmptyFrom(prior: seq<Bucket>, n: nat, buckets: seq<Bucket>)
    requires |buckets| == 2 * |prior|
  {
    forall ind: nat {:trigger TargetsEmpty(prior, buckets, ind)} ::
      n <= ind < |prior| ==> TargetsEmpty(prior, buckets, ind)
  }

  lemma EmptyAtFirst(prior: seq<Bucket>, width: nat)
    requires Widths(prior, width)
    ensures EmptyFrom(prior, 0, EmptyBuckets(2 * |prior|, width))
  {
  }

  lemma EmptyAfter(prior: seq<Bucket>, n: nat, buckets: seq<Bucket>, low: Bucket, high: Bucket)
    requires |buckets| == 2 * |prior| && n < |prior| && EmptyFrom(prior, n, buckets)
    ensures EmptyFrom(prior, n + 1, buckets[n := low][n + |prior| := high])
  {
    var next := buckets[n := low][n + |prior| := high];
    forall ind: nat {:trigger TargetsEmpty(prior, next, ind)} | n + 1 <= ind < |prior|
      ensures TargetsEmpty(prior, next, ind)
    {
      assert TargetsEmpty(prior, buckets, ind);
    }
  }

  method SplitOld(hash: Key -> nat, power: nat, prior: seq<Bucket>, buckets: seq<Bucket>, n: nat)
    returns (low: Bucket, high: Bucket)
    requires |prior| == Pow2(power) && |buckets| == 2 * |prior| && n < |prior| && TargetsEmpty(prior, buckets, n)
    ensures low == Part(hash, power, prior, n) && high == Part(hash, power, prior, n + Pow2(power))
  {
    ghost var writes;
    low, high, writes := MoveBucket(hash, power, n, prior[n], buckets[n], buckets[n + |prior|]);
    PartHalves(hash, power, prior, n);
  }

  /** The loop of cuckoo_fast_double that moves all buckets of a small table at once. */
  method MoveAll(hash: Key -> nat, width: nat, power: nat, prior: seq<Bucket>) returns (buckets: seq<Bucket>)
    requires |prior| == Pow2(power) && Widths(prior, width)
    ensures SplitBelow(hash, power, prior, |prior|, buckets)
  {
    buckets := EmptyBuckets(Pow2(power + 1), width);
    EmptyAtFirst(prior, width);
    for n := 0 to |prior|
      invariant |buckets| == 2 * |prior| && EmptyFrom(prior, n, buckets)
      invariant SplitBelow(hash, power, prior, n, buckets)
    {
      var low, high := SplitOld(hash, power, prior, buckets, n);
      SplitNext(hash, power, prior, n, buckets, low, high);
      EmptyAfter(prior, n, buckets, low, high);
      buckets := buckets[n := low][n + Pow2(power) := high];
    }
  }

  method RehashAll(t: Table) returns (u: Table)
    requires Shape(t)
    ensures u == MigrateFrom(t, 0)
  {
    u := t;
    for l := 0 to |t.migrated|
      invariant Shape(u) && |u.migrated| == |t.migrated| && MigrateFrom(u, l) == MigrateFrom(t, 0)
    {
      MigrateKeepsShape(u, l);
      u := RehashLock(u, l);
    }
  }

  /** cuckoo_fast_double. */
  method FastDouble(t: Table) returns (u: Table)
    requires Shape(t)
    ensures u == Double(t)
  {
    var done := RehashAll(t);
    MigrateFromKind(t, 0);
    LockCountGrows(t.power);
    var counters := done.counters + Zeros(LockCount(t.power + 1) - |done.counters|);
    if t.power < LOCK_POWER {
      var buckets := MoveAll(t.hash, t.width, t.power, done.buckets);
      assert buckets == Grow(done).buckets;
      u := Table(t.hash, t.width, t.power + 1, buckets, [], seq(|counters|, _ => true), counters, 0);
    } else {
      u := Table(t.hash, t.width, t.power + 1, EmptyBuckets(Pow2(t.power + 1), t.width), done.buckets,
                 seq(|counters|, _ => false), counters, |counters|);
    }
  }
}
