/**
 The table of the concurrent cuckoo hash map
 (CDNSimulator/libCacheSim/dataStructure/libcuckoo/cuckoohash_map.hpp): buckets, the half-migrated
 old buckets left by a doubling, and the metadata kept per lock.
 */
module CuckooTable {
  import opened Bits

  type Key(==, !new)
  type Value(==, !new)

  /** kMaxNumLocks is 2 to this power, which is 16 in the source; nothing here depends on the value. */
  const LOCK_POWER: nat

  /** The multiplier of MurmurHash2. */
  const MURMUR: nat := 0xc6a4_a793_5bd1_e995

  datatype Slot = Empty | Full(key: Key, value: Value, partial: nat)

  type Bucket = seq<Slot>

  /** hash is the hash function, width the number of slots per bucket and power the hashpower;
      prior is empty once the old buckets have been freed. */
  datatype Table = Table(
    hash: Key -> nat, width: nat, power: nat, buckets: seq<Bucket>, prior: seq<Bucket>,
    migrated: seq<bool>, counters: seq<int>, remaining: nat)

  // ---------------------------------------------------------------------------
  // Candidate buckets
  // ---------------------------------------------------------------------------

  /** The 8-bit digest of a 64-bit hash. */
  function PartialKey(hash: nat): nat {
    var h32 := Xor(hash % 0x1_0000_0000, hash / 0x1_0000_0000 % 0x1_0000_0000);
    var h16 := Xor(h32 % 0x1_0000, h32 / 0x1_0000 % 0x1_0000);
    Xor(h16 % 0x100, h16 / 0x100 % 0x100)
  }

  function IndexHash(power: nat, hash: nat): nat {
    Low(hash, power)
  }

  function Tag(partial: nat): nat {
    (partial + 1) * MURMUR % 0x1_0000_0000_0000_0000
  }

  function AltIndex(power: nat, partial: nat, index: nat): nat {
    Low(Xor(index, Tag(partial)), power)
  }

  function LockOf(bucket: nat): nat {
    Low(bucket, LOCK_POWER)
  }

  /** The second candidate depends on the hash alone, masked by the hashpower. */
  lemma AltOfIndex(power: nat, partial: nat, hash: nat)
    ensures AltIndex(power, partial, IndexHash(power, hash)) == Low(Xor(hash, Tag(partial)), power)
  {
    XorLow(IndexHash(power, hash), Tag(partial), power);
    XorLow(hash, Tag(partial), power);
    LowLow(hash, power, power);
  }

  /** alt_index is its own inverse. */
  lemma AltInvolution(power: nat, partial: nat, index: nat)
    requires index < Pow2(power)
    ensures AltIndex(power, partial, AltIndex(power, partial, index)) == index
  {
    var t, a := Tag(partial), AltIndex(power, partial, index);
    LowBound(index, power);
    LowBound(Xor(index, t), power);
    LowBound(a, power);
    XorLow(index, t, power);
    XorLow(a, t, power);
    XorTwice(index, Low(t, power));
  }

  function First(power: nat, hash: nat): nat {
    IndexHash(power, hash)
  }

  function Second(power: nat, hash: nat): nat {
    AltIndex(power, PartialKey(hash), IndexHash(power, hash))
  }

  ghost predicate Candidate(power: nat, hash: nat, bucket: nat) {
    bucket == First(power, hash) || bucket == Second(power, hash)
  }

  lemma CandidateInRange(power: nat, hash: nat)
    ensures First(power, hash) < Pow2(power) && Second(power, hash) < Pow2(power)
  {
    LowBound(hash, power);
    LowBound(Xor(IndexHash(power, hash), Tag(PartialKey(hash))), power);
  }

  /** The alternate of a candidate is the other candidate. */
  lemma AlternateIsCandidate(power: nat, hash: nat, bucket: nat)
    requires Candidate(power, hash, bucket)
    ensures Candidate(power, hash, AltIndex(power, PartialKey(hash), bucket))
  {
    CandidateInRange(power, hash);
    AltInvolution(power, PartialKey(hash), First(power, hash));
  }

  /** Doubling the table adds one bit at the top of each candidate. */
  lemma CandidatesGrow(power: nat, hash: nat)
    ensures First(power + 1, hash) == First(power, hash) || First(power + 1, hash) == First(power, hash) + Pow2(power)
    ensures Second(power + 1, hash) == Second(power, hash) || Second(power + 1, hash) == Second(power, hash) + Pow2(power)
  {
    OneMoreBit(hash, power);
    AltOfIndex(power, PartialKey(hash), hash);
    AltOfIndex(power + 1, PartialKey(hash), hash);
    OneMoreBit(Xor(hash, Tag(PartialKey(hash))), power);
  }

  /** From kMaxNumLocks buckets on, doubling does not change the locks of a key. */
  lemma LocksStay(power: nat, hash: nat)
    requires LOCK_POWER <= power
    ensures LockOf(First(power + 1, hash)) == LockOf(First(power, hash))
    ensures LockOf(Second(power + 1, hash)) == LockOf(Second(power, hash))
  {
    AltOfIndex(power, PartialKey(hash), hash);
    AltOfIndex(power + 1, PartialKey(hash), hash);
    LowLow(hash, LOCK_POWER, power);
    LowLow(hash, LOCK_POWER, power + 1);
    LowLow(Xor(hash, Tag(PartialKey(hash))), LOCK_POWER, power);
    LowLow(Xor(hash, Tag(PartialKey(hash))), LOCK_POWER, power + 1);
  }

  // ---------------------------------------------------------------------------
  // Well-formed tables
  // ---------------------------------------------------------------------------

  function LockCount(power: nat): nat {
    Pow2(if power < LOCK_POWER then power else LOCK_POWER)
  }

  lemma LockInRange(power: nat, bucket: nat)
    requires bucket < Pow2(power)
    ensures LockOf(bucket) < LockCount(power)
  {
    LowBound(bucket, LOCK_POWER);
    if power < LOCK_POWER {
      Pow2Grows(power, LOCK_POWER);
    }
  }

  lemma {:induction false} Pow2Grows(m: nat, n: nat)
    requires m <= n
    ensures Pow2(m) <= Pow2(n)
    decreases n
  {
    if m < n {
      Pow2Grows(m, n - 1);
    }
  }

  ghost predicate Widths(buckets: seq<Bucket>, width: nat) {
    forall i :: 0 <= i < |buckets| ==> |buckets[i]| == width
  }

  ghost predicate AllEmpty(b: Bucket) {
    forall j :: 0 <= j < |b| ==> b[j].Empty?
  }

  ghost function Unmigrated(migrated: seq<bool>): set<nat> {
    set l: nat | l < |migrated| && !migrated[l]
  }

  ghost predicate Sized(t: Table) {
    && |t.buckets| == Pow2(t.power) && Widths(t.buckets, t.width)
    && |t.migrated| == |t.counters| == LockCount(t.power)
    && t.remaining == |Unmigrated(t.migrated)|
  }

  /** The old buckets live exactly as long as some lock is unmigrated. */
  ghost predicate OldKept(t: Table)
    requires Sized(t)
  {
    if t.remaining == 0 then t.prior == []
    else t.power > LOCK_POWER && |t.prior| == Pow2(t.power - 1) && Widths(t.prior, t.width)
  }

  /** Nothing has been written to the buckets of an unmigrated lock. */
  ghost predicate Untouched(t: Table)
    requires Sized(t)
  {
    forall i: nat {:trigger t.buckets[i]} ::
      i < |t.buckets| && LockOf(i) < |t.migrated| && !t.migrated[LockOf(i)] ==> AllEmpty(t.buckets[i])
  }

  ghost predicate Shape(t: Table) {
    Sized(t) && OldKept(t) && Untouched(t)
  }

  // ---------------------------------------------------------------------------
  // The map a table stands for
  // ---------------------------------------------------------------------------

  datatype Pos = New(bucket: nat, slot: nat) | Old(bucket: nat, slot: nat)

  /** Positions whose contents count: all new ones and the old ones of unmigrated locks. */
  ghost predicate Live(t: Table, p: Pos) {
    match p
    case New(i, j) => i < |t.buckets| && j < |t.buckets[i]|
    case Old(i, j) => i < |t.prior| && j < |t.prior[i]| && LockOf(i) < |t.migrated| && !t.migrated[LockOf(i)]
  }

  ghost function At(t: Table, p: Pos): Slot
    requires Live(t, p)
  {
    match p
    case New(i, j) => t.buckets[i][j]
    case Old(i, j) => t.prior[i][j]
  }

  ghost predicate Placed(t: Table, p: Pos, k: Key) {
    match p
    case New(i, j) => Candidate(t.power, t.hash(k), i)
    case Old(i, j) => t.power > 0 && Candidate(t.power - 1, t.hash(k), i)
  }

  ghost function Entry(t: Table, k: Key, v: Value): Slot {
    Full(k, v, PartialKey(t.hash(k)))
  }

  /** Key k, with value v, is stored at p, one of its candidate buckets. */
  ghost predicate Stored(t: Table, p: Pos, k: Key, v: Value) {
    Live(t, p) && At(t, p) == Entry(t, k, v) && Placed(t, p, k)
  }

  /** Whatever is stored at p is the one occurrence of its key. */
  ghost predicate Known(t: Table, m: map<Key, Value>, loc: map<Key, Pos>, p: Pos) {
    Live(t, p) && At(t, p).Full? ==> At(t, p).key in m && At(t, p).key in loc && loc[At(t, p).key] == p
  }

  /** Key k of m is stored where loc says. */
  ghost predicate Located(t: Table, m: map<Key, Value>, loc: map<Key, Pos>, k: Key) {
    k in m && k in loc && Stored(t, loc[k], k, m[k])
  }

  ghost function CounterSum(s: seq<int>): int {
    if s == [] then 0 else CounterSum(s[..|s| - 1]) + s[|s| - 1]
  }

  /** The table stands for the map m, and each key k of m occupies exactly the slot loc[k]. */
  ghost predicate Represents(t: Table, m: map<Key, Value>, loc: map<Key, Pos>) {
    && Shape(t)
    && loc.Keys == m.Keys
    && (forall k {:trigger Located(t, m, loc, k)} :: k in m ==> Located(t, m, loc, k))
    && (forall p {:trigger Known(t, m, loc, p)} :: Known(t, m, loc, p))
    && CounterSum(t.counters) == |m|
  }
}
