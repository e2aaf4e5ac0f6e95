/**
 The buckets and locks of a key in arithmetic
 (CDNSimulator/libCacheSim/dataStructure/libcuckoo/cuckoohash_map.hpp).
 */
module CuckooHash {
  import opened Bits
  import opened CuckooTable

  // ---------------------------------------------------------------------------
  // Bits, shifts and masks in arithmetic
  // ---------------------------------------------------------------------------

  /** x >> k. */
  function Shifted(x: nat, k: nat): nat {
    if k == 0 then x else Shifted(x / 2, k - 1)
  }

  lemma QuotientIs(x: nat, p: nat, q: nat, r: nat)
    requires x == p * q + r && r < p
    ensures x / p == q && x % p == r
  {
    var d := x / p - q;
    assert x == p * (x / p) + x % p;
    assert p * d == r - x % p;
    if d > 0 {
      AtLeast(p, d);
    } else if d < 0 {
      AtLeast(p, -d);
    }
  }

  lemma AtLeast(p: nat, d: int)
    requires d >= 1
    ensures p * d >= p
  {
  }

  /** Shifting and masking are division and remainder. */
  lemma {:induction false} SplitAt(x: nat, k: nat)
    ensures x == Pow2(k) * Shifted(x, k) + Low(x, k) && Low(x, k) < Pow2(k)
    decreases k
  {
    if k > 0 {
      SplitAt(x / 2, k - 1);
      Doubled(Pow2(k - 1), Shifted(x / 2, k - 1));
    }
  }

  lemma Doubled(p: nat, q: nat)
    ensures 2 * p * q == 2 * (p * q)
  {
  }

  lemma ShiftAndMask(x: nat, k: nat)
    ensures Shifted(x, k) == x / Pow2(k) && Low(x, k) == x % Pow2(k)
  {
    SplitAt(x, k);
    QuotientIs(x, Pow2(k), Shifted(x, k), Low(x, k));
  }

  /** Each bit of the exclusive or is one exactly when the two bits differ. */
  lemma XorBit(a: nat, b: nat, i: nat)
    ensures Xor(a, b) / Pow2(i) % 2 == 1 <==> a / Pow2(i) % 2 != b / Pow2(i) % 2
  {
    ShiftAndMask(a, i);
    ShiftAndMask(b, i);
    ShiftAndMask(Xor(a, b), i);
    XorShift(a, b, i);
    XorStep(Shifted(a, i), Shifted(b, i));
    TwoBits(Shifted(a, i) % 2, Shifted(b, i) % 2);
  }

  lemma TwoBits(p: nat, q: nat)
    requires p < 2 && q < 2
    ensures (p + q) % 2 == 1 <==> p != q
  {
  }

  lemma {:induction false} XorShift(a: nat, b: nat, k: nat)
    ensures Shifted(Xor(a, b), k) == Xor(Shifted(a, k), Shifted(b, k))
    decreases k
  {
    if k > 0 {
      XorStep(a, b);
      XorShift(a / 2, b / 2, k - 1);
    }
  }

  lemma {:induction false} ShiftTwice(x: nat, j: nat, k: nat)
    ensures Shifted(Shifted(x, j), k) == Shifted(x, j + k)
    decreases j
  {
    if j > 0 {
      ShiftTwice(x / 2, j - 1, k);
    }
  }

  /** The low bits of a shifted number do not depend on what has been masked away above. */
  lemma {:induction false} ShiftOfLow(x: nat, j: nat, k: nat, n: nat)
    requires j + k <= n
    ensures Low(Shifted(Low(x, n), j), k) == Low(Shifted(x, j), k)
    decreases j
  {
    if j == 0 {
      LowLow(x, k, n);
    } else {
      LowStep(x, n);
      ShiftOfLow(x / 2, j - 1, k, n - 1);
    }
  }

  // ---------------------------------------------------------------------------
  // The partial key
  // ---------------------------------------------------------------------------

  /** Part i of x in parts of w bits. */
  function PartOf(x: nat, i: nat, w: nat): nat {
    Low(Shifted(x, w * i), w)
  }

  lemma Powers()
    ensures Pow2(8) == 0x100 && Pow2(16) == 0x1_0000 && Pow2(32) == 0x1_0000_0000
  {
    assert Pow2(4) == 16;
    assert Pow2(8) == 0x100;
    assert Pow2(12) == 0x1000;
    assert Pow2(16) == 0x1_0000;
    assert Pow2(20) == 0x10_0000;
    assert Pow2(24) == 0x100_0000;
    assert Pow2(28) == 0x1000_0000;
  }

  /** One fold: the two halves of the low 2k bits, put together by exclusive or. */
  function Folded(x: nat, k: nat): nat {
    Xor(Low(x, k), Low(Shifted(x, k), k))
  }

  lemma FoldedPart(x: nat, i: nat, n: nat, w: nat)
    requires i < n
    ensures PartOf(Folded(x, w * n), i, w) == Xor(PartOf(x, i, w), PartOf(x, i + n, w))
  {
    var a, b := Low(x, w * n), Low(Shifted(x, w * n), w * n);
    XorShift(a, b, w * i);
    XorLow(Shifted(a, w * i), Shifted(b, w * i), w);
    PartsFit(w, i, n);
    ShiftOfLow(x, w * i, w, w * n);
    ShiftOfLow(Shifted(x, w * n), w * i, w, w * n);
    ShiftTwice(x, w * n, w * i);
  }

  lemma PartsFit(w: nat, i: nat, n: nat)
    requires i < n
    ensures w * i + w <= w * n && w * n + w * i == w * (i + n)
  {
    AtLeast(w, n - i);
    assert w * n == w * i + w * (n - i);
  }

  lemma TwoFolds(x: nat, w: nat)
    ensures Folded(Folded(x, w * 2), w * 1) == Xor(Xor(PartOf(x, 0, w), PartOf(x, 2, w)), Xor(PartOf(x, 1, w), PartOf(x, 3, w)))
  {
    FoldedPart(x, 0, 2, w);
    FoldedPart(x, 1, 2, w);
    var y := Folded(x, w * 2);
    assert PartOf(y, 0, w) == Low(y, w) && PartOf(y, 1, w) == Low(Shifted(y, w), w);
  }

  /** Folding three times puts eight parts together. */
  lemma ThreeFolds(x: nat, w: nat)
    ensures Folded(Folded(Folded(x, w * 4), w * 2), w * 1) ==
            Xor(Xor(Xor(PartOf(x, 0, w), PartOf(x, 4, w)), Xor(PartOf(x, 2, w), PartOf(x, 6, w))),
                Xor(Xor(PartOf(x, 1, w), PartOf(x, 5, w)), Xor(PartOf(x, 3, w), PartOf(x, 7, w))))
  {
    TwoFolds(Folded(x, w * 4), w);
    FoldedPart(x, 0, 4, w);
    FoldedPart(x, 1, 4, w);
    FoldedPart(x, 2, 4, w);
    FoldedPart(x, 3, 4, w);
  }

  lemma PartialIsFolded(hash: nat, w: nat)
    requires w == 8
    ensures PartialKey(hash) == Folded(Folded(Folded(hash, w * 4), w * 2), w * 1)
  {
    Powers();
    var h32 := Folded(hash, w * 4);
    var h16 := Folded(h32, w * 2);
    ShiftAndMask(hash, w * 4);
    ShiftAndMask(Shifted(hash, w * 4), w * 4);
    ShiftAndMask(h32, w * 2);
    ShiftAndMask(Shifted(h32, w * 2), w * 2);
    ShiftAndMask(h16, w * 1);
    ShiftAndMask(Shifted(h16, w * 1), w * 1);
  }

  /** The partial key is the exclusive or of the eight bytes of the hash; w is the width of a byte. */
  lemma PartialIsBytes(hash: nat, w: nat)
    requires w == 8
    ensures PartialKey(hash) ==
            Xor(Xor(Xor(PartOf(hash, 0, w), PartOf(hash, 4, w)), Xor(PartOf(hash, 2, w), PartOf(hash, 6, w))),
                Xor(Xor(PartOf(hash, 1, w), PartOf(hash, 5, w)), Xor(PartOf(hash, 3, w), PartOf(hash, 7, w))))
  {
    PartialIsFolded(hash, w);
    ThreeFolds(hash, w);
  }

  lemma PartIs(x: nat, i: nat, w: nat)
    ensures PartOf(x, i, w) == x / Pow2(w * i) % Pow2(w)
  {
    ShiftAndMask(x, w * i);
    ShiftAndMask(Shifted(x, w * i), w);
  }

  // ---------------------------------------------------------------------------
  // Buckets and locks
  // ---------------------------------------------------------------------------

  /** The two buckets and the locks, with the multiplier of MurmurHash2 and 64-bit multiplication. */
  lemma BucketsAre(power: nat, hash: nat)
    ensures First(power, hash) == hash % Pow2(power)
    ensures Second(power, hash) ==
            Xor(hash % Pow2(power), (PartialKey(hash) + 1) * 0xc6a4_a793_5bd1_e995 % 0x1_0000_0000_0000_0000) % Pow2(power)
    ensures forall i: nat :: LockOf(i) == i % Pow2(LOCK_POWER)
  {
    ShiftAndMask(hash, power);
    ShiftAndMask(Xor(First(power, hash), Tag(PartialKey(hash))), power);
    forall i: nat ensures LockOf(i) == i % Pow2(LOCK_POWER) {
      ShiftAndMask(i, LOCK_POWER);
    }
  }
}
