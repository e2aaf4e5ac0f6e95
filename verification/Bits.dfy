/** Powers of two, masking and exclusive or on natural numbers, defined bit by bit. */
module Bits {

  function Pow2(n: nat): (p: nat)
    ensures p > 0
  {
    if n == 0 then 1 else 2 * Pow2(n - 1)
  }

  /** Bitwise exclusive or. */
  function Xor(a: nat, b: nat): nat
    decreases a + b
  {
    if a == 0 && b == 0 then 0 else 2 * Xor(a / 2, b / 2) + (a % 2 + b % 2) % 2
  }

  /** The low k bits of x: `x & ((1 << k) - 1)`. */
  function Low(x: nat, k: nat): nat {
    if k == 0 then 0 else 2 * Low(x / 2, k - 1) + x % 2
  }

  lemma {:induction false} LowBound(x: nat, k: nat)
    ensures Low(x, k) < Pow2(k)
    ensures x < Pow2(k) ==> Low(x, k) == x
  {
    if k > 0 {
      LowBound(x / 2, k - 1);
    }
  }

  lemma HalfOf(m: nat, b: nat)
    requires b < 2
    ensures (2 * m + b) / 2 == m && (2 * m + b) % 2 == b
  {
  }

  lemma XorStep(a: nat, b: nat)
    ensures Xor(a, b) / 2 == Xor(a / 2, b / 2) && Xor(a, b) % 2 == (a % 2 + b % 2) % 2
  {
    HalfOf(Xor(a / 2, b / 2), (a % 2 + b % 2) % 2);
  }

  /** Exclusive or with the same number undoes itself. */
  lemma {:induction false} XorTwice(a: nat, b: nat)
    ensures Xor(Xor(a, b), b) == a
    decreases a + b
  {
    if a != 0 || b != 0 {
      var x := Xor(a, b);
      XorStep(a, b);
      XorTwice(a / 2, b / 2);
      XorStep(x, b);
      BitTwice(a % 2, b % 2);
      SameHalves(Xor(x, b), a);
    }
  }

  lemma BitTwice(p: nat, q: nat)
    requires p < 2 && q < 2
    ensures ((p + q) % 2 + q) % 2 == p
  {
  }

  lemma SameHalves(x: nat, y: nat)
    requires x / 2 == y / 2 && x % 2 == y % 2
    ensures x == y
  {
  }

  /** Masking distributes over exclusive or. */
  lemma {:induction false} XorLow(a: nat, b: nat, k: nat)
    ensures Low(Xor(a, b), k) == Xor(Low(a, k), Low(b, k))
    decreases k
  {
    if k > 0 {
      XorStep(a, b);
      XorLow(a / 2, b / 2, k - 1);
      LowStep(a, k);
      LowStep(b, k);
      LowStep(Xor(a, b), k);
      XorStep(Low(a, k), Low(b, k));
      SameHalves(Low(Xor(a, b), k), Xor(Low(a, k), Low(b, k)));
    }
  }

  lemma LowStep(x: nat, k: nat)
    requires k > 0
    ensures Low(x, k) / 2 == Low(x / 2, k - 1) && Low(x, k) % 2 == x % 2
  {
    HalfOf(Low(x / 2, k - 1), x % 2);
  }

  /** Masking with one more bit adds either nothing or that bit. */
  lemma {:induction false} OneMoreBit(x: nat, k: nat)
    ensures Low(x, k + 1) == Low(x, k) || Low(x, k + 1) == Low(x, k) + Pow2(k)
    ensures Low(Low(x, k + 1), k) == Low(x, k)
    decreases k
  {
    if k == 0 {
      assert Low(x, 1) == 2 * Low(x / 2, 0) + x % 2;
    } else {
      OneMoreBit(x / 2, k - 1);
      HalfOf(Low(x / 2, k), x % 2);
    }
  }

  /** Adding a higher power of two does not change the low bits. */
  lemma {:induction false} LowOfShifted(x: nat, m: nat, n: nat)
    requires m <= n
    ensures Low(x + Pow2(n), m) == Low(x, m)
    decreases m
  {
    if m > 0 {
      LowOfShifted(x / 2, m - 1, n - 1);
      assert (x + Pow2(n)) / 2 == x / 2 + Pow2(n - 1);
    }
  }

  /** Masking twice keeps the lower of the two masks. */
  lemma {:induction false} LowLow(x: nat, m: nat, n: nat)
    requires m <= n
    ensures Low(Low(x, n), m) == Low(x, m)
    decreases m
  {
    if m > 0 {
      HalfOf(Low(x / 2, n - 1), x % 2);
      LowLow(x / 2, m - 1, n - 1);
    }
  }

  /** Numbers with the same low k bits are at least 2^k apart. */
  lemma {:induction false} LowSpacing(x: nat, y: nat, k: nat)
    requires x < y && Low(x, k) == Low(y, k)
    ensures x + Pow2(k) <= y
    decreases k
  {
    if k > 0 {
      assert x % 2 == y % 2 && x / 2 < y / 2;
      LowSpacing(x / 2, y / 2, k - 1);
    }
  }
}
