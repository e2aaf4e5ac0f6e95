/** Finite sums of integer-valued functions. */
module Sums {

  /** f(0) + ... + f(n-1). */
  ghost function Sum(f: nat -> int, n: nat): int {
    if n == 0 then 0 else Sum(f, n - 1) + f(n - 1)
  }

  /** The sum of row v of k. */
  ghost function Row(k: (nat, nat) -> int, v: nat, n: nat): int {
    Sum((w: nat) => k(v, w), n)
  }

  lemma RowIs(k: (nat, nat) -> int, v: nat, n: nat, f: nat -> int)
    requires forall w: nat :: w < n ==> k(v, w) == f(w)
    ensures Row(k, v, n) == Sum(f, n)
  {
    SumExt((w: nat) => k(v, w), f, n);
  }

  /** The sum of k(v, w) over v < m and w < n. */
  ghost function Sum2(k: (nat, nat) -> int, m: nat, n: nat): int {
    if m == 0 then 0 else Sum2(k, m - 1, n) + Row(k, m - 1, n)
  }

  lemma {:induction false} SumExt(f: nat -> int, g: nat -> int, n: nat)
    requires forall i: nat :: i < n ==> f(i) == g(i)
    ensures Sum(f, n) == Sum(g, n)
  {
    if n > 0 {
      SumExt(f, g, n - 1);
    }
  }

  lemma {:induction false} SumLe(f: nat -> int, g: nat -> int, n: nat)
    requires forall i: nat :: i < n ==> f(i) <= g(i)
    ensures Sum(f, n) <= Sum(g, n)
  {
    if n > 0 {
      SumLe(f, g, n - 1);
    }
  }

  lemma {:induction false} SumAdd(f: nat -> int, g: nat -> int, h: nat -> int, n: nat)
    requires forall i: nat :: i < n ==> h(i) == f(i) + g(i)
    ensures Sum(h, n) == Sum(f, n) + Sum(g, n)
  {
    if n > 0 {
      SumAdd(f, g, h, n - 1);
    }
  }

  lemma {:induction false} SumZero(f: nat -> int, n: nat)
    requires forall i: nat :: i < n ==> f(i) == 0
    ensures Sum(f, n) == 0
  {
    if n > 0 {
      SumZero(f, n - 1);
    }
  }

  /** A sum with a single nonzero term. */
  lemma {:induction false} SumOne(f: nat -> int, n: nat, k: nat)
    requires k < n && forall i: nat :: i < n && i != k ==> f(i) == 0
    ensures Sum(f, n) == f(k)
  {
    if k == n - 1 {
      SumZero(f, n - 1);
    } else {
      SumOne(f, n - 1, k);
    }
  }

  /** A term of a sum of nonnegative terms is at most the sum; two distinct ones likewise. */
  lemma {:induction false} TermLeSum(f: nat -> int, n: nat, k: nat)
    requires k < n && forall i: nat :: i < n ==> f(i) >= 0
    ensures f(k) <= Sum(f, n)
  {
    SumLe((i: nat) => if i == k then f(k) else 0, f, n);
    SumOne((i: nat) => if i == k then f(k) else 0, n, k);
  }

  lemma {:induction false} TwoTermsLeSum(f: nat -> int, n: nat, j: nat, k: nat)
    requires j < k < n && forall i: nat :: i < n ==> f(i) >= 0
    ensures f(j) + f(k) <= Sum(f, n)
  {
    if k == n - 1 {
      TermLeSum(f, n - 1, j);
    } else {
      TwoTermsLeSum(f, n - 1, j, k);
    }
  }

  /** Changing one term changes the sum by the difference. */
  lemma {:induction false} SumUpdate(f: nat -> int, g: nat -> int, n: nat, k: nat)
    requires k < n && forall i: nat :: i < n && i != k ==> g(i) == f(i)
    ensures Sum(g, n) == Sum(f, n) + g(k) - f(k)
  {
    if k == n - 1 {
      SumExt(f, g, n - 1);
    } else {
      SumUpdate(f, g, n - 1, k);
    }
  }

  lemma {:induction false} Sum2IsSum(k: (nat, nat) -> int, m: nat, n: nat, row: nat -> int)
    requires forall v: nat :: v < m ==> row(v) == Row(k, v, n)
    ensures Sum2(k, m, n) == Sum(row, m)
  {
    if m > 0 {
      Sum2IsSum(k, m - 1, n, row);
    }
  }

  /** Peeling the last column off a double sum. */
  lemma {:induction false} Sum2Column(k: (nat, nat) -> int, m: nat, n: nat)
    requires n > 0
    ensures Sum2(k, m, n) == Sum2(k, m, n - 1) + Sum((v: nat) => k(v, n - 1), m)
  {
    if m > 0 {
      Sum2Column(k, m - 1, n);
    }
  }

  lemma {:induction false} Sum2Empty(k: (nat, nat) -> int, m: nat)
    ensures Sum2(k, m, 0) == 0
  {
    if m > 0 {
      Sum2Empty(k, m - 1);
    }
  }

  /** The order of summation does not matter. */
  lemma {:induction false} Sum2Swap(k: (nat, nat) -> int, l: (nat, nat) -> int, m: nat, n: nat)
    requires forall v: nat, w: nat :: v < m && w < n ==> l(w, v) == k(v, w)
    ensures Sum2(k, m, n) == Sum2(l, n, m)
  {
    if n == 0 {
      Sum2Empty(k, m);
    } else {
      Sum2Column(k, m, n);
      Sum2Swap(k, l, m, n - 1);
      SumExt((v: nat) => k(v, n - 1), (v: nat) => l(n - 1, v), m);
    }
  }

  lemma {:induction false} Sum2Negate(k: (nat, nat) -> int, l: (nat, nat) -> int, m: nat, n: nat)
    requires forall v: nat, w: nat :: v < m && w < n ==> l(v, w) == -k(v, w)
    ensures Sum2(l, m, n) == -Sum2(k, m, n)
  {
    if m > 0 {
      Sum2Negate(k, l, m - 1, n);
      SumAdd((w: nat) => k(m - 1, w), (w: nat) => l(m - 1, w), (w: nat) => 0, n);
      SumZero((w: nat) => 0, n);
    }
  }

  /** An antisymmetric function sums to zero over a square. */
  lemma Sum2Antisymmetric(k: (nat, nat) -> int, n: nat)
    requires forall v: nat, w: nat :: v < n && w < n ==> k(v, w) == -k(w, v)
    ensures Sum2(k, n, n) == 0
  {
    var l := (v: nat, w: nat) => k(w, v);
    Sum2Swap(k, l, n, n);
    Sum2Negate(k, l, n, n);
  }

  lemma {:induction false} Sum2Add(k: (nat, nat) -> int, l: (nat, nat) -> int, h: (nat, nat) -> int, m: nat, n: nat)
    requires forall v: nat, w: nat :: v < m && w < n ==> h(v, w) == k(v, w) + l(v, w)
    ensures Sum2(h, m, n) == Sum2(k, m, n) + Sum2(l, m, n)
  {
    if m > 0 {
      Sum2Add(k, l, h, m - 1, n);
      SumAdd((w: nat) => k(m - 1, w), (w: nat) => l(m - 1, w), (w: nat) => h(m - 1, w), n);
    }
  }

  lemma {:induction false} Sum2Le(k: (nat, nat) -> int, l: (nat, nat) -> int, m: nat, n: nat)
    requires forall v: nat, w: nat :: v < m && w < n ==> k(v, w) <= l(v, w)
    ensures Sum2(k, m, n) <= Sum2(l, m, n)
  {
    if m > 0 {
      Sum2Le(k, l, m - 1, n);
      SumLe((w: nat) => k(m - 1, w), (w: nat) => l(m - 1, w), n);
    }
  }
}
