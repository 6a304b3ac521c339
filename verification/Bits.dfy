/** Powers of two, shifts and masks on naturals. */
module Bits {

  function Pow2(k: nat): (r: nat)
    ensures r >= 1
  {
    if k == 0 then 1 else 2 * Pow2(k - 1)
  }

  lemma {:induction false} Pow2Adds(a: nat, b: nat)
    ensures Pow2(a + b) == Pow2(a) * Pow2(b)
  {
    if a > 0 {
      Pow2Adds(a - 1, b);
      assert a + b - 1 == a - 1 + b;
    }
  }

  lemma {:induction false} Pow2Grows(a: nat, b: nat)
    requires a <= b
    ensures Pow2(a) <= Pow2(b)
    ensures a < b ==> Pow2(a) < Pow2(b)
  {
    if a < b {
      Pow2Grows(a, b - 1);
    }
  }

  /** `x & (n - 1)` for a power of two `n`: what is left of `x` below `n`. */
  function Low(x: nat, n: nat): (r: nat)
    requires n > 0
    ensures r < n
  {
    if x < n then x else Low(x - n, n)
  }

  /** `x >> k` for `n` the `k`-th power of two: how often `n` goes into `x`. */
  function High(x: nat, n: nat): nat
    requires n > 0
  {
    if x < n then 0 else 1 + High(x - n, n)
  }

  function Shr(x: nat, k: nat): nat {
    High(x, Pow2(k))
  }

  /** They are the remainder and the quotient. */
  lemma {:induction false} LowHigh(x: nat, n: nat)
    requires n > 0
    ensures x == n * High(x, n) + Low(x, n)
    ensures Low(x, n) == x % n && High(x, n) == x / n
  {
    if x >= n {
      LowHigh(x - n, n);
      assert n * (1 + High(x - n, n)) == n + n * High(x - n, n);
      DivStep(x, n);
    }
  }

  lemma DivStep(x: nat, n: nat)
    requires 0 < n <= x
    ensures x % n == (x - n) % n && x / n == 1 + (x - n) / n
  {
    var q, r := (x - n) / n, (x - n) % n;
    assert x - n == n * q + r;
    assert x == n * (q + 1) + r;
    QuotientUnique(x, n, q + 1, r);
  }

  lemma QuotientUnique(x: nat, n: nat, q: nat, r: nat)
    requires n > 0 && x == n * q + r && r < n
    ensures x / n == q && x % n == r
  {
    var p := x / n;
    assert x == n * p + x % n;
    if p > q {
      OneMore(n, q, p);
    } else if p < q {
      OneMore(n, p, q);
    }
  }

  lemma {:induction false} OneMore(n: nat, a: nat, b: nat)
    requires a < b
    ensures n * b >= n * a + n
  {
    assert n * b == n * (b - 1) + n;
    if a < b - 1 {
      OneMore(n, a, b - 1);
    }
  }

  /** Quotient and remainder determine a number. */
  lemma DivModUnique(x: nat, y: nat, n: nat)
    requires n > 0 && High(x, n) == High(y, n) && Low(x, n) == Low(y, n)
    ensures x == y
  {
    LowHigh(x, n);
    LowHigh(y, n);
  }

  lemma Multiple(n: nat, q: nat)
    requires n > 0
    ensures Low(n * q, n) == 0 && High(n * q, n) == q
  {
    LowHigh(n * q, n);
    QuotientUnique(n * q, n, q, 0);
  }

  lemma SmallHigh(x: nat, n: nat, m: nat)
    requires n > 0 && x < n * m
    ensures High(x, n) < m
  {
    LowHigh(x, n);
    if High(x, n) >= m {
      if m < High(x, n) {
        OneMore(n, m, High(x, n));
      }
    }
  }

  lemma LowOfSmall(x: nat, n: nat)
    requires x < n
    ensures Low(x, n) == x
  {
  }

  lemma SmallShift(x: nat, n: nat, k: nat)
    requires x < Pow2(n + k)
    ensures Shr(x, n) < Pow2(k)
  {
    Pow2Adds(n, k);
    SmallHigh(x, Pow2(n), Pow2(k));
  }

  lemma TwoDigits(x: nat, n: nat, e: nat)
    requires n > 0 && e > 0 && x < n * (e * e)
    ensures High(High(x, n), e) < e
  {
    SmallHigh(x, n, e * e);
    SmallHigh(High(x, n), e, e);
  }

  /** What fits `k` bits above the lowest `n` is not cut off. */
  lemma NoneCut(x: nat, n: nat, k: nat)
    requires x < Pow2(n + k)
    ensures Low(Shr(x, n), Pow2(k)) == Shr(x, n)
  {
    SmallShift(x, n, k);
    LowOfSmall(Shr(x, n), Pow2(k));
  }
}
