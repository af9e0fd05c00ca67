/** Powers of two, and the bitwise operations on numbers of `n` bits. */
module Bits {

  function Pow2(n: nat): (r: nat)
    ensures r >= 1
  {
    if n == 0 then 1 else 2 * Pow2(n - 1)
  }

  /** Bitwise and of two `n`-bit numbers. */
  function And(x: nat, y: nat, n: nat): nat {
    if n == 0 then 0 else 2 * And(x / 2, y / 2, n - 1) + (x % 2) * (y % 2)
  }

  /** Bitwise or of two `n`-bit numbers. */
  function Or(x: nat, y: nat, n: nat): nat {
    if n == 0 then 0 else 2 * Or(x / 2, y / 2, n - 1) + (if x % 2 + y % 2 == 0 then 0 else 1)
  }

  lemma {:induction false} Pow2Add(a: nat, b: nat)
    ensures Pow2(a + b) == Pow2(a) * Pow2(b)
  {
    if a > 0 {
      Pow2Add(a - 1, b);
      assert Pow2(a + b) == 2 * Pow2(a - 1 + b);
    }
  }

  lemma {:induction false} Pow2Increasing(a: nat, b: nat)
    requires a < b
    ensures 2 * Pow2(a) <= Pow2(b)
  {
    if a + 1 < b {
      Pow2Increasing(a, b - 1);
    }
  }

  lemma MulMonotone(m: nat, a: nat, b: nat)
    requires a <= b
    ensures m * a <= m * b
  {
  }

  lemma ModuloDouble(x: nat, m: nat)
    requires m >= 1
    ensures x % (2 * m) == 2 * (x / 2 % m) + x % 2
    ensures x / (2 * m) == x / 2 / m
  {
    var q, r := x / 2 / m, x / 2 % m;
    assert x / 2 == m * q + r;
    assert x == (2 * m) * q + (2 * r + x % 2);
    DivModUnique(x, 2 * m, q, 2 * r + x % 2);
  }

  lemma DivModUnique(x: nat, m: nat, q: nat, r: nat)
    requires m >= 1 && x == m * q + r && r < m
    ensures x / m == q && x % m == r
  {
    var q', r' := x / m, x % m;
    if q > q' {
      MulMonotone(m, q' + 1, q);
    } else if q < q' {
      MulMonotone(m, q + 1, q');
    }
  }

  lemma Pow2Bounds(p: nat, n: nat)
    requires p <= n
    ensures Pow2(p) <= Pow2(n)
  {
    if p < n {
      Pow2Increasing(p, n);
    }
  }

  /** The `n`-bit number whose first `p` bits are ones. */
  function Ones(p: nat, n: nat): nat
    requires p <= n
  {
    Pow2Bounds(n - p, n);
    Pow2(n) - Pow2(n - p)
  }

  lemma Pow2Twice(n: nat)
    requires n > 0
    ensures Pow2(n) == 2 * Pow2(n - 1)
  {
  }

  lemma HalfBelow(x: nat, n: nat)
    requires n > 0 && x < Pow2(n)
    ensures x / 2 < Pow2(n - 1)
  {
    Pow2Twice(n);
  }

  lemma AndDouble(x: nat, half: nat, n: nat)
    requires n > 0
    ensures And(x, 2 * half, n) == 2 * And(x / 2, half, n - 1)
    ensures And(x, 2 * half + 1, n) == 2 * And(x / 2, half, n - 1) + x % 2
  {
    assert 2 * half / 2 == half && (2 * half + 1) / 2 == half;
    assert 2 * half % 2 == 0 && (2 * half + 1) % 2 == 1;
  }

  lemma {:induction false} AndAll(x: nat, n: nat)
    requires x < Pow2(n)
    ensures And(x, Pow2(n) - 1, n) == x
  {
    if n > 0 {
      HalfBelow(x, n);
      AndAll(x / 2, n - 1);
      Pow2Twice(n);
      AndDouble(x, Pow2(n - 1) - 1, n);
      hide And, Pow2;
    }
  }

  lemma FloorMultiple(x: nat, m: nat)
    requires m >= 1
    ensures x - x % m == m * (x / m)
  {
  }

  lemma OnesTwice(p: nat, n: nat)
    requires p < n
    ensures Ones(p, n) == 2 * Ones(p, n - 1)
  {
    Pow2Twice(n);
    Pow2Twice(n - p);
  }

  lemma OnesAll(n: nat)
    ensures Ones(n, n) == Pow2(n) - 1
  {
  }

  /** Keeping the first `p` of `n` bits drops the remainder below them. */
  lemma {:induction false} AndOnes(x: nat, p: nat, n: nat)
    requires p <= n && x < Pow2(n)
    ensures And(x, Ones(p, n), n) == x - x % Pow2(n - p)
  {
    hide And, Ones, Pow2;
    if p == n {
      OnesAll(n);
      AndAll(x, n);
      PowZero();
    } else {
      HalfBelow(x, n);
      AndOnes(x / 2, p, n - 1);
      OnesTwice(p, n);
      AndDouble(x, Ones(p, n - 1), n);
      Pow2Twice(n - p);
      ModuloDouble(x, Pow2(n - 1 - p));
    }
  }

  lemma PowZero()
    ensures Pow2(0) == 1
  {
  }

  lemma OrDouble(x: nat, half: nat, n: nat)
    requires n > 0
    ensures Or(x, 2 * half + 1, n) == 2 * Or(x / 2, half, n - 1) + 1
    ensures Or(x, 0, n) == 2 * Or(x / 2, 0, n - 1) + x % 2
  {
    assert (2 * half + 1) / 2 == half && (2 * half + 1) % 2 == 1;
  }

  lemma {:induction false} OrNone(x: nat, n: nat)
    requires x < Pow2(n)
    ensures Or(x, 0, n) == x
  {
    if n > 0 {
      HalfBelow(x, n);
      OrNone(x / 2, n - 1);
      OrDouble(x, 0, n);
      hide Or, Pow2;
    }
  }

  /** Setting the last `k` bits of a number whose last `k` bits are clear. */
  lemma {:induction false} OrOnes(x: nat, k: nat, n: nat)
    requires k <= n && x < Pow2(n) && x % Pow2(k) == 0
    ensures Or(x, Pow2(k) - 1, n) == x + Pow2(k) - 1
  {
    hide Or, Pow2;
    if k == 0 {
      PowZero();
      OrNone(x, n);
    } else {
      HalfBelow(x, n);
      Pow2Twice(k);
      ModuloDouble(x, Pow2(k - 1));
      OrOnes(x / 2, k - 1, n - 1);
      OrDouble(x, Pow2(k - 1) - 1, n);
    }
  }

  function TrailingZeros(x: nat): nat
    requires x > 0
  {
    if x % 2 == 1 then 0 else 1 + TrailingZeros(x / 2)
  }

  lemma {:induction false} TrailingZerosDivide(x: nat)
    requires x > 0
    ensures x % Pow2(TrailingZeros(x)) == 0
  {
    if x % 2 == 0 {
      TrailingZerosDivide(x / 2);
      ModuloDouble(x, Pow2(TrailingZeros(x / 2)));
    }
  }

  lemma {:induction false} TrailingZerosOfShifted(odd: nat, k: nat)
    requires odd % 2 == 1
    ensures Pow2(k) * odd > 0 && TrailingZeros(Pow2(k) * odd) == k
  {
    if k > 0 {
      TrailingZerosOfShifted(odd, k - 1);
      TwiceTimes(Pow2(k - 1), odd);
      TrailingZerosOfDouble(Pow2(k - 1) * odd);
    } else {
      assert Pow2(k) * odd == odd;
    }
  }

  lemma TwiceTimes(a: nat, b: nat)
    ensures (2 * a) * b == 2 * (a * b)
  {
  }

  lemma TrailingZerosOfDouble(x: nat)
    requires x > 0
    ensures TrailingZeros(2 * x) == 1 + TrailingZeros(x)
  {
    assert 2 * x % 2 == 0 && 2 * x / 2 == x;
  }

  lemma TimesLess(a: nat, b: nat)
    requires b >= 1
    ensures a * (b - 1) == a * b - a
  {
  }

  lemma OddAfterTwice(half: nat)
    ensures (2 * half + 1) % 2 == 1
  {
  }

  lemma OddBelow(p: nat)
    requires p > 0
    ensures (Pow2(p) - 1) % 2 == 1
  {
    hide Pow2;
    Pow2Twice(p);
    OddAfterTwice(Pow2(p - 1) - 1);
    assert Pow2(p) - 1 == 2 * (Pow2(p - 1) - 1) + 1;
  }

  lemma OnesAsMultiple(p: nat, n: nat)
    requires p <= n
    ensures Ones(p, n) == Pow2(n - p) * (Pow2(p) - 1)
  {
    Pow2Add(n - p, p);
    TimesLess(Pow2(n - p), Pow2(p));
    hide Pow2;
  }

  lemma TrailingZerosOfOnes(p: nat, n: nat)
    requires 0 < p <= n
    ensures Ones(p, n) > 0 && TrailingZeros(Ones(p, n)) == n - p
    ensures Ones(p, n) == Pow2(n - p) * (Pow2(p) - 1)
  {
    hide TrailingZeros, Pow2, Ones;
    OnesAsMultiple(p, n);
    OddBelow(p);
    TrailingZerosOfShifted(Pow2(p) - 1, n - p);
  }

  /** A number whose trailing zeros follow nothing but ones. */
  lemma OnesOfTrailingZeros(x: nat, zeros: nat, n: nat)
    requires zeros <= n && x % Pow2(zeros) == 0 && x / Pow2(zeros) == Pow2(n - zeros) - 1
    ensures x == Ones(n - zeros, n)
  {
    hide Pow2, Ones;
    FloorMultiple(x, Pow2(zeros));
    OnesAsMultiple(n - zeros, n);
  }
}
