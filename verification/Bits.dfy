/** Unsigned words as numbers: the bitwise operations the address masks use. */
module Bits {

  function Pow2(k: nat): (p: nat)
    ensures p > 0
  {
    if k == 0 then 1 else 2 * Pow2(k - 1)
  }

  /** Bitwise and, bit by bit from the lowest. */
  function BitAnd(x: nat, y: nat): nat {
    if x == 0 || y == 0 then 0
    else (if x % 2 == 1 && y % 2 == 1 then 1 else 0) + 2 * BitAnd(x / 2, y / 2)
  }

  /** All ones. */
  function Ones(width: nat): nat {
    Pow2(width) - 1
  }

  /** Left shift; the bits past `width` are lost. */
  function ShiftLeft(x: nat, k: nat, width: nat): nat {
    (x * Pow2(k)) % Pow2(width)
  }

  lemma {:induction false} Pow2Add(a: nat, b: nat)
    ensures Pow2(a + b) == Pow2(a) * Pow2(b)
  {
    if a == 0 {
      assert Pow2(0) == 1;
    } else {
      hide *;
      Pow2Add(a - 1, b);
      Pow2Doubles(a - 1);
      Pow2Doubles(a - 1 + b);
      assert (2 * Pow2(a - 1)) * Pow2(b) == 2 * (Pow2(a - 1) * Pow2(b));
    }
  }

  lemma Pow2Doubles(k: nat)
    ensures Pow2(k + 1) == 2 * Pow2(k)
  {
  }

  lemma {:induction false} Pow2Monotone(a: nat, b: nat)
    requires a <= b
    ensures Pow2(a) <= Pow2(b)
    decreases b
  {
    if a < b { Pow2Monotone(a, b - 1); }
  }

  // ----- Division -----

  lemma MulMonotone(m: nat, a: int, b: int)
    requires m > 0 && a < b
    ensures m * a + m <= m * b
  {
    assert m * (b - a - 1) >= 0;
    assert m * b == m * a + m + m * (b - a - 1);
  }

  /** Quotient and remainder are determined by the division equation. */
  lemma DivModUnique(x: nat, m: nat, q: nat, r: nat)
    requires m > 0 && x == m * q + r && r < m
    ensures x / m == q && x % m == r
  {
    var q', r' := x / m, x % m;
    assert x == m * q' + r';
    if q' < q { MulMonotone(m, q', q); } else if q < q' { MulMonotone(m, q, q'); }
  }

  /** Dropping the low bits in two steps. */
  lemma DivDiv(x: nat, m: nat, n: nat)
    requires m > 0 && n > 0
    ensures m * n > 0 && x / (m * n) == (x / m) / n
  {
    var q, r := x / m, x % m;
    var q', r' := q / n, q % n;
    assert x == m * q + r && q == n * q' + r';
    assert m * q == m * (n * q') + m * r' == (m * n) * q' + m * r';
    MulMonotone(m, r', n);
    assert m * n > 0 by { MulMonotone(m, 0, n); }
    assert 0 <= m * r';
    DivModUnique(x, m * n, q', m * r' + r);
  }

  /** `x` lies in the aligned block of size `m` around `y` exactly when both have the same quotient. */
  lemma SameBlock(x: nat, y: nat, m: nat)
    requires m > 0
    ensures x - x % m == y - y % m <==> x / m == y / m
    ensures x / m == y / m <==> y - y % m <= x < y - y % m + m
  {
    assert x == m * (x / m) + x % m && y == m * (y / m) + y % m;
    if x / m < y / m { MulMonotone(m, x / m, y / m); }
    if y / m < x / m { MulMonotone(m, y / m, x / m); }
  }

  // ----- Masks -----

  lemma {:induction false} AndOnes(x: nat, width: nat)
    requires x < Pow2(width)
    ensures BitAnd(x, Ones(width)) == x
  {
    if width > 0 && x > 0 {
      AndOnes(x / 2, width - 1);
    }
  }

  lemma HalveMod(x: nat, m: nat)
    requires m > 0
    ensures x % (2 * m) == 2 * ((x / 2) % m) + x % 2
  {
    var q := x / 2;
    assert q == m * (q / m) + q % m;
    assert x == 2 * q + x % 2;
    assert x == 2 * (m * (q / m)) + 2 * (q % m) + x % 2;
    assert 2 * (m * (q / m)) == (2 * m) * (q / m);
    DivModUnique(x, 2 * m, q / m, 2 * (q % m) + x % 2);
  }

  /** The multiple of `m` at or below `x`. */
  function RoundDown(x: nat, m: nat): nat
    requires m > 0
  {
    x - x % m
  }

  /** Masking off the low `k` bits rounds down to a multiple of 2^k. */
  lemma {:induction false} AndHighBits(x: nat, k: nat, width: nat)
    requires k <= width && x < Pow2(width)
    ensures Pow2(k) <= Pow2(width) && BitAnd(x, Pow2(width) - Pow2(k)) == RoundDown(x, Pow2(k))
  {
    hide *;
    Pow2Monotone(k, width);
    if k == 0 {
      AndAllOnes(x, width);
    } else {
      Pow2Doubles(width - 1);
      Pow2Doubles(k - 1);
      AndHighBits(x / 2, k - 1, width - 1);
      AndEven(x, Pow2(width - 1) - Pow2(k - 1), Pow2(width) - Pow2(k));
      RoundHalf(x, Pow2(k - 1), Pow2(k));
    }
  }

  lemma AndAllOnes(x: nat, width: nat)
    requires x < Pow2(width)
    ensures Pow2(0) == 1 && BitAnd(x, Pow2(width) - 1) == RoundDown(x, 1)
  {
    AndOnes(x, width);
  }

  lemma AndEven(x: nat, half: nat, y: nat)
    requires y == 2 * half
    ensures BitAnd(x, y) == 2 * BitAnd(x / 2, half)
  {
  }

  lemma RoundHalf(x: nat, m: nat, twice: nat)
    requires m > 0 && twice == 2 * m
    ensures 2 * RoundDown(x / 2, m) == RoundDown(x, twice)
  {
    HalveMod(x, m);
  }

  /** All ones shifted left are the high bits. */
  lemma ShiftedOnes(k: nat, width: nat)
    requires k < width
    ensures Pow2(k) <= Pow2(width) && ShiftLeft(Ones(width), k, width) == Pow2(width) - Pow2(k)
  {
    Pow2Monotone(k, width);
    hide Pow2;
    TimesMod(Pow2(width), Pow2(k));
  }

  lemma TimesMod(m: nat, s: nat)
    requires 0 < s <= m
    ensures ((m - 1) * s) % m == m - s
  {
    var x: nat := (m - 1) * s;
    assert x == m * (s - 1) + (m - s);
    DivModUnique(x, m, s - 1, m - s);
  }
}
