/** Powers of two and the bit-level view of a non-negative Integer: shifts, low bits, single bits and the bit
    count. */
module Bits {
  function Pow2(n: nat): (r: nat)
    ensures r > n
  {
    if n == 0 then 1 else 2 * Pow2(n - 1)
  }

  lemma {:induction false} Pow2Add(a: nat, b: nat)
    ensures Pow2(a + b) == Pow2(a) * Pow2(b)
  {
    if a > 0 {
      Pow2Add(a - 1, b);
      MulAssoc(2, Pow2(a - 1), Pow2(b));
    }
  }

  lemma MulAssoc(a: int, b: int, c: int)
    ensures a * b * c == a * (b * c)
  {}

  lemma Distribute(a: int, b: int, c: int)
    ensures (a + b) * c == a * c + b * c
  {}

  lemma MulMono(a: int, b: int, c: int)
    requires a <= b && 0 <= c
    ensures a * c <= b * c
  {}

  /** n >> k */
  function Shr(n: nat, k: nat): (r: nat)
    ensures r <= n
  {
    if k == 0 then n else Shr(n / 2, k - 1)
  }

  /** n << k */
  function Shl(n: nat, k: nat): nat { n * Pow2(k) }

  /** The low k bits of n. */
  function Low(n: nat, k: nat): (r: nat)
    ensures r < Pow2(k)
  {
    if k == 0 then 0 else n % 2 + 2 * Low(n / 2, k - 1)
  }

  lemma {:induction false} Split(n: nat, k: nat)
    ensures n == Shr(n, k) * Pow2(k) + Low(n, k)
  {
    if k > 0 {
      Split(n / 2, k - 1);
      SplitStep(n, Shr(n / 2, k - 1), Pow2(k - 1), Low(n / 2, k - 1));
    }
  }

  lemma TwiceProduct(a: int, b: int)
    ensures a * (2 * b) == 2 * (a * b)
  {}

  lemma SplitStep(n: nat, q: nat, p: nat, low: nat)
    requires n / 2 == q * p + low
    ensures n == q * (2 * p) + (n % 2 + 2 * low)
  {
    TwiceProduct(q, p);
  }

  lemma SplitIsDivMod(n: nat, k: nat)
    ensures Shr(n, k) == n / Pow2(k) && Low(n, k) == n % Pow2(k)
  {
    Split(n, k);
    DivUnique(n, Pow2(k), Shr(n, k), Low(n, k));
  }

  lemma MulZeroGap(k: int, d: int)
    requires d > 0 && -d < k * d < d
    ensures k == 0
  {
    if k > 0 { MulMono(1, k, d); }
    if k < 0 { MulMono(k, -1, d); }
  }

  /** n = q d + r with 0 <= r < d determines the quotient and the remainder. */
  lemma DivUnique(n: int, d: int, q: int, r: int)
    requires 0 <= r < d && n == q * d + r
    ensures n / d == q && n % d == r
  {
    var q', r' := n / d, n % d;
    assert n == d * q' + r';
    assert (q' - q) * d == d * q' - q * d;
    MulZeroGap(q' - q, d);
  }

  lemma RemainderStep(n: nat, d: nat)
    requires d > 0
    ensures n < d ==> n % d == n
    ensures n >= d ==> (n - d) % d == n % d
  {
    if n >= d {
      Distribute(n / d, -1, d);
      DivUnique(n - d, d, n / d - 1, n % d);
    } else {
      DivUnique(n, d, 0, n);
    }
  }

  /** The position of the highest set bit plus one. */
  function BitCount(n: nat): (r: nat)
    ensures n < Pow2(r)
    ensures n > 0 ==> r > 0 && Pow2(r - 1) <= n
  {
    if n == 0 then 0 else 1 + BitCount(n / 2)
  }

  function GetBit(n: nat, i: nat): (r: nat)
    ensures r < 2
  {
    Shr(n, i) % 2
  }

  /** Shifting right by i + 1 is shifting by i and dropping bit i. */
  lemma {:induction false} ShiftStep(n: nat, i: nat)
    ensures Shr(n, i) == 2 * Shr(n, i + 1) + GetBit(n, i)
    ensures Shr(n, i) / 2 == Shr(n, i + 1)
  {
    if i > 0 { ShiftStep(n / 2, i - 1); }
  }

  lemma {:induction false} ShiftOut(n: nat, i: nat)
    requires BitCount(n) <= i
    ensures Shr(n, i) == 0
  {
    if i > 0 { ShiftOut(n / 2, i - 1); }
  }

  /** Adding 2^k carries into the bits above the low k and leaves those alone. */
  lemma {:induction false} AddAbove(n: nat, k: nat)
    ensures Shr(n + Pow2(k), k) == Shr(n, k) + 1
    ensures Low(n + Pow2(k), k) == Low(n, k)
  {
    if k > 0 {
      assert (n + Pow2(k)) / 2 == n / 2 + Pow2(k - 1);
      AddAbove(n / 2, k - 1);
    }
  }
}
