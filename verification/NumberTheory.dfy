/** Congruences and Fermat's theorem, for the exponent reduction in BlumBlumShub::Seek. */
module NumberTheory {
  import opened Bits
  import opened Integers

  ghost predicate Cong(a: int, b: int, m: int) { Divides(m, a - b) }

  function Pow(x: int, e: nat): int { if e == 0 then 1 else x * Pow(x, e - 1) }

  lemma CongRefl(a: int, m: int)
    ensures Cong(a, a, m)
  {
    DividesBy(m, 0, 0);
  }

  lemma CongTrans(a: int, b: int, c: int, m: int)
    requires Cong(a, b, m) && Cong(b, c, m)
    ensures Cong(a, c, m)
  {
    DividesCombination(m, a - b, b - c, 1, 1);
  }

  lemma CongAdd(a: int, b: int, c: int, d: int, m: int)
    requires Cong(a, b, m) && Cong(c, d, m)
    ensures Cong(a + c, b + d, m)
  {
    DividesCombination(m, a - b, c - d, 1, 1);
  }

  lemma CongMul(a: int, b: int, c: int, d: int, m: int)
    requires Cong(a, b, m) && Cong(c, d, m)
    ensures Cong(a * c, b * d, m)
  {
    DividesCombination(m, a - b, c - d, c, b);
    assert c * (a - b) + b * (c - d) == a * c - b * d;
  }

  lemma CongMod(a: int, m: nat)
    requires m > 0
    ensures Cong(a, a % m, m) && Cong(a % m, a, m)
  {
    DividesBy(m, a - a % m, a / m);
    DividesBy(m, a % m - a, -(a / m));
  }

  /** Congruent numbers have the same remainder. */
  lemma SameRemainder(a: int, b: int, m: nat)
    requires m > 0 && Cong(a, b, m)
    ensures a % m == b % m
  {
    var k := Factor(m, a - b);
    Distribute(b / m, k, m);
    DivUnique(a, m, b / m + k, b % m);
  }

  lemma {:induction false} PowAdd(x: int, a: nat, b: nat)
    ensures Pow(x, a + b) == Pow(x, a) * Pow(x, b)
  {
    if a > 0 {
      PowAdd(x, a - 1, b);
      assert x * (Pow(x, a - 1) * Pow(x, b)) == x * Pow(x, a - 1) * Pow(x, b);
    }
  }

  // ----- primes ----------------------------------------------------------------------------------------------

  ghost predicate Prime(p: nat) { p > 1 && forall d: nat :: Divides(d, p) ==> d == 1 || d == p }

  /** A prime that divides a product divides a factor. */
  lemma EuclidsLemma(p: nat, a: nat, b: int)
    requires Prime(p) && Divides(p, a * b)
    ensures Divides(p, a) || Divides(p, b)
  {
    var d, u, v := Bezout(a, p);
    SignedDivisor(d, p);
    if d == p || -d == p {
      var k := Factor(d, a);
      DividesBy(p, a, if d == p then k else -k);
    } else {
      hide Prime, Divides;
      DividesBy(p, p, 1);
      DividesCombination(p, a * b, p, u, v * b);
      Recombine(d, u, a, v, p, b);
      if d == -1 { DividesCombination(p, -b, -b, -1, 0); }
    }
  }

  lemma Recombine(d: int, u: int, a: int, v: int, p: int, b: int)
    requires d == u * a + v * p
    ensures u * (a * b) + v * b * p == d * b
  {
    calc {
      u * (a * b) + v * b * p;
      { assert u * (a * b) == u * a * b && v * b * p == v * p * b; }
      u * a * b + v * p * b;
      d * b;
    }
  }

  /** Divisors of a prime, of either sign. */
  lemma SignedDivisor(d: int, p: nat)
    requires Prime(p) && Divides(d, p)
    ensures d == 1 || d == -1 || d == p || -d == p
  {
    var k := Factor(d, p);
    if d < 0 { DividesBy(-d, p, -k); }
    var n: nat := if d < 0 then -d else d;
    assert Divides(n, p);
  }

  lemma SmallerNotDivided(p: nat, k: nat)
    requires 0 < k < p
    ensures !Divides(p, k)
  {
    if Divides(p, k) {
      var j := Factor(p, k);
    }
  }

  // ----- binomial coefficients -------------------------------------------------------------------------------

  function Choose(n: nat, k: nat): nat {
    if k == 0 then 1 else if n == 0 then 0 else Choose(n - 1, k - 1) + Choose(n - 1, k)
  }

  lemma {:induction false} ChooseBeyond(n: nat, k: nat)
    requires k > n
    ensures Choose(n, k) == 0
  {
    if n > 0 {
      ChooseBeyond(n - 1, k - 1);
      ChooseBeyond(n - 1, k);
    }
  }

  lemma {:induction false} ChooseAll(n: nat)
    ensures Choose(n, n) == 1
  {
    if n > 0 {
      ChooseAll(n - 1);
      ChooseBeyond(n - 1, n);
    }
  }

  lemma {:induction false} Absorption(n: nat, k: nat)
    requires n > 0 && k > 0
    ensures k * Choose(n, k) == n * Choose(n - 1, k - 1)
  {
    if n == 1 {
      if k > 1 { ChooseBeyond(1, k); ChooseBeyond(0, k - 1); }
    } else if k == 1 {
      Absorption(n - 1, 1);
    } else {
      Absorption(n - 1, k - 1);
      Absorption(n - 1, k);
      var c1, c2 := Choose(n - 1, k - 1), Choose(n - 1, k);
      assert c1 == Choose(n - 2, k - 2) + Choose(n - 2, k - 1);
      AbsorptionStep(n, k, c1, c2, Choose(n - 2, k - 2), Choose(n - 2, k - 1));
    }
  }

  lemma AbsorptionStep(n: int, k: int, c1: int, c2: int, d1: int, d2: int)
    requires (k - 1) * c1 == (n - 1) * d1 && k * c2 == (n - 1) * d2 && c1 == d1 + d2
    ensures k * (c1 + c2) == n * c1
  {
    Distribute(d1, d2, n - 1);
  }

  lemma PrimeDividesChoose(p: nat, k: nat)
    requires Prime(p) && 0 < k < p
    ensures Divides(p, Choose(p, k))
  {
    Absorption(p, k);
    DividesBy(p, k * Choose(p, k), Choose(p - 1, k - 1));
    EuclidsLemma(p, k, Choose(p, k));
    SmallerNotDivided(p, k);
  }

  /** The first k + 1 terms of the expansion of (1 + a)^n. */
  function Expansion(n: nat, a: int, k: nat): int {
    Choose(n, k) * Pow(a, k) + if k == 0 then 0 else Expansion(n, a, k - 1)
  }

  lemma {:induction false} Pascal(n: nat, a: int, k: nat)
    requires k > 0
    ensures Expansion(n + 1, a, k) == Expansion(n, a, k) + a * Expansion(n, a, k - 1)
  {
    var c1, c2, power := Choose(n, k - 1), Choose(n, k), Pow(a, k - 1);
    assert Expansion(n + 1, a, k - 1) == Expansion(n, a, k - 1) + if k == 1 then 0 else a * Expansion(n, a, k - 2) by {
      if k > 1 { Pascal(n, a, k - 1); }
    }
    var rest := if k == 1 then 0 else Expansion(n, a, k - 2);
    assert Choose(n + 1, k) == c1 + c2 && Pow(a, k) == a * power;
    PascalTerm(c1, c2, a, power, rest);
    hide Choose, Pow;
  }

  lemma PascalTerm(c1: int, c2: int, a: int, power: int, rest: int)
    ensures (c1 + c2) * (a * power) + a * rest == c2 * (a * power) + a * (c1 * power + rest)
  {}

  lemma {:induction false} Binomial(n: nat, a: int)
    ensures Pow(1 + a, n) == Expansion(n, a, n)
  {
    if n > 0 {
      Binomial(n - 1, a);
      Pascal(n - 1, a, n);
      ChooseBeyond(n - 1, n);
      var e := Expansion(n - 1, a, n - 1);
      assert (1 + a) * e == e + a * e;
    }
  }

  lemma {:induction false} ExpansionModPrime(p: nat, a: int, k: nat)
    requires Prime(p) && k < p
    ensures Cong(Expansion(p, a, k), 1, p)
  {
    if k == 0 {
      CongRefl(1, p);
    } else {
      ExpansionModPrime(p, a, k - 1);
      PrimeDividesChoose(p, k);
      DividesCombination(p, Choose(p, k), Choose(p, k), Pow(a, k), 0);
      CongAdd(Choose(p, k) * Pow(a, k), 0, Expansion(p, a, k - 1), 1, p);
    }
  }

  /** Fermat: a^p is congruent to a modulo a prime p. */
  lemma {:induction false} Fermat(p: nat, a: nat)
    requires Prime(p)
    ensures Cong(Pow(a, p), a, p)
  {
    if a == 0 {
      assert Pow(0, p) == 0;
      CongRefl(0, p);
    } else {
      Fermat(p, a - 1);
      Binomial(p, a - 1);
      ExpansionModPrime(p, a - 1, p - 1);
      ChooseAll(p);
      assert Expansion(p, a - 1, p) == Choose(p, p) * Pow(a - 1, p) + Expansion(p, a - 1, p - 1);
      hide Expansion, Choose, Pow, Cong, Prime;
      CongAdd(Pow(a - 1, p), a - 1, Expansion(p, a - 1, p - 1), 1, p);
      assert Choose(p, p) * Pow(a - 1, p) == Pow(a - 1, p);
      assert Pow(1 + (a - 1), p) == Pow(a, p);
    }
  }

  lemma {:induction false} FermatRepeated(p: nat, a: nat, e: nat, k: nat, f: nat)
    requires Prime(p) && e > 0 && f == e + k * (p - 1)
    ensures Cong(Pow(a, f), Pow(a, e), p)
    decreases k
  {
    if k == 0 {
      CongRefl(Pow(a, e), p);
    } else {
      OneLess(e, k, p - 1);
      var g: nat := f - (p - 1);
      FermatRepeated(p, a, e, k - 1, g);
      hide Prime;
      FermatShift(p, a, g);
      CongTrans(Pow(a, f), Pow(a, g), Pow(a, e), p);
    }
  }

  lemma OneLess(e: nat, k: nat, m: nat)
    requires k > 0
    ensures e + k * m - m == e + (k - 1) * m >= e
  {
    MulMono(0, k - 1, m);
  }

  lemma FermatShift(p: nat, a: nat, g: nat)
    requires Prime(p) && g > 0
    ensures Cong(Pow(a, g + (p - 1)), Pow(a, g), p)
  {
    PowAdd(a, g - 1, p);
    Fermat(p, a);
    CongRefl(Pow(a, g - 1), p);
    CongMul(Pow(a, g - 1), Pow(a, g - 1), Pow(a, p), a, p);
    PowAdd(a, g - 1, 1);
    assert Pow(a, 1) == a;
  }

  /** Two different primes that divide a number divide it together. */
  lemma DividesProduct(p: nat, q: nat, n: int)
    requires Prime(p) && Prime(q) && p != q && Divides(p, n) && Divides(q, n)
    ensures Divides(p * q, n)
  {
    var k := Factor(p, n);
    assert n == p * k;
    EuclidsLemma(q, p, k);
    assert !Divides(q, p);
    var j := Factor(q, k);
    assert n == (j * q) * p == j * (p * q);
    DividesBy(p * q, n, j);
  }

  /** Positive exponents that agree modulo (p - 1)(q - 1) give the same power modulo p q, for every base. */
  lemma ReduceExponent(p: nat, q: nat, a: nat, e: nat, k: nat, f: nat)
    requires Prime(p) && Prime(q) && p != q && e > 0 && f == e + k * ((p - 1) * (q - 1))
    ensures Cong(Pow(a, f), Pow(a, e), p * q)
  {
    var x: nat, y: nat := p - 1, q - 1;
    MulSwap(k, x, y);
    MulMono(0, k, x);
    MulMono(0, k, y);
    var kx: nat, ky: nat := k * x, k * y;
    hide Pow, Prime, Cong, Divides;
    FermatRepeated(p, a, e, ky, f);
    FermatRepeated(q, a, e, kx, f);
    CongIsProduct(p, q, Pow(a, f), Pow(a, e));
  }

  lemma MulSwap(k: int, x: int, y: int)
    ensures k * y * x == k * (x * y) && k * x * y == k * (x * y)
  {
    MulAssoc(k, y, x);
    MulAssoc(k, x, y);
    assert x * y == y * x;
  }

  lemma CongIsProduct(p: nat, q: nat, m: int, n: int)
    requires Prime(p) && Prime(q) && p != q && Cong(m, n, p) && Cong(m, n, q)
    ensures Cong(m, n, p * q)
  {
    hide Prime;
    DividesProduct(p, q, m - n);
  }
}
