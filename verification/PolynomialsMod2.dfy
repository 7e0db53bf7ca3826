/** PolynomialMod2: polynomials over the field of two elements, the coefficients being the bits of a number. */
module PolynomialsMod2 {
  import opened Bits
  import opened Groups
  import opened EuclideanDomains
  import opened Euclid

  /** XorWords: the sum and the difference. */
  function Xor(a: nat, b: nat): nat
    decreases a + b
  {
    if a == 0 && b == 0 then 0 else (a + b) % 2 + 2 * Xor(a / 2, b / 2)
  }

  /** The coefficient at the bottom, as a multiple of a. */
  function IfOdd(b: nat, a: nat): nat { if b % 2 == 1 then a else 0 }

  function Times(a: nat, b: nat): nat { if b == 0 then 0 else Xor(2 * Times(a, b / 2), IfOdd(b, a)) }

  datatype Division = Division(quotient: nat, remainder: nat)

  /** What Divide has made of the dividend's bits from the top down to the last. */
  function DivideBy(dividend: nat, divisor: nat): Division {
    if dividend == 0 then Division(0, 0) else DivideStep(DivideBy(dividend / 2, divisor), dividend % 2, divisor)
  }

  function DivideStep(above: Division, bit: nat, divisor: nat): Division {
    var r := 2 * above.remainder + bit;
    if divisor > 0 && GetBit(r, BitCount(divisor) - 1) == 1 then Division(2 * above.quotient + 1, Xor(r, divisor))
    else Division(2 * above.quotient, r)
  }

  /** EuclideanDomainOf<PolynomialMod2>; the norm is the degree plus one. */
  function Polynomials(): Domain<nat> {
    Domain(Group(0, (a: nat, b: nat) => Xor(a, b), (a: nat) => a), 1, (a: nat, b: nat) => Times(a, b),
      (a: nat, b: nat) => DivideBy(a, b).quotient, (a: nat, b: nat) => DivideBy(a, b).remainder,
      (a: nat) => BitCount(a), (a: nat) => a == 1)
  }

  // ----- the additive group ----------------------------------------------------------------------------------

  lemma {:induction false} XorZero(a: nat)
    ensures Xor(a, 0) == a && Xor(0, a) == a && Xor(a, a) == 0
  {
    if a > 0 { XorZero(a / 2); }
  }

  lemma {:induction false} XorCommutes(a: nat, b: nat)
    ensures Xor(a, b) == Xor(b, a)
    decreases a + b
  {
    if a + b > 0 { XorCommutes(a / 2, b / 2); }
  }

  lemma XorParts(a: nat, b: nat)
    ensures Xor(a, b) % 2 == (a + b) % 2 && Xor(a, b) / 2 == Xor(a / 2, b / 2)
  {
    var bit, x := (a + b) % 2, Xor(a / 2, b / 2);
    assert Xor(a, b) == 2 * x + bit;
    hide Xor;
    DoubledParts(x, bit);
  }

  /** Addition adds coefficient by coefficient. */
  lemma {:induction false} XorCoefficient(a: nat, b: nat, i: nat)
    ensures GetBit(Xor(a, b), i) == (GetBit(a, i) + GetBit(b, i)) % 2
    decreases i
  {
    XorParts(a, b);
    hide Xor;
    if i > 0 { XorCoefficient(a / 2, b / 2, i - 1); } else { OneBit(a, b); }
  }

  lemma OneBit(a: nat, b: nat)
    ensures (a % 2 + b % 2) % 2 == (a + b) % 2
  {}

  lemma BottomBits(a: nat, b: nat, c: nat, ab: nat, bc: nat)
    requires ab % 2 == (a + b) % 2 && bc % 2 == (b + c) % 2
    ensures (ab + c) % 2 == (a + bc) % 2
  {}

  lemma DoubledParts(x: nat, bit: nat)
    requires bit < 2
    ensures (2 * x + bit) / 2 == x && (2 * x + bit) % 2 == bit
  {}

  lemma SameParts(x: nat, y: nat)
    requires x % 2 == y % 2 && x / 2 == y / 2
    ensures x == y
  {}

  lemma {:induction false} XorAssociates(a: nat, b: nat, c: nat)
    ensures Xor(Xor(a, b), c) == Xor(a, Xor(b, c))
    decreases a + b + c
  {
    if a + b + c > 0 {
      XorAssociates(a / 2, b / 2, c / 2);
      hide Xor;
      XorParts(a, b);
      XorParts(b, c);
      XorParts(Xor(a, b), c);
      XorParts(a, Xor(b, c));
      BottomBits(a, b, c, Xor(a, b), Xor(b, c));
      SameParts(Xor(Xor(a, b), c), Xor(a, Xor(b, c)));
    }
  }

  lemma AdditiveGroup()
    ensures IsAbelian(Polynomials().additive)
  {
    var g := Polynomials().additive;
    forall a, b, c ensures AssocAt(g, a, b, c) { XorAssociates(a, b, c); }
    forall a, b ensures CommuteAt(g, a, b) { XorCommutes(a, b); }
    forall a ensures UnitAt(g, a) && InverseAt(g, a) { XorZero(a); }
  }

  /** (a + b) + (c + d) = (a + c) + (b + d) */
  lemma XorInterchange(a: nat, b: nat, c: nat, d: nat)
    ensures Xor(Xor(a, b), Xor(c, d)) == Xor(Xor(a, c), Xor(b, d))
  {
    AdditiveGroup();
    hide IsAbelian;
    Interchange(Polynomials().additive, a, b, c, d);
  }

  // ----- multiplication --------------------------------------------------------------------------------------

  lemma {:induction false} TimesZero(b: nat)
    ensures Times(0, b) == 0
  {
    if b > 0 { TimesZero(b / 2); }
  }

  lemma TimesDouble(a: nat, b: nat)
    ensures Times(a, 2 * b) == 2 * Times(a, b)
    ensures Times(a, 2 * b + 1) == Xor(2 * Times(a, b), a)
  {
    hide Xor;
    DoubledParts(b, 0);
    DoubledParts(b, 1);
    XorZero(2 * Times(a, b));
    TimesUnfolds(a, 2 * b);
    TimesUnfolds(a, 2 * b + 1);
    hide Times;
  }

  lemma TimesUnfolds(a: nat, b: nat)
    ensures Times(a, b) == if b == 0 then 0 else Xor(2 * Times(a, b / 2), IfOdd(b, a))
  {
    hide Xor;
  }

  lemma XorDouble(a: nat, b: nat)
    ensures Xor(2 * a, 2 * b) == 2 * Xor(a, b)
  {
    hide Xor;
    XorParts(2 * a, 2 * b);
    DoubledParts(a, 0);
    DoubledParts(b, 0);
    DoubledParts(Xor(a, b), 0);
    SameParts(Xor(2 * a, 2 * b), 2 * Xor(a, b));
  }

  /** Multiplication by x^k moves every coefficient up k places. */
  lemma {:induction false} TimesPower(a: nat, k: nat)
    ensures Times(a, Pow2(k)) == a * Pow2(k)
  {
    if k == 0 {
      OneTimes(a);
    } else {
      TimesDouble(a, Pow2(k - 1));
      TimesPower(a, k - 1);
      hide Times;
      TwiceProduct(a, Pow2(k - 1));
    }
  }

  lemma {:induction false} DoubleTimes(a: nat, b: nat)
    ensures Times(2 * a, b) == 2 * Times(a, b)
  {
    if b > 0 {
      DoubleTimes(a, b / 2);
      XorDouble(2 * Times(a, b / 2), IfOdd(b, a));
    }
  }

  lemma {:induction false} XorTimes(a: nat, c: nat, b: nat)
    ensures Times(Xor(a, c), b) == Xor(Times(a, b), Times(c, b))
  {
    XorZero(0);
    if b > 0 {
      XorTimes(a, c, b / 2);
      XorDouble(Times(a, b / 2), Times(c, b / 2));
      hide Xor;
      XorInterchange(2 * Times(a, b / 2), 2 * Times(c, b / 2), IfOdd(b, a), IfOdd(b, c));
    }
  }

  lemma {:induction false} OneTimes(b: nat)
    ensures Times(1, b) == b && Times(b, 1) == b
  {
    if b > 0 { OneTimes(b / 2); }
    XorZero(b);
    assert Times(b, 1) == Xor(2 * Times(b, 0), b);
    AddBottom(b / 2, b % 2);
  }

  /** A bottom coefficient joins a polynomial without one. */
  lemma AddBottom(a: nat, bit: nat)
    requires bit < 2
    ensures Xor(2 * a, bit) == 2 * a + bit
  {
    XorZero(a);
    hide Xor;
    XorParts(2 * a, bit);
  }

  lemma {:induction false} TimesCommutes(a: nat, b: nat)
    ensures Times(a, b) == Times(b, a)
  {
    TimesZero(a);
    if b > 0 {
      TimesCommutes(a, b / 2);
      AddBottom(b / 2, b % 2);
      XorTimes(2 * (b / 2), b % 2, a);
      DoubleTimes(b / 2, a);
      OneTimes(a);
    }
  }

  lemma {:induction false} TimesAssociates(a: nat, b: nat, c: nat)
    ensures Times(Times(a, b), c) == Times(a, Times(b, c))
  {
    if c > 0 {
      TimesAssociates(a, b, c / 2);
      var p, q := 2 * Times(b, c / 2), IfOdd(c, b);
      XorTimes(p, q, a);
      TimesCommutes(a, Xor(p, q));
      TimesCommutes(a, p);
      TimesCommutes(a, q);
      TimesDouble(a, Times(b, c / 2));
      assert Times(a, 0) == 0;
    }
  }

  // ----- degrees ---------------------------------------------------------------------------------------------

  /** The higher degree is that of a sum. */
  lemma {:induction false} SumDegree(a: nat, b: nat)
    requires BitCount(b) < BitCount(a)
    ensures BitCount(Xor(a, b)) == BitCount(a)
  {
    if b == 0 {
      XorZero(a);
    } else {
      HalfDegree(a);
      HalfDegree(b);
      HalfDegree(Xor(a, b));
      SumDegree(a / 2, b / 2);
      assert BitCount(0) == 0;
      hide Xor, BitCount;
      XorParts(a, b);
    }
  }

  lemma HalfDegree(a: nat)
    ensures a > 0 ==> BitCount(a) == 1 + BitCount(a / 2)
  {}

  /** Equal degrees cancel. */
  lemma {:induction false} DegreeDrops(a: nat, b: nat)
    requires BitCount(a) == BitCount(b) > 0
    ensures BitCount(Xor(a, b)) < BitCount(a)
  {
    HalfDegree(a);
    HalfDegree(b);
    HalfDegree(Xor(a, b));
    if a > 1 {
      DegreeDrops(a / 2, b / 2);
      hide Xor, BitCount;
      XorParts(a, b);
    }
  }

  lemma {:induction false} ProductDegree(a: nat, b: nat)
    requires a > 0 && b > 0
    ensures BitCount(Times(a, b)) == BitCount(a) + BitCount(b) - 1
  {
    OnlyZeroHasNone(a);
    if b == 1 {
      OneTimes(a);
      HalfDegree(1);
    } else {
      ProductDegree(a, b / 2);
      HalfDegree(b);
      OnlyZeroHasNone(b / 2);
      var p := Times(a, b / 2);
      assert Times(a, b) == Xor(2 * p, IfOdd(b, a));
      hide Xor, BitCount, Times;
      ProductStep(a, p, b % 2 == 1);
    }
  }

  lemma ProductStep(a: nat, p: nat, odd: bool)
    requires BitCount(p) >= BitCount(a) > 0
    ensures BitCount(Xor(2 * p, if odd then a else 0)) == BitCount(p) + 1
  {
    OnlyZeroHasNone(p);
    DoubleDegree(p);
    hide Xor, BitCount;
    if odd { SumDegree(2 * p, a); } else { XorZero(2 * p); }
  }

  lemma DoubleDegree(p: nat)
    ensures p > 0 ==> BitCount(2 * p) == BitCount(p) + 1
  {
    hide BitCount;
    var q := 2 * p;
    assert q / 2 == p;
    HalfDegree(q);
  }

  lemma OnlyZeroHasNone(a: nat)
    ensures BitCount(a) == 0 <==> a == 0
  {}

  // ----- division --------------------------------------------------------------------------------------------

  lemma {:induction false} TopBit(r: nat, n: nat)
    requires BitCount(r) <= n + 1
    ensures GetBit(r, n) == 1 <==> BitCount(r) == n + 1
  {
    if n > 0 { TopBit(r / 2, n - 1); }
  }

  /** The law of division. */
  predicate Divided(n: nat, divisor: nat, d: Division) {
    n == Xor(Times(d.quotient, divisor), d.remainder) && BitCount(d.remainder) < BitCount(divisor)
  }

  lemma {:induction false} DivideByMeans(dividend: nat, divisor: nat)
    requires divisor > 0
    ensures Divided(dividend, divisor, DivideBy(dividend, divisor))
  {
    TimesZero(divisor);
    if dividend > 0 {
      DivideByMeans(dividend / 2, divisor);
      var above := DivideBy(dividend / 2, divisor);
      hide Divided;
      StepMeans(dividend / 2, divisor, above, dividend % 2);
    }
  }

  lemma StepMeans(n: nat, divisor: nat, above: Division, bit: nat)
    requires Divided(n, divisor, above) && divisor > 0 && bit < 2
    ensures Divided(2 * n + bit, divisor, DivideStep(above, bit, divisor))
  {
    var q, r := above.quotient, above.remainder;
    var p, r' := Times(q, divisor), 2 * r + bit;
    hide Xor, Times, BitCount, GetBit;
    ShiftIn(n, p, r, bit);
    TopBit(r', BitCount(divisor) - 1);
    OddQuotient(q, divisor);
    if GetBit(r', BitCount(divisor) - 1) == 1 { Reduce(p, r', divisor); }
  }

  lemma Reduce(p: nat, r: nat, divisor: nat)
    requires BitCount(r) == BitCount(divisor) > 0
    ensures Xor(Xor(2 * p, divisor), Xor(r, divisor)) == Xor(2 * p, r) && BitCount(Xor(r, divisor)) < BitCount(divisor)
  {
    DegreeDrops(r, divisor);
    hide Xor, BitCount;
    XorInterchange(2 * p, divisor, r, divisor);
    XorZero(divisor);
    XorZero(Xor(2 * p, r));
  }

  lemma ShiftIn(n: nat, p: nat, r: nat, bit: nat)
    requires n == Xor(p, r) && bit < 2
    ensures 2 * n + bit == Xor(2 * p, 2 * r + bit)
    ensures BitCount(2 * r + bit) <= BitCount(r) + 1
  {
    hide Xor, BitCount;
    ShiftInDegree(r, bit);
    var r' := 2 * r + bit;
    XorParts(2 * p, r');
    DoubledParts(n, bit);
    DoubledParts(p, 0);
    DoubledParts(r, bit);
    DoubledParts(p + r, bit);
    SameParts(2 * n + bit, Xor(2 * p, r'));
  }

  lemma ShiftInDegree(r: nat, bit: nat)
    requires bit < 2
    ensures BitCount(2 * r + bit) <= BitCount(r) + 1
  {
    OnlyZeroHasNone(2 * r + bit);
    HalfDegree(2 * r + bit);
    hide BitCount;
    DoubledParts(r, bit);
  }

  lemma OddQuotient(q: nat, divisor: nat)
    ensures Times(2 * q, divisor) == 2 * Times(q, divisor)
    ensures Times(2 * q + 1, divisor) == Xor(2 * Times(q, divisor), divisor)
  {
    DoubleTimes(q, divisor);
    AddBottom(q, 1);
    XorTimes(2 * q, 1, divisor);
    OneTimes(divisor);
  }

  lemma {:induction false} KeepsLowDegree(a: nat, b: nat)
    requires BitCount(a) < BitCount(b)
    ensures DivideBy(a, b) == Division(0, a)
  {
    if a > 0 {
      KeepsLowDegree(a / 2, b);
      HalfDegree(a);
      assert b > 0;
      assert a == 2 * (a / 2) + a % 2;
      hide BitCount, GetBit, Xor;
      TopBit(a, BitCount(b) - 1);
    }
  }

  lemma OnlyOneIsUnit(u: nat, w: nat)
    requires Times(u, w) == 1
    ensures u == 1
  {
    TimesZero(w);
    ProductDegree(u, w);
    assert BitCount(1) == 1;
    assert BitCount(u / 2) == 0;
  }

  lemma PolynomialsAreEuclidean()
    ensures IsEuclidean(Polynomials()) && KeepsSmaller(Polynomials())
  {
    var d := Polynomials();
    AdditiveGroup();
    hide IsAbelian, Xor, Times, BitCount, DivideBy;
    forall a, b, c ensures MulAssocAt(d, a, b, c) { TimesAssociates(a, b, c); }
    forall a, b ensures MulCommuteAt(d, a, b) { TimesCommutes(a, b); }
    forall a ensures OneAt(d, a) { OneTimes(a); }
    forall a, b, c ensures DistributeAt(d, a, b, c) { XorTimes(a, b, c); }
    forall a, b ensures DivisionAt(d, a, b) { if b > 0 { DivideByMeans(a, b); } }
    forall a ensures NormAt(d, a) { OnlyZeroHasNone(a); }
    forall a, b ensures ProductNormAt(d, a, b) { ProductNorm(a, b); }
    forall u ensures UnitOfRing(d, u) {
      OneTimes(1);
      assert u == 1 ==> InvertsAt(d, u, 1);
      forall w | InvertsAt(d, u, w) ensures u == 1 { OnlyOneIsUnit(u, w); }
    }
    forall a, b | d.norm(a) < d.norm(b) ensures d.rem(a, b) == a { KeepsLowDegree(a, b); }
  }

  lemma ProductNorm(a: nat, b: nat)
    ensures Times(a, b) != 0 ==> BitCount(a) <= BitCount(Times(a, b))
  {
    TimesZero(b);
    if a > 0 && b > 0 { ProductDegree(a, b); assert BitCount(b) > 0; }
  }

  // ----- the code --------------------------------------------------------------------------------------------

  /** PolynomialMod2::Times */
  method Multiply(a: nat, b: nat) returns (result: nat)
    ensures result == Times(a, b)
  {
    result := 0;
    ShiftOut(b, BitCount(b));
    for i := BitCount(b) downto 0
      invariant result == Times(a, Shr(b, i))
    {
      ShiftStep(b, i);
      TimesDouble(a, Shr(b, i + 1));
      result := 2 * result;
      if GetBit(b, i) == 1 { result := Xor(result, a); }
    }
  }

  lemma WithBit(dividend: nat, i: nat, divisor: nat)
    ensures DivideBy(Shr(dividend, i), divisor)
         == DivideStep(DivideBy(Shr(dividend, i + 1), divisor), GetBit(dividend, i), divisor)
  {
    ShiftStep(dividend, i);
    hide Xor, BitCount, GetBit;
    if Shr(dividend, i) == 0 { assert DivideBy(0, divisor) == Division(0, 0); NothingLeft(divisor); }
  }

  lemma NothingLeft(divisor: nat)
    ensures DivideStep(Division(0, 0), 0, divisor) == Division(0, 0)
  {
    if divisor > 0 { TopBit(0, BitCount(divisor) - 1); }
  }

  /** PolynomialMod2::Divide */
  method Divide(dividend: nat, divisor: nat) returns (r: Result<Division>)
    ensures r == if divisor == 0 then DivideByZero else Value(DivideBy(dividend, divisor))
  {
    if divisor == 0 { return DivideByZero; }
    var degree := BitCount(divisor) - 1;
    var remainder: nat, quotient: nat := 0, 0;
    ShiftOut(dividend, BitCount(dividend));
    assert Shr(dividend, 0) == dividend && DivideBy(0, divisor) == Division(0, 0);
    hide BitCount, GetBit, Xor, DivideBy, DivideStep, Shr;
    for i := BitCount(dividend) downto 0
      invariant Division(quotient, remainder) == DivideBy(Shr(dividend, i), divisor)
    {
      WithBit(dividend, i, divisor);
      quotient, remainder := TakeBit(divisor, degree, quotient, remainder, GetBit(dividend, i));
    }
    r := Value(Division(quotient, remainder));
  }

  method TakeBit(divisor: nat, degree: nat, q: nat, r: nat, bit: nat) returns (quotient: nat, remainder: nat)
    requires divisor > 0 && degree == BitCount(divisor) - 1
    ensures Division(quotient, remainder) == DivideStep(Division(q, r), bit, divisor)
  {
    hide BitCount, GetBit, Xor;
    quotient, remainder := 2 * q, 2 * r + bit;
    if GetBit(remainder, degree) == 1 {
      remainder, quotient := Xor(remainder, divisor), quotient + 1;
    }
  }

  /** PolynomialMod2::Gcd */
  method PolynomialGcd(a: nat, b: nat) returns (r: nat)
    ensures Divides(Polynomials(), r, a) && Divides(Polynomials(), r, b)
    ensures forall c :: Divides(Polynomials(), c, a) && Divides(Polynomials(), c, b) ==> Divides(Polynomials(), c, r)
    ensures r == 1 <==> Coprime(Polynomials(), a, b)
  {
    PolynomialsAreEuclidean();
    hide IsEuclidean, Divides, Coprime;
    ghost var v, u;
    r, v, u := Gcd(Polynomials(), a, b);
  }

  ghost predicate HasInverse(modulus: nat, a: nat) {
    Coprime(Polynomials(), a, modulus) && (BitCount(a) <= BitCount(modulus) || modulus == 1)
  }

  /** PolynomialMod2::InverseMod: an inverse exactly when a and the modulus are coprime and a has no higher degree,
      or the modulus is 1; zero when there is no inverse. */
  method InverseMod(a: nat, modulus: nat) returns (r: Result<nat>)
    ensures r.DivideByZero? <==> modulus == 0
    ensures r.Value? ==> (IsInverse(Polynomials(), modulus, a, r.value) <==> HasInverse(modulus, a))
    ensures r.Value? && !IsInverse(Polynomials(), modulus, a, r.value) ==> r.value == 0
  {
    PolynomialsAreEuclidean();
    hide IsEuclidean, IsInverse, Coprime, KeepsSmaller, MeetsMultiple;
    r := MultiplicativeInverse(Polynomials(), modulus, a, Modulo);
  }

  /** MultiplicativeInverse in GF2NP, whose Equal compares as they are: an inverse exactly when a and the modulus are
      coprime, whatever the degree of a. */
  method FieldInverse(a: nat, modulus: nat) returns (r: nat)
    ensures IsInverse(Polynomials(), modulus, a, r) <==> Coprime(Polynomials(), a, modulus)
    ensures !IsInverse(Polynomials(), modulus, a, r) ==> r == 0
  {
    PolynomialsAreEuclidean();
    hide IsEuclidean, IsInverse, Coprime;
    var result := MultiplicativeInverse(Polynomials(), modulus, a, Plain);
    r := result.value;
  }

  /** x^2 + 1 and x are coprime, and yet InverseMod gives zero for x^2 + 1 modulo x. */
  method InverseIsMissed() returns (r: Result<nat>)
    ensures Coprime(Polynomials(), 5, 2) && r == Value(0) && !IsInverse(Polynomials(), 2, 5, 0)
  {
    var g := PolynomialGcd(5, 2);
    OnlyOneDivides(g);
    assert BitCount(5) == 3 && BitCount(2) == 2;
    hide Coprime, IsInverse;
    r := InverseMod(5, 2);
  }

  lemma OnlyOneDivides(g: nat)
    requires Divides(Polynomials(), g, 5) && Divides(Polynomials(), g, 2)
    ensures g == 1
  {
    var d := Polynomials();
    PolynomialsAreEuclidean();
    OneTimes(2);
    assert Times(2, 2) == 4 && Xor(5, 4) == 1;
    hide IsEuclidean, Divides, Xor, Times;
    DividesMultiple(d, g, 2, 2);
    DividesSum(d, g, 5, 4);
    DividesOne(d, g);
  }
}
