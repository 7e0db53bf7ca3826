/** The integers as a Euclidean domain, with remainders that are never negative, and their
    divisibility. */
module Integers {
  import opened Bits
  import opened Groups
  import Domains = EuclideanDomains
  import Euclid

  function Abs(n: int): nat { if n < 0 then -n else n }

  /** EuclideanDomainOf<Integer>; Integer divides with remainders that are never negative. */
  function IntegerDomain(): Domains.Domain<int> {
    Domains.Domain(Group(0, (x: int, y: int) => x + y, (x: int) => -x), 1, (x: int, y: int) => x * y,
      (x: int, y: int) => if y == 0 then 0 else x / y, (x: int, y: int) => if y == 0 then x else x % y,
      (x: int) => Abs(x), (x: int) => x == 1 || x == -1)
  }

  lemma IntegersAreEuclidean()
    ensures Domains.IsEuclidean(IntegerDomain())
  {
    var d := IntegerDomain();
    forall x, y, z ensures Domains.MulAssocAt(d, x, y, z) && Domains.DistributeAt(d, x, y, z) { RingLaws(x, y, z); }
    forall x, y ensures Domains.DivisionAt(d, x, y) { if y != 0 { Division(x, y); } }
    forall x, y ensures Domains.ProductNormAt(d, x, y) { ProductGrows(x, y); }
    forall u ensures Domains.UnitOfRing(d, u) {
      assert u == 1 || u == -1 ==> Domains.InvertsAt(d, u, u);
      forall w | Domains.InvertsAt(d, u, w) ensures d.isUnit(u) { ProductGrows(u, w); }
    }
  }

  lemma RingLaws(x: int, y: int, z: int)
    ensures x * y * z == x * (y * z) && (x + y) * z == x * z + y * z
  {}

  lemma Division(x: int, y: int)
    requires y != 0
    ensures x == (x / y) * y + x % y && x % y < Abs(y)
  {}

  lemma ProductGrows(x: int, y: int)
    ensures x * y != 0 ==> Abs(x) <= Abs(x * y)
  {
    AbsProduct(x, y);
    if y != 0 { MulMono(1, Abs(y), Abs(x)); }
  }

  lemma AbsProduct(x: int, y: int)
    ensures Abs(x * y) == Abs(y) * Abs(x)
  {
    MulSigns(x, y);
    MulSigns(-x, y);
    if x >= 0 && y >= 0 { MulMono(0, y, x); }
    if x < 0 && y >= 0 { MulMono(0, y, -x); }
    if x >= 0 && y < 0 { MulMono(0, -y, x); }
    if x < 0 && y < 0 { MulMono(0, -y, -x); }
  }

  lemma MulSigns(x: int, y: int)
    ensures x * (-y) == -(x * y) && (-y) * x == -(x * y) && y * x == x * y && 0 * x == 0
  {}

  ghost predicate Divides(d: int, n: int) { Domains.Divides(IntegerDomain(), d, n) }

  lemma DividesBy(d: int, n: int, k: int)
    requires n == k * d
    ensures Divides(d, n)
  {
    Domains.DividesBy(IntegerDomain(), d, n, k);
  }

  lemma Factor(d: int, n: int) returns (k: int)
    requires Divides(d, n)
    ensures n == k * d
  {
    k :| Domains.TimesAt(IntegerDomain(), d, n, k);
  }

  lemma DividesCombination(d: int, x: int, y: int, p: int, q: int)
    requires Divides(d, x) && Divides(d, y)
    ensures Divides(d, p * x + q * y)
  {
    IntegersAreEuclidean();
    hide Domains.IsEuclidean, Domains.Divides;
    Domains.DividesCombination(IntegerDomain(), d, x, y, p, q);
  }

  /** The greatest common divisor, as Gcd finds it, is a combination. */
  lemma Bezout(a: int, b: int) returns (d: int, v: int, u: int)
    ensures d == v * a + u * b && Divides(d, a) && Divides(d, b)
  {
    IntegersAreEuclidean();
    hide Domains.IsEuclidean, Domains.Divides;
    d := Euclid.GcdFrom(IntegerDomain(), b, a);
    v, u := Euclid.GcdCombines(IntegerDomain(), a, b);
  }
}
