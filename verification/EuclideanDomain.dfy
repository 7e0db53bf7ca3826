/** Euclidean domains as values: the operations AbstractEuclideanDomain<T> leaves to its subclasses, their laws,
    and divisibility. */
module EuclideanDomains {
  import opened Groups

  /** norm is 0 at zero alone and grows along products; quot and rem promise nothing for the divisor zero. */
  datatype Domain<!T> = Domain(
    additive: Group<T>, one: T, mul: (T, T) -> T,
    quot: (T, T) -> T, rem: (T, T) -> T, norm: T -> nat, isUnit: T -> bool)
  {
    function Zero(): T { additive.zero }
    function Add(x: T, y: T): T { additive.add(x, y) }
    function Subtract(x: T, y: T): T { additive.add(x, additive.neg(y)) }
  }

  ghost predicate MulAssocAt<T>(d: Domain<T>, x: T, y: T, z: T) { d.mul(d.mul(x, y), z) == d.mul(x, d.mul(y, z)) }

  ghost predicate MulCommuteAt<T>(d: Domain<T>, x: T, y: T) { d.mul(x, y) == d.mul(y, x) }

  ghost predicate OneAt<T>(d: Domain<T>, x: T) { d.mul(x, d.one) == x }

  ghost predicate DistributeAt<T>(d: Domain<T>, x: T, y: T, z: T) {
    d.mul(d.Add(x, y), z) == d.Add(d.mul(x, z), d.mul(y, z))
  }

  ghost predicate DivisionAt<T>(d: Domain<T>, x: T, y: T) {
    y != d.Zero() ==> x == d.Add(d.mul(d.quot(x, y), y), d.rem(x, y)) && d.norm(d.rem(x, y)) < d.norm(y)
  }

  ghost predicate NormAt<T>(d: Domain<T>, x: T) { d.norm(x) == 0 <==> x == d.Zero() }

  ghost predicate ProductNormAt<T>(d: Domain<T>, x: T, y: T) {
    d.mul(x, y) != d.Zero() ==> d.norm(x) <= d.norm(d.mul(x, y))
  }

  ghost predicate InvertsAt<T>(d: Domain<T>, u: T, w: T) { d.mul(u, w) == d.one }

  ghost predicate UnitOfRing<T(!new)>(d: Domain<T>, u: T) { d.isUnit(u) <==> exists w :: InvertsAt(d, u, w) }

  ghost predicate IsEuclidean<T(!new)>(d: Domain<T>) {
    && IsAbelian(d.additive)
    && (forall x, y, z :: MulAssocAt(d, x, y, z))
    && (forall x, y :: MulCommuteAt(d, x, y))
    && (forall x :: OneAt(d, x))
    && (forall x, y, z :: DistributeAt(d, x, y, z))
    && (forall x, y :: DivisionAt(d, x, y))
    && (forall x :: NormAt(d, x))
    && (forall x, y :: ProductNormAt(d, x, y))
    && (forall u :: UnitOfRing(d, u))
  }

  // ----- the ring --------------------------------------------------------------------------------------------

  lemma AddZero<T(!new)>(d: Domain<T>, x: T)
    requires IsEuclidean(d)
    ensures d.Add(x, d.Zero()) == x && d.Add(d.Zero(), x) == x
  {
    var g := d.additive;
    assert UnitAt(g, x) && CommuteAt(g, g.zero, x);
  }

  lemma MulZero<T(!new)>(d: Domain<T>, x: T)
    requires IsEuclidean(d)
    ensures d.mul(d.Zero(), x) == d.Zero() && d.mul(x, d.Zero()) == d.Zero()
  {
    var z, p := d.Zero(), d.mul(d.Zero(), x);
    AddZero(d, z);
    assert DistributeAt(d, z, z, x) && MulCommuteAt(d, z, x);
    Cancel(d.additive, p, p);
    assert InverseAt(d.additive, p);
  }

  lemma MulNegative<T(!new)>(d: Domain<T>, x: T, y: T)
    requires IsEuclidean(d)
    ensures d.mul(d.additive.neg(x), y) == d.additive.neg(d.mul(x, y))
    ensures d.mul(y, d.additive.neg(x)) == d.additive.neg(d.mul(x, y))
  {
    var n := d.additive.neg(x);
    assert InverseAt(d.additive, x) && DistributeAt(d, x, n, y) && MulCommuteAt(d, n, y);
    MulZero(d, y);
    InverseUnique(d.additive, d.mul(x, y), d.mul(n, y));
  }

  lemma SubtractMul<T(!new)>(d: Domain<T>, x: T, y: T, z: T)
    requires IsEuclidean(d)
    ensures d.mul(d.Subtract(x, y), z) == d.Subtract(d.mul(x, z), d.mul(y, z))
  {
    assert DistributeAt(d, x, d.additive.neg(y), z);
    MulNegative(d, y, z);
  }

  lemma NegativeSum<T(!new)>(g: Group<T>, x: T, y: T)
    requires IsAbelian(g)
    ensures g.neg(g.add(x, y)) == g.add(g.neg(x), g.neg(y))
  {
    Interchange(g, x, y, g.neg(x), g.neg(y));
    assert InverseAt(g, x) && InverseAt(g, y) && UnitAt(g, g.zero);
    InverseUnique(g, g.add(x, y), g.add(g.neg(x), g.neg(y)));
  }

  lemma SubtractSums<T(!new)>(d: Domain<T>, x: T, y: T, p: T, q: T)
    requires IsEuclidean(d)
    ensures d.Subtract(d.Add(x, y), d.Add(p, q)) == d.Add(d.Subtract(x, p), d.Subtract(y, q))
  {
    var g := d.additive;
    NegativeSum(g, p, q);
    Interchange(g, x, y, g.neg(p), g.neg(q));
  }

  /** x = p + r leaves x - p = r. */
  lemma SubtractBack<T(!new)>(d: Domain<T>, p: T, r: T)
    requires IsEuclidean(d)
    ensures d.Subtract(d.Add(p, r), p) == r
  {
    assert CommuteAt(d.additive, p, r);
    Cancel(d.additive, r, p);
  }

  // ----- divisibility ----------------------------------------------------------------------------------------

  ghost predicate TimesAt<T>(d: Domain<T>, c: T, x: T, k: T) { x == d.mul(k, c) }

  ghost predicate Divides<T(!new)>(d: Domain<T>, c: T, x: T) { exists k :: TimesAt(d, c, x, k) }

  lemma DividesBy<T(!new)>(d: Domain<T>, c: T, x: T, k: T)
    requires x == d.mul(k, c)
    ensures Divides(d, c, x)
  {
    assert TimesAt(d, c, x, k);
  }

  lemma DividesSelf<T(!new)>(d: Domain<T>, c: T)
    requires IsEuclidean(d)
    ensures Divides(d, c, c) && Divides(d, c, d.Zero())
  {
    assert OneAt(d, c) && MulCommuteAt(d, d.one, c);
    MulZero(d, c);
    DividesBy(d, c, c, d.one);
    DividesBy(d, c, d.Zero(), d.Zero());
  }

  /** A divisor divides multiples. */
  lemma DividesMultiple<T(!new)>(d: Domain<T>, c: T, x: T, p: T)
    requires IsEuclidean(d) && Divides(d, c, x)
    ensures Divides(d, c, d.mul(p, x))
  {
    var k :| TimesAt(d, c, x, k);
    assert MulAssocAt(d, p, k, c);
    DividesBy(d, c, d.mul(p, x), d.mul(p, k));
  }

  lemma DividesSum<T(!new)>(d: Domain<T>, c: T, x: T, y: T)
    requires IsEuclidean(d) && Divides(d, c, x) && Divides(d, c, y)
    ensures Divides(d, c, d.Add(x, y)) && Divides(d, c, d.Subtract(x, y))
  {
    var i :| TimesAt(d, c, x, i);
    var j :| TimesAt(d, c, y, j);
    assert DistributeAt(d, i, j, c);
    SubtractMul(d, i, j, c);
    DividesBy(d, c, d.Add(x, y), d.Add(i, j));
    DividesBy(d, c, d.Subtract(x, y), d.Subtract(i, j));
  }

  /** A common divisor divides every combination p x + q y. */
  lemma DividesCombination<T(!new)>(d: Domain<T>, c: T, x: T, y: T, p: T, q: T)
    requires IsEuclidean(d) && Divides(d, c, x) && Divides(d, c, y)
    ensures Divides(d, c, d.Add(d.mul(p, x), d.mul(q, y)))
  {
    DividesMultiple(d, c, x, p);
    DividesMultiple(d, c, y, q);
    DividesSum(d, c, d.mul(p, x), d.mul(q, y));
  }

  /** The remainder is zero exactly for multiples of the divisor, and others are no smaller than it. */
  lemma RemainderZero<T(!new)>(d: Domain<T>, x: T, m: T)
    requires IsEuclidean(d) && m != d.Zero()
    ensures d.rem(x, m) == d.Zero() <==> Divides(d, m, x)
    ensures Divides(d, m, x) && x != d.Zero() ==> d.norm(m) <= d.norm(x)
  {
    var p, r := d.mul(d.quot(x, m), m), d.rem(x, m);
    assert DivisionAt(d, x, m);
    if r == d.Zero() {
      AddZero(d, p);
      DividesBy(d, m, x, d.quot(x, m));
    }
    if Divides(d, m, x) {
      SubtractBack(d, p, r);
      DividesBy(d, m, p, d.quot(x, m));
      DividesSum(d, m, x, p);
      if r != d.Zero() { NoSmallerMultiple(d, m, r); }
      if x != d.Zero() { NoSmallerMultiple(d, m, x); }
    }
  }

  lemma NoSmallerMultiple<T(!new)>(d: Domain<T>, m: T, x: T)
    requires IsEuclidean(d) && Divides(d, m, x) && x != d.Zero()
    ensures d.norm(m) <= d.norm(x)
  {
    var k :| TimesAt(d, m, x, k);
    assert MulCommuteAt(d, k, m) && ProductNormAt(d, m, k);
  }

  // ----- units -----------------------------------------------------------------------------------------------

  lemma InverseOfUnit<T(!new)>(d: Domain<T>, u: T) returns (w: T)
    requires IsEuclidean(d) && d.isUnit(u)
    ensures d.mul(u, w) == d.one && d.mul(w, u) == d.one
  {
    assert UnitOfRing(d, u);
    w :| InvertsAt(d, u, w);
    assert MulCommuteAt(d, u, w);
  }

  lemma DividesOne<T(!new)>(d: Domain<T>, u: T)
    requires IsEuclidean(d)
    ensures d.isUnit(u) <==> Divides(d, u, d.one)
  {
    if d.isUnit(u) {
      var w := InverseOfUnit(d, u);
      DividesBy(d, u, d.one, w);
    }
    if Divides(d, u, d.one) {
      var k :| TimesAt(d, u, d.one, k);
      assert MulCommuteAt(d, k, u) && InvertsAt(d, u, k) && UnitOfRing(d, u);
    }
  }

  /** A unit divides everything, so nothing but zero is smaller. */
  lemma UnitDivides<T(!new)>(d: Domain<T>, u: T, x: T)
    requires IsEuclidean(d) && d.isUnit(u)
    ensures Divides(d, u, x)
    ensures x != d.Zero() ==> d.norm(u) <= d.norm(x)
  {
    DividesOne(d, u);
    DividesMultiple(d, u, d.one, x);
    assert OneAt(d, x);
    if x != d.Zero() { NoSmallerMultiple(d, u, x); }
  }

  lemma DividesTrans<T(!new)>(d: Domain<T>, c: T, x: T, y: T)
    requires IsEuclidean(d) && Divides(d, c, x) && Divides(d, x, y)
    ensures Divides(d, c, y)
  {
    var k :| TimesAt(d, x, y, k);
    DividesMultiple(d, c, x, k);
  }

  /** The divisors of a unit are units. */
  lemma DivisorOfUnit<T(!new)>(d: Domain<T>, c: T, u: T)
    requires IsEuclidean(d) && d.isUnit(u) && Divides(d, c, u)
    ensures d.isUnit(c)
  {
    DividesOne(d, u);
    DividesTrans(d, c, u, d.one);
    DividesOne(d, c);
  }

  ghost predicate Coprime<T(!new)>(d: Domain<T>, x: T, y: T) {
    forall c :: Divides(d, c, x) && Divides(d, c, y) ==> d.isUnit(c)
  }
}
