/** Euclid's algorithm over any Euclidean domain, on three slots that rotate. */
module Euclid {
  import opened Groups
  import opened EuclideanDomains

  /** g = v a + u m */
  ghost predicate Combines<T>(d: Domain<T>, g: T, v: T, a: T, u: T, m: T) { g == d.Add(d.mul(v, a), d.mul(u, m)) }

  lemma CombinesStart<T(!new)>(d: Domain<T>, a: T, m: T)
    requires IsEuclidean(d)
    ensures Combines(d, m, d.Zero(), a, d.one, m) && Combines(d, a, d.one, a, d.Zero(), m)
  {
    MulZero(d, a);
    MulZero(d, m);
    assert OneAt(d, a) && OneAt(d, m) && MulCommuteAt(d, d.one, a) && MulCommuteAt(d, d.one, m);
    AddZero(d, a);
    AddZero(d, m);
  }

  /** One division step: g0 = q g1 + r. */
  lemma CombineStep<T(!new)>(d: Domain<T>, a: T, m: T, g0: T, v0: T, u0: T, g1: T, v1: T, u1: T, q: T, r: T)
    requires IsEuclidean(d) && Combines(d, g0, v0, a, u0, m) && Combines(d, g1, v1, a, u1, m)
    requires g0 == d.Add(d.mul(q, g1), r)
    ensures Combines(d, r, d.Subtract(v0, d.mul(v1, q)), a, d.Subtract(u0, d.mul(u1, q)), m)
  {
    SubtractBack(d, d.mul(q, g1), r);
    MulCombination(d, a, m, v1, u1, q);
    SubtractMul(d, v0, d.mul(v1, q), a);
    SubtractMul(d, u0, d.mul(u1, q), m);
    SubtractSums(d, d.mul(v0, a), d.mul(u0, m), d.mul(d.mul(v1, q), a), d.mul(d.mul(u1, q), m));
  }

  lemma MulCombination<T(!new)>(d: Domain<T>, a: T, m: T, v: T, u: T, q: T)
    requires IsEuclidean(d)
    ensures d.mul(q, d.Add(d.mul(v, a), d.mul(u, m))) == d.Add(d.mul(d.mul(v, q), a), d.mul(d.mul(u, q), m))
  {
    var x, y := d.mul(v, a), d.mul(u, m);
    assert MulCommuteAt(d, q, d.Add(x, y)) && DistributeAt(d, x, y, q);
    assert MulCommuteAt(d, x, q) && MulCommuteAt(d, y, q) && MulCommuteAt(d, v, q) && MulCommuteAt(d, u, q);
    assert MulAssocAt(d, q, v, a) && MulAssocAt(d, q, u, m);
  }

  /** Divisors of x and y are divisors of a and b. */
  ghost predicate DivisorsPass<T(!new)>(d: Domain<T>, x: T, y: T, a: T, b: T) {
    forall c :: Divides(d, c, x) && Divides(d, c, y) ==> Divides(d, c, a) && Divides(d, c, b)
  }

  lemma DivisorsPassOn<T(!new)>(d: Domain<T>, x: T, y: T, r: T, q: T, a: T, b: T)
    requires IsEuclidean(d) && DivisorsPass(d, x, y, a, b) && x == d.Add(d.mul(q, y), r)
    ensures DivisorsPass(d, y, r, a, b)
  {
    forall c | Divides(d, c, y) && Divides(d, c, r) ensures Divides(d, c, a) && Divides(d, c, b) {
      DividesMultiple(d, c, y, q);
      DividesSum(d, c, d.mul(q, y), r);
    }
  }

  lemma LastDivides<T(!new)>(d: Domain<T>, x: T, a: T, b: T)
    requires IsEuclidean(d) && DivisorsPass(d, x, d.Zero(), a, b)
    ensures Divides(d, x, a) && Divides(d, x, b)
  {
    DividesSelf(d, x);
  }

  predicate Rotation(i0: nat, i1: nat, i2: nat) { i0 < 3 && i1 < 3 && i2 < 3 && i0 != i1 && i1 != i2 && i0 != i2 }

  /** One round of either loop, on what the two live slots hold. */
  lemma Round<T(!new)>(d: Domain<T>, a: T, m: T, g0: T, v0: T, u0: T, g1: T, v1: T, u1: T)
    requires IsEuclidean(d) && g1 != d.Zero() && DivisorsPass(d, g0, g1, a, m)
    requires Combines(d, g0, v0, a, u0, m) && Combines(d, g1, v1, a, u1, m)
    ensures DivisorsPass(d, g1, d.rem(g0, g1), a, m) && d.norm(d.rem(g0, g1)) < d.norm(g1)
    ensures var y := d.quot(g0, g1);
      Combines(d, d.rem(g0, g1), d.Subtract(v0, d.mul(v1, y)), a, d.Subtract(u0, d.mul(u1, y)), m)
  {
    var y, r := d.quot(g0, g1), d.rem(g0, g1);
    assert DivisionAt(d, g0, g1);
    hide IsEuclidean, DivisorsPass, Combines;
    CombineStep(d, a, m, g0, v0, u0, g1, v1, u1, y, r);
    DivisorsPassOn(d, g0, g1, r, y, a, m);
  }

  /** What Gcd returns when its live slots hold g0 and g1. */
  ghost function GcdFrom<T(!new)>(d: Domain<T>, g0: T, g1: T): T
    requires IsEuclidean(d)
    decreases d.norm(g1)
  {
    if g1 == d.Zero() then g0 else
      assert DivisionAt(d, g0, g1);
      GcdFrom(d, g1, d.rem(g0, g1))
  }

  /** It is a common divisor of a and b and a combination of them, as long as the slots say so. */
  lemma {:induction false} Bezout<T(!new)>(d: Domain<T>, a: T, b: T, g0: T, v0: T, u0: T, g1: T, v1: T, u1: T)
      returns (v: T, u: T)
    requires IsEuclidean(d) && DivisorsPass(d, g0, g1, a, b)
    requires Combines(d, g0, v0, a, u0, b) && Combines(d, g1, v1, a, u1, b)
    ensures Combines(d, GcdFrom(d, g0, g1), v, a, u, b)
    ensures Divides(d, GcdFrom(d, g0, g1), a) && Divides(d, GcdFrom(d, g0, g1), b)
    decreases d.norm(g1)
  {
    hide IsEuclidean, DivisorsPass, Combines, Divides;
    if g1 == d.Zero() {
      LastDivides(d, g0, a, b);
      v, u := v0, u0;
    } else {
      var y := d.quot(g0, g1);
      Round(d, a, b, g0, v0, u0, g1, v1, u1);
      v, u := Bezout(d, a, b, g1, v1, u1, d.rem(g0, g1), d.Subtract(v0, d.mul(v1, y)), d.Subtract(u0, d.mul(u1, y)));
    }
  }

  /** The greatest common divisor of a and b is a combination of them. */
  lemma GcdCombines<T(!new)>(d: Domain<T>, a: T, b: T) returns (v: T, u: T)
    requires IsEuclidean(d)
    ensures Combines(d, GcdFrom(d, b, a), v, a, u, b)
    ensures Divides(d, GcdFrom(d, b, a), a) && Divides(d, GcdFrom(d, b, a), b)
  {
    CombinesStart(d, a, b);
    assert DivisorsPass(d, b, a, a, b);
    v, u := Bezout(d, a, b, b, d.Zero(), d.one, a, d.one, d.Zero());
  }

  /** A common divisor of a and b that is a combination of them, hence a greatest one. */
  method Gcd<T(==,!new)>(d: Domain<T>, a: T, b: T) returns (r: T, ghost v: T, ghost u: T)
    requires IsEuclidean(d)
    ensures r == GcdFrom(d, b, a)
    ensures Divides(d, r, a) && Divides(d, r, b)
    ensures Combines(d, r, v, a, u, b)
    ensures forall c :: Divides(d, c, a) && Divides(d, c, b) ==> Divides(d, c, r)
    ensures d.isUnit(r) <==> Coprime(d, a, b)
  {
    var g := new T[3] [b, a, d.Zero()];
    var i0, i1, i2 := 0, 1, 2;
    while g[i1] != d.Zero()
      invariant Rotation(i0, i1, i2)
      invariant GcdFrom(d, g[i0], g[i1]) == GcdFrom(d, b, a)
      decreases d.norm(g[i1])
    {
      assert DivisionAt(d, g[i0], g[i1]);
      g[i2] := d.rem(g[i0], g[i1]);
      i0, i1, i2 := i1, i2, i0;
    }
    r := g[i0];
    v, u := GcdCombines(d, a, b);
    Greatest(d, r, v, a, u, b);
  }

  lemma Greatest<T(!new)>(d: Domain<T>, r: T, v: T, a: T, u: T, b: T)
    requires IsEuclidean(d) && Combines(d, r, v, a, u, b) && Divides(d, r, a) && Divides(d, r, b)
    ensures forall c :: Divides(d, c, a) && Divides(d, c, b) ==> Divides(d, c, r)
    ensures d.isUnit(r) <==> Coprime(d, a, b)
  {
    hide IsEuclidean, Divides;
    forall c | Divides(d, c, a) && Divides(d, c, b) ensures Divides(d, c, r) && (d.isUnit(r) ==> d.isUnit(c)) {
      DividesCombination(d, c, a, b, v, u);
      if d.isUnit(r) { DivisorOfUnit(d, c, r); }
    }
  }

  // ----- the inverse in a quotient ring ----------------------------------------------------------------------

  /** a b is 1 in the ring modulo m. */
  ghost predicate IsInverse<T(!new)>(d: Domain<T>, m: T, a: T, b: T) { Divides(d, m, d.Subtract(d.mul(a, b), d.one)) }

  lemma InverseMeansCoprime<T(!new)>(d: Domain<T>, m: T, a: T, b: T)
    requires IsEuclidean(d) && IsInverse(d, m, a, b)
    ensures Coprime(d, a, m)
  {
    hide Divides;
    forall c | Divides(d, c, a) && Divides(d, c, m) ensures d.isUnit(c) {
      var p := d.mul(a, b);
      DividesMultiple(d, c, a, b);
      assert MulCommuteAt(d, a, b);
      DividesTrans(d, c, m, d.Subtract(p, d.one));
      DividesSum(d, c, p, d.Subtract(p, d.one));
      OneIsLeft(d, p);
      DividesOne(d, c);
    }
  }

  lemma OneIsLeft<T(!new)>(d: Domain<T>, p: T)
    requires IsEuclidean(d)
    ensures d.Subtract(p, d.Subtract(p, d.one)) == d.one
  {
    var g := d.additive;
    Cancel(g, p, d.one);
    SubtractBack(d, d.Subtract(p, d.one), d.one);
  }

  /** Zero is an inverse exactly when the ring has one element. */
  lemma ZeroInverts<T(!new)>(d: Domain<T>, m: T, a: T)
    requires IsEuclidean(d)
    ensures IsInverse(d, m, a, d.Zero()) <==> d.isUnit(m)
  {
    hide Divides;
    MulZero(d, a);
    var s := d.Subtract(d.Zero(), d.one);
    if d.isUnit(m) { UnitDivides(d, m, s); }
    if Divides(d, m, s) {
      DividesSelf(d, m);
      DividesSum(d, m, d.Zero(), s);
      OneIsLeft(d, d.Zero());
      DividesOne(d, m);
    }
  }

  /** A unit g = v a + u m gives the inverse v / g. */
  lemma UnitGivesInverse<T(!new)>(d: Domain<T>, m: T, a: T, g: T, v: T, u: T)
    requires IsEuclidean(d) && d.isUnit(g) && Combines(d, g, v, a, u, m) && g != d.Zero()
    ensures IsInverse(d, m, a, d.quot(v, g))
  {
    var q := d.quot(v, g);
    var w := InverseOfUnit(d, g);
    ExactQuotient(d, v, g, w);
    ScaledCombination(d, m, a, g, v, u, w);
    var p := d.mul(d.mul(w, u), m);
    assert MulCommuteAt(d, a, q);
    DividesBy(d, m, p, d.mul(w, u));
    DividesSelf(d, m);
    DividesSum(d, m, d.Zero(), p);
    hide IsEuclidean, Combines;
    NegatedRest(d, d.mul(a, q), p);
  }

  /** Where zero is a unit there is nothing else. */
  lemma ZeroAsUnit<T(!new)>(d: Domain<T>, m: T, a: T, b: T)
    requires IsEuclidean(d) && d.isUnit(d.Zero())
    ensures IsInverse(d, m, a, b)
  {
    var s := d.Subtract(d.mul(a, b), d.one);
    UnitDivides(d, d.Zero(), s);
    var k :| TimesAt(d, d.Zero(), s, k);
    MulZero(d, k);
    DividesSelf(d, m);
  }

  /** x + p = 1 makes x - 1 the negative of p. */
  lemma NegatedRest<T(!new)>(d: Domain<T>, x: T, p: T)
    requires IsEuclidean(d) && d.Add(x, p) == d.one
    ensures d.Subtract(x, d.one) == d.Subtract(d.Zero(), p)
  {
    AddZero(d, x);
    AddZero(d, d.Zero());
    SubtractSums(d, x, d.Zero(), x, p);
    assert InverseAt(d.additive, x);
    AddZero(d, d.Subtract(d.Zero(), p));
  }

  lemma ExactQuotient<T(!new)>(d: Domain<T>, v: T, g: T, w: T)
    requires IsEuclidean(d) && d.mul(g, w) == d.one && g != d.Zero()
    ensures d.quot(v, g) == d.mul(w, v)
  {
    var q := d.quot(v, g);
    assert InvertsAt(d, g, w) && UnitOfRing(d, g);
    UnitDivides(d, g, v);
    RemainderZero(d, v, g);
    assert DivisionAt(d, v, g);
    AddZero(d, d.mul(q, g));
    assert MulAssocAt(d, q, g, w) && OneAt(d, q) && MulCommuteAt(d, v, w);
  }

  lemma ScaledCombination<T(!new)>(d: Domain<T>, m: T, a: T, g: T, v: T, u: T, w: T)
    requires IsEuclidean(d) && Combines(d, g, v, a, u, m) && d.mul(w, g) == d.one
    ensures d.Add(d.mul(d.mul(w, v), a), d.mul(d.mul(w, u), m)) == d.one
  {
    MulCombination(d, a, m, v, u, w);
    assert MulCommuteAt(d, v, w) && MulCommuteAt(d, u, w);
  }

  /** Division leaves what is smaller than the divisor as it is. */
  ghost predicate KeepsSmaller<T(!new)>(d: Domain<T>) { forall x, y :: d.norm(x) < d.norm(y) ==> d.rem(x, y) == x }

  /** DivideByZero is an exception. */
  datatype Result<T> = DivideByZero | Value(value: T)

  /** Whether the remainders from g0 and g1 on meet a multiple of m before they meet zero. */
  ghost predicate MeetsMultiple<T(!new)>(d: Domain<T>, m: T, g0: T, g1: T)
    requires IsEuclidean(d)
    decreases d.norm(g1)
  {
    if g1 == d.Zero() then false else
      assert DivisionAt(d, g0, g1);
      Divides(d, m, g1) || MeetsMultiple(d, m, g1, d.rem(g0, g1))
  }

  /** What the two live slots and the norms say as long as the loop runs. */
  ghost predicate Running<T(!new)>(d: Domain<T>, m: T, a: T, g0: T, v0: T, g1: T) {
    if g0 == m && g1 == a && v0 == d.Zero() then true
    else !Divides(d, m, a) && d.norm(g1) < d.norm(g0) <= d.norm(a)
         && (KeepsSmaller(d) && d.norm(m) < d.norm(a) ==> g1 == m)
  }

  /** The result is an inverse exactly where there is one, or else zero. */
  ghost predicate Inverts<T(!new)>(d: Domain<T>, m: T, a: T, b: T) {
    && (IsInverse(d, m, a, b) <==> Coprime(d, a, m))
    && (!IsInverse(d, m, a, b) ==> b == d.Zero())
  }

  /** The same, except that an a larger than m may give zero instead: it does when a remainder is a multiple of m
      other than zero. Where division leaves smaller elements alone, that is always. */
  ghost predicate InvertsReduced<T(!new)>(d: Domain<T>, m: T, a: T, b: T)
    requires IsEuclidean(d)
  {
    && (!IsInverse(d, m, a, b) ==> b == d.Zero())
    && (IsInverse(d, m, a, b) <==> Coprime(d, a, m) && (!MeetsMultiple(d, m, m, a) || d.isUnit(m)))
    && (d.norm(a) <= d.norm(m) ==> (IsInverse(d, m, a, b) <==> Coprime(d, a, m)))
    && (KeepsSmaller(d) ==>
          (IsInverse(d, m, a, b) <==> Coprime(d, a, m) && (d.norm(a) <= d.norm(m) || d.isUnit(m))))
  }

  lemma KeepRunning<T(!new)>(d: Domain<T>, m: T, a: T, g0: T, v0: T, g1: T, v: T)
    requires IsEuclidean(d) && m != d.Zero() && Running(d, m, a, g0, v0, g1) && !Divides(d, m, g1) && g1 != d.Zero()
    ensures Running(d, m, a, g1, v, d.rem(g0, g1))
  {
    assert DivisionAt(d, g0, g1);
    DividesSelf(d, m);
    hide Divides, IsEuclidean;
  }

  /** What is returned when g0 is in the slot before the last. */
  function Answer<T>(d: Domain<T>, g0: T, v0: T): T { if d.isUnit(g0) then d.quot(v0, g0) else d.Zero() }

  /** The loop has stopped because g1 is zero. */
  lemma StoppedAtZero<T(!new)>(d: Domain<T>, m: T, a: T, g0: T, v0: T, u0: T)
    requires IsEuclidean(d) && Combines(d, g0, v0, a, u0, m) && DivisorsPass(d, g0, d.Zero(), a, m)
    ensures Inverts(d, m, a, Answer(d, g0, v0))
  {
    hide IsEuclidean, Divides, DivisorsPass, Combines, IsInverse, Coprime;
    var b := Answer(d, g0, v0);
    if d.isUnit(g0) {
      if g0 == d.Zero() { ZeroAsUnit(d, m, a, b); } else { UnitGivesInverse(d, m, a, g0, v0, u0); }
    }
    if IsInverse(d, m, a, b) { InverseMeansCoprime(d, m, a, b); }
    LastDivides(d, g0, a, m);
    if Coprime(d, a, m) { CommonDivisor(d, a, m, g0); }
  }

  /** The loop has stopped because m divides g1. */
  lemma Stopped<T(!new)>(d: Domain<T>, m: T, a: T, g0: T, v0: T, u0: T, g1: T)
    requires IsEuclidean(d) && m != d.Zero() && Running(d, m, a, g0, v0, g1) && Divides(d, m, g1) && g0 != d.Zero()
    requires Combines(d, g0, v0, a, u0, m) && DivisorsPass(d, g0, g1, a, m)
    requires MeetsMultiple(d, m, m, a) == MeetsMultiple(d, m, g0, g1)
    ensures InvertsReduced(d, m, a, Answer(d, g0, v0))
  {
    assert MeetsMultiple(d, m, g0, g1) == (g1 != d.Zero());
    hide IsEuclidean, Divides, DivisorsPass, Combines, IsInverse, Coprime, MeetsMultiple;
    var b := Answer(d, g0, v0);
    if d.isUnit(g0) { UnitGivesInverse(d, m, a, g0, v0, u0); }
    if IsInverse(d, m, a, b) { InverseMeansCoprime(d, m, a, b); }
    ZeroInverts(d, m, a);
    if g0 == m && g1 == a && v0 == d.Zero() {
      DividesSelf(d, m);
      if d.isUnit(m) { UnitIsCoprime(d, m, a); }
      if Coprime(d, a, m) { CommonDivisor(d, a, m, m); }
    } else {
      if d.isUnit(m) { UnitDivides(d, m, a); }
      if g1 == d.Zero() {
        StoppedAtZero(d, m, a, g0, v0, u0);
      } else {
        NoSmallerMultiple(d, m, g1);
        if d.isUnit(g0) { UnitDivides(d, g0, g1); }
      }
    }
  }

  lemma CommonDivisor<T(!new)>(d: Domain<T>, a: T, m: T, c: T)
    requires Coprime(d, a, m) && Divides(d, c, a) && Divides(d, c, m)
    ensures d.isUnit(c)
  {}

  lemma UnitIsCoprime<T(!new)>(d: Domain<T>, m: T, a: T)
    requires IsEuclidean(d) && d.isUnit(m)
    ensures Coprime(d, a, m)
  {
    hide Divides;
    forall c | Divides(d, c, a) && Divides(d, c, m) ensures d.isUnit(c) { DivisorOfUnit(d, c, m); }
  }

  /** The virtual Equal: of QuotientRing itself, or the plain one of GF2NP. */
  datatype Comparison = Modulo | Plain

  /** MultiplicativeInverse of QuotientRing. Slots are compared with Equal; compared modulo m, that divides by m. */
  method MultiplicativeInverse<T(==,!new)>(d: Domain<T>, m: T, a: T, equal: Comparison) returns (r: Result<T>)
    requires IsEuclidean(d)
    ensures r.DivideByZero? <==> equal.Modulo? && m == d.Zero()
    ensures r.Value? && equal.Modulo? ==> InvertsReduced(d, m, a, r.value)
    ensures r.Value? && equal.Plain? ==> Inverts(d, m, a, r.value)
  {
    if equal.Modulo? && m == d.Zero() { return DivideByZero; }
    var g, v := new T[3] [m, a, d.Zero()], new T[3] [d.Zero(), d.one, d.Zero()];
    var i0, i1, i2 := 0, 1, 2;
    ghost var u0, u1 := d.one, d.Zero();
    CombinesStart(d, a, m);
    assert DivisorsPass(d, m, a, a, m) && Running(d, m, a, m, d.Zero(), a);
    hide IsEuclidean, DivisorsPass, Combines, Running, Divides, Inverts, InvertsReduced, MeetsMultiple, Equal;
    while !Equal(d, m, g[i1], d.Zero(), equal)
      invariant Rotation(i0, i1, i2)
      invariant Combines(d, g[i0], v[i0], a, u0, m) && Combines(d, g[i1], v[i1], a, u1, m)
      invariant DivisorsPass(d, g[i0], g[i1], a, m)
      invariant equal.Modulo? ==> g[i0] != d.Zero() && Running(d, m, a, g[i0], v[i0], g[i1])
      invariant equal.Modulo? ==> MeetsMultiple(d, m, m, a) == MeetsMultiple(d, m, g[i0], g[i1])
      decreases d.norm(g[i1])
    {
      EqualToZero(d, m, g[i1], equal);
      Round(d, a, m, g[i0], v[i0], u0, g[i1], v[i1], u1);
      if equal.Modulo? {
        KeepRunning(d, m, a, g[i0], v[i0], g[i1], v[i1]);
        MeetsLater(d, m, g[i0], g[i1]);
      }
      var y := d.quot(g[i0], g[i1]);
      g[i2] := d.rem(g[i0], g[i1]);
      v[i2] := d.Subtract(v[i0], d.mul(v[i1], y));
      u0, u1 := u1, d.Subtract(u0, d.mul(u1, y));
      i0, i1, i2 := i1, i2, i0;
    }
    EqualToZero(d, m, g[i1], equal);
    if equal.Modulo? {
      Stopped(d, m, a, g[i0], v[i0], u0, g[i1]);
    } else {
      StoppedAtZero(d, m, a, g[i0], v[i0], u0);
    }
    r := Value(Answer(d, g[i0], v[i0]));
  }

  lemma MeetsLater<T(!new)>(d: Domain<T>, m: T, g0: T, g1: T)
    requires IsEuclidean(d) && g1 != d.Zero() && !Divides(d, m, g1)
    ensures MeetsMultiple(d, m, g0, g1) == MeetsMultiple(d, m, g1, d.rem(g0, g1))
  {}

  function Equal<T(==)>(d: Domain<T>, m: T, x: T, y: T, equal: Comparison): bool {
    match equal
    case Modulo => d.rem(d.Subtract(x, y), m) == d.Zero()
    case Plain => x == y
  }

  lemma EqualToZero<T(!new)>(d: Domain<T>, m: T, x: T, equal: Comparison)
    requires IsEuclidean(d) && (equal.Modulo? ==> m != d.Zero())
    ensures Equal(d, m, x, d.Zero(), equal) <==> if equal.Modulo? then Divides(d, m, x) else x == d.Zero()
    ensures x == d.Zero() ==> Divides(d, m, x)
  {
    SubtractZero(d, x);
    if equal.Modulo? { RemainderZero(d, x, m); }
    DividesSelf(d, m);
  }

  lemma SubtractZero<T(!new)>(d: Domain<T>, x: T)
    requires IsEuclidean(d)
    ensures d.Subtract(x, d.Zero()) == x
  {
    Cancel(d.additive, x, d.Zero());
    assert UnitAt(d.additive, x);
    AddZero(d, x);
    AddZero(d, d.additive.neg(d.Zero()));
    assert InverseAt(d.additive, d.Zero());
  }
}
