/** Groups as values: the operations AbstractGroup<T> leaves to its subclasses, their laws, and
    multiples. */
module Groups {
  datatype Group<!T> = Group(zero: T, add: (T, T) -> T, neg: T -> T)
  {
    function Double(x: T): T { add(x, x) }
  }

  ghost predicate AssocAt<T>(g: Group<T>, x: T, y: T, z: T) { g.add(g.add(x, y), z) == g.add(x, g.add(y, z)) }

  ghost predicate CommuteAt<T>(g: Group<T>, x: T, y: T) { g.add(x, y) == g.add(y, x) }

  ghost predicate UnitAt<T>(g: Group<T>, x: T) { g.add(x, g.zero) == x }

  ghost predicate InverseAt<T>(g: Group<T>, x: T) { g.add(x, g.neg(x)) == g.zero }

  // The laws are quantified over named predicates, so that a law is used only where a proof names it.
  ghost predicate IsAbelian<T(!new)>(g: Group<T>) {
    && (forall x, y, z :: AssocAt(g, x, y, z))
    && (forall x, y :: CommuteAt(g, x, y))
    && (forall x :: UnitAt(g, x))
    && (forall x :: InverseAt(g, x))
  }

  /** The integer multiple n x. */
  ghost function Mul<T>(g: Group<T>, n: int, x: T): T
    decreases if n < 0 then -n else n
  {
    if n == 0 then g.zero
    else if n > 0 then g.add(Mul(g, n - 1, x), x)
    else g.add(Mul(g, n + 1, x), g.neg(x))
  }

  lemma Cancel<T(!new)>(g: Group<T>, a: T, x: T)
    requires IsAbelian(g)
    ensures g.add(g.add(a, g.neg(x)), x) == a
    ensures g.add(g.add(a, x), g.neg(x)) == a
  {
    assert AssocAt(g, a, g.neg(x), x) && CommuteAt(g, g.neg(x), x) && InverseAt(g, x) && UnitAt(g, a);
    assert AssocAt(g, a, x, g.neg(x));
  }

  lemma MulSucc<T(!new)>(g: Group<T>, n: int, x: T)
    requires IsAbelian(g)
    ensures Mul(g, n + 1, x) == g.add(Mul(g, n, x), x)
  {
    if n < 0 { Cancel(g, Mul(g, n + 1, x), x); }
  }

  lemma {:induction false} MulAdd<T(!new)>(g: Group<T>, a: int, b: int, x: T)
    requires IsAbelian(g)
    ensures Mul(g, a + b, x) == g.add(Mul(g, a, x), Mul(g, b, x))
    decreases if b < 0 then -b else b
  {
    var A, B := Mul(g, a, x), Mul(g, b, x);
    if b == 0 {
      assert UnitAt(g, A);
    } else if b > 0 {
      MulAdd(g, a, b - 1, x);
      MulSucc(g, a + b - 1, x);
      assert AssocAt(g, A, Mul(g, b - 1, x), x);
    } else {
      MulAdd(g, a, b + 1, x);
      MulSucc(g, a + b, x);
      assert AssocAt(g, A, Mul(g, b + 1, x), g.neg(x));
      Cancel(g, Mul(g, a + b, x), x);
    }
  }

  lemma MulOne<T(!new)>(g: Group<T>, x: T)
    requires IsAbelian(g)
    ensures Mul(g, 1, x) == x
  {
    assert Mul(g, 1, x) == g.add(Mul(g, 0, x), x);
    assert CommuteAt(g, g.zero, x) && UnitAt(g, x);
  }

  lemma MulDouble<T(!new)>(g: Group<T>, a: int, x: T)
    requires IsAbelian(g)
    ensures g.Double(Mul(g, a, x)) == Mul(g, 2 * a, x)
  {
    MulAdd(g, a, a, x);
  }

  lemma InverseUnique<T(!new)>(g: Group<T>, a: T, b: T)
    requires IsAbelian(g)
    requires g.add(a, b) == g.zero
    ensures b == g.neg(a)
  {
    Cancel(g, b, a);
    assert CommuteAt(g, a, b);
    assert CommuteAt(g, g.zero, g.neg(a)) && UnitAt(g, g.neg(a));
  }

  lemma MulNeg<T(!new)>(g: Group<T>, a: int, x: T)
    requires IsAbelian(g)
    ensures g.neg(Mul(g, a, x)) == Mul(g, -a, x)
  {
    MulAdd(g, a, -a, x);
    InverseUnique(g, Mul(g, a, x), Mul(g, -a, x));
  }

  lemma Interchange<T(!new)>(g: Group<T>, a: T, b: T, c: T, d: T)
    requires IsAbelian(g)
    ensures g.add(g.add(a, b), g.add(c, d)) == g.add(g.add(a, c), g.add(b, d))
  {
    assert AssocAt(g, a, b, g.add(c, d)) && AssocAt(g, b, c, d) && CommuteAt(g, b, c);
    assert AssocAt(g, c, b, d) && AssocAt(g, a, c, g.add(b, d));
  }

  lemma {:induction false} MulDistribute<T(!new)>(g: Group<T>, n: nat, x: T, y: T)
    requires IsAbelian(g)
    ensures Mul(g, n, g.add(x, y)) == g.add(Mul(g, n, x), Mul(g, n, y))
  {
    if n == 0 {
      assert UnitAt(g, g.zero);
    } else {
      MulDistribute(g, n - 1, x, y);
      Interchange(g, Mul(g, n - 1, x), Mul(g, n - 1, y), x, y);
    }
  }

  lemma {:induction false} MulMul<T(!new)>(g: Group<T>, a: nat, b: nat, x: T)
    requires IsAbelian(g)
    ensures Mul(g, a, Mul(g, b, x)) == Mul(g, a * b, x)
  {
    if a > 0 {
      MulMul(g, a - 1, b, x);
      MulAdd(g, (a - 1) * b, b, x);
      assert (a - 1) * b + b == a * b;
    }
  }

  /** The combination a x + b y. */
  ghost function Lin<T>(g: Group<T>, a: int, x: T, b: int, y: T): T {
    g.add(Mul(g, a, x), Mul(g, b, y))
  }

  lemma LinAdd<T(!new)>(g: Group<T>, a: int, b: int, c: int, d: int, x: T, y: T)
    requires IsAbelian(g)
    ensures g.add(Lin(g, a, x, b, y), Lin(g, c, x, d, y)) == Lin(g, a + c, x, b + d, y)
  {
    Interchange(g, Mul(g, a, x), Mul(g, b, y), Mul(g, c, x), Mul(g, d, y));
    MulAdd(g, a, c, x);
    MulAdd(g, b, d, y);
  }

  lemma LinBasis<T(!new)>(g: Group<T>, x: T, y: T)
    requires IsAbelian(g)
    ensures Lin(g, 1, x, 0, y) == x && Lin(g, 0, x, 1, y) == y
  {
    MulOne(g, x);
    MulOne(g, y);
    assert UnitAt(g, x) && UnitAt(g, y) && CommuteAt(g, g.zero, y);
  }
}
