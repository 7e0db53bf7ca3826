/** Many bases and exponents (Bos-Coster): dividing the largest exponent by the next until a single one is left. */
module GeneralCascade {
  import opened Groups
  import opened TermHeap
  import opened CascadeMultiplication
  import opened SimultaneousMultiplication

  /** The sum of exponent times base. */
  ghost function Total<T>(g: Group<T>, s: seq<Term<T>>): T {
    if s == [] then g.zero else g.add(Mul(g, s[0].exponent, s[0].base), Total(g, s[1..]))
  }

  ghost function ExponentSum<T>(s: seq<Term<T>>): nat {
    if s == [] then 0 else s[0].exponent + ExponentSum(s[1..])
  }

  ghost function Removed<T>(s: seq<Term<T>>, i: nat): seq<Term<T>>
    requires i < |s|
  {
    s[..i] + s[i + 1..]
  }

  lemma {:induction false} TotalRemoved<T(!new)>(g: Group<T>, s: seq<Term<T>>, i: nat)
    requires IsAbelian(g) && i < |s|
    ensures Total(g, s) == g.add(Mul(g, s[i].exponent, s[i].base), Total(g, Removed(s, i)))
    ensures ExponentSum(s) == s[i].exponent + ExponentSum(Removed(s, i))
  {
    if i == 0 {
      assert Removed(s, 0) == s[1..];
    } else {
      TotalRemoved(g, s[1..], i - 1);
      assert Removed(s, i) == [s[0]] + Removed(s[1..], i - 1);
      var x, y, z := Mul(g, s[0].exponent, s[0].base), Mul(g, s[i].exponent, s[i].base),
        Total(g, Removed(s[1..], i - 1));
      assert AssocAt(g, x, y, z) && AssocAt(g, y, x, z) && CommuteAt(g, x, y);
    }
  }

  lemma TotalCons<T(!new)>(g: Group<T>, s: seq<Term<T>>)
    requires s != []
    ensures Total(g, s) == g.add(Mul(g, s[0].exponent, s[0].base), Total(g, s[1..]))
    ensures ExponentSum(s) == s[0].exponent + ExponentSum(s[1..])
  {}

  lemma Find<T(!new)>(s: seq<Term<T>>, t: seq<Term<T>>) returns (i: nat)
    requires Reordered(s, t) && s != []
    ensures i < |t| && t[i] == s[0] && Reordered(s[1..], Removed(t, i))
  {
    assert s[0] in multiset(s);
    i :| 0 <= i < |t| && t[i] == s[0];
    WithoutOne(s, 0);
    WithoutOne(t, i);
    assert Removed(s, 0) == s[1..];
  }

  lemma WithoutOne<T>(s: seq<Term<T>>, i: nat)
    requires i < |s|
    ensures multiset(Removed(s, i)) == multiset(s) - multiset{s[i]} && |Removed(s, i)| == |s| - 1
  {
    assert s == s[..i] + [s[i]] + s[i + 1..];
  }

  lemma {:induction false} TotalReordered<T(!new)>(g: Group<T>, s: seq<Term<T>>, t: seq<Term<T>>)
    requires IsAbelian(g) && Reordered(s, t)
    ensures Total(g, s) == Total(g, t) && ExponentSum(s) == ExponentSum(t)
    decreases |s|
  {
    if s != [] {
      var i := Find(s, t);
      hide Reordered, Total, Removed, IsAbelian, ExponentSum;
      TotalReordered(g, s[1..], Removed(t, i));
      TotalRemoved(g, t, i);
      TotalCons(g, s);
    }
  }

  lemma {:induction false} TotalZero<T(!new)>(g: Group<T>, s: seq<Term<T>>)
    requires IsAbelian(g) && forall i :: 0 <= i < |s| ==> s[i].exponent == 0
    ensures Total(g, s) == g.zero
  {
    if s != [] {
      TotalZero(g, s[1..]);
      assert UnitAt(g, g.zero);
    }
  }

  /** e b + t c = e (b + q c) + r c when t = q e + r. */
  lemma MoveQuotient<T(!new)>(g: Group<T>, e: nat, b: T, t: nat, c: T, q: nat, r: nat)
    requires IsAbelian(g) && t == q * e + r
    ensures g.add(Mul(g, e, g.add(b, Mul(g, q, c))), Mul(g, r, c)) == g.add(Mul(g, e, b), Mul(g, t, c))
  {
    var p: nat := e * q;
    assert t == p + r;
    var x, y, z := Mul(g, e, b), Mul(g, p, c), Mul(g, r, c);
    assert AssocAt(g, x, y, z);
    hide IsAbelian, Mul;
    MulDistribute(g, e, b, Mul(g, q, c));
    MulMul(g, e, q, c);
    MulAdd(g, p, r, c);
  }

  /** One division leaves the sum alone and makes the exponents smaller. */
  lemma DivideStep<T(!new)>(g: Group<T>, s: seq<Term<T>>, q: nat, r: nat)
    requires IsAbelian(g) && |s| >= 2
    requires var first, last := s[0], s[|s| - 1];
      first.exponent > 0 && last.exponent == q * first.exponent + r && r < first.exponent
      && first.exponent <= last.exponent
    ensures var first, last := s[0], s[|s| - 1];
      var s' := s[|s| - 1 := Term(last.base, r)][0 := Term(g.add(first.base, Mul(g, q, last.base)), first.exponent)];
      Total(g, s') == Total(g, s) && ExponentSum(s') < ExponentSum(s)
  {
    var n := |s| - 1;
    var first, last := s[0], s[n];
    var s' := s[n := Term(last.base, r)][0 := Term(g.add(first.base, Mul(g, q, last.base)), first.exponent)];
    var middle := s[1..n];
    TotalRemoved(g, s[1..], n - 1);
    TotalRemoved(g, s'[1..], n - 1);
    assert Removed(s[1..], n - 1) == middle && Removed(s'[1..], n - 1) == middle;
    MoveQuotient(g, first.exponent, first.base, last.exponent, last.base, q, r);
    assert AssocAt(g, Mul(g, first.exponent, first.base), Mul(g, last.exponent, last.base), Total(g, middle));
    assert AssocAt(g, Mul(g, first.exponent, s'[0].base), Mul(g, r, last.base), Total(g, middle));
  }

  lemma OnlyLast<T(!new)>(g: Group<T>, s: seq<Term<T>>)
    requires IsAbelian(g) && |s| > 0 && forall i :: 0 <= i < |s| - 1 ==> s[i].exponent == 0
    ensures Total(g, s) == Mul(g, s[|s| - 1].exponent, s[|s| - 1].base)
  {
    TotalRemoved(g, s, |s| - 1);
    TotalZero(g, Removed(s, |s| - 1));
    assert UnitAt(g, Mul(g, s[|s| - 1].exponent, s[|s| - 1].base));
  }

  lemma OneOrTwo<T(!new)>(g: Group<T>, s: seq<Term<T>>)
    requires IsAbelian(g)
    ensures |s| == 1 ==> Total(g, s) == Mul(g, s[0].exponent, s[0].base)
    ensures |s| == 2 ==> Total(g, s) == Lin(g, s[0].exponent, s[0].base, s[1].exponent, s[1].base)
  {
    if |s| >= 1 { assert UnitAt(g, Mul(g, s[|s| - 1].exponent, s[|s| - 1].base)); }
    if |s| == 2 { OnlyLast(g, s[1..]); }
  }

  /** What one division leaves in the range, and the measure it lowers. */
  method Divide<T(!new)>(g: Group<T>, a: array<Term<T>>, inversionIsFast: bool)
    requires IsAbelian(g) && a.Length >= 2
    requires 0 < a[0].exponent <= a[a.Length - 1].exponent
    modifies a
    ensures Total(g, a[..]) == Total(g, old(a[..]))
    ensures ExponentSum(a[..]) < ExponentSum(old(a[..]))
    ensures a[1..a.Length - 1] == old(a[1..a.Length - 1]) && a[0].exponent == old(a[0].exponent)
  {
    var last := a.Length - 1;
    ghost var s := a[..];
    var t := a[last].exponent;
    var q, r := t / a[0].exponent, t % a[0].exponent;
    DivideStep(g, s, q, r);
    MulOne(g, a[last].base);
    hide IsAbelian, Mul, Total, ExponentSum;
    a[last] := Term(a[last].base, r);
    if q == 1 {
      a[0] := Term(g.add(a[0].base, a[last].base), a[0].exponent);
    } else {
      var m := ScalarMultiply(g, a[last].base, q, inversionIsFast);
      a[0] := Term(g.add(a[0].base, m), a[0].exponent);
    }
    assert a[..]
        == s[last := Term(s[last].base, r)][0 := Term(g.add(s[0].base, Mul(g, q, s[last].base)), s[0].exponent)];
  }

  lemma SameExponentsSameHeap<T>(s: seq<Term<T>>, t: seq<Term<T>>, n: nat)
    requires 0 < n < |s| == |t| && s[1..n] == t[1..n] && s[0].exponent == t[0].exponent
    requires IsHeap(s, n)
    ensures IsHeap(t, n)
  {
    forall i: nat {:trigger Parent(i)} | 1 <= i < n ensures Above(t, Parent(i), i) {
      assert Above(s, Parent(i), i) && s[i] == s[1..n][i - 1] == t[1..n][i - 1] == t[i];
      if Parent(i) > 0 { assert s[Parent(i)] == s[1..n][Parent(i) - 1] == t[1..n][Parent(i) - 1] == t[Parent(i)]; }
    }
  }

  lemma LargestIsOut<T>(s: seq<Term<T>>, t: seq<Term<T>>, n: nat)
    requires |s| == |t| == n > 1 && IsHeap(s, n) && t[n - 1] == s[0] && Reordered(s, t)
    ensures t[0].exponent <= t[n - 1].exponent
  {
    assert t[0] in multiset(t);
    assert t[0] in s;
    var i :| 0 <= i < |s| && s[i] == t[0];
    RootIsLargest(s, n, i);
  }

  lemma OthersGone<T(!new)>(g: Group<T>, s: seq<Term<T>>)
    requires IsAbelian(g) && |s| > 1 && IsHeap(s, |s| - 1) && s[0].exponent == 0
    ensures Total(g, s) == Mul(g, s[|s| - 1].exponent, s[|s| - 1].base)
  {
    forall i | 0 <= i < |s| - 1 ensures s[i].exponent == 0 {
      RootIsLargest(s, |s| - 1, i);
    }
    OnlyLast(g, s);
  }

  method GeneralCascadeMultiplication<T(!new)>(g: Group<T>, a: array<Term<T>>, inversionIsFast: bool, unset: T)
      returns (r: T)
    requires IsAbelian(g) && a.Length > 0
    modifies a
    ensures r == Total(g, old(a[..]))
  {
    var n := a.Length;
    ghost var all, s := a[..], a[..];
    OneOrTwo(g, all);
    hide IsAbelian, Total, ExponentSum, Mul, Lin, IsHeap, Reordered;
    if n == 1 {
      r := ScalarMultiply(g, a[0].base, a[0].exponent, inversionIsFast);
    } else if n == 2 {
      r := CascadeScalarMultiply(g, a[0].base, a[0].exponent, a[1].base, a[1].exponent, unset);
    } else {
      MakeHeap(a, n);
      TotalReordered(g, s, a[..]);
      s := a[..];
      PopHeap(a, n);
      TotalReordered(g, s, a[..]);
      LargestIsOut(s, a[..], n);
      while a[0].exponent != 0
        invariant IsHeap(a[..], n - 1) && a[0].exponent <= a[n - 1].exponent
        invariant Total(g, a[..]) == Total(g, all)
        decreases ExponentSum(a[..])
      {
        // the last exponent is the largest, the first the next largest
        s := a[..];
        Divide(g, a, inversionIsFast);
        SameExponentsSameHeap(s, a[..], n - 1);
        s := a[..];
        PushHeap(a, n);
        TotalReordered(g, s, a[..]);
        s := a[..];
        PopHeap(a, n);
        TotalReordered(g, s, a[..]);
        LargestIsOut(s, a[..], n);
      }
      OthersGone(g, a[..]);
      r := ScalarMultiply(g, a[n - 1].base, a[n - 1].exponent, inversionIsFast);
    }
  }
}
