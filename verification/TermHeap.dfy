/** The C++ heap operations on an array of terms ordered by exponent, the largest in
    front. */
module TermHeap {
  datatype Term<T> = Term(base: T, exponent: nat)

  function Parent(i: nat): (p: nat)
    ensures i > 0 ==> p < i && (i == 2 * p + 1 || i == 2 * p + 2)
  {
    if i == 0 then 0 else (i - 1) / 2
  }

  ghost predicate Above<T>(s: seq<Term<T>>, p: nat, i: nat) {
    p < |s| && i < |s| && s[i].exponent <= s[p].exponent
  }

  /** Of the first n terms, those below a term from or later are no larger than their parent. */
  ghost predicate HeapFrom<T>(s: seq<Term<T>>, n: nat, from: nat) {
    n <= |s| && forall i: nat {:trigger Parent(i)} | 1 <= i < n && Parent(i) >= from :: Above(s, Parent(i), i)
  }

  ghost predicate IsHeap<T>(s: seq<Term<T>>, n: nat) { HeapFrom(s, n, 0) }

  /** The heap order holds except that the term in hole may be too small; its parent bounds its children. */
  ghost predicate SinkingAt<T>(s: seq<Term<T>>, n: nat, from: nat, hole: nat) {
    n <= |s| && from <= hole && forall i: nat {:trigger Parent(i)} | 1 <= i < n && Parent(i) >= from ::
      if Parent(i) != hole then Above(s, Parent(i), i)
      else hole > from && Parent(hole) >= from ==> Above(s, Parent(hole), i)
  }

  /** The heap order holds except that the term in hole may be too large; its parent bounds its children. */
  ghost predicate RisingAt<T>(s: seq<Term<T>>, n: nat, hole: nat) {
    n <= |s| && hole < n && forall i: nat {:trigger Parent(i)} | 1 <= i < n ::
      (i != hole ==> Above(s, Parent(i), i)) && (Parent(i) == hole && hole >= 1 ==> Above(s, Parent(hole), i))
  }

  function Swapped<T>(s: seq<Term<T>>, i: nat, j: nat): seq<Term<T>>
    requires i < |s| && j < |s|
  {
    s[i := s[j]][j := s[i]]
  }

  ghost predicate Reordered<T>(s: seq<Term<T>>, t: seq<Term<T>>) { |s| == |t| && multiset(s) == multiset(t) }

  lemma SwapReorders<T>(s: seq<Term<T>>, i: nat, j: nat)
    requires i < |s| && j < |s|
    ensures Reordered(s, Swapped(s, i, j))
  {}

  lemma {:induction false} RootIsLargest<T>(s: seq<Term<T>>, n: nat, i: nat)
    requires IsHeap(s, n) && i < n
    ensures s[i].exponent <= s[0].exponent
  {
    if i > 0 {
      RootIsLargest(s, n, Parent(i));
      assert Above(s, Parent(i), i);
    }
  }

  lemma Sink<T>(s: seq<Term<T>>, n: nat, from: nat, hole: nat, child: nat)
    requires SinkingAt(s, n, from, hole) && child < n && child > 0 && Parent(child) == hole
    requires s[hole].exponent <= s[child].exponent
    requires forall i: nat {:trigger Parent(i)} | 1 <= i < n && Parent(i) == hole :: Above(s, child, i)
    ensures SinkingAt(Swapped(s, hole, child), n, from, child)
  {
    var t := Swapped(s, hole, child);
    forall i: nat {:trigger Parent(i)} | 1 <= i < n && Parent(i) >= from
      ensures if Parent(i) != child then Above(t, Parent(i), i)
              else child > from && Parent(child) >= from ==> Above(t, Parent(child), i)
    {
      if Parent(i) == hole {
        assert Above(s, child, i);
      } else if i == hole {
        assert Above(s, Parent(hole), child);
      } else {
        assert Above(s, Parent(i), i);
      }
    }
  }

  lemma Rise<T>(s: seq<Term<T>>, n: nat, hole: nat)
    requires RisingAt(s, n, hole) && hole > 0 && s[Parent(hole)].exponent <= s[hole].exponent
    ensures RisingAt(Swapped(s, hole, Parent(hole)), n, Parent(hole))
  {
    var p := Parent(hole);
    var t := Swapped(s, hole, p);
    forall i: nat {:trigger Parent(i)} | 1 <= i < n
      ensures (i != p ==> Above(t, Parent(i), i)) && (Parent(i) == p && p >= 1 ==> Above(t, Parent(p), i))
    {
      if i != hole { assert Above(s, Parent(i), i); }
      if p >= 1 { assert Above(s, Parent(p), p); }
      if Parent(i) == hole { assert Above(s, p, i); }
    }
  }

  method SwapTerms<T>(a: array<Term<T>>, i: nat, j: nat)
    requires i < a.Length && j < a.Length
    modifies a
    ensures a[..] == Swapped(old(a[..]), i, j)
  {
    a[i], a[j] := a[j], a[i];
  }

  /** Moves the term at top down until it is no smaller than its children. */
  method SiftDown<T>(a: array<Term<T>>, top: nat, n: nat, ghost from: nat)
    requires SinkingAt(a[..], n, from, top)
    modifies a
    ensures HeapFrom(a[..], n, from)
    ensures a[n..] == old(a[n..])
    ensures Reordered(old(a[..]), a[..])
  {
    var hole := top;
    assert n <= a.Length && Reordered(a[..], a[..]);
    hide SinkingAt, HeapFrom, Reordered;
    while 2 * hole + 1 < n
      invariant SinkingAt(a[..], n, from, hole)
      invariant a[n..] == old(a[n..])
      invariant Reordered(old(a[..]), a[..])
      decreases n - hole
    {
      var child := 2 * hole + 1;
      if child + 1 < n && a[child].exponent < a[child + 1].exponent { child := child + 1; }
      if a[child].exponent < a[hole].exponent {
        Settled(a[..], n, from, hole, child);
        return;
      }
      Sunk(old(a[..]), a[..], n, from, hole, child);
      SwapTerms(a, hole, child);
      hole := child;
    }
    NoChildren(a[..], n, from, hole);
  }

  /** child is the larger child of hole. */
  ghost predicate IsLargerChild<T>(s: seq<Term<T>>, n: nat, hole: nat, child: nat) {
    && 2 * hole + 1 <= child <= 2 * hole + 2 && child < n <= |s|
    && s[2 * hole + 1].exponent <= s[child].exponent
    && (2 * hole + 2 < n ==> s[2 * hole + 2].exponent <= s[child].exponent)
  }

  lemma Settled<T>(s: seq<Term<T>>, n: nat, from: nat, hole: nat, child: nat)
    requires SinkingAt(s, n, from, hole) && IsLargerChild(s, n, hole, child) && s[child].exponent <= s[hole].exponent
    ensures HeapFrom(s, n, from)
  {}

  lemma NoChildren<T>(s: seq<Term<T>>, n: nat, from: nat, hole: nat)
    requires SinkingAt(s, n, from, hole) && 2 * hole + 1 >= n
    ensures HeapFrom(s, n, from)
  {}

  lemma Sunk<T>(before: seq<Term<T>>, s: seq<Term<T>>, n: nat, from: nat, hole: nat, child: nat)
    requires SinkingAt(s, n, from, hole) && IsLargerChild(s, n, hole, child) && s[hole].exponent <= s[child].exponent
    requires Reordered(before, s)
    ensures SinkingAt(Swapped(s, hole, child), n, from, child) && Reordered(before, Swapped(s, hole, child))
    ensures Swapped(s, hole, child)[n..] == s[n..]
  {
    assert Parent(child) == hole;
    SwapReorders(s, hole, child);
    Sink(s, n, from, hole, child);
  }

  /** std::make_heap */
  method MakeHeap<T>(a: array<Term<T>>, n: nat)
    requires n <= a.Length
    modifies a
    ensures IsHeap(a[..], n)
    ensures Reordered(old(a[..]), a[..]) && a[n..] == old(a[n..])
  {
    for i := n / 2 downto 0
      invariant HeapFrom(a[..], n, i)
      invariant Reordered(old(a[..]), a[..]) && a[n..] == old(a[n..])
    {
      SiftDown(a, i, n, i);
    }
  }

  /** std::push_heap: the term at n - 1 joins the heap before it. */
  method PushHeap<T>(a: array<Term<T>>, n: nat)
    requires 0 < n <= a.Length && IsHeap(a[..], n - 1)
    modifies a
    ensures IsHeap(a[..], n)
    ensures Reordered(old(a[..]), a[..]) && a[n..] == old(a[n..])
  {
    var hole: nat := n - 1;
    while hole > 0 && a[Parent(hole)].exponent < a[hole].exponent
      invariant RisingAt(a[..], n, hole)
      invariant Reordered(old(a[..]), a[..]) && a[n..] == old(a[n..])
    {
      ghost var s := a[..];
      Rise(s, n, hole);
      SwapReorders(s, hole, Parent(hole));
      SwapTerms(a, hole, Parent(hole));
      hole := Parent(hole);
    }
  }

  /** std::pop_heap: the largest term goes to n - 1 and the rest are a heap again. */
  method PopHeap<T>(a: array<Term<T>>, n: nat)
    requires 0 < n <= a.Length && IsHeap(a[..], n)
    modifies a
    ensures IsHeap(a[..], n - 1)
    ensures a[n - 1] == old(a[0])
    ensures Reordered(old(a[..]), a[..]) && a[n..] == old(a[n..])
  {
    ghost var s := a[..];
    SwapReorders(s, 0, n - 1);
    SwapTerms(a, 0, n - 1);
    ghost var t := a[..];
    forall i: nat {:trigger Parent(i)} | 1 <= i < n - 1 && Parent(i) != 0 ensures Above(t, Parent(i), i) {
      assert Above(s, Parent(i), i);
    }
    SiftDown(a, 0, n - 1, 0);
    assert a[n - 1] == a[n - 1..][0] == t[n - 1..][0];
    assert a[n..] == a[n - 1..][1..] && t[n..] == t[n - 1..][1..];
  }
}
