/** One base times many exponents at once: a bucket for every odd digit, combined by running sums. */
module SimultaneousMultiplication {
  import opened Bits
  import opened Groups
  import opened SlidingWindow

  /** What buckets j, j + 1, ... stand for when bucket k holds c[k] times the base: the sum of (2k + 1) c[k]. */
  ghost function OddSum(c: seq<int>, j: nat): int
    requires j <= |c|
    decreases |c| - j
  {
    if j == |c| then 0 else (2 * j + 1) * c[j] + OddSum(c, j + 1)
  }

  ghost function SuffixSum(c: seq<int>, j: nat): int
    requires j <= |c|
    decreases |c| - j
  {
    if j == |c| then 0 else c[j] + SuffixSum(c, j + 1)
  }

  /** The sum of the suffix sums from j on. */
  ghost function RunningSum(c: seq<int>, j: nat): int
    requires j <= |c|
    decreases |c| - j
  {
    if j == |c| then 0 else SuffixSum(c, j) + RunningSum(c, j + 1)
  }

  /** Doubling the running sums above j and adding the suffix sum at j weighs every bucket by its odd digit. */
  lemma {:induction false} RunningSumIsOddSum(c: seq<int>, j: nat)
    requires j < |c|
    ensures 2 * RunningSum(c, j + 1) + (2 * j + 1) * SuffixSum(c, j) == OddSum(c, j)
    decreases |c| - j
  {
    if j + 1 < |c| {
      RunningSumIsOddSum(c, j + 1);
      Distribute(2 * j + 1, 2, SuffixSum(c, j + 1));
      assert (2 * j + 1) * SuffixSum(c, j) == (2 * j + 1) * c[j] + (2 * j + 1) * SuffixSum(c, j + 1);
    }
  }

  lemma {:induction false} OddSumUpdate(c: seq<int>, j: nat, k: nat, d: int)
    requires k <= |c| && j < |c|
    ensures OddSum(c[j := c[j] + d], k) == OddSum(c, k) + if k <= j then (2 * j + 1) * d else 0
    decreases |c| - k
  {
    if k < |c| {
      OddSumUpdate(c, j, k + 1, d);
      if k == j { assert (2 * j + 1) * (c[j] + d) == (2 * j + 1) * c[j] + (2 * j + 1) * d; }
    }
  }

  lemma {:induction false} OddSumZero(c: seq<int>, k: nat)
    requires k <= |c| && forall i :: 0 <= i < |c| ==> c[i] == 0
    ensures OddSum(c, k) == 0
    decreases |c| - k
  {
    if k < |c| { OddSumZero(c, k + 1); }
  }

  /** Bucket k holds c[k] times the base. */
  ghost predicate Holds<T(!new)>(g: Group<T>, base: T, buckets: seq<T>, c: seq<int>) {
    |buckets| == |c| && forall k :: 0 <= k < |c| ==> buckets[k] == Mul(g, c[k], base)
  }

  /** Collapses the buckets of one exponent into its result. */
  method CombineBuckets<T(!new)>(g: Group<T>, bucketsIn: seq<T>, ghost base: T, ghost c: seq<int>) returns (r: T)
    requires IsAbelian(g)
    requires |bucketsIn| > 0 && Holds(g, base, bucketsIn, c)
    ensures r == Mul(g, OddSum(c, 0), base)
  {
    var buckets := bucketsIn;
    var n := |buckets|;
    r := buckets[n - 1];
    SumsAtEnd(c);
    WeighedTotal(c);
    hide *;
    if n > 1 {
      var j := n - 2;
      while j >= 1
        invariant 0 <= j <= n - 2 && |buckets| == n
        invariant forall k :: 0 <= k <= j ==> buckets[k] == Mul(g, c[k], base)
        invariant buckets[j + 1] == Mul(g, SuffixSum(c, j + 1), base)
        invariant r == Mul(g, RunningSum(c, j + 1), base)
      {
        buckets, r := Accumulate(g, buckets, j, r, base, c);
        j := j - 1;
      }
      r := LastRound(g, buckets[0], buckets[1], r, base, c);
    }
  }

  method LastRound<T(!new)>(g: Group<T>, first: T, second: T, running: T, ghost base: T, ghost c: seq<int>)
      returns (r: T)
    requires IsAbelian(g) && |c| > 1
    requires first == Mul(g, c[0], base) && second == Mul(g, SuffixSum(c, 1), base)
    requires running == Mul(g, RunningSum(c, 1), base)
    ensures r == Mul(g, OddSum(c, 0), base)
  {
    hide *;
    SumsStep(c, 0);
    WeighedTotal(c);
    MulAdd(g, c[0], SuffixSum(c, 1), base);
    MulDouble(g, RunningSum(c, 1), base);
    MulAdd(g, 2 * RunningSum(c, 1), SuffixSum(c, 0), base);
    r := g.add(g.Double(running), g.add(first, second));
  }

  /** One round: the next bucket's suffix sum, and the running sum with it. */
  method Accumulate<T(!new)>(g: Group<T>, bucketsIn: seq<T>, j: nat, rIn: T, ghost base: T, ghost c: seq<int>)
      returns (buckets: seq<T>, r: T)
    requires IsAbelian(g) && j + 1 < |bucketsIn| == |c|
    requires bucketsIn[j] == Mul(g, c[j], base) && bucketsIn[j + 1] == Mul(g, SuffixSum(c, j + 1), base)
    requires rIn == Mul(g, RunningSum(c, j + 1), base)
    ensures buckets == bucketsIn[j := Mul(g, SuffixSum(c, j), base)] && r == Mul(g, RunningSum(c, j), base)
  {
    hide *;
    SumsStep(c, j);
    MulAdd(g, c[j], SuffixSum(c, j + 1), base);
    buckets := bucketsIn[j := g.add(bucketsIn[j], bucketsIn[j + 1])];
    MulAdd(g, RunningSum(c, j + 1), SuffixSum(c, j), base);
    r := g.add(rIn, buckets[j]);
  }

  lemma SumsAtEnd(c: seq<int>)
    requires |c| > 0
    ensures SuffixSum(c, |c| - 1) == c[|c| - 1] && RunningSum(c, |c| - 1) == c[|c| - 1]
  {
    assert SuffixSum(c, |c|) == 0 && RunningSum(c, |c|) == 0;
  }

  lemma SumsStep(c: seq<int>, j: nat)
    requires j < |c|
    ensures SuffixSum(c, j) == c[j] + SuffixSum(c, j + 1)
    ensures RunningSum(c, j) == RunningSum(c, j + 1) + SuffixSum(c, j)
  {}

  lemma WeighedTotal(c: seq<int>)
    requires |c| > 0
    ensures OddSum(c, 0) == 2 * RunningSum(c, 1) + SuffixSum(c, 0)
    ensures |c| == 1 ==> OddSum(c, 0) == c[0]
  {
    RunningSumIsOddSum(c, 0);
  }

  ghost function Largest(es: seq<nat>): (m: nat)
    ensures forall i :: 0 <= i < |es| ==> es[i] <= m
  {
    if es == [] then 0 else
      var m := Largest(es[..|es| - 1]);
      if es[|es| - 1] > m then es[|es| - 1] else m
  }

  /** Where one exponent stands: its windows still to come, weighed, and its buckets add up to it. */
  ghost predicate Accounted<T(!new)>(g: Group<T>, base: T, e: nat, s: WindowSlider, buckets: seq<T>, c: seq<int>,
                                     from: nat, limit: nat)
    reads s
  {
    && s.Valid() && !s.firstTime
    && |buckets| == Pow2(s.windowSize - 1)
    && Holds(g, base, buckets, c)
    && OddSum(c, 0) + Value(s.Pending()) == e
    && WellSpaced(s.Pending(), s.windowSize, s.fastNegate, from, limit)
  }

  lemma Advance<T(!new)>(g: Group<T>, base: T, e: nat, s: WindowSlider, buckets: seq<T>, c: seq<int>, from: nat,
                         limit: nat)
    requires Accounted(g, base, e, s, buckets, c, from, limit)
    ensures !s.finished ==> from <= s.windowBegin <= limit
    ensures s.finished || s.windowBegin > from ==> Accounted(g, base, e, s, buckets, c, from + 1, limit)
  {
    if !s.finished { assert s.Pending()[0].begin == s.windowBegin; }
  }

  lemma Finished<T(!new)>(g: Group<T>, base: T, e: nat, s: WindowSlider, buckets: seq<T>, c: seq<int>, from: nat,
                          limit: nat)
    requires Accounted(g, base, e, s, buckets, c, from, limit) && s.finished
    ensures |buckets| > 0 && Holds(g, base, buckets, c) && OddSum(c, 0) == e
  {}

  /** The first window, and empty buckets. */
  method Prepare<T(!new)>(g: Group<T>, base: T, e: nat, inversionIsFast: bool, ghost limit: nat)
      returns (s: WindowSlider, buckets: seq<T>, ghost c: seq<int>)
    requires IsAbelian(g) && e <= limit
    ensures fresh(s) && Accounted(g, base, e, s, buckets, c, 0, limit)
  {
    s := new WindowSlider(e, inversionIsFast, 0);
    s.FindNextWindow();
    RecodeValue(e, s.windowSize, inversionIsFast, 0);
    RecodeWellSpaced(e, s.windowSize, inversionIsFast, 0);
    buckets := seq(Pow2(s.windowSize - 1), _ => g.zero);
    c := seq(Pow2(s.windowSize - 1), _ => 0);
    EmptyBuckets(g, base, buckets, c);
    assert Pow2(0) == 1;
    hide OddSum, Mul, Pow2, WellSpaced, Value, Recode, IsAbelian, Holds;
  }

  lemma EmptyBuckets<T(!new)>(g: Group<T>, base: T, buckets: seq<T>, c: seq<int>)
    requires |buckets| == |c|
    requires (forall i :: 0 <= i < |c| ==> buckets[i] == g.zero) && forall i :: 0 <= i < |c| ==> c[i] == 0
    ensures Holds(g, base, buckets, c) && OddSum(c, 0) == 0
  {
    OddSumZero(c, 0);
  }

  /** Drops the power g = 2^position base into the bucket of the current window and looks for the next. */
  method UseWindow<T(!new)>(g: Group<T>, ghost base: T, ghost e: nat, s: WindowSlider, power: T, bucketsIn: seq<T>,
                            ghost cIn: seq<int>, ghost position: nat, ghost limit: nat)
      returns (buckets: seq<T>, ghost c: seq<int>)
    requires IsAbelian(g)
    requires Accounted(g, base, e, s, bucketsIn, cIn, position, limit) && !s.finished && s.windowBegin == position
    requires power == Mul(g, Pow2(position), base)
    modifies s
    ensures Accounted(g, base, e, s, buckets, c, position + 1, limit)
  {
    hide *;
    WindowTaken(g, base, e, s, bucketsIn, cIn, position, limit);
    var j := s.expWindow / 2;
    buckets := bucketsIn[j := g.add(bucketsIn[j], if s.negateNext then g.neg(power) else power)];
    c := cIn[j := cIn[j] + Signed(s.negateNext, Pow2(position))];
    s.FindNextWindow();
    AccountedAgain(g, base, e, s, buckets, c, position + 1, limit);
  }

  /** What the buckets and the windows behind the current one add up to, once its digit is in its bucket. */
  lemma WindowTaken<T(!new)>(g: Group<T>, base: T, e: nat, s: WindowSlider, buckets: seq<T>, c: seq<int>, position: nat,
                             limit: nat)
    requires IsAbelian(g)
    requires Accounted(g, base, e, s, buckets, c, position, limit) && !s.finished && s.windowBegin == position
    ensures s.Valid() && s.windowSize > 0 && s.expWindow / 2 < |buckets| == |c| == Pow2(s.windowSize - 1)
    ensures var j, power := s.expWindow / 2, Mul(g, Pow2(position), base);
      var c' := c[j := c[j] + Signed(s.negateNext, Pow2(position))];
      && Holds(g, base, buckets[j := g.add(buckets[j], if s.negateNext then g.neg(power) else power)], c')
      && OddSum(c', 0) + Value(s.Rest()) == e
    ensures WellSpaced(s.Rest(), s.windowSize, s.fastNegate, position + 1, limit)
  {
    var pending := s.Pending();
    assert s.Rest() == pending[1..];
    BucketIndex(s.expWindow, s.windowSize);
    PopWindow(pending, s.windowSize, s.fastNegate, position, limit);
    DigitWeight(s.expWindow, s.negateNext, Pow2(position));
    BucketStep(g, base, buckets, c, s.expWindow / 2, s.negateNext, position);
    hide OddSum, Mul, Pow2, WellSpaced, Value, Recode, IsAbelian, Holds;
  }

  lemma AccountedAgain<T(!new)>(g: Group<T>, base: T, e: nat, s: WindowSlider, buckets: seq<T>, c: seq<int>, from: nat,
                                limit: nat)
    requires s.Valid() && !s.firstTime && |buckets| == Pow2(s.windowSize - 1) && Holds(g, base, buckets, c)
    requires OddSum(c, 0) + Value(s.Pending()) == e && WellSpaced(s.Pending(), s.windowSize, s.fastNegate, from, limit)
    ensures Accounted(g, base, e, s, buckets, c, from, limit)
  {
    hide WellSpaced, Value, Holds, OddSum, Pow2;
  }

  function Signed(negative: bool, n: nat): int { if negative then -(n as int) else n }

  lemma BucketStep<T(!new)>(g: Group<T>, base: T, buckets: seq<T>, c: seq<int>, j: nat, negative: bool, position: nat)
    requires IsAbelian(g) && Holds(g, base, buckets, c) && j < |c|
    ensures var power := Mul(g, Pow2(position), base);
      var c' := c[j := c[j] + Signed(negative, Pow2(position))];
      && Holds(g, base, buckets[j := g.add(buckets[j], if negative then g.neg(power) else power)], c')
      && OddSum(c', 0) == OddSum(c, 0) + (2 * j + 1) * Signed(negative, Pow2(position))
  {
    MulNeg(g, Pow2(position), base);
    MulAdd(g, c[j], Signed(negative, Pow2(position)), base);
    OddSumUpdate(c, j, 0, Signed(negative, Pow2(position)));
  }

  lemma BucketIndex(expWindow: nat, windowSize: nat)
    requires windowSize > 0 && Odd(expWindow) && expWindow < Pow2(windowSize)
    ensures expWindow == 2 * (expWindow / 2) + 1 && expWindow / 2 < Pow2(windowSize - 1)
  {}

  lemma DigitWeight(expWindow: nat, negative: bool, weight: nat)
    requires expWindow == 2 * (expWindow / 2) + 1
    ensures Signed(negative, expWindow) * weight == (2 * (expWindow / 2) + 1) * Signed(negative, weight)
  {}

  lemma PopWindow(ws: seq<Window>, windowSize: nat, fastNegate: bool, from: nat, limit: nat)
    requires windowSize > 0 && ws != [] && ws[0].begin == from && WellSpaced(ws, windowSize, fastNegate, from, limit)
    ensures WellSpaced(ws[1..], windowSize, fastNegate, from + 1, limit)
    ensures Value(ws) == ws[0].digit * Pow2(from) + Value(ws[1..])
  {}

  method SimultaneousMultiply<T(!new)>(g: Group<T>, base: T, exps: seq<nat>, inversionIsFast: bool)
      returns (results: seq<T>)
    requires IsAbelian(g)
    ensures |results| == |exps|
    ensures forall k :: 0 <= k < |exps| ==> results[k] == Mul(g, exps[k], base)
  {
    hide Accounted, Holds, WindowSlider.Valid, WindowSlider.Pending, IsAbelian, Mul, OddSum;
    var n := |exps|;
    var sliders: seq<WindowSlider>, buckets: seq<seq<T>> := [], [];
    ghost var cs: seq<seq<int>> := [];
    ghost var limit := Largest(exps);
    for i := 0 to n
      invariant |sliders| == |buckets| == |cs| == i
      invariant forall k :: 0 <= k < i ==>
        fresh(sliders[k]) && Accounted(g, base, exps[k], sliders[k], buckets[k], cs[k], 0, limit)
      invariant forall j, k :: 0 <= j < k < i ==> sliders[j] != sliders[k]
    {
      ghost var before := sliders;
      var s, b, c := Prepare(g, base, exps[i], inversionIsFast, limit);
      sliders, buckets, cs := sliders + [s], buckets + [b], cs + [c];
    }

    var expBitPosition, power, notDone := 0, base, true;
    ghost var from := 0;
    assert Pow2(0) == 1;
    MulOne(g, base);
    while notDone
      invariant |sliders| == |buckets| == |cs| == n
      invariant forall k :: 0 <= k < n ==> fresh(sliders[k])
      invariant forall j, k :: 0 <= j < k < n ==> sliders[j] != sliders[k]
      invariant forall k :: 0 <= k < n ==> Accounted(g, base, exps[k], sliders[k], buckets[k], cs[k], from, limit)
      invariant power == Mul(g, Pow2(expBitPosition), base)
      invariant !notDone ==> forall k :: 0 <= k < n ==> sliders[k].finished
      invariant notDone ==> from == expBitPosition <= limit
      decreases notDone, limit as int - expBitPosition
    {
      notDone := false;
      for i := 0 to n
        invariant |sliders| == |buckets| == |cs| == n
        invariant forall k :: 0 <= k < n ==> fresh(sliders[k])
        invariant forall k :: i <= k < n ==>
          Accounted(g, base, exps[k], sliders[k], buckets[k], cs[k], expBitPosition, limit)
        invariant forall k :: 0 <= k < i ==>
          Accounted(g, base, exps[k], sliders[k], buckets[k], cs[k], expBitPosition + 1, limit)
        invariant !notDone ==> forall k :: 0 <= k < i ==> sliders[k].finished
        invariant notDone ==> expBitPosition < limit
      {
        Advance(g, base, exps[i], sliders[i], buckets[i], cs[i], expBitPosition, limit);
        if !sliders[i].finished && expBitPosition == sliders[i].windowBegin {
          var b, c := UseWindow(g, base, exps[i], sliders[i], power, buckets[i], cs[i], expBitPosition, limit);
          buckets, cs := buckets[i := b], cs[i := c];
          Advance(g, base, exps[i], sliders[i], buckets[i], cs[i], expBitPosition + 1, limit);
        }
        notDone := notDone || !sliders[i].finished;
      }
      from := from + 1;
      if notDone {
        MulDouble(g, Pow2(expBitPosition), base);
        power := g.Double(power);
        expBitPosition := expBitPosition + 1;
      }
    }

    forall k | 0 <= k < n
      ensures |buckets[k]| > 0 && Holds(g, base, buckets[k], cs[k]) && OddSum(cs[k], 0) == exps[k]
    {
      Finished(g, base, exps[k], sliders[k], buckets[k], cs[k], from, limit);
    }
    results := [];
    for i := 0 to n
      invariant |results| == i
      invariant forall k :: 0 <= k < i ==> results[k] == Mul(g, exps[k], base)
    {
      var r := CombineBuckets(g, buckets[i], base, cs[i]);
      results := results + [r];
    }
  }

  /** A single exponent. */
  method ScalarMultiply<T(!new)>(g: Group<T>, base: T, exponent: nat, inversionIsFast: bool) returns (r: T)
    requires IsAbelian(g)
    ensures r == Mul(g, exponent, base)
  {
    var results := SimultaneousMultiply(g, base, [exponent], inversionIsFast);
    r := results[0];
  }
}
