/** Sliding windows over an exponent, the struct WindowSlider. */
module SlidingWindow {
  import opened Bits
  import opened Groups

  /** A signed digit and the weight 2^begin it carries. */
  datatype Window = Window(begin: nat, digit: int)

  ghost function Value(ws: seq<Window>): int {
    if ws == [] then 0 else ws[0].digit * Pow2(ws[0].begin) + Value(ws[1..])
  }

  /** The windows of r * 2^pos: zeros are skipped, and an odd r gives up its low windowSize bits, read as a
      negative digit with a carry when negation is cheap and the bit above the window is set. */
  ghost function Recode(r: nat, windowSize: nat, fastNegate: bool, pos: nat): seq<Window>
    requires windowSize > 0
    decreases r
  {
    if r == 0 then []
    else if r % 2 == 0 then Recode(r / 2, windowSize, fastNegate, pos + 1)
    else
      HighIsSmaller(r, windowSize);
      Cons(Window(pos, Digit(r, windowSize, fastNegate)),
           Recode(Above(r, windowSize, fastNegate), windowSize, fastNegate, pos + windowSize))
  }

  ghost function Cons(w: Window, ws: seq<Window>): seq<Window> { [w] + ws }

  predicate Odd(n: int) { n % 2 == 1 }

  predicate Carries(r: nat, windowSize: nat, fastNegate: bool) {
    fastNegate && GetBit(r, windowSize) == 1
  }

  function Digit(r: nat, windowSize: nat, fastNegate: bool): int {
    if Carries(r, windowSize, fastNegate) then Low(r, windowSize) - Pow2(windowSize) else Low(r, windowSize)
  }

  function Above(r: nat, windowSize: nat, fastNegate: bool): nat {
    if Carries(r, windowSize, fastNegate) then Shr(r, windowSize) + 1 else Shr(r, windowSize)
  }

  lemma LowIsOdd(r: nat, windowSize: nat)
    requires Odd(r) && windowSize > 0
    ensures Odd(Low(r, windowSize)) && Low(r, windowSize) > 0
  {}

  lemma QuotientIsSmaller(r: nat, q: nat, m: nat, low: nat, w: nat)
    requires r == q * m + low && low > 0 && m > w
    ensures q < r && (q > 0 ==> q + 1 + w <= r)
  {
    if q > 0 {
      MulMono(1, q, m - 1);
      assert q * m == q + q * (m - 1);
    }
  }

  /** Even with the carry added, what is left above a window is smaller than what the window was taken from. */
  lemma {:induction false} HighIsSmaller(r: nat, windowSize: nat)
    requires Odd(r) && windowSize > 0
    ensures Odd(Low(r, windowSize))
    ensures Shr(r, windowSize) < r
    ensures Shr(r, windowSize) > 0 ==> Shr(r, windowSize) + 1 + windowSize <= r
    decreases windowSize
  {
    Split(r, windowSize);
    LowIsOdd(r, windowSize);
    hide Low, Shr, Pow2, Odd;
    QuotientIsSmaller(r, Shr(r, windowSize), Pow2(windowSize), Low(r, windowSize), windowSize);
  }

  /** Digits are odd and fit the window. */
  lemma DigitShape(r: nat, windowSize: nat, fastNegate: bool)
    requires Odd(r) && windowSize > 0
    ensures Odd(Digit(r, windowSize, fastNegate))
    ensures Odd(Magnitude(Digit(r, windowSize, fastNegate)))
    ensures Magnitude(Digit(r, windowSize, fastNegate)) < Pow2(windowSize)
    ensures !fastNegate ==> Digit(r, windowSize, fastNegate) > 0
  {
    HighIsSmaller(r, windowSize);
    assert Pow2(windowSize) == 2 * Pow2(windowSize - 1);
    OddMinusEven(Low(r, windowSize), Pow2(windowSize - 1));
    hide Low, Pow2, Shr, GetBit;
  }

  lemma OddMinusEven(a: int, p: int)
    requires Odd(a)
    ensures Odd(a - 2 * p) && Odd(2 * p - a)
  {}

  lemma AboveSmaller(r: nat, windowSize: nat, fastNegate: bool)
    requires Odd(r) && windowSize > 0
    ensures Above(r, windowSize, fastNegate) < r
    ensures Above(r, windowSize, fastNegate) > 0 ==> Above(r, windowSize, fastNegate) + windowSize <= r
  {
    HighIsSmaller(r, windowSize);
    hide Low, Pow2, Shr;
  }

  /** An odd r gives up one window; adding 2^windowSize to r makes the carry visible in the bits above. */
  lemma TakeWindow(r: nat, windowSize: nat, fastNegate: bool, pos: nat)
    requires Odd(r) && windowSize > 0
    ensures Odd(Low(r, windowSize)) && Odd(Pow2(windowSize) - Low(r, windowSize))
    ensures Recode(r, windowSize, fastNegate, pos) ==
            if fastNegate && GetBit(r, windowSize) == 1 then
              Cons(Window(pos, Low(r, windowSize) - Pow2(windowSize)),
                   Recode(Shr(r + Pow2(windowSize), windowSize), windowSize, fastNegate, pos + windowSize))
            else
              Cons(Window(pos, Low(r, windowSize)),
                   Recode(Shr(r, windowSize), windowSize, fastNegate, pos + windowSize))
  {
    AddAbove(r, windowSize);
    HighIsSmaller(r, windowSize);
    assert Pow2(windowSize) == 2 * Pow2(windowSize - 1);
    OddMinusEven(Low(r, windowSize), Pow2(windowSize - 1));
  }

  lemma DigitAbove(r: nat, windowSize: nat, fastNegate: bool)
    ensures r == Above(r, windowSize, fastNegate) * Pow2(windowSize) + Digit(r, windowSize, fastNegate)
  {
    Split(r, windowSize);
    Distribute(Shr(r, windowSize), 1, Pow2(windowSize));
  }

  lemma {:induction false} RecodeValue(r: nat, windowSize: nat, fastNegate: bool, pos: nat)
    requires windowSize > 0
    ensures Value(Recode(r, windowSize, fastNegate, pos)) == r * Pow2(pos)
    decreases r
  {
    if r == 0 {
    } else if r % 2 == 0 {
      RecodeValue(r / 2, windowSize, fastNegate, pos + 1);
      MulAssoc(r / 2, 2, Pow2(pos));
    } else {
      var digit, rest := Digit(r, windowSize, fastNegate), Above(r, windowSize, fastNegate);
      HighIsSmaller(r, windowSize);
      DigitAbove(r, windowSize, fastNegate);
      RecodeValue(rest, windowSize, fastNegate, pos + windowSize);
      Pow2Add(windowSize, pos);
      assert Recode(r, windowSize, fastNegate, pos)[1..] == Recode(rest, windowSize, fastNegate, pos + windowSize);
      MulAssoc(rest, Pow2(windowSize), Pow2(pos));
      Distribute(rest * Pow2(windowSize), digit, Pow2(pos));
    }
  }

  /** Digits are odd and fit the window, windows do not overlap, and none begins past pos + r. */
  ghost predicate WellSpaced(ws: seq<Window>, windowSize: nat, fastNegate: bool, from: nat, limit: nat) {
    && (forall i :: 0 <= i < |ws| ==> from <= ws[i].begin <= limit)
    && (forall i :: 0 <= i < |ws| ==> Odd(ws[i].digit) && Magnitude(ws[i].digit) < Pow2(windowSize))
    && (forall i :: 0 <= i < |ws| && !fastNegate ==> 0 < ws[i].digit)
    && (forall i, j :: 0 <= i < j < |ws| ==> ws[i].begin + windowSize <= ws[j].begin)
  }

  function Magnitude(d: int): nat { if d < 0 then -d else d }

  lemma {:induction false} RecodeWellSpaced(r: nat, windowSize: nat, fastNegate: bool, pos: nat)
    requires windowSize > 0
    ensures WellSpaced(Recode(r, windowSize, fastNegate, pos), windowSize, fastNegate, pos, pos + r)
    decreases r
  {
    if r == 0 {
    } else if r % 2 == 0 {
      RecodeWellSpaced(r / 2, windowSize, fastNegate, pos + 1);
    } else {
      var rest := Above(r, windowSize, fastNegate);
      DigitShape(r, windowSize, fastNegate);
      AboveSmaller(r, windowSize, fastNegate);
      RecodeWellSpaced(rest, windowSize, fastNegate, pos + windowSize);
      assert rest == 0 ==> Recode(rest, windowSize, fastNegate, pos + windowSize) == [];
    }
  }

  lemma {:induction false} SkipZeros(n: nat, windowSize: nat, fastNegate: bool, pos: nat, from: nat, to: nat)
    requires windowSize > 0 && from <= to
    requires forall k :: from <= k < to ==> GetBit(n, k) == 0
    ensures Recode(Shr(n, from), windowSize, fastNegate, pos + from)
            == Recode(Shr(n, to), windowSize, fastNegate, pos + to)
    ensures Shr(n, to) == 0 ==> Recode(Shr(n, from), windowSize, fastNegate, pos + from) == []
    decreases (to as int) - from
  {
    if from < to {
      SkipZeros(n, windowSize, fastNegate, pos, from + 1, to);
      ShiftStep(n, from);
    }
  }

  const WORD_BITS := 64

  function WordCount(n: nat): (r: nat)
    ensures BitCount(n) <= r * WORD_BITS
  {
    (BitCount(n) + WORD_BITS - 1) / WORD_BITS
  }

  class WindowSlider {
    var exp: nat
    var windowModulus: nat
    var windowSize: nat
    var windowBegin: nat
    var expWindow: nat
    var fastNegate: bool
    var negateNext: bool
    var firstTime: bool
    var finished: bool

    ghost predicate Valid()
      reads this
    {
      && windowSize > 0
      && windowModulus == Pow2(windowSize)
      && (!finished && !firstTime ==> Odd(expWindow) && expWindow < windowModulus)
    }

    /** The windows not yet found. */
    ghost function Rest(): seq<Window>
      requires windowSize > 0
      reads this
    {
      if firstTime then Recode(exp, windowSize, fastNegate, windowBegin)
      else Recode(Shr(exp, windowSize), windowSize, fastNegate, windowBegin + windowSize)
    }

    /** The window found last, followed by those not yet found. */
    ghost function Pending(): seq<Window>
      requires windowSize > 0
      reads this
    {
      if finished then [] else Cons(Window(windowBegin, if negateNext then -(expWindow as int) else expWindow), Rest())
    }

    constructor (expIn: nat, fastNegateIn: bool, windowSizeIn: nat := 0)
      ensures Valid() && firstTime && !finished
      ensures fastNegate == fastNegateIn
      ensures windowSizeIn != 0 ==> windowSize == windowSizeIn
      ensures windowSizeIn == 0 ==> 1 <= windowSize <= 7
      ensures Rest() == Recode(expIn, windowSize, fastNegateIn, 0)
    {
      exp, windowSize, windowBegin, expWindow := expIn, windowSizeIn, 0, 0;
      fastNegate, negateNext, firstTime, finished := fastNegateIn, false, true, false;
      windowModulus := 1;
      new;
      if windowSize == 0 {
        var expLen := BitCount(exp);
        windowSize := if expLen <= 17 then 1 else if expLen <= 24 then 2 else if expLen <= 70 then 3
                      else if expLen <= 197 then 4 else if expLen <= 539 then 5 else if expLen <= 1434 then 6 else 7;
      }
      windowModulus := windowModulus * Pow2(windowSize);
    }

    /** The position of the lowest set bit at or above from, if there is one. */
    method FirstSetBit(from: nat) returns (none: bool, skipCount: nat)
      ensures skipCount >= from
      ensures forall k :: from <= k < skipCount ==> GetBit(exp, k) == 0
      ensures none ==> Shr(exp, skipCount) == 0
      ensures !none ==> Odd(Shr(exp, skipCount))
    {
      var expLen := WordCount(exp) * WORD_BITS;
      skipCount := from;
      while GetBit(exp, skipCount) == 0
        invariant skipCount >= from
        invariant forall k :: from <= k < skipCount ==> GetBit(exp, k) == 0
        decreases expLen - skipCount
      {
        if skipCount >= expLen {
          ShiftOut(exp, skipCount);
          return true, skipCount;
        }
        skipCount := skipCount + 1;
      }
      return false, skipCount;
    }

    method FindNextWindow()
      requires Valid() && !finished
      modifies this
      ensures Valid() && !firstTime
      ensures windowSize == old(windowSize) && fastNegate == old(fastNegate)
      ensures Pending() == old(Rest())
    {
      assert Shr(exp, 0) == exp;
      hide Recode, Low, Pow2, Shr, GetBit, Odd, Cons;
      ghost var from := if firstTime then 0 else windowSize;
      var none, skipCount := FirstSetBit(if firstTime then 0 else windowSize);
      firstTime := false;
      SkipZeros(exp, windowSize, fastNegate, windowBegin, from, skipCount);
      if none {
        finished := true;
        return;
      }
      exp := Shr(exp, skipCount);
      windowBegin := windowBegin + skipCount;
      ReadWindow();
    }

    /** The window at the foot of an odd exp, negative with a carry into exp if that is cheap and helps. */
    method ReadWindow()
      requires windowSize > 0 && windowModulus == Pow2(windowSize) && Odd(exp) && !firstTime && !finished
      modifies this`exp, this`expWindow, this`negateNext
      ensures Valid()
      ensures Pending() == Recode(old(exp), windowSize, fastNegate, windowBegin)
    {
      TakeWindow(exp, windowSize, fastNegate, windowBegin);
      hide Recode, Low, Pow2, Shr, GetBit, Odd, Cons;
      expWindow := Low(exp, windowSize);
      if fastNegate && GetBit(exp, windowSize) == 1 {
        negateNext := true;
        expWindow := Pow2(windowSize) - expWindow;
        exp := exp + windowModulus;
      } else {
        negateNext := false;
      }
    }
  }
}
