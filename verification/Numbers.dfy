/** Conversion between integers and their text, saturating at the limits of the integer type. */
module Numbers {
  import opened Utf8

  /** An integer type by its size in bytes. */
  datatype IntType = IntType(bytes: nat, signed: bool)
  {
    ghost predicate Valid() { bytes == 4 || bytes == 8 }
    function Max(): nat {
      if bytes == 4 then (if signed then 0x7FFF_FFFF else 0xFFFF_FFFF)
      else if signed then 0x7FFF_FFFF_FFFF_FFFF else 0xFFFF_FFFF_FFFF_FFFF
    }
    function Min(): int { if signed then -(Max() as int) - 1 else 0 }
    predicate Fits(n: int) { Min() <= n <= Max() }
  }

  const INT := IntType(4, true)

  predicate IsSpace(c: byte) { c == 0x20 || 9 <= c <= 13 }

  predicate IsDigit(c: byte, base: nat) { Digit(c, base) >= 0 }

  /** CharToDigit: the digit's value, or -1. */
  function Digit(c: byte, base: nat): (d: int)
    ensures d < base || base == 0
  {
    if 0x30 <= c <= 0x39 && c - 0x30 < base then c - 0x30
    else if base > 10 && 0x61 <= c < 0x61 + base - 10 then c - 0x61 + 10
    else if base > 10 && 0x41 <= c < 0x41 + base - 10 then c - 0x41 + 10
    else -1
  }

  /** The number a run of digits spells. */
  function ValueOf(s: seq<byte>, base: nat): nat
    requires AllDigits(s, base)
  {
    if s == [] then 0 else ValueOf(s[..|s| - 1], base) * base + Digit(s[|s| - 1], base)
  }

  ghost predicate AllDigits(s: seq<byte>, base: nat) { forall i :: 0 <= i < |s| ==> IsDigit(s[i], base) }

  /** How many digits s begins with. */
  function DigitRun(s: seq<byte>, base: nat): (n: nat)
    ensures n <= |s| && AllDigits(s[..n], base)
    ensures n < |s| ==> !IsDigit(s[n], base)
  {
    if s == [] || !IsDigit(s[0], base) then 0 else
      var n := DigitRun(s[1..], base);
      assert forall i :: 0 < i < n + 1 ==> s[i] == s[1..][..n][i - 1];
      n + 1
  }

  datatype Conversion = Conversion(ok: bool, value: int)

  function Clamp(n: int, ty: IntType): int { if n > ty.Max() then ty.Max() else if n < ty.Min() then ty.Min() else n }

  function Signed(n: nat, negative: bool): int { if negative then -(n as int) else n }

  predicate HasHexPrefix(s: seq<byte>, base: nat) {
    base == 16 && |s| > 2 && s[0] == 0x30 && (s[1] == 0x78 || s[1] == 0x58)
  }

  function WithoutHexPrefix(s: seq<byte>, base: nat): seq<byte> { if HasHexPrefix(s, base) then s[2..] else s }

  /** What the digits of s are worth: everything up to the first character that is no digit, clamped to the type;
      the conversion is good if that is all of s and it fits. */
  function ConvertDigits(s: seq<byte>, negative: bool, base: nat, ty: IntType): (r: Conversion)
    ensures r.ok ==> ty.Fits(r.value)
  {
    if s == [] then Conversion(false, 0)
    else
      var t := WithoutHexPrefix(s, base);
      var n := DigitRun(t, base);
      var v := Signed(ValueOf(t[..n], base), negative);
      Conversion(n == |t| && ty.Fits(v), Clamp(v, ty))
  }

  function SkipSpaces(s: seq<byte>): seq<byte> { if s != [] && IsSpace(s[0]) then SkipSpaces(s[1..]) else s }

  /** The meaning of a conversion: leading white space spoils it, one sign is allowed, but no minus if unsigned. */
  function Convert(s: seq<byte>, base: nat, ty: IntType): (r: Conversion)
    ensures r.ok ==> ty.Fits(r.value)
  {
    var t := SkipSpaces(s);
    var r :=
      if t != [] && t[0] == 0x2D then
        if ty.signed then ConvertDigits(t[1..], true, base, ty) else Conversion(false, 0)
      else ConvertDigits(if t != [] && t[0] == 0x2B then t[1..] else t, false, base, ty);
    Conversion(r.ok && t == s, r.value)
  }

  /** A number as it may be written: digits, at least one, behind the hexadecimal prefix if that is allowed. */
  ghost predicate IsNumeral(s: seq<byte>, base: nat) { s != [] && AllDigits(WithoutHexPrefix(s, base), base) }

  ghost function NumeralValue(s: seq<byte>, base: nat): nat
    requires IsNumeral(s, base)
  {
    ValueOf(WithoutHexPrefix(s, base), base)
  }

  lemma ConvertsNumeral(s: seq<byte>, negative: bool, base: nat, ty: IntType)
    ensures ConvertDigits(s, negative, base, ty).ok
       <==> IsNumeral(s, base) && ty.Fits(Signed(NumeralValue(s, base), negative))
    ensures IsNumeral(s, base) ==>
            ConvertDigits(s, negative, base, ty).value == Clamp(Signed(NumeralValue(s, base), negative), ty)
  {
    var t := WithoutHexPrefix(s, base);
    assert t[..|t|] == t;
    hide WithoutHexPrefix, DigitRun, ValueOf, AllDigits, Clamp;
  }

  /** A conversion succeeds exactly on an optional sign, no minus for an unsigned type, and a numeral whose value
      fits the type. */
  lemma ConvertsExactly(s: seq<byte>, base: nat, ty: IntType)
    ensures Convert(s, base, ty).ok <==>
            s != [] && var digits := if s[0] == 0x2D || s[0] == 0x2B then s[1..] else s;
              && (s[0] == 0x2D ==> ty.signed) && IsNumeral(digits, base)
              && ty.Fits(Signed(NumeralValue(digits, base), s[0] == 0x2D))
  {
    if s != [] {
      var digits := if s[0] == 0x2D || s[0] == 0x2B then s[1..] else s;
      ConvertsNumeral(digits, s[0] == 0x2D, base, ty);
      hide ConvertDigits, IsNumeral, NumeralValue, Signed;
      if IsSpace(s[0]) {
        SkipShortens(s);
      }
    }
  }

  /** A number too large for the type becomes its largest value, and one too small its smallest. */
  lemma OverflowSaturates(s: seq<byte>, negative: bool, base: nat, ty: IntType)
    requires IsNumeral(s, base)
    ensures var v, r := Signed(NumeralValue(s, base), negative), ConvertDigits(s, negative, base, ty);
      (v > ty.Max() ==> !r.ok && r.value == ty.Max()) && (v < ty.Min() ==> !r.ok && r.value == ty.Min())
  {
    ConvertsNumeral(s, negative, base, ty);
    hide ConvertDigits, IsNumeral, NumeralValue, Signed;
  }

  lemma {:induction false} SkipShortens(s: seq<byte>)
    ensures |SkipSpaces(s)| <= |s|
    ensures s != [] && IsSpace(s[0]) ==> |SkipSpaces(s)| < |s|
  {
    if s != [] { SkipShortens(s[1..]); }
  }

  /** What is converted ends in a digit. */
  lemma EndsInDigit(s: seq<byte>, base: nat, ty: IntType)
    requires Convert(s, base, ty).ok
    ensures s != [] && IsDigit(s[|s| - 1], base)
  {
    ConvertsExactly(s, base, ty);
    var digits := if s[0] == 0x2D || s[0] == 0x2B then s[1..] else s;
    var t := WithoutHexPrefix(digits, base);
    assert t != [] && t[|t| - 1] == s[|s| - 1];
    hide Convert, Digit;
  }

  // ----- IteratorRangeToNumber -------------------------------------------------------------------------------

  /** C++ division and remainder truncate. */
  function TruncDiv(n: int, d: nat): int
    requires d > 0
  {
    if n < 0 then -((-n) / d) else n / d
  }

  function TruncMod(n: int, d: nat): int
    requires d > 0
  {
    if n < 0 then -((-n) % d) else n % d
  }

  /** CheckBounds of Positive or Negative: whether one more digit would leave the type. */
  predicate Overflows(output: int, digit: nat, negative: bool, base: nat, ty: IntType)
    requires base > 0
  {
    if negative then
      output < TruncDiv(ty.Min(), base) || (output == TruncDiv(ty.Min(), base) && digit > 0 - TruncMod(ty.Min(), base))
    else
      output > ty.Max() / base || (output == ty.Max() / base && digit > ty.Max() % base)
  }

  /** The guard is exact: it holds just when appending the digit leaves the range of the type, and where it does not
      the product in between stays in range too. */
  lemma OverflowIsExact(magnitude: nat, digit: nat, negative: bool, base: nat, ty: IntType)
    requires (base == 10 || base == 16) && digit < base && ty.Valid() && (negative ==> ty.signed)
    ensures Overflows(Signed(magnitude, negative), digit, negative, base, ty)
       <==> !ty.Fits(Signed(magnitude * base + digit, negative))
    ensures !Overflows(Signed(magnitude, negative), digit, negative, base, ty) ==>
      ty.Fits(Signed(magnitude, negative) * base)
  {
    if base == 10 { assert magnitude * base == magnitude * 10; } else { assert magnitude * base == magnitude * 16; }
  }

  lemma {:induction false} ValueGrows(s: seq<byte>, base: nat, k: nat)
    requires AllDigits(s, base) && base > 0 && k <= |s|
    ensures ValueOf(s[..k], base) <= ValueOf(s, base)
    decreases |s|
  {
    if k == |s| {
      assert s[..k] == s;
    } else {
      var t := s[..|s| - 1];
      ValueGrows(t, base, k);
      assert t[..k] == s[..k];
      AtLeast(ValueOf(t, base), base);
    }
  }

  lemma AtLeast(v: nat, base: nat)
    requires base > 0
    ensures v * base >= v
  {}

  lemma AppendDigit(s: seq<byte>, base: nat, k: nat)
    requires k < |s| && AllDigits(s[..k], base) && IsDigit(s[k], base)
    ensures AllDigits(s[..k + 1], base)
    ensures ValueOf(s[..k + 1], base) == ValueOf(s[..k], base) * base + Digit(s[k], base)
  {
    assert s[..k + 1][..k] == s[..k];
    assert forall i :: 0 <= i < k ==> s[..k + 1][i] == s[..k][i];
  }

  /** A run of digits cannot end before a place up to which all are digits. */
  lemma {:induction false} RunReaches(s: seq<byte>, base: nat, k: nat)
    requires k <= |s| && AllDigits(s[..k], base)
    ensures DigitRun(s, base) >= k
  {
    if k > 0 {
      assert s[..k][0] == s[0] && s[..k][1..] == s[1..][..k - 1];
      RunReaches(s[1..], base, k - 1);
    }
  }

  /** Nor can it go past a character that is no digit. */
  lemma {:induction false} RunStops(s: seq<byte>, base: nat, k: nat)
    requires k < |s| && !IsDigit(s[k], base)
    ensures DigitRun(s, base) <= k
  {
    if k > 0 { RunStops(s[1..], base, k - 1); }
  }

  lemma StopsAtNonDigit(s: seq<byte>, negative: bool, base: nat, ty: IntType, k: nat)
    requires s != []
    requires k < |WithoutHexPrefix(s, base)| && AllDigits(WithoutHexPrefix(s, base)[..k], base)
    requires !IsDigit(WithoutHexPrefix(s, base)[k], base)
    requires ty.Fits(Signed(ValueOf(WithoutHexPrefix(s, base)[..k], base), negative))
    ensures ConvertDigits(s, negative, base, ty)
         == Conversion(false, Signed(ValueOf(WithoutHexPrefix(s, base)[..k], base), negative))
  {
    RunReaches(WithoutHexPrefix(s, base), base, k);
  }

  lemma StopsAtEnd(s: seq<byte>, negative: bool, base: nat, ty: IntType, k: nat)
    requires s != [] && k == |WithoutHexPrefix(s, base)| && AllDigits(WithoutHexPrefix(s, base)[..k], base)
    requires ty.Fits(Signed(ValueOf(WithoutHexPrefix(s, base)[..k], base), negative))
    ensures ConvertDigits(s, negative, base, ty)
         == Conversion(true, Signed(ValueOf(WithoutHexPrefix(s, base)[..k], base), negative))
  {
    RunReaches(WithoutHexPrefix(s, base), base, k);
  }

  /** Once a prefix is out of range, so is all of the run. */
  lemma StopsAtOverflow(s: seq<byte>, negative: bool, base: nat, ty: IntType, k: nat)
    requires s != [] && base > 0 && ty.Valid()
    requires k <= |WithoutHexPrefix(s, base)| && AllDigits(WithoutHexPrefix(s, base)[..k], base)
    requires !ty.Fits(Signed(ValueOf(WithoutHexPrefix(s, base)[..k], base), negative))
    ensures ConvertDigits(s, negative, base, ty) == Conversion(false, if negative then ty.Min() else ty.Max())
  {
    var t := WithoutHexPrefix(s, base);
    RunReaches(t, base, k);
    var run := t[..DigitRun(t, base)];
    ValueGrows(run, base, k);
    assert run[..k] == t[..k];
  }

  /** A value put into *output, whose type it fits. */
  function Stored(n: int, ty: IntType): int
    requires ty.Fits(n)
  {
    n
  }

  /** CheckBounds, the multiplication and Increment, for any digit but the first. */
  method TakeDigit(first: bool, outputIn: int, newDigit: nat, negative: bool, base: nat, ty: IntType,
                   ghost magnitude: nat)
      returns (ok: bool, output: int)
    requires (base == 10 || base == 16) && newDigit < base && ty.Valid() && (negative ==> ty.signed)
    requires outputIn == Signed(magnitude, negative) && ty.Fits(outputIn) && (first ==> magnitude == 0)
    ensures ok <==> ty.Fits(Signed(magnitude * base + newDigit, negative))
    ensures output == if ok then Signed(magnitude * base + newDigit, negative)
                      else if negative then ty.Min() else ty.Max()
  {
    OverflowIsExact(magnitude, newDigit, negative, base, ty);
    SignedDigit(magnitude, newDigit, negative, base);
    FirstDigitFits(newDigit, negative, base, ty);
    output := outputIn;
    hide Overflows, Signed, IntType.Fits;
    if !first {
      if Overflows(output, newDigit, negative, base, ty) { return false, if negative then ty.Min() else ty.Max(); }
      output := Stored(output * base, ty);
    }
    ok, output := true, Stored(if negative then output - newDigit else output + newDigit, ty);
  }

  /** Base<Sign>::Invoke: every value it stores on the way fits the type. */
  method InvokeDigits(s: seq<byte>, negative: bool, base: nat, ty: IntType) returns (ok: bool, output: int)
    requires (base == 10 || base == 16) && ty.Valid() && (negative ==> ty.signed)
    ensures Conversion(ok, output) == ConvertDigits(s, negative, base, ty)
  {
    output := 0;
    if s == [] { return false, output; }
    var begin := if HasHexPrefix(s, base) then 2 else 0;
    ghost var t := WithoutHexPrefix(s, base);
    assert t == s[begin..];
    assert t[..0] == [];
    ghost var magnitude: nat := 0;
    var current := begin;
    assert AllDigits(t[..0], base) && ty.Fits(0) && Signed(0, negative) == 0;
    assert magnitude == ValueOf(t[..0], base);
    hide *;
    while current != |s|
      invariant begin <= current <= |s|
      invariant AllDigits(t[..current - begin], base)
      invariant magnitude == ValueOf(t[..current - begin], base)
      invariant output == Signed(magnitude, negative) && ty.Fits(output)
      invariant current == begin ==> output == 0 == magnitude
      decreases |s| - current
    {
      ghost var k := current - begin;
      assert s[current] == t[k];
      var newDigit := Digit(s[current], base);
      if newDigit < 0 {
        StopsAtNonDigit(s, negative, base, ty, k);
        return false, output;
      }
      AppendDigit(t, base, k);
      ok, output := TakeDigit(current == begin, output, newDigit, negative, base, ty, magnitude);
      if !ok {
        StopsAtOverflow(s, negative, base, ty, k + 1);
        return;
      }
      magnitude := magnitude * base + newDigit;
      current := current + 1;
    }
    assert |t| == current - begin;
    StopsAtEnd(s, negative, base, ty, |t|);
    return true, output;
  }

  lemma FirstDigitFits(digit: nat, negative: bool, base: nat, ty: IntType)
    requires (base == 10 || base == 16) && digit < base && ty.Valid() && (negative ==> ty.signed)
    ensures ty.Fits(Signed(0 * base + digit, negative))
  {}

  lemma SignedDigit(n: nat, digit: nat, negative: bool, base: nat)
    ensures Signed(n * base + digit, negative)
         == if negative then Signed(n, negative) * base - digit else Signed(n, negative) * base + digit
    ensures 0 * base == 0 && Signed(0, negative) == 0
  {}

  /** IteratorRangeToNumber::Invoke */
  method Invoke(s: seq<byte>, base: nat, ty: IntType) returns (valid: bool, output: int)
    requires (base == 10 || base == 16) && ty.Valid()
    ensures Conversion(valid, output) == Convert(s, base, ty)
  {
    valid := true;
    var begin := 0;
    while begin != |s| && IsSpace(s[begin])
      invariant begin <= |s| && SkipSpaces(s[begin..]) == SkipSpaces(s)
      invariant valid == (begin == 0)
      decreases |s| - begin
    {
      assert s[begin..][1..] == s[begin + 1..];
      valid, begin := false, begin + 1;
    }
    ghost var t := s[begin..];
    assert t == SkipSpaces(s);
    if begin != |s| && s[begin] == 0x2D {
      assert t[1..] == s[begin + 1..];
      if !ty.signed {
        output, valid := 0, false;
      } else {
        var ok;
        ok, output := InvokeDigits(s[begin + 1..], true, base, ty);
        valid := valid && ok;
      }
    } else {
      if begin != |s| && s[begin] == 0x2B {
        assert t[1..] == s[begin + 1..];
        begin := begin + 1;
      }
      var ok;
      ok, output := InvokeDigits(s[begin..], false, base, ty);
      valid := valid && ok;
    }
  }

  // ----- IntToString -----------------------------------------------------------------------------------------

  function Decimal(n: nat): (s: seq<byte>)
    ensures |s| > 0
  {
    if n < 10 then [0x30 + n] else Decimal(n / 10) + [0x30 + n % 10]
  }

  function IntText(n: int): seq<byte> { if n < 0 then [0x2D] + Decimal(-n) else Decimal(n) }

  lemma {:induction false} DecimalIsDigits(n: nat)
    ensures AllDigits(Decimal(n), 10) && ValueOf(Decimal(n), 10) == n
    ensures Decimal(n)[0] == 0x30 <==> n == 0
    ensures n == 0 ==> |Decimal(n)| == 1
  {
    if n >= 10 {
      DecimalIsDigits(n / 10);
      var s := Decimal(n / 10);
      assert Decimal(n)[..|Decimal(n)| - 1] == s;
    } else {
      assert Decimal(n)[..0] == [];
    }
  }

  /** Converting the text of a number gives the number back. */
  lemma TextRoundTrip(n: int, ty: IntType)
    requires ty.Valid() && ty.Fits(n)
    ensures Convert(IntText(n), 10, ty) == Conversion(true, n)
  {
    var d := Decimal(if n < 0 then -n else n);
    DecimalIsDigits(if n < 0 then -n else n);
    assert IsDigit(d[0], 10);
    assert d[..|d|] == d;
    RunReaches(d, 10, |d|);
    if n < 0 { assert IntText(n)[1..] == d; }
  }

  function Pow10(k: nat): (p: nat)
    ensures p > 0
  {
    if k == 0 then 1 else 10 * Pow10(k - 1)
  }

  lemma {:induction false} DecimalLength(n: nat, k: nat)
    requires 0 < k && n < Pow10(k)
    ensures |Decimal(n)| <= k
  {
    if n >= 10 { DecimalLength(n / 10, k - 1); }
  }

  lemma DecimalFits(n: nat, ty: IntType)
    requires ty.Valid() && n <= ty.Max() + 1
    ensures |Decimal(n)| <= if ty.bytes == 4 then 10 else 20
  {
    assert Pow10(5) == 100000;
    assert Pow10(10) == 10000000000;
    assert Pow10(15) == 1000000000000000;
    assert Pow10(20) == 100000000000000000000;
    DecimalLength(n, if ty.bytes == 4 then 10 else 20);
  }

  lemma LastDigit(d: seq<byte>, k: nat, res: nat)
    requires 0 < k <= |d| && Decimal(res) == d[..k]
    ensures d[k - 1] == res % 10 + 0x30
    ensures if res / 10 != 0 then Decimal(res / 10) == d[..k - 1] else k == 1
  {
    assert d[k - 1] == d[..k][k - 1] && d[..k - 1] == d[..k][..k - 1];
  }

  /** Writes the digits of n from the back of the buffer; the first slot is never reached. */
  method WriteDigits(n: nat, outbuf: array<byte>) returns (i: nat)
    requires |Decimal(n)| < outbuf.Length
    modifies outbuf
    ensures i == outbuf.Length - |Decimal(n)| && outbuf[i..] == Decimal(n)
  {
    ghost var d, size := Decimal(n), outbuf.Length;
    assert d[..|d|] == d && d[0..] == d;
    hide Decimal;
    var res, first := n, true;
    i := outbuf.Length;
    while first || res != 0
      invariant size - |d| <= i <= size
      invariant first ==> i == size && res == n
      invariant outbuf[i..] == d[|d| - (size - i)..]
      invariant if first || res != 0 then Decimal(res) == d[..|d| - (size - i)] else i == size - |d|
      decreases first, res
    {
      ghost var k, tail := |d| - (size - i), outbuf[i..];
      i := i - 1;
      assert i != 0;
      outbuf[i] := res % 10 + 0x30;
      assert outbuf[i..] == [outbuf[i]] + outbuf[i + 1..] && outbuf[i + 1..] == tail;
      assert d[k - 1..] == [d[k - 1]] + d[k..];
      LastDigit(d, k, res);
      res := res / 10;
      first := false;
    }
  }

  method IntToString(value: int, ty: IntType) returns (r: seq<byte>)
    requires ty.Valid() && ty.Fits(value)
    ensures r == IntText(value)
  {
    var outbuf := new byte[3 * ty.bytes + if ty.signed then 1 else 0];
    var res: nat := if value < 0 then -value else value;
    DecimalFits(res, ty);
    var i := WriteDigits(res, outbuf);
    if value < 0 {
      ghost var tail := outbuf[i..];
      i := i - 1;
      assert i != 0;
      outbuf[i] := 0x2D;
      assert outbuf[i..] == [0x2D] + outbuf[i + 1..] && outbuf[i + 1..] == tail;
    }
    return outbuf[i..];
  }
}
