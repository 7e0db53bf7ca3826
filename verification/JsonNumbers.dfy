/** Numbers as they are read: where a numeral ends, what its digits are worth in their places, and what
    the conversion to an int and strtod make of it. Places are powers of ten, negative ones for the
    fraction. */
module JsonNumbers {
  import opened Utf8
  import opened Numbers
  import opened JsonValues
  import opened JsonGrammar
  import opened JsonTexts
  import opened JsonGaps
  import opened Chunks

  predicate IsProduct(z: real, x: real, y: real) { z == x * y }

  lemma TenAdds(a: int, b: int)
    ensures Ten(a + b) == Ten(a) * Ten(b)
  {
    TenMultiplies(a, b);
    hide Ten;
  }

  lemma {:induction false} TenMultiplies(a: int, b: int)
    ensures IsProduct(Ten(a + b), Ten(a), Ten(b))
    decreases if b < 0 then -b else b
  {
    assert Ten(0) == 1.0;
    hide Ten, IsProduct;
    if b > 0 {
      TenMultiplies(a, b - 1);
      TenStep(a + b - 1);
      TenStep(b - 1);
      OnePlaceUp(Ten(a), Ten(b - 1), Ten(a + b - 1));
    } else if b < 0 {
      TenMultiplies(a, b + 1);
      TenStep(a + b);
      TenStep(b);
      OnePlaceDown(Ten(a), Ten(b), Ten(a + b));
    } else {
      TimesOne(Ten(a));
    }
  }

  lemma TimesOne(x: real)
    ensures IsProduct(x, x, 1.0)
  {}

  lemma OnePlaceUp(x: real, y: real, z: real)
    requires IsProduct(z, x, y)
    ensures IsProduct(10.0 * z, x, 10.0 * y)
  {
    Swap(x, y);
  }

  lemma OnePlaceDown(x: real, y: real, z: real)
    requires IsProduct(10.0 * z, x, 10.0 * y)
    ensures IsProduct(z, x, y)
  {
    Swap(x, y);
  }

  lemma Swap(a: real, b: real)
    ensures a * (10.0 * b) == 10.0 * (a * b)
  {}

  lemma TenStep(k: int)
    ensures Ten(k + 1) == 10.0 * Ten(k)
  {}

  lemma {:induction false} TenIsPow10(k: nat)
    ensures Ten(k) == Pow10(k) as real
  {
    if k > 0 { TenIsPow10(k - 1); }
  }

  lemma ScaledIsTen(n: nat, e: int)
    ensures Scaled(n, e) == n as real * Ten(e)
  {
    hide *;
    ScaledUnfolds(n, e);
    if e >= 0 {
      TenIsPow10(e);
      Product(n, Pow10(e));
    } else {
      TenIsPow10(-e);
      TenAdds(-e, e);
      TenOfNothing();
      Quotient(n as real, Pow10(-e) as real, Ten(e));
    }
  }

  lemma ScaledUnfolds(n: nat, e: int)
    ensures Scaled(n, e) == if e >= 0 then (n * Pow10(e)) as real else n as real / Pow10(-e) as real
  {}

  lemma TenOfNothing()
    ensures Ten(0) == 1.0
  {}

  lemma Product(n: nat, p: nat)
    ensures (n * p) as real == n as real * p as real
  {}

  lemma Quotient(n: real, p: real, q: real)
    requires p > 0.0 && p * q == 1.0
    ensures n / p == n * q
  {
    assert n == n * (p * q) == (n * q) * p;
    Cancels(n * q, p);
  }

  lemma Cancels(a: real, p: real)
    requires p > 0.0
    ensures a * p / p == a
  {}

  lemma {:induction false} WorthShifts(d: seq<digit>, place: int, k: int)
    ensures Worth(d, place + k) == Worth(d, place) * Ten(k)
  {
    hide Ten;
    if d != [] {
      TenAdds(place, k);
      WorthShifts(d[1..], place - 1, k);
      assert place - 1 + k == place + k - 1;
      Distributes(d[0] as real, Ten(place), Worth(d[1..], place - 1), Ten(k));
    }
  }

  lemma Distributes(a: real, b: real, c: real, d: real)
    ensures (a * b + c) * d == a * (b * d) + c * d
  {}

  lemma {:induction false} WorthOneMore(d: seq<digit>, x: digit, place: int)
    ensures Worth(d + [x], place) == Worth(d, place) + x as real * Ten(place - |d|)
  {
    hide Ten;
    if d == [] {
      assert Worth(([] + [x])[1..], place - 1) == 0.0;
    } else {
      assert (d + [x])[1..] == d[1..] + [x];
      WorthOneMore(d[1..], x, place - 1);
    }
  }

  lemma SpelledDigits(d: seq<digit>)
    ensures AllDigits(Spelled(d), 10) && forall i :: 0 <= i < |d| ==> Digit(Spelled(d)[i], 10) == d[i]
  {}

  /** The digits' value is the sum of what each is worth in its place. */
  lemma {:induction false} ValueOfSpelled(d: seq<digit>)
    ensures AllDigits(Spelled(d), 10) && ValueOf(Spelled(d), 10) as real == Worth(d, |d| - 1)
    decreases |d|
  {
    SpelledDigits(d);
    if d != [] {
      var front, x := d[..|d| - 1], d[|d| - 1];
      ValueOfSpelled(front);
      assert d == front + [x];
      hide *;
      ValueStep(front, x);
      WorthStep(front, x);
    }
  }

  lemma ValueStep(front: seq<digit>, x: digit)
    requires AllDigits(Spelled(front), 10) && AllDigits(Spelled(front + [x]), 10)
    ensures ValueOf(Spelled(front + [x]), 10) == ValueOf(Spelled(front), 10) * 10 + x
  {
    var s := Spelled(front + [x]);
    assert s[..|s| - 1] == Spelled(front) && s[|s| - 1] == DigitByte(x);
  }

  lemma WorthStep(front: seq<digit>, x: digit)
    ensures Worth(front + [x], |front|) == Worth(front, |front| - 1) * 10.0 + x as real
  {
    hide *;
    TenOfNothing();
    WorthShifts(front, |front| - 1, 1);
    WorthOneMore(front, x, |front|);
    TimesTen(Worth(front, |front| - 1), x as real);
  }

  lemma TimesTen(w: real, x: real)
    ensures w * Ten(1) + x * Ten(0) == w * 10.0 + x
  {
    assert Ten(0) == 1.0;
    assert Ten(1) == 10.0;
  }

  lemma DigitRunOf(d: seq<byte>, rest: seq<byte>)
    requires AllDigits(d, 10) && (rest == [] || !IsDigit(rest[0], 10))
    ensures DigitRun(d + rest, 10) == |d| && Digits(d + rest) == d
  {
    var s := d + rest;
    assert s[..|d|] == d;
    RunReaches(s, 10, |d|);
    if rest != [] { RunStops(s, 10, |d|); }
  }

  /** Does not go on with a numeral. */
  predicate NumeralEnds(s: seq<byte>) { s == [] || (!IsDigit(s[0], 10) && s[0] !in {0x2E, 0x65, 0x45}) }

  predicate NoDigit(s: seq<byte>) { s == [] || !IsDigit(s[0], 10) }

  lemma ReadExponent(e: Maybe<Exponent>, rest: seq<byte>)
    requires NumeralEnds(rest) && (e.Just? ==> e.value.digits != [])
    ensures var s := ExponentOnto(e, rest);
      && NoDigit(s) && (s == [] || s[0] != 0x2E)
      && ExponentLength(s) >= 0 && s[ExponentLength(s)..] == rest && JsonGrammar.Exponent(s) == Power(e)
  {
    if e.Just? {
      ExponentDigits(e.value.digits, rest);
      ExponentLayout(e.value, rest);
      hide *;
      ExponentFrom(e.value, ExponentOnto(e, rest), Spelled(e.value.digits) + rest, rest);
    } else {
      assert rest[0..] == rest;
    }
  }

  lemma ExponentLayout(e: JsonTexts.Exponent, rest: seq<byte>)
    ensures var s, t, sign := ExponentOnto(Just(e), rest), Spelled(e.digits) + rest, SignText(e.sign);
      && s == [if e.capital then 0x45 else 0x65] + (sign + t) && t[|e.digits|..] == rest
  {
    hide Spelled;
  }

  lemma ExponentFrom(e: JsonTexts.Exponent, s: seq<byte>, t: seq<byte>, rest: seq<byte>)
    requires s == [if e.capital then 0x45 else 0x65] + (SignText(e.sign) + t)
    requires e.digits != [] && ReadInt(t, true) == |e.digits| && t != [] && 0x30 <= t[0] <= 0x39
    requires AllDigits(Spelled(e.digits), 10) && Digits(t) == Spelled(e.digits) && t[|e.digits|..] == rest
    requires Worth(e.digits, |e.digits| - 1).Floor == ValueOf(Spelled(e.digits), 10)
    requires !IsDigit(0x65, 10) && !IsDigit(0x45, 10)
    ensures NoDigit(s) && s[0] != 0x2E && ExponentLength(s) >= 0 && s[ExponentLength(s)..] == rest
    ensures JsonGrammar.Exponent(s) == Power(Just(e))
  {
    hide Digits, Worth, ValueOf, Spelled, IsDigit, AllDigits, ReadInt;
    var sign := SignText(e.sign);
    assert s[1..] == sign + t && s[1 + |sign|..] == t;
    assert s[1 + |sign| + |e.digits|..] == t[|e.digits|..];
    assert First(s[1..]) == if sign == [] then t[0] else sign[0];
    assert sign != [] ==> s[2..] == t;
  }

  lemma ExponentDigits(d: seq<digit>, rest: seq<byte>)
    requires d != [] && NoDigit(rest)
    ensures var t := Spelled(d) + rest;
      ReadInt(t, true) == |d| && 0x30 <= t[0] <= 0x39 && Digits(t) == Spelled(d)
    ensures AllDigits(Spelled(d), 10) && Worth(d, |d| - 1).Floor == ValueOf(Spelled(d), 10)
    ensures !IsDigit(0x65, 10) && !IsDigit(0x45, 10)
  {
    ValueOfSpelled(d);
    DigitRunOf(Spelled(d), rest);
    SpelledDigits(d);
    hide DigitRun, Digits, Worth, ValueOf;
  }

  lemma ReadFraction(f: seq<digit>, rest: seq<byte>)
    requires NoDigit(rest) && (rest == [] || rest[0] != 0x2E)
    ensures var s := FractionOnto(f, rest);
      && NoDigit(s) && FractionLength(s) == (if f == [] then 0 else 1 + |f|) && s[FractionLength(s)..] == rest
      && (f == [] ==> First(s) != 0x2E)
    ensures f != [] ==> Digits(FractionOnto(f, rest)[1..]) == Spelled(f) && First(FractionOnto(f, rest)) == 0x2E
  {
    var s := FractionOnto(f, rest);
    if f != [] {
      SpelledDigits(f);
      DigitRunOf(Spelled(f), rest);
      assert s[1..] == Spelled(f) + rest && s[1 + |f|..] == rest;
    } else {
      assert s[0..] == rest;
    }
  }

  lemma ExponentApart(e: Maybe<Exponent>, rest: seq<byte>)
    ensures ExponentOnto(e, rest) == ExponentOnto(e, []) + rest
  {
    if e.Just? {
      var sign, d := SignText(e.value.sign), Spelled(e.value.digits);
      Regroup(sign, d, rest);
      assert d + [] == d;
      hide Spelled, SignText;
    }
  }

  lemma FractionApart(f: seq<digit>, more: seq<byte>, rest: seq<byte>)
    ensures FractionOnto(f, more + rest) == FractionOnto(f, more) + rest
  {
    if f != [] { Regroup([0x2E] + Spelled(f), more, rest); }
    hide Spelled;
  }

  /** A numeral and what comes behind it. */
  lemma NumeralApart(n: Numeral, rest: seq<byte>)
    ensures NumeralOnto(n, rest) == NumeralOnto(n, []) + rest
  {
    ExponentApart(n.exponent, rest);
    FractionApart(n.fraction, ExponentOnto(n.exponent, []), rest);
    Regroup(Spelled(n.whole), FractionOnto(n.fraction, ExponentOnto(n.exponent, [])), rest);
    hide Spelled, FractionOnto, ExponentOnto;
  }

  /** The parts of a numeral in front of rest. */
  lemma Parts(n: Numeral, rest: seq<byte>)
    requires IsNumber(n) && NumeralEnds(rest)
    ensures var s, sign := NumeralOnto(n, rest), if n.negative then 1 else 0;
      && s != [] && (First(s) == 0x2D <==> n.negative) && (n.negative || 0x30 <= s[0] <= 0x39)
      && s[sign..] == Spelled(n.whole) + FractionOnto(n.fraction, ExponentOnto(n.exponent, rest))
      && s[sign + |n.whole|..] == FractionOnto(n.fraction, ExponentOnto(n.exponent, rest))
      && ReadInt(s[sign..], false) == |n.whole| && Digits(s[sign..]) == Spelled(n.whole)
  {
    hide *;
    var f := FractionOnto(n.fraction, ExponentOnto(n.exponent, rest));
    HasDigits(n);
    ReadExponent(n.exponent, rest);
    ReadFraction(n.fraction, ExponentOnto(n.exponent, rest));
    WholeRead(n, f);
    SignAndWhole(n, rest);
  }

  /** The whole part in front of what is no digit. */
  lemma WholeRead(n: Numeral, f: seq<byte>)
    requires IsNumber(n) && NoDigit(f)
    ensures var d := Spelled(n.whole);
      && d != [] && |d| == |n.whole| && 0x30 <= d[0] <= 0x39
      && ReadInt(d + f, false) == |n.whole| && Digits(d + f) == d
  {
    SpelledDigits(n.whole);
    DigitRunOf(Spelled(n.whole), f);
    assert Spelled(n.whole)[0] == DigitByte(n.whole[0]);
    hide DigitRun, Digits, Spelled, AllDigits;
  }

  lemma SignAndWhole(n: Numeral, rest: seq<byte>)
    requires var d := Spelled(n.whole); d != [] && |d| == |n.whole| && 0x30 <= d[0] <= 0x39
    ensures var s, sign := NumeralOnto(n, rest), if n.negative then 1 else 0;
      && s != [] && (First(s) == 0x2D <==> n.negative) && (n.negative || 0x30 <= s[0] <= 0x39)
      && s[sign..] == Spelled(n.whole) + FractionOnto(n.fraction, ExponentOnto(n.exponent, rest))
      && s[sign + |n.whole|..] == FractionOnto(n.fraction, ExponentOnto(n.exponent, rest))
  {
    hide Spelled, FractionOnto, ExponentOnto;
  }

  lemma NumeralParts(s: seq<byte>, sign: nat, n: nat, m: nat, k: nat)
    requires sign + n + m + k <= |s| && sign == (if First(s) == 0x2D then 1 else 0)
    requires ReadInt(s[sign..], false) == n && FractionLength(s[sign + n..]) == m
    requires ExponentLength(s[sign + n + m..]) == k
    ensures NumeralLength(s) == sign + n + m + k
  {
    hide ReadInt, FractionLength, ExponentLength;
  }

  lemma NumeralRead(n: Numeral, rest: seq<byte>)
    requires IsNumber(n) && NumeralEnds(rest)
    ensures NumeralLength(NumeralOnto(n, rest)) == |NumeralOnto(n, [])|
  {
    hide *;
    var e := ExponentOnto(n.exponent, rest);
    NumeralApart(n, rest);
    Tails(n, rest);
    WholeFirst(n, rest);
    LengthIs(NumeralOnto(n, rest), if n.negative then 1 else 0, |n.whole|, FractionOnto(n.fraction, e), e, rest);
  }

  lemma WholeFirst(n: Numeral, rest: seq<byte>)
    requires IsNumber(n) && NumeralEnds(rest)
    ensures var s, sign := NumeralOnto(n, rest), if n.negative then 1 else 0;
      && sign == (if First(s) == 0x2D then 1 else 0) && sign + |n.whole| <= |s|
      && s[sign + |n.whole|..] == FractionOnto(n.fraction, ExponentOnto(n.exponent, rest))
      && ReadInt(s[sign..], false) == |n.whole|
  {
    hide *;
    Parts(n, rest);
  }

  lemma Tails(n: Numeral, rest: seq<byte>)
    requires IsNumber(n) && NumeralEnds(rest)
    ensures var e := ExponentOnto(n.exponent, rest);
      var f := FractionOnto(n.fraction, e);
      && 0 <= FractionLength(f) && f[FractionLength(f)..] == e
      && 0 <= ExponentLength(e) && e[ExponentLength(e)..] == rest
  {
    hide *;
    HasDigits(n);
    ReadExponent(n.exponent, rest);
    ReadFraction(n.fraction, ExponentOnto(n.exponent, rest));
  }

  lemma LengthIs(s: seq<byte>, sign: nat, n: nat, f: seq<byte>, e: seq<byte>, rest: seq<byte>)
    requires sign == (if First(s) == 0x2D then 1 else 0)
    requires sign + n <= |s| && ReadInt(s[sign..], false) == n && s[sign + n..] == f
    requires 0 <= FractionLength(f) && f[FractionLength(f)..] == e
    requires 0 <= ExponentLength(e) && e[ExponentLength(e)..] == rest
    ensures NumeralLength(s) == |s| - |rest|
  {
    hide *;
    Drops(s, sign + n, f, FractionLength(f), e, ExponentLength(e), rest);
    NumeralParts(s, sign, n, FractionLength(f), ExponentLength(e));
  }

  lemma HasDigits(n: Numeral)
    requires IsNumber(n)
    ensures n.whole != [] && (n.exponent.Just? ==> n.exponent.value.digits != [])
  {}

  lemma Drops(s: seq<byte>, a: nat, f: seq<byte>, m: nat, e: seq<byte>, k: nat, rest: seq<byte>)
    requires a <= |s| && m <= |f| && k <= |e| && s[a..] == f && f[m..] == e && e[k..] == rest
    ensures s[a + m..] == e && |s| == a + m + k + |rest|
  {}

  lemma SizeParts(n: Numeral)
    requires IsNumber(n)
    ensures AllDigits(Spelled(n.whole), 10) && AllDigits(Spelled(n.fraction), 10)
    ensures NumeralSize(NumeralOnto(n, [])) == Assembled(Spelled(n.whole), Spelled(n.fraction), Power(n.exponent))
  {
    hide *;
    var s, sign := NumeralOnto(n, []), if n.negative then 1 else 0;
    var e := ExponentOnto(n.exponent, []);
    var f := FractionOnto(n.fraction, e);
    HasDigits(n);
    NothingFollows();
    Parts(n, []);
    ReadExponent(n.exponent, []);
    ReadFraction(n.fraction, e);
    SpelledDigits(n.whole);
    SpelledDigits(n.fraction);
    NoFraction(e);
    SizeFrom(s, Spelled(n.whole), Spelled(n.fraction), f, e, Power(n.exponent));
  }

  lemma NothingFollows()
    ensures NumeralEnds([])
  {}

  lemma NoFraction(e: seq<byte>)
    ensures FractionOnto([], e) == e && Spelled([]) == []
  {}

  lemma SizeFrom(s: seq<byte>, whole: seq<byte>, fraction: seq<byte>, f: seq<byte>, e: seq<byte>, power: int)
    requires AllDigits(whole, 10) && AllDigits(fraction, 10)
    requires s != [] && var t := if First(s) == 0x2D then s[1..] else s;
      Digits(t) == whole && |whole| <= |t| && t[|whole|..] == f
    requires JsonGrammar.Exponent(e) == power
    requires if fraction == [] then First(f) != 0x2E && f == e
             else First(f) == 0x2E && Digits(f[1..]) == fraction && 1 + |fraction| <= |f| && f[1 + |fraction|..] == e
    ensures NumeralSize(s) == Assembled(whole, fraction, power)
  {
    hide Digits, JsonGrammar.Exponent, Assembled, AllDigits;
  }

  lemma AssembledIsSize(n: Numeral)
    requires IsNumber(n) && AllDigits(Spelled(n.whole), 10) && AllDigits(Spelled(n.fraction), 10)
    ensures Assembled(Spelled(n.whole), Spelled(n.fraction), Power(n.exponent)) == Size(n)
  {
    hide *;
    var p, k := Power(n.exponent), |n.fraction|;
    var w, f := ValueOf(Spelled(n.whole), 10), ValueOf(Spelled(n.fraction), 10);
    ValueOfSpelled(n.whole);
    ValueOfSpelled(n.fraction);
    TenIsPow10(k);
    WorthShifts(n.fraction, -1, k);
    TenAdds(k, p - k);
    ScaledIsTen(w * Pow10(k) + f, p - k);
    AssembledUnfolds(n);
    Combine(w, Pow10(k), f, Worth(n.whole, |n.whole| - 1), Worth(n.fraction, -1), Ten(p - k), Ten(p));
  }

  lemma Combine(w: nat, p: nat, f: nat, whole: real, fraction: real, rest: real, ten: real)
    requires w as real == whole && f as real == fraction * p as real && ten == p as real * rest
    ensures (w * p + f) as real * rest == (whole + fraction) * ten
  {
    Product(w, p);
    Factored(whole, fraction, p as real, rest);
  }

  lemma AssembledUnfolds(n: Numeral)
    requires AllDigits(Spelled(n.whole), 10) && AllDigits(Spelled(n.fraction), 10)
    ensures Assembled(Spelled(n.whole), Spelled(n.fraction), Power(n.exponent))
         == Scaled(ValueOf(Spelled(n.whole), 10) * Pow10(|n.fraction|) + ValueOf(Spelled(n.fraction), 10),
                   Power(n.exponent) - |n.fraction|)
    ensures Size(n) == (Worth(n.whole, |n.whole| - 1) + Worth(n.fraction, -1)) * Ten(Power(n.exponent))
  {
    hide Scaled, ValueOf, Pow10, Spelled, Worth, Ten, Power;
    assert |Spelled(n.fraction)| == |n.fraction|;
  }

  lemma Factored(w: real, f: real, a: real, b: real)
    ensures (w * a + f * a) * b == (w + f) * (a * b)
  {}

  /** A run of digits is converted to what they are worth, if that fits. */
  lemma ConvertWhole(n: Numeral)
    requires IsNumber(n) && n.fraction == [] && n.exponent.Nothing?
    ensures var v := Worth(n.whole, |n.whole| - 1).Floor;
      var signed := if n.negative then -v else v;
      && (Convert(NumeralOnto(n, []), 10, INT).ok <==> -0x8000_0000 <= signed <= 0x7FFF_FFFF)
      && (Convert(NumeralOnto(n, []), 10, INT).ok ==> Convert(NumeralOnto(n, []), 10, INT).value == signed)
  {
    hide *;
    ValueOfSpelled(n.whole);
    var d := Spelled(n.whole);
    WholeText(n);
    ConvertSigned(d, n.negative);
    FitsInt(ValueOf(d, 10), n.negative);
  }

  lemma WholeText(n: Numeral)
    requires IsNumber(n) && n.fraction == [] && n.exponent.Nothing?
    ensures var d := Spelled(n.whole);
      && d != [] && 0x30 <= d[0] <= 0x39 && NumeralOnto(n, []) == if n.negative then [0x2D] + d else d
  {
    var d := Spelled(n.whole);
    assert d[0] == DigitByte(n.whole[0]) && d + [] == d;
    hide Spelled;
  }

  lemma FitsInt(v: nat, negative: bool)
    ensures INT.Fits(Signed(v, negative)) <==> -0x8000_0000 <= (if negative then 0 - v else v) <= 0x7FFF_FFFF
    ensures Signed(v, negative) == if negative then 0 - v else v
    ensures (v as real).Floor == v
  {}

  lemma ConvertSigned(d: seq<byte>, negative: bool)
    requires d != [] && AllDigits(d, 10) && 0x30 <= d[0] <= 0x39
    ensures var s, v := if negative then [0x2D] + d else d, Signed(ValueOf(d, 10), negative);
      Convert(s, 10, INT).ok == INT.Fits(v) && (INT.Fits(v) ==> Convert(s, 10, INT).value == v)
  {
    var s := if negative then [0x2D] + d else d;
    ConvertDigitsOnly(d, negative);
    assert negative ==> s[1..] == d;
    hide ConvertDigits, ValueOf;
  }

  lemma ConvertDigitsOnly(d: seq<byte>, negative: bool)
    requires d != [] && AllDigits(d, 10)
    ensures var v := Signed(ValueOf(d, 10), negative);
      ConvertDigits(d, negative, 10, INT).ok == INT.Fits(v)
      && (INT.Fits(v) ==> ConvertDigits(d, negative, 10, INT).value == v)
  {
    assert d[..|d|] == d;
    RunReaches(d, 10, |d|);
    hide DigitRun, ValueOf, AllDigits;
  }

  lemma ConvertOther(n: Numeral)
    requires IsNumber(n) && (n.fraction != [] || n.exponent.Just?)
    ensures !Convert(NumeralOnto(n, []), 10, INT).ok
  {
    var s, e := NumeralOnto(n, []), ExponentOnto(n.exponent, []);
    var f := FractionOnto(n.fraction, e);
    ReadExponent(n.exponent, []);
    ReadFraction(n.fraction, e);
    Parts(n, []);
    assert f != [];
    hide *;
    HasOther(s, n.negative, |n.whole|, f);
  }

  lemma HasOther(s: seq<byte>, negative: bool, at: nat, f: seq<byte>)
    requires s != [] && (First(s) == 0x2D <==> negative) && (negative || 0x30 <= s[0] <= 0x39) && f != [] && NoDigit(f)
    requires at + (if negative then 1 else 0) <= |s| && s[(if negative then 1 else 0) + at..] == f
    ensures !Convert(s, 10, INT).ok
  {
    ConvertsExactly(s, 10, INT);
    var digits := if s[0] == 0x2D || s[0] == 0x2B then s[1..] else s;
    assert digits[at] == f[0] && WithoutHexPrefix(digits, 10) == digits;
    hide Convert, ValueOf, Digit;
  }

  /** A number is read as what it means. */
  lemma ReadNumber(n: Numeral, rest: seq<byte>, opt: Options)
    requires IsNumber(n) && MayFollow(rest)
    ensures TokenAt(NumeralOnto(n, rest)) == NumberStart
    ensures Number(NumeralOnto(n, rest), opt) == Lift(NumberMeans(n, opt), rest)
  {
    var t := NumeralOnto(n, []);
    assert NumeralEnds(rest) && NumeralEnds([]);
    Follows(rest);
    hide *;
    NumeralApart(n, rest);
    NumeralRead(n, rest);
    Parts(n, rest);
    NumberToken(NumeralOnto(n, rest));
    Cut(t, rest);
    SizeParts(n);
    AssembledIsSize(n);
    if n.fraction == [] && n.exponent.Nothing? {
      ConvertWhole(n);
    } else {
      ConvertOther(n);
    }
    NumberFrom(NumeralOnto(n, rest), |t|, opt, n);
  }

  lemma Follows(rest: seq<byte>)
    requires MayFollow(rest)
    ensures NumeralEnds(rest) && TokenAt(SkipSpace(rest)) in {ObjectEnd, ArrayEnd, Comma, EndOfInput}
  {}

  lemma Cut(t: seq<byte>, rest: seq<byte>)
    ensures (t + rest)[..|t|] == t && (t + rest)[|t|..] == rest
  {}

  lemma NumberToken(s: seq<byte>)
    requires s != [] && (s[0] == 0x2D || 0x30 <= s[0] <= 0x39)
    ensures TokenAt(s) == NumberStart
  {}

  lemma NumberFrom(s: seq<byte>, k: nat, opt: Options, n: Numeral)
    requires 0 < k <= |s| && NumeralLength(s) == k && (s[0] == 0x2D <==> n.negative)
    requires TokenAt(SkipSpace(s[k..])) in {ObjectEnd, ArrayEnd, Comma, EndOfInput}
    requires NumeralSize(s[..k]) == Size(n)
    requires var v := Worth(n.whole, |n.whole| - 1).Floor;
      var signed, c := if n.negative then -v else v, Convert(s[..k], 10, INT);
      && (c.ok <==> n.fraction == [] && n.exponent.Nothing? && -0x8000_0000 <= signed <= 0x7FFF_FFFF)
      && (c.ok ==> c.value == signed)
    ensures Number(s, opt) == Lift(NumberMeans(n, opt), s[k..])
  {
    hide NumeralLength, NumeralSize, Convert, TokenAt, SkipSpace, Size, Worth;
  }
}
