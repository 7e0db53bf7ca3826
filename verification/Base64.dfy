/** Base64: six bits a character, the standard alphabet, '=' for padding. */
module Base64 {
  import opened Bits
  import opened BaseNCode
  import opened BaseNFilters
  import opened Chunks

  const PAD: byte := 0x3D

  /** Table 1 of RFC 4648. */
  function Letter(d: nat): byte
    requires d < 64
  {
    if d < 26 then 0x41 + d else if d < 52 then 0x61 + (d - 26) else if d < 62 then 0x30 + (d - 52)
    else if d == 62 then 0x2B else 0x2F
  }

  /** s_stdVec */
  function Alphabet(): (s: seq<byte>)
    ensures |s| == 64
  {
    seq(64, d requires 0 <= d < 64 => Letter(d))
  }

  /** Section 4 of RFC 4648: three bytes make four characters, and what is left one or two bytes makes four with
      padding. */
  function Quanta(data: seq<byte>): seq<byte> {
    if |data| == 0 then []
    else if |data| == 1 then [Letter(data[0] / 4), Letter(data[0] % 4 * 16), PAD, PAD]
    else if |data| == 2 then
      [Letter(data[0] / 4), Letter(data[0] % 4 * 16 + data[1] / 16), Letter(data[1] % 16 * 4), PAD]
    else
      [Letter(data[0] / 4), Letter(data[0] % 4 * 16 + data[1] / 16), Letter(data[1] % 16 * 4 + data[2] / 64),
       Letter(data[2] % 64)]
      + Quanta(data[3..])
  }

  lemma Powers()
    ensures Pow2(0) == 1 && Pow2(1) == 2 && Pow2(2) == 4 && Pow2(3) == 8 && Pow2(4) == 16 && Pow2(5) == 32
    ensures Pow2(6) == 64
    ensures Pow2(7) == 128 && Pow2(8) == 256
  {}

  /** The first n bits of a byte as a number, and the others. */
  lemma ByteParts(b: byte, n: nat)
    requires n <= 8
    ensures |BitsOf(b, 8)| == 8
    ensures Align(BitsOf(b, 8), n) == b / Pow2(8 - n)
    ensures Align(BitsOf(b, 8)[n..], 8 - n) == b % Pow2(8 - n)
  {
    Powers();
    AlignOfBits(b, 8);
    AlignShr(BitsOf(b, 8), 8, 8 - n);
    AlignLow(BitsOf(b, 8), n, 8 - n);
    SplitIsDivMod(b, 8 - n);
  }

  /** The end of one byte and the start of the next in a digit. */
  lemma TwoParts(p: seq<bool>, q: seq<bool>, n: nat)
    requires |p| == n <= 6
    ensures Align(p + q, 6) == Align(p, n) * Pow2(6 - n) + Align(q, 6 - n)
  {
    AlignJoin(p, q, 6);
    AlignShl(p, n, 6 - n);
  }

  lemma NextDigit(p: seq<bool>, rest: seq<bool>)
    requires |p| == 6
    ensures Digits(p + rest, 6) == [Align(p, 6)] + Digits(rest, 6)
  {
    AlignIgnoresRest(p, rest, 6);
    hide Align;
    assert (p + rest)[6..] == rest;
  }

  lemma FirstDigit(a: byte, rest: seq<bool>)
    ensures var x := BitsOf(a, 8);
      Digits(x + rest, 6) == [a / 4] + Digits(x[6..] + rest, 6)
  {
    var x := BitsOf(a, 8);
    Powers();
    ByteParts(a, 6);
    AlignIgnoresRest(x[..6], x[6..], 6);
    hide Align, BitsOf, Digits, Pow2;
    assert x == x[..6] + x[6..] && x + rest == x[..6] + (x[6..] + rest);
    NextDigit(x[..6], x[6..] + rest);
  }

  lemma Straddle<T>(x: seq<T>, y: seq<T>, rest: seq<T>, n: nat)
    requires n <= |y|
    ensures x + (y + rest) == (x + y[..n]) + (y[n..] + rest)
  {}

  lemma FrontBits(y: seq<bool>, n: nat)
    requires n <= |y|
    ensures Align(y[..n], n) == Align(y, n)
  {
    AlignIgnoresRest(y[..n], y[n..], n);
    assert y == y[..n] + y[n..];
  }

  lemma SecondDigit(a: byte, b: byte, rest: seq<bool>)
    ensures var x, y := BitsOf(a, 8), BitsOf(b, 8);
      Digits(x[6..] + (y + rest), 6) == [a % 4 * 16 + b / 16] + Digits(y[4..] + rest, 6)
  {
    var x, y := BitsOf(a, 8), BitsOf(b, 8);
    Powers();
    ByteParts(a, 6);
    ByteParts(b, 4);
    TwoParts(x[6..], y[..4], 2);
    FrontBits(y, 4);
    hide Align, BitsOf, Digits, Pow2;
    Straddle(x[6..], y, rest, 4);
    NextDigit(x[6..] + y[..4], y[4..] + rest);
  }

  lemma ThirdDigit(b: byte, c: byte, rest: seq<bool>)
    ensures var y, z := BitsOf(b, 8), BitsOf(c, 8);
      Digits(y[4..] + (z + rest), 6) == [b % 16 * 4 + c / 64] + Digits(z[2..] + rest, 6)
  {
    var y, z := BitsOf(b, 8), BitsOf(c, 8);
    Powers();
    ByteParts(b, 4);
    ByteParts(c, 2);
    TwoParts(y[4..], z[..2], 4);
    FrontBits(z, 2);
    hide Align, BitsOf, Digits, Pow2;
    Straddle(y[4..], z, rest, 2);
    NextDigit(y[4..] + z[..2], z[2..] + rest);
  }

  lemma FourthDigit(c: byte, rest: seq<bool>)
    ensures Digits(BitsOf(c, 8)[2..] + rest, 6) == [c % 64] + Digits(rest, 6)
  {
    Powers();
    ByteParts(c, 2);
    hide Align, BitsOf, Digits, Pow2;
    NextDigit(BitsOf(c, 8)[2..], rest);
  }

  /** The last digit of one left byte, or of two. */
  lemma LastDigits(a: byte)
    ensures Digits(BitsOf(a, 8)[6..], 6) == [a % 4 * 16]
    ensures Digits(BitsOf(a, 8)[4..], 6) == [a % 16 * 4]
  {
    Powers();
    var x := BitsOf(a, 8);
    ByteParts(a, 6);
    ByteParts(a, 4);
    TwoParts(x[6..], [], 2);
    TwoParts(x[4..], [], 4);
    hide BitsOf, Digits, Pow2;
    assert x[6..] + [] == x[6..] && x[4..] + [] == x[4..];
  }

  function QuantumDigits(a: byte, b: byte, c: byte): seq<nat> {
    [a / 4, a % 4 * 16 + b / 16, b % 16 * 4 + c / 64, c % 64]
  }

  lemma DataBitsCons(a: byte, rest: seq<byte>)
    ensures DataBits([a] + rest) == BitsOf(a, 8) + DataBits(rest)
  {
    assert ([a] + rest)[1..] == rest;
  }

  lemma ThreeBytes(a: byte, b: byte, c: byte, rest: seq<byte>)
    ensures Digits(DataBits([a, b, c] + rest), 6) == QuantumDigits(a, b, c) + Digits(DataBits(rest), 6)
  {
    var t := DataBits(rest);
    var x, y, z := BitsOf(a, 8), BitsOf(b, 8), BitsOf(c, 8);
    hide BitsOf, Digits, DataBits;
    DataBitsCons(a, [b] + ([c] + rest));
    DataBitsCons(b, [c] + rest);
    DataBitsCons(c, rest);
    assert [a, b, c] + rest == [a] + ([b] + ([c] + rest));
    FirstDigit(a, y + (z + t));
    SecondDigit(a, b, z + t);
    ThirdDigit(b, c, t);
    FourthDigit(c, t);
  }

  lemma TwoBytes(a: byte, b: byte)
    ensures Digits(DataBits([a, b]), 6) == [a / 4, a % 4 * 16 + b / 16, b % 16 * 4]
  {
    var x, y := BitsOf(a, 8), BitsOf(b, 8);
    assert DataBits([]) == [];
    hide BitsOf, Digits, DataBits;
    DataBitsCons(a, [b] + []);
    DataBitsCons(b, []);
    assert [a, b] == [a] + ([b] + []);
    FirstDigit(a, y + []);
    SecondDigit(a, b, []);
    assert y[4..] + [] == y[4..];
    LastDigits(b);
  }

  lemma OneByte(a: byte)
    ensures Digits(DataBits([a]), 6) == [a / 4, a % 4 * 16]
  {
    var x := BitsOf(a, 8);
    assert DataBits([]) == [];
    hide BitsOf, Digits, DataBits;
    DataBitsCons(a, []);
    assert [a] == [a] + [];
    FirstDigit(a, []);
    assert x[6..] + [] == x[6..];
    LastDigits(a);
  }

  lemma SixBits()
    ensures IsAlphabet(Alphabet(), 6) && BlockChars(6) == 4
  {
    Powers();
  }

  lemma {:induction false} EncodedIsQuanta(data: seq<byte>)
    ensures IsAlphabet(Alphabet(), 6)
    ensures Encoded(data, 6, Alphabet(), PAD as int) == Quanta(data)
  {
    SixBits();
    if |data| < 3 {
      LastQuantum(data);
    } else {
      var rest := data[3..];
      assert data == [data[0], data[1], data[2]] + rest;
      ThreeBytes(data[0], data[1], data[2], rest);
      EncodedIsQuanta(rest);
      hide Digits, DataBits;
      EncodedQuantum(data, rest, QuantumDigits(data[0], data[1], data[2]));
    }
  }

  lemma LastQuantum(data: seq<byte>)
    requires |data| < 3 && IsAlphabet(Alphabet(), 6)
    ensures Encoded(data, 6, Alphabet(), PAD as int) == Quanta(data)
  {
    hide *;
    if data == [] {
      NoQuantum();
    } else if |data| == 1 {
      assert data == [data[0]];
      OneQuantum(data[0]);
    } else {
      assert data == [data[0], data[1]];
      TwoQuantum(data[0], data[1]);
    }
  }

  lemma NoQuantum()
    requires IsAlphabet(Alphabet(), 6)
    ensures Encoded([], 6, Alphabet(), PAD as int) == Quanta([])
  {
    NoByte();
    hide Digits, DataBits, Encoded;
    Spelled([], []);
  }

  lemma OneQuantum(a: byte)
    requires IsAlphabet(Alphabet(), 6)
    ensures Encoded([a], 6, Alphabet(), PAD as int) == Quanta([a])
  {
    OneByte(a);
    hide Digits, DataBits, Encoded, Letter;
    Spelled([a], [a / 4, a % 4 * 16]);
  }

  lemma TwoQuantum(a: byte, b: byte)
    requires IsAlphabet(Alphabet(), 6)
    ensures Encoded([a, b], 6, Alphabet(), PAD as int) == Quanta([a, b])
  {
    TwoBytes(a, b);
    hide Digits, DataBits, Encoded, Letter;
    Spelled([a, b], [a / 4, a % 4 * 16 + b / 16, b % 16 * 4]);
  }

  lemma NoByte()
    ensures Digits(DataBits([]), 6) == []
  {}

  /** The letters of up to three digits, and the padding behind them. */
  lemma Spelled(data: seq<byte>, d: seq<nat>)
    requires IsAlphabet(Alphabet(), 6) && Digits(DataBits(data), 6) == d && |d| < 4
    ensures forall i :: 0 <= i < |d| ==> d[i] < 64
    ensures Encoded(data, 6, Alphabet(), PAD as int)
         == (if |d| == 0 then [] else if |d| == 1 then [Letter(d[0]), PAD, PAD, PAD]
             else if |d| == 2 then [Letter(d[0]), Letter(d[1]), PAD, PAD]
             else [Letter(d[0]), Letter(d[1]), Letter(d[2]), PAD])
  {
    Powers();
    assert Encoded(data, 6, Alphabet(), PAD as int) == Letters(d, Alphabet()) + Padded(|d|, 4, PAD as int);
    hide Digits, DataBits, Encoded, Letter;
  }

  lemma EncodedQuantum(data: seq<byte>, rest: seq<byte>, q: seq<nat>)
    requires IsAlphabet(Alphabet(), 6) && |q| == 4 && AreDigits(q, 6)
    requires Digits(DataBits(data), 6) == q + Digits(DataBits(rest), 6)
    ensures Encoded(data, 6, Alphabet(), PAD as int)
            == Letters(q, Alphabet()) + Encoded(rest, 6, Alphabet(), PAD as int)
  {
    Powers();
    hide Digits, DataBits, Pow2;
    var d := Digits(DataBits(rest), 6);
    assert Letters(q + d, Alphabet()) == Letters(q, Alphabet()) + Letters(d, Alphabet());
    assert PadLength(4 + |d|, 4) == PadLength(|d|, 4);
  }

  /** No two digits share a letter, and none has the padding. */
  lemma LettersDiffer(i: nat, j: nat)
    requires i < 64 && j < 64
    ensures Letter(i) == Letter(j) ==> i == j
    ensures Letter(i) != PAD
  {}

  /** The table InitializeDecodingLookupArray makes from the standard alphabet. */
  ghost predicate IsStandardTable(lookup: seq<int>) {
    |lookup| == 256 && forall c: byte :: lookup[c] == LastMatch(Alphabet(), 64, c, false)
  }

  /** What Base64Encoder puts between lines and at the end. */
  function LineBreak(insertLineBreaks: bool): seq<byte> { if insertLineBreaks then [0x0A] else [] }

  function LineLength(insertLineBreaks: bool, maxLineLength: nat): nat { if insertLineBreaks then maxLineLength else 0 }

  /** With the table made from the standard alphabet, base64 text decodes to the data it was made from, with line breaks
      or without. */
  lemma Base64RoundTrip(data: seq<byte>, lookup: seq<int>, insertLineBreaks: bool, maxLineLength: nat)
    requires IsStandardTable(lookup)
    ensures var lines := Grouped(Quanta(data), 0, LineLength(insertLineBreaks, maxLineLength),
                                 LineBreak(insertLineBreaks));
      Decoded(lines + LineBreak(insertLineBreaks), 6, lookup) == data
  {
    var lineBreak := LineBreak(insertLineBreaks);
    TableReads(lookup, insertLineBreaks);
    EncodedIsQuanta(data);
    hide *;
    RoundTrip(data, 6, Alphabet(), PAD as int, lookup, LineLength(insertLineBreaks, maxLineLength), lineBreak,
              lineBreak);
  }

  lemma TableReads(lookup: seq<int>, insertLineBreaks: bool)
    requires IsStandardTable(lookup)
    ensures IsAlphabet(Alphabet(), 6) && Inverts(lookup, Alphabet(), 6) && IsLookup(lookup, 6)
    ensures !Seen(lookup, PAD) && Invisible(LineBreak(insertLineBreaks), lookup)
  {
    hide IsStandardTable, LastMatch, Inverts;
    SixBits();
    TableOfLetters(lookup);
    NotInAlphabet(lookup, PAD);
    NotInAlphabet(lookup, 0x0A);
  }

  /** Base64Encoder and Base64Decoder, fed in chunks, give the message back. */
  method EncodeDecode(data: seq<seq<byte>>, insertLineBreaks: bool, maxLineLength: nat, cuts: seq<nat>, cuts': seq<nat>)
      returns (back: seq<byte>)
    requires data != []
    ensures back == Join(data)
  {
    var table := new int[256];
    SixBits();
    InitializeDecodingLookupArray(table, Alphabet(), 64, false);
    var lookup, lineBreak := table[..], LineBreak(insertLineBreaks);
    assert IsStandardTable(lookup);
    TableReads(lookup, insertLineBreaks);
    hide *;
    back := EncodeGroupDecode(data, 6, Alphabet(), PAD, lookup, LineLength(insertLineBreaks, maxLineLength), lineBreak,
                              lineBreak, cuts, cuts');
  }

  lemma TableOfLetters(lookup: seq<int>)
    requires IsStandardTable(lookup)
    ensures Inverts(lookup, Alphabet(), 6) && IsLookup(lookup, 6)
  {
    forall i, j | 0 <= i < j < 64 ensures !Matches(Alphabet()[j], Alphabet()[i], false) { LettersDiffer(i, j); }
    hide LastMatch, Pow2;
    TableInverts(lookup, Alphabet(), 6, false);
  }

  lemma NotInAlphabet(lookup: seq<int>, c: byte)
    requires IsStandardTable(lookup) && (c == PAD || c == 0x0A)
    ensures !Seen(lookup, c)
  {}
}
