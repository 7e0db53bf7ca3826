/** Encoding bytes in characters of one to seven bits, and back. */
module BaseNCode {
  import opened Bits
  import Utf8

  type byte = Utf8.byte

  // ----- strings of bits as numbers --------------------------------------------------------------------------

  /** The first w bits of s, zeros behind them if there are fewer, as a number of w bits. */
  function Align(s: seq<bool>, w: nat): (n: nat)
    ensures n < Pow2(w)
  {
    if w == 0 || s == [] then 0 else (if s[0] then Pow2(w - 1) else 0) + Align(s[1..], w - 1)
  }

  /** A number as w bits, the most significant first. */
  function BitsOf(v: nat, w: nat): (s: seq<bool>)
    ensures |s| == w
  {
    if w == 0 then []
    else if v >= Pow2(w - 1) then [true] + BitsOf(v - Pow2(w - 1), w - 1)
    else [false] + BitsOf(v, w - 1)
  }

  lemma {:induction false} AlignOfBits(v: nat, w: nat)
    requires v < Pow2(w)
    ensures Align(BitsOf(v, w), w) == v
  {
    if w > 0 { AlignOfBits(if v >= Pow2(w - 1) then v - Pow2(w - 1) else v, w - 1); }
  }

  lemma {:induction false} BitsOfAlign(s: seq<bool>, w: nat)
    requires |s| == w
    ensures BitsOf(Align(s, w), w) == s
  {
    if w > 0 {
      BitsOfAlign(s[1..], w - 1);
      assert s == [s[0]] + s[1..];
    }
  }

  lemma {:induction false} AlignHalf(s: seq<bool>, w: nat)
    ensures Align(s, w + 1) / 2 == Align(s, w)
  {
    if w > 0 && s != [] { AlignHalf(s[1..], w - 1); }
  }

  /** Shifting right drops bits at the end. */
  lemma {:induction false} AlignShr(s: seq<bool>, w: nat, k: nat)
    requires k <= w
    ensures Shr(Align(s, w), k) == Align(s, w - k)
  {
    if k > 0 {
      AlignHalf(s, w - 1);
      AlignShr(s, w - 1, k - 1);
    }
  }

  lemma {:induction false} AlignTwice(s: seq<bool>, w: nat)
    requires |s| <= w
    ensures Align(s, w + 1) == 2 * Align(s, w)
  {
    if s != [] { AlignTwice(s[1..], w - 1); }
  }

  /** Shifting left makes room for bits at the end. */
  lemma {:induction false} AlignShl(s: seq<bool>, w: nat, k: nat)
    requires |s| <= w
    ensures Shl(Align(s, w), k) == Align(s, w + k)
  {
    if k > 0 {
      AlignShl(s, w, k - 1);
      AlignTwice(s, w + k - 1);
      TwiceProduct(Align(s, w), Pow2(k - 1));
    }
  }

  lemma {:induction false} LowAdd(n: nat, k: nat, w: nat)
    requires k >= w
    ensures Low(Pow2(k) + n, w) == Low(n, w)
  {
    if w > 0 {
      assert (Pow2(k) + n) / 2 == Pow2(k - 1) + n / 2;
      LowAdd(n / 2, k - 1, w - 1);
    }
  }

  lemma {:induction false} LowSmall(n: nat, w: nat)
    requires n < Pow2(w)
    ensures Low(n, w) == n
  {
    if w > 0 { LowSmall(n / 2, w - 1); }
  }

  /** Cutting off high bits drops bits at the front. */
  lemma {:induction false} AlignLow(s: seq<bool>, j: nat, w: nat)
    requires j <= |s|
    ensures Low(Align(s, j + w), w) == Align(s[j..], w)
  {
    if j == 0 {
      assert s[0..] == s;
      LowSmall(Align(s, w), w);
    } else {
      AlignLow(s[1..], j - 1, w);
      assert s[1..][j - 1..] == s[j..];
      LowAdd(Align(s[1..], j - 1 + w), j - 1 + w, w);
    }
  }

  lemma {:induction false} AlignLowZero(p: seq<bool>, w: nat)
    requires |p| <= w
    ensures Low(Align(p, w), w - |p|) == 0
  {
    if p != [] {
      AlignLowZero(p[1..], w - 1);
      LowAdd(Align(p[1..], w - 1), w - 1, w - |p|);
    } else {
      LowSmall(0, w);
    }
  }

  /** Bitwise or */
  function Or(a: nat, b: nat): nat {
    if a == 0 then b else if b == 0 then a
    else 2 * Or(a / 2, b / 2) + if a % 2 == 1 || b % 2 == 1 then 1 else 0
  }

  lemma {:induction false} OrDisjoint(a: nat, b: nat, k: nat)
    requires Low(a, k) == 0 && b < Pow2(k)
    ensures Or(a, b) == a + b
  {
    if k > 0 && a > 0 && b > 0 { OrDisjoint(a / 2, b / 2, k - 1); }
  }

  lemma {:induction false} AlignJoin(p: seq<bool>, q: seq<bool>, w: nat)
    requires |p| <= w
    ensures Align(p, w) + Align(q, w - |p|) == Align(p + q, w)
  {
    if p == [] {
      assert p + q == q;
    } else {
      AlignJoin(p[1..], q, w - 1);
      assert (p + q)[1..] == p[1..] + q;
    }
  }

  /** Or-ing bits in behind others. */
  lemma OrJoin(p: seq<bool>, q: seq<bool>, w: nat)
    requires |p| <= w
    ensures Or(Align(p, w), Align(q, w - |p|)) == Align(p + q, w)
  {
    AlignLowZero(p, w);
    OrDisjoint(Align(p, w), Align(q, w - |p|), w - |p|);
    AlignJoin(p, q, w);
  }

  // ----- the code --------------------------------------------------------------------------------------------

  function DataBits(data: seq<byte>): seq<bool> {
    if data == [] then [] else BitsOf(data[0], 8) + DataBits(data[1..])
  }

  /** The bits in groups of w, the last one filled up with zeros. */
  function Digits(s: seq<bool>, w: nat): (digits: seq<nat>)
    requires w > 0
    ensures AreDigits(digits, w)
    decreases |s|
  {
    if s == [] then [] else [Align(s, w)] + Digits(s[Min(w, |s|)..], w)
  }

  function Min(a: nat, b: nat): nat { if a <= b then a else b }

  function DigitBits(digits: seq<nat>, w: nat): seq<bool> {
    if digits == [] then [] else BitsOf(digits[0], w) + DigitBits(digits[1..], w)
  }

  /** The whole bytes there are. */
  function Bytes(s: seq<bool>): seq<byte>
    decreases |s|
  {
    if |s| < 8 then [] else [ByteOf(s)] + Bytes(s[8..])
  }

  function ByteOf(s: seq<bool>): byte {
    assert Pow2(8) == 256;
    Align(s, 8)
  }

  function Zeros(n: nat): seq<bool> { seq(n, _ => false) }

  lemma {:induction false} AlignIgnoresZeros(s: seq<bool>, n: nat, w: nat)
    ensures Align(s + Zeros(n), w) == Align(s, w)
    decreases w
  {
    if w > 0 {
      if s != [] {
        assert (s + Zeros(n))[1..] == s[1..] + Zeros(n);
        AlignIgnoresZeros(s[1..], n, w - 1);
      } else if n > 0 {
        assert ([] + Zeros(n))[1..] == [] + Zeros(n - 1);
        AlignIgnoresZeros([], n - 1, w - 1);
      } else {
        assert [] + Zeros(0) == [];
      }
    }
  }

  lemma {:induction false} AlignIgnoresRest(s: seq<bool>, t: seq<bool>, w: nat)
    requires |s| >= w
    ensures Align(s + t, w) == Align(s, w)
  {
    if w > 0 {
      assert (s + t)[1..] == s[1..] + t;
      AlignIgnoresRest(s[1..], t, w - 1);
    }
  }

  /** A group of bits comes back, filled up with zeros if it was short. */
  lemma DigitBack(s: seq<bool>, w: nat)
    ensures BitsOf(Align(s, w), w) == if |s| >= w then s[..w] else s + Zeros(w - |s|)
  {
    if |s| >= w {
      assert s == s[..w] + s[w..];
      AlignIgnoresRest(s[..w], s[w..], w);
      BitsOfAlign(s[..w], w);
    } else {
      AlignIgnoresZeros(s, w - |s|, w);
      BitsOfAlign(s + Zeros(w - |s|), w);
    }
  }

  /** Decoding the digits gives the bits back, with fewer than w zeros behind them. */
  lemma {:induction false} DigitsBack(s: seq<bool>, w: nat) returns (n: nat)
    requires w > 0
    ensures n < w && DigitBits(Digits(s, w), w) == s + Zeros(n)
    decreases |s|
  {
    if s == [] {
      n := 0;
      assert [] + Zeros(0) == [];
    } else {
      DigitBack(s, w);
      var rest := s[Min(w, |s|)..];
      n := DigitsBack(rest, w);
      var d := Digits(s, w);
      assert d[1..] == Digits(rest, w);
      hide Align, BitsOf, Digits;
      if |s| >= w {
        assert s[..w] + (rest + Zeros(n)) == s + Zeros(n);
      } else {
        assert rest == [] && DigitBits(Digits(rest, w), w) == [] + Zeros(n);
        n := w - |s|;
      }
    }
  }

  lemma FirstByte(b: byte, rest: seq<bool>)
    ensures Bytes(BitsOf(b, 8) + rest) == [b] + Bytes(rest)
  {
    var first := BitsOf(b, 8);
    assert Pow2(8) == 256;
    AlignIgnoresRest(first, rest, 8);
    AlignOfBits(b, 8);
    hide Align, BitsOf;
    assert (first + rest)[8..] == rest;
  }

  lemma {:induction false} BytesBack(data: seq<byte>, rest: seq<bool>)
    requires |rest| < 8
    ensures Bytes(DataBits(data) + rest) == data
  {
    if data == [] {
      assert DataBits(data) + rest == rest;
    } else {
      var tail := DataBits(data[1..]) + rest;
      assert DataBits(data) + rest == BitsOf(data[0], 8) + tail;
      BytesBack(data[1..], rest);
      hide Align, BitsOf, DataBits, Bytes;
      FirstByte(data[0], tail);
    }
  }

  /** The code undoes itself. */
  lemma CodeRoundTrip(data: seq<byte>, w: nat)
    requires 1 <= w <= 7
    ensures Bytes(DigitBits(Digits(DataBits(data), w), w)) == data
  {
    var n := DigitsBack(DataBits(data), w);
    BytesBack(data, Zeros(n));
  }

  // ----- the code bit by bit ---------------------------------------------------------------------------------

  /** The bit of weight 2^t. */
  function Weight(v: nat, t: nat): nat { v / Pow2(t) % 2 }

  lemma {:induction false} LastOfAlign(s: seq<bool>, n: nat)
    requires n > 0
    ensures Align(s, n) % 2 == if n <= |s| && s[n - 1] then 1 else 0
  {
    if s == [] {
    } else if n == 1 {
      assert Align(s[1..], 0) == 0 && Pow2(0) == 1;
    } else {
      LastOfAlign(s[1..], n - 1);
      assert Align(s, n) == (if s[0] then 2 * Pow2(n - 2) else 0) + Align(s[1..], n - 1);
      hide Align, Pow2;
    }
  }

  /** A digit's bits from the top are the bits it is made of, and then zeros. */
  lemma AlignBit(s: seq<bool>, w: nat, j: nat)
    requires j < w
    ensures Weight(Align(s, w), w - 1 - j) == if j < |s| && s[j] then 1 else 0
  {
    AlignShr(s, w, w - 1 - j);
    SplitIsDivMod(Align(s, w), w - 1 - j);
    LastOfAlign(s, j + 1);
    hide Align, Shr;
  }

  lemma BitOfBits(v: nat, w: nat, j: nat)
    requires v < Pow2(w) && j < w
    ensures BitsOf(v, w)[j] <==> Weight(v, w - 1 - j) == 1
  {
    AlignOfBits(v, w);
    AlignBit(BitsOf(v, w), w, j);
    hide BitsOf, Align, Weight;
  }

  lemma {:induction false} DataBitAt(data: seq<byte>, m: nat)
    requires m < 8 * |data|
    ensures |DataBits(data)| == 8 * |data| && (DataBits(data)[m] <==> Weight(data[m / 8], 7 - m % 8) == 1)
  {
    assert Pow2(8) == 256;
    DataBitsJoin(data, []);
    if m < 8 {
      BitOfBits(data[0], 8, m);
    } else {
      DataBitAt(data[1..], m - 8);
      assert m / 8 == (m - 8) / 8 + 1 && m % 8 == (m - 8) % 8;
    }
    hide Weight;
  }

  lemma {:induction false} DigitAt(s: seq<bool>, w: nat, k: nat)
    requires w > 0 && k < |Digits(s, w)|
    ensures w * k < |s| && Digits(s, w)[k] == Align(s[w * k..], w)
    decreases k
  {
    hide *;
    DigitsUnfold(s, w);
    if k > 0 {
      var n := if w <= |s| then w else |s|;
      DigitAt(s[n..], w, k - 1);
      OneDigitOn(w, k);
      SkipTwice(s, w, w * (k - 1));
    } else {
      NoneSkipped(s, w);
    }
  }

  lemma DigitsUnfold(s: seq<bool>, w: nat)
    requires w > 0 && Digits(s, w) != []
    ensures var n := if w <= |s| then w else |s|;
      && s != [] && Digits(s, w) == [Align(s, w)] + Digits(s[n..], w)
      && (n < w ==> s[n..] == [] && Digits(s[n..], w) == [])
  {
    hide Align;
  }

  lemma SkipTwice(s: seq<bool>, w: nat, m: nat)
    requires w + m <= |s|
    ensures s[w..][m..] == s[w + m..]
  {}

  lemma NoneSkipped(s: seq<bool>, w: nat)
    ensures w * 0 == 0 && s[0..] == s
  {}

  lemma OneDigitOn(w: nat, k: nat)
    requires k > 0
    ensures w * k == w + w * (k - 1)
  {}

  /** Bit j of digit k is bit w k + j of the data, the bytes one after the other from their highest bits down, or zero
      behind the end. */
  lemma DigitBit(data: seq<byte>, w: nat, k: nat, j: nat)
    requires j < w && k < |Digits(DataBits(data), w)|
    ensures var m := w * k + j;
      Digits(DataBits(data), w)[k] / Pow2(w - 1 - j) % 2
      == if m < 8 * |data| then data[m / 8] as nat / Pow2(7 - m % 8) % 2 else 0
  {
    var s, at := DataBits(data), w * k;
    DataBitsJoin(data, []);
    hide *;
    DigitAt(s, w, k);
    AlignBit(s[at..], w, j);
    if at + j < 8 * |data| { DataBitAt(data, at + j); }
    SameBit(Digits(s, w)[k], w - 1 - j, if at + j < 8 * |data| then data[(at + j) / 8] else 0, 7 - (at + j) % 8,
            j < |s[at..]| && s[at..][j]);
  }

  lemma SameBit(digit: nat, t: nat, b: nat, u: nat, bit: bool)
    ensures Weight(digit, t) == digit / Pow2(t) % 2 && Weight(b, u) == b / Pow2(u) % 2
    ensures Weight(b, u) < 2
  {}

  lemma {:induction false} DigitBitsMore(digits: seq<nat>, d: nat, w: nat)
    ensures DigitBits(digits + [d], w) == DigitBits(digits, w) + BitsOf(d, w)
  {
    if digits == [] {
      assert [d][1..] == [];
    } else {
      assert (digits + [d])[1..] == digits[1..] + [d];
      DigitBitsMore(digits[1..], d, w);
    }
  }

  lemma {:induction false} DataBitsMore(data: seq<byte>, b: byte)
    ensures DataBits(data + [b]) == DataBits(data) + BitsOf(b, 8)
  {
    if data == [] {
      assert [b][1..] == [];
    } else {
      assert (data + [b])[1..] == data[1..] + [b];
      DataBitsMore(data[1..], b);
    }
  }

  predicate AreDigits(digits: seq<nat>, w: nat) { forall i :: 0 <= i < |digits| ==> digits[i] < Pow2(w) }

  /** Full digits and a part of one are the digits of their bits. */
  lemma {:induction false} DigitsOfParts(digits: seq<nat>, partial: seq<bool>, w: nat)
    requires w > 0 && AreDigits(digits, w) && |partial| < w
    ensures Digits(DigitBits(digits, w) + partial, w) == digits + if partial == [] then [] else [Align(partial, w)]
  {
    if digits == [] {
      assert DigitBits(digits, w) + partial == partial;
      if partial != [] { assert partial[|partial|..] == []; }
    } else {
      var rest := DigitBits(digits[1..], w) + partial;
      assert DigitBits(digits, w) + partial == BitsOf(digits[0], w) + rest;
      DigitsOfParts(digits[1..], partial, w);
      hide Align, BitsOf, DigitBits, Digits;
      FirstDigit(digits[0], rest, w);
      Reattach(digits, if partial == [] then [] else [Align(partial, w)]);
    }
  }

  lemma Reattach<T>(s: seq<T>, t: seq<T>)
    requires s != []
    ensures [s[0]] + (s[1..] + t) == s + t
  {}

  lemma FirstDigit(d: nat, rest: seq<bool>, w: nat)
    requires w > 0 && d < Pow2(w)
    ensures Digits(BitsOf(d, w) + rest, w) == [d] + Digits(rest, w)
  {
    var first := BitsOf(d, w);
    AlignIgnoresRest(first, rest, w);
    AlignOfBits(d, w);
    hide Align, BitsOf;
    assert (first + rest)[w..] == rest;
  }

  lemma {:induction false} DigitBitsJoin(a: seq<nat>, b: seq<nat>, w: nat)
    ensures DigitBits(a + b, w) == DigitBits(a, w) + DigitBits(b, w)
    ensures |DigitBits(a, w)| == w * |a|
  {
    if a == [] {
      assert a + b == b && w * 0 == 0;
    } else {
      assert (a + b)[1..] == a[1..] + b;
      hide BitsOf;
      DigitBitsJoin(a[1..], b, w);
      OneDigitOn(w, |a|);
    }
  }

  lemma {:induction false} DataBitsJoin(a: seq<byte>, b: seq<byte>)
    ensures DataBits(a + b) == DataBits(a) + DataBits(b)
    ensures |DataBits(a)| == 8 * |a|
  {
    if a == [] {
      assert a + b == b;
    } else {
      assert (a + b)[1..] == a[1..] + b;
      DataBitsJoin(a[1..], b);
    }
  }

  // ----- characters ------------------------------------------------------------------------------------------

  /** The characters of a block that ends at a byte, and its bytes. */
  function BlockChars(w: nat): (n: nat)
    requires 1 <= w <= 7
    ensures n > 0 && w * n == 8 * BlockBytes(w)
  {
    match w case 2 => 4 case 4 => 2 case 6 => 4 case _ => 8
  }

  function BlockBytes(w: nat): (n: nat)
    requires 1 <= w <= 7
    ensures n > 0
  {
    match w case 2 => 1 case 4 => 1 case 6 => 3 case _ => w
  }

  function Letters(digits: seq<nat>, alphabet: seq<byte>): (s: seq<byte>)
    requires forall i :: 0 <= i < |digits| ==> digits[i] < |alphabet|
    ensures |s| == |digits|
  {
    seq(|digits|, i requires 0 <= i < |digits| => alphabet[digits[i]])
  }

  /** How many characters fill up the last block, if there is one. */
  function PadLength(n: nat, block: nat): nat
    requires block > 0
  {
    if n == 0 then 0 else if n <= block then block - n else PadLength(n - block, block)
  }

  /** The padding character, or -1 for none. */
  function Padded(n: nat, block: nat, padding: int): seq<byte>
    requires block > 0 && -1 <= padding < 256
  {
    if padding == -1 then [] else seq(PadLength(n, block), _ => padding)
  }

  /** The padding fills up the last block. */
  lemma {:induction false} PadLengthFills(n: nat, block: nat)
    requires block > 0
    ensures PadLength(n, block) < block && (n + PadLength(n, block)) % block == 0
  {
    RemainderStep(n + PadLength(n, block), block);
    if n > block {
      PadLengthFills(n - block, block);
    } else if n > 0 {
      RemainderStep(0, block);
    }
  }

  predicate IsAlphabet(alphabet: seq<byte>, w: nat) { |alphabet| == Pow2(w) }

  /** The text of data; section 4 of RFC 4648 for six bits, its alphabet and its padding. */
  function Encoded(data: seq<byte>, w: nat, alphabet: seq<byte>, padding: int): seq<byte>
    requires 1 <= w <= 7 && IsAlphabet(alphabet, w) && -1 <= padding < 256
  {
    var digits := Digits(DataBits(data), w);
    Letters(digits, alphabet) + Padded(|digits|, BlockChars(w), padding)
  }

  /** What a lookup table makes of a character: a digit, or nothing. */
  predicate Seen(lookup: seq<int>, c: byte)
    requires |lookup| == 256
  {
    0 <= lookup[c] < 256
  }

  function Values(s: seq<byte>, lookup: seq<int>): seq<nat>
    requires |lookup| == 256
  {
    if s == [] then [] else (if Seen(lookup, s[0]) then [lookup[s[0]]] else []) + Values(s[1..], lookup)
  }

  function Decoded(s: seq<byte>, w: nat, lookup: seq<int>): seq<byte>
    requires |lookup| == 256
  {
    Bytes(DigitBits(Values(s, lookup), w))
  }

  /** Grouper: a separator goes before a character whenever the group before it is full. */
  function Grouped(s: seq<byte>, counter: nat, groupSize: nat, separator: seq<byte>): seq<byte> {
    if groupSize == 0 then s
    else if s == [] then []
    else if counter == groupSize then separator + [s[0]] + Grouped(s[1..], 1, groupSize, separator)
    else [s[0]] + Grouped(s[1..], counter + 1, groupSize, separator)
  }

  predicate Inverts(lookup: seq<int>, alphabet: seq<byte>, w: nat) {
    |lookup| == 256 && IsAlphabet(alphabet, w) && forall d :: 0 <= d < |alphabet| ==> lookup[alphabet[d]] == d
  }

  predicate Invisible(s: seq<byte>, lookup: seq<int>)
    requires |lookup| == 256
  {
    forall i :: 0 <= i < |s| ==> !Seen(lookup, s[i])
  }

  lemma {:induction false} ValuesJoin(a: seq<byte>, b: seq<byte>, lookup: seq<int>)
    requires |lookup| == 256
    ensures Values(a + b, lookup) == Values(a, lookup) + Values(b, lookup)
    ensures Invisible(a, lookup) ==> Values(a, lookup) == []
  {
    if a == [] {
      assert a + b == b;
    } else {
      assert (a + b)[0] == a[0] && (a + b)[1..] == a[1..] + b;
      ValuesJoin(a[1..], b, lookup);
      hide Seen;
    }
  }

  lemma {:induction false} ValuesOfLetters(digits: seq<nat>, w: nat, alphabet: seq<byte>, lookup: seq<int>)
    requires Inverts(lookup, alphabet, w) && 1 <= w <= 7 && AreDigits(digits, w)
    ensures Values(Letters(digits, alphabet), lookup) == digits
  {
    if digits != [] {
      assert Letters(digits, alphabet)[1..] == Letters(digits[1..], alphabet);
      ValuesOfLetters(digits[1..], w, alphabet, lookup);
      assert Pow2(7) == 128;
      PowMono(w, 7);
    }
  }

  lemma {:induction false} PowMono(a: nat, b: nat)
    requires a <= b
    ensures Pow2(a) <= Pow2(b)
    decreases b - a
  {
    if a < b { PowMono(a, b - 1); }
  }

  /** Separators that are not in the alphabet do not matter. */
  lemma {:induction false} ValuesOfGrouped(s: seq<byte>, counter: nat, groupSize: nat, separator: seq<byte>,
                                           lookup: seq<int>)
    requires |lookup| == 256 && Invisible(separator, lookup)
    ensures Values(Grouped(s, counter, groupSize, separator), lookup) == Values(s, lookup)
    decreases |s|
  {
    if groupSize > 0 && s != [] {
      var full := counter == groupSize;
      var tail := Grouped(s[1..], if full then 1 else counter + 1, groupSize, separator);
      ValuesOfGrouped(s[1..], if full then 1 else counter + 1, groupSize, separator, lookup);
      assert s == [s[0]] + s[1..];
      ValuesJoin([s[0]], s[1..], lookup);
      ValuesJoin([s[0]], tail, lookup);
      ValuesJoin(separator, [s[0]] + tail, lookup);
      assert full ==> Grouped(s, counter, groupSize, separator) == separator + ([s[0]] + tail);
    }
  }

  /** Decoding undoes encoding, padded or not and grouped or not. */
  lemma RoundTrip(data: seq<byte>, w: nat, alphabet: seq<byte>, padding: int, lookup: seq<int>,
                  groupSize: nat, separator: seq<byte>, terminator: seq<byte>)
    requires 1 <= w <= 7 && Inverts(lookup, alphabet, w) && -1 <= padding < 256
    requires padding >= 0 ==> !Seen(lookup, padding)
    requires Invisible(separator, lookup) && Invisible(terminator, lookup)
    ensures Decoded(Grouped(Encoded(data, w, alphabet, padding), 0, groupSize, separator) + terminator, w, lookup)
            == data
  {
    ValuesOfEncoded(data, w, alphabet, padding, lookup);
    CodeRoundTrip(data, w);
    hide Digits, DataBits, Bytes, DigitBits, Values, Grouped, Encoded, Invisible, Inverts;
    var text := Encoded(data, w, alphabet, padding);
    ValuesOfGrouped(text, 0, groupSize, separator, lookup);
    InvisibleTail(Grouped(text, 0, groupSize, separator), terminator, lookup);
  }

  lemma InvisibleTail(s: seq<byte>, t: seq<byte>, lookup: seq<int>)
    requires |lookup| == 256 && Invisible(t, lookup)
    ensures Values(s + t, lookup) == Values(s, lookup)
  {
    ValuesJoin(s, t, lookup);
    ValuesJoin(t, [], lookup);
    hide Values, Invisible;
    assert Values(s, lookup) + [] == Values(s, lookup);
  }

  lemma ValuesOfEncoded(data: seq<byte>, w: nat, alphabet: seq<byte>, padding: int, lookup: seq<int>)
    requires 1 <= w <= 7 && Inverts(lookup, alphabet, w) && -1 <= padding < 256
    requires padding >= 0 ==> !Seen(lookup, padding)
    ensures Values(Encoded(data, w, alphabet, padding), lookup) == Digits(DataBits(data), w)
  {
    var digits := Digits(DataBits(data), w);
    var pad := Padded(|digits|, BlockChars(w), padding);
    assert Invisible(pad, lookup);
    hide Digits, DataBits, Values, Letters, Invisible, Padded;
    InvisibleTail(Letters(digits, alphabet), pad, lookup);
    ValuesOfLetters(digits, w, alphabet, lookup);
  }
}
