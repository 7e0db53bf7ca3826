/** BER lengths, unsigned integers and object identifiers: sections 8.1.3, 8.3, 8.19 and 10.1 of X.690. */
module BerCoding {
  import opened BufferedBytes

  // ----- base 256 --------------------------------------------------------------------------------------------

  /** BytePrecision */
  function Precision(v: nat): (n: nat)
    ensures v == 0 <==> n == 0
  {
    if v == 0 then 0 else 1 + Precision(v / 256)
  }

  /** The low n bytes of v, most significant first. */
  function BigEndian(v: nat, n: nat): (s: seq<byte>)
    ensures |s| == n
  {
    if n == 0 then [] else BigEndian(v / 256, n - 1) + [v % 256]
  }

  function FromBytes(s: seq<byte>): nat {
    if s == [] then 0 else FromBytes(s[..|s| - 1]) * 256 + s[|s| - 1]
  }

  lemma {:induction false} FromBigEndian(v: nat, n: nat)
    requires Precision(v) <= n
    ensures FromBytes(BigEndian(v, n)) == v
  {
    if n > 0 {
      FromBigEndian(v / 256, n - 1);
      assert BigEndian(v, n)[..n - 1] == BigEndian(v / 256, n - 1);
    }
  }

  lemma {:induction false} FromBytesPrecision(s: seq<byte>)
    ensures Precision(FromBytes(s)) <= |s|
  {
    if s != [] {
      FromBytesPrecision(s[..|s| - 1]);
      DropByte(FromBytes(s[..|s| - 1]), s[|s| - 1]);
    }
  }

  /** Big-endian: what stands in front is worth 256 times as much for each byte behind it. */
  lemma {:induction false} FromBytesJoin(s: seq<byte>, t: seq<byte>)
    ensures FromBytes(s + t) == FromBytes(s) * Power256(|t|) + FromBytes(t)
    ensures |s| == 1 ==> FromBytes(s) == s[0]
    decreases |t|
  {
    if |s| == 1 { OneDigit(s[0]); }
    if t == [] {
      assert s + t == s;
    } else {
      assert (s + t)[..|s + t| - 1] == s + t[..|t| - 1];
      FromBytesJoin(s, t[..|t| - 1]);
      ShiftUp(FromBytes(s), Power256(|t| - 1), FromBytes(t[..|t| - 1]), t[|t| - 1]);
    }
  }

  lemma ShiftUp(a: nat, p: nat, b: nat, x: nat)
    ensures (a * p + b) * 256 + x == a * (256 * p) + (b * 256 + x)
  {}

  lemma DropByte(v: nat, b: byte)
    ensures (v * 256 + b) / 256 == v && (v * 256 + b) % 256 == b
  {}

  function Power256(n: nat): (p: nat)
    ensures p > 0
  {
    if n == 0 then 1 else 256 * Power256(n - 1)
  }

  lemma {:induction false} PrecisionBound(v: nat, n: nat)
    ensures v < Power256(n) <==> Precision(v) <= n
  {
    if n > 0 && v > 0 { PrecisionBound(v / 256, n - 1); }
  }

  const LIMIT56 := 0x100_0000_0000_0000

  const LIMIT64 := 0x1_0000_0000_0000_0000

  /** An lword has eight bytes; the guard length >> 56 asks whether seven are enough. */
  lemma LwordPrecision(v: nat)
    ensures v < LIMIT56 <==> Precision(v) <= 7
    ensures v < LIMIT64 <==> Precision(v) <= 8
  {
    PrecisionBound(v, 7);
    PrecisionBound(v, 8);
  }

  // ----- lengths ---------------------------------------------------------------------------------------------

  /** The shortest definite form of a length. */
  function DerLength(length: nat): (s: seq<byte>)
    ensures s != []
  {
    if length <= 0x7F then [length]
    else [(Precision(length) + 0x80) % 256] + BigEndian(length, Precision(length))
  }

  /** What BERLengthDecode finds, and how many bytes it takes: a length, the end of the input, or more than an
      lword can hold. */
  datatype LengthRead =
    | Definite(length: nat, used: nat)
    | Indefinite(used: nat)
    | Ended(used: nat)
    | Overflow(used: nat)

  function BerLength(s: seq<byte>): (r: LengthRead)
    ensures r.used <= |s|
  {
    if s == [] then Ended(0)
    else if s[0] < 0x80 then Definite(s[0], 1)
    else if s[0] == 0x80 then Indefinite(1)
    else LengthBytes(s, 1, s[0] - 0x80, 0)
  }

  /** The loop: left bytes are to come, from the given place on, after those that spell length. */
  function LengthBytes(s: seq<byte>, at: nat, left: nat, length: nat): (r: LengthRead)
    requires at <= |s|
    ensures at <= r.used <= |s| && !r.Indefinite?
    decreases left
  {
    if left == 0 then Definite(length, at)
    else if length >= LIMIT56 then Overflow(at)
    else if at == |s| then Ended(at)
    else LengthBytes(s, at + 1, left - 1, length * 256 + s[at])
  }

  lemma {:induction false} LengthBytesRead(s: seq<byte>, at: nat, left: nat, done: seq<byte>)
    requires at + left <= |s| && Precision(FromBytes(done + s[at..at + left])) <= 8
    ensures LengthBytes(s, at, left, FromBytes(done)) == Definite(FromBytes(done + s[at..at + left]), at + left)
    decreases left
  {
    if left == 0 {
      assert done + s[at..at] == done;
    } else {
      var more := done + [s[at]];
      assert more[..|more| - 1] == done;
      assert done + s[at..at + left] == more + s[at + 1..at + left];
      PrefixIsSmaller(more, s[at + 1..at + left]);
      LwordPrecision(FromBytes(done));
      LengthBytesRead(s, at + 1, left - 1, more);
    }
  }

  /** Before its last byte a number of eight bytes has seven. */
  lemma {:induction false} PrefixIsSmaller(s: seq<byte>, t: seq<byte>)
    requires s != [] && Precision(FromBytes(s + t)) <= 8
    ensures Precision(FromBytes(s[..|s| - 1])) <= 7
    decreases |t|
  {
    if t == [] {
      assert s + t == s;
      DropByte(FromBytes(s[..|s| - 1]), s[|s| - 1]);
    } else {
      var u := s + t;
      assert u[..|u| - 1] == s + t[..|t| - 1];
      DropByte(FromBytes(u[..|u| - 1]), u[|u| - 1]);
      PrefixIsSmaller(s, t[..|t| - 1]);
    }
  }

  lemma LongForm(length: nat)
    requires 0x7F < length < LIMIT64
    ensures 1 <= Precision(length) <= 8
    ensures DerLength(length) == [0x80 + Precision(length)] + BigEndian(length, Precision(length))
  {
    LwordPrecision(length);
    hide Precision, BigEndian;
  }

  /** Section 8.1.3 of X.690: below 128 one octet, and otherwise 0x80 and the number of the octets that spell it. */
  lemma DerLengthForm(length: nat)
    requires length < LIMIT64
    ensures var d := DerLength(length);
      if length < 128 then d == [length]
      else |d| >= 2 && d[0] == 0x80 + (|d| - 1) && FromBytes(d[1..]) == length && d[1] != 0
  {
    if length > 0x7F {
      LongForm(length);
      var n := Precision(length);
      FromBigEndian(length, n);
      FirstIsNotZero(length, n);
      assert DerLength(length)[1..] == BigEndian(length, n);
      hide BigEndian, FromBytes, Precision;
    }
  }

  lemma {:induction false} FirstIsNotZero(v: nat, n: nat)
    requires v > 0 && Precision(v) == n
    ensures BigEndian(v, n)[0] != 0
  {
    if n == 1 {
      assert v / 256 == 0;
    } else {
      FirstIsNotZero(v / 256, n - 1);
    }
  }

  /** Decoding undoes encoding for every length an lword can hold, takes exactly the encoded bytes, and never
      trips over the guard. */
  lemma LengthRoundTrip(length: nat, rest: seq<byte>)
    requires length < LIMIT64
    ensures BerLength(DerLength(length) + rest) == Definite(length, |DerLength(length)|)
  {
    if length > 0x7F {
      LongForm(length);
      var n := Precision(length);
      FromBigEndian(length, n);
      hide BerLength, BigEndian, FromBytes, Precision, DerLength;
      ReadLongForm(BigEndian(length, n), rest);
    } else {
      assert DerLength(length) == [length];
      hide DerLength;
    }
  }

  lemma ReadLongForm(digits: seq<byte>, rest: seq<byte>)
    requires 1 <= |digits| <= 8 && Precision(FromBytes(digits)) <= 8
    ensures BerLength([0x80 + |digits|] + digits + rest) == Definite(FromBytes(digits), 1 + |digits|)
  {
    var n := |digits|;
    var s := [0x80 + n] + digits + rest;
    assert BerLength(s) == LengthBytes(s, 1, n, 0);
    NoDigits();
    hide BerLength, FromBytes, LengthBytes, Precision;
    assert s[1..1 + n] == digits == [] + digits;
    LengthBytesRead(s, 1, n, []);
  }

  lemma NoDigits()
    ensures FromBytes([]) == 0
  {}

  /** No definite form of the length is shorter. */
  lemma DerLengthIsShortest(s: seq<byte>)
    requires BerLength(s).Definite?
    ensures |DerLength(BerLength(s).length)| <= BerLength(s).used
  {
    if s[0] > 0x80 { LengthBytesPrecision(s, 1, s[0] - 0x80, 0); }
  }

  lemma {:induction false} LengthBytesPrecision(s: seq<byte>, at: nat, left: nat, length: nat)
    requires at <= |s| && LengthBytes(s, at, left, length).Definite?
    ensures LengthBytes(s, at, left, length).used == at + left
    ensures Precision(LengthBytes(s, at, left, length).length) <= Precision(length) + left
    ensures LengthBytes(s, at, left, length).length < LIMIT64 || length >= LIMIT64
    decreases left
  {
    if left > 0 {
      LengthBytesPrecision(s, at + 1, left - 1, length * 256 + s[at]);
      DropByte(length, s[at]);
    }
  }

  // ----- unsigned integers -----------------------------------------------------------------------------------

  const BOOLEAN: byte := 0x01
  const OBJECT_IDENTIFIER: byte := 0x06

  /** The content octets of a non-negative INTEGER. */
  function UnsignedContent(w: nat): (s: seq<byte>)
    ensures s != []
  {
    var digits := BigEndian(w, if w == 0 then 1 else Precision(w));
    if digits[0] >= 0x80 then [0] + digits else digits
  }

  function DerUnsigned(w: nat, tag: byte): seq<byte> {
    [tag] + DerLength(|ContentOf(w, tag)|) + ContentOf(w, tag)
  }

  datatype NumberRead = Number(value: nat, used: nat) | BadNumber

  /** What BERDecodeUnsigned reads into a word of size bytes. */
  function BerUnsigned(s: seq<byte>, size: nat, tag: byte, min: nat, max: nat): NumberRead {
    if s == [] || s[0] != tag then BadNumber
    else match BerLength(s[1..])
      case Definite(length, used) =>
        if length > |s| - 1 - used then BadNumber
        else InRange(FromBytes(s[1 + used..1 + used + length]), size, min, max, 1 + used + length)
      case _ => BadNumber
  }

  function InRange(w: nat, size: nat, min: nat, max: nat, used: nat): NumberRead {
    if Precision(w) > size || w < min || w > max then BadNumber else Number(w, used)
  }

  lemma {:induction false} BigEndianFirst(v: nat, n: nat)
    requires n > 0 && (n == 1 ==> v < 256) && (n > 1 ==> Precision(v) == n)
    ensures n > 1 ==> BigEndian(v, n)[0] != 0
    ensures n == 1 ==> BigEndian(v, n) == [v]
  {
    if n == 2 {
      assert Precision(v / 256 / 256) == 0;
      BigEndianFirst(v / 256, 1);
    } else if n > 2 {
      BigEndianFirst(v / 256, n - 1);
    }
  }

  lemma {:induction false} LeadingZero(s: seq<byte>)
    ensures FromBytes([0] + s) == FromBytes(s)
  {
    if s == [] {
      assert ([0] + s)[..0] == [];
    } else {
      assert ([0] + s)[..|s|] == [0] + s[..|s| - 1];
      LeadingZero(s[..|s| - 1]);
    }
  }

  /** Section 8.3: the octets are the number in two's complement, and its first nine bits are not all the same. */
  lemma UnsignedIsMinimal(w: nat)
    ensures var c := UnsignedContent(w);
      && FromBytes(c) == w && c[0] < 0x80 && (|c| > 1 && c[0] == 0 ==> c[1] >= 0x80)
      && |c| <= Precision(w) + 1
  {
    var n := if w == 0 then 1 else Precision(w);
    if n == 1 { PrecisionBound(w, 1); }
    BigEndianFirst(w, n);
    FromBigEndian(w, n);
    LeadingZero(BigEndian(w, n));
    hide BigEndian, FromBytes, Precision, Power256;
  }

  /** What a word reads back as: itself, or 0 or 255 for a BOOLEAN. */
  function Kept(w: nat, tag: byte): nat { if tag != BOOLEAN then w else if w != 0 then 0xFF else 0 }

  function ContentOf(w: nat, tag: byte): seq<byte> {
    if tag == BOOLEAN then [if w != 0 then 0xFF else 0] else UnsignedContent(w)
  }

  lemma ContentSpells(w: nat, size: nat, tag: byte)
    requires 0 < size < LIMIT64 - 1 && Precision(w) <= size
    ensures FromBytes(ContentOf(w, tag)) == Kept(w, tag) && Precision(Kept(w, tag)) <= size
    ensures |ContentOf(w, tag)| < LIMIT64
  {
    if tag == BOOLEAN { OneDigit(Kept(w, tag)); } else { UnsignedIsMinimal(w); }
  }

  /** Any word comes back, if it is in range; a BOOLEAN comes back as 0 or 255. */
  lemma UnsignedRoundTrip(w: nat, size: nat, tag: byte, min: nat, max: nat, rest: seq<byte>)
    requires 0 < size < LIMIT64 - 1 && Precision(w) <= size
    ensures BerUnsigned(DerUnsigned(w, tag) + rest, size, tag, min, max)
        == if min <= Kept(w, tag) <= max then Number(Kept(w, tag), |DerUnsigned(w, tag)|) else BadNumber
  {
    ContentSpells(w, size, tag);
    hide FromBytes, Precision, ContentOf, DerLength, BerLength, Kept;
    ReadBack(tag, ContentOf(w, tag), rest);
  }

  lemma OneDigit(b: byte)
    ensures FromBytes([b]) == b && Precision(b) <= 1
  {
    assert [b][..0] == [];
    assert Precision(b / 256) == 0;
  }

  /** The tag, the length and the contents, found again in front of anything. */
  lemma ReadBack(tag: byte, content: seq<byte>, rest: seq<byte>)
    requires |content| < LIMIT64
    ensures var l := DerLength(|content|);
      var s := [tag] + l + content + rest;
      && s[0] == tag && BerLength(s[1..]) == Definite(|content|, |l|)
      && s[1 + |l|..1 + |l| + |content|] == content && s[1 + |l| + |content|..] == rest
  {
    var l := DerLength(|content|);
    LengthRoundTrip(|content|, content + rest);
    hide DerLength, BerLength;
    assert ([tag] + l + content + rest)[1..] == l + (content + rest);
  }

  // ----- object identifiers ----------------------------------------------------------------------------------

  type word32 = v: nat | v < 0x1_0000_0000 witness 0

  /** Groups of seven bits, each with the high bit set. */
  function Groups(v: nat): (s: seq<byte>)
    ensures s != []
  {
    if v < 128 then [0x80 + v] else Groups(v / 128) + [0x80 + v % 128]
  }

  function ValueBytes(v: nat): (s: seq<byte>)
    ensures s != []
  {
    if v < 128 then [v] else Groups(v / 128) + [v % 128]
  }

  const LIMIT25 := 0x200_0000

  /** DecodeValue from a place on, after the groups that spell v. */
  function OidValue(s: seq<byte>, at: nat, v: nat): (r: NumberRead)
    requires at <= |s|
    ensures r.Number? ==> at < r.used <= |s| && r.value < 0x1_0000_0000
    decreases |s| - at
  {
    if at == |s| || v >= LIMIT25 then BadNumber
    else if s[at] < 0x80 then Number(v * 128 + s[at], at + 1)
    else OidValue(s, at + 1, v * 128 + (s[at] - 0x80))
  }

  function Power128(n: nat): nat { if n == 0 then 1 else 128 * Power128(n - 1) }

  /** What octets spell in base 128, their high bits left out. */
  function From128(s: seq<byte>): nat { if s == [] then 0 else s[0] % 128 * Power128(|s| - 1) + From128(s[1..]) }

  lemma {:induction false} From128More(s: seq<byte>, b: byte)
    ensures From128(s + [b]) == 128 * From128(s) + b % 128
  {
    if s == [] {
      assert [b][1..] == [] && Power128(0) == 1;
    } else {
      assert (s + [b])[1..] == s[1..] + [b];
      From128More(s[1..], b);
      OnePlaceUp(s[0] % 128, Power128(|s| - 1), From128(s[1..]));
    }
  }

  lemma OnePlaceUp(a: nat, p: nat, b: nat)
    ensures a * (128 * p) + 128 * b == 128 * (a * p + b)
  {}

  /** Section 8.19.2 of X.690: the octets spell the value in base 128, most significant first; all but the last have the
      high bit, and the first is not 0x80. */
  lemma ValueBytesForm(v: nat)
    ensures var s := ValueBytes(v);
      && From128(s) == v && s[|s| - 1] < 128 && s[0] != 0x80
      && forall i :: 0 <= i < |s| - 1 ==> s[i] >= 128
  {
    if v < 128 {
      assert [v][1..] == [] && Power128(0) == 1;
    } else {
      var g, s := Groups(v / 128), ValueBytes(v);
      GroupsForm(v / 128);
      From128More(g, v % 128);
      assert s == g + [v % 128];
      assert v / 128 > 0;
      hide From128, Groups, ValueBytes;
      Recombined(v);
      forall i | 0 <= i < |s| - 1 ensures s[i] >= 128 { assert s[i] == g[i] && g[i] in g; }
    }
  }

  lemma {:induction false} GroupsForm(v: nat)
    ensures From128(Groups(v)) == v && forall b <- Groups(v) :: b >= 128
    ensures v > 0 ==> Groups(v)[0] != 0x80
  {
    if v < 128 {
      assert [0x80 + v][1..] == [] && Power128(0) == 1;
    } else {
      GroupsForm(v / 128);
      From128More(Groups(v / 128), 0x80 + v % 128);
      hide From128;
      Recombined(v);
    }
  }

  lemma Recombined(v: nat)
    ensures 128 * (v / 128) + v % 128 == v && (0x80 + v % 128) % 128 == v % 128 && v % 128 % 128 == v % 128
  {}

  lemma {:induction false} ReadGroups(s: seq<byte>, at: nat, v: nat)
    requires at + |Groups(v)| <= |s| && s[at..at + |Groups(v)|] == Groups(v) && v < LIMIT25
    ensures OidValue(s, at, 0) == OidValue(s, at + |Groups(v)|, v)
  {
    var n := |Groups(v)|;
    assert s[at + n - 1] == Groups(v)[n - 1];
    if v >= 128 {
      assert s[at..at + n - 1] == s[at..at + n][..n - 1] == Groups(v / 128);
      ReadGroups(s, at, v / 128);
    }
  }

  /** The guard v >> 25 never rejects a value of 32 bits. */
  lemma ValueRoundTrip(v: nat, front: seq<byte>, rest: seq<byte>)
    requires v < 0x1_0000_0000
    ensures OidValue(front + ValueBytes(v) + rest, |front|, 0) == Number(v, |front| + |ValueBytes(v)|)
  {
    var s, at := front + ValueBytes(v) + rest, |front|;
    if v >= 128 {
      var n := |Groups(v / 128)|;
      assert s[at..at + n] == Groups(v / 128);
      ReadGroups(s, at, v / 128);
      assert s[at + n] == v % 128;
    }
  }

  function ValuesBytes(values: seq<word32>): seq<byte> {
    if values == [] then [] else ValueBytes(values[0]) + ValuesBytes(values[1..])
  }

  function FirstOctet(v: nat, w: nat): byte { (v * 40 + w) % 256 }

  /** Whether the first octet keeps both values. */
  predicate FitOctet(v: nat, w: nat) { w < 40 && v * 40 + w <= 255 }

  function OidContent(values: seq<word32>): (s: seq<byte>)
    requires |values| >= 2
    ensures s != []
  {
    [FirstOctet(values[0], values[1])] + ValuesBytes(values[2..])
  }

  function DerOid(values: seq<word32>): seq<byte>
    requires |values| >= 2
  {
    [OBJECT_IDENTIFIER] + DerLength(|OidContent(values)|) + OidContent(values)
  }

  datatype OidRead = Oid(values: seq<word32>, used: nat) | BadOid

  function Prepend(values: seq<word32>, r: OidRead): OidRead {
    if r.Oid? then Oid(values + r.values, r.used) else BadOid
  }

  /** The first two values share a byte. */
  function Arcs(b: byte): seq<word32> { [b / 40, b % 40] }

  /** The loop of BERDecode: values from a place on, to a place that one of them has to end at. */
  function OidValues(s: seq<byte>, at: nat, end: nat): (r: OidRead)
    requires at <= |s| && at <= end
    ensures r.Oid? ==> r.used == end <= |s|
    decreases end - at
  {
    if at == end then Oid([], at)
    else match OidValue(s, at, 0)
      case BadNumber => BadOid
      case Number(v, used) =>
        if used > end then BadOid
        else Prepend([v], OidValues(s, used, end))
  }

  function BerOid(s: seq<byte>): OidRead {
    if s == [] || s[0] != OBJECT_IDENTIFIER then BadOid
    else match BerLength(s[1..])
      case Definite(length, used) =>
        var at := 1 + used;
        if length < 1 || at == |s| then BadOid
        else Prepend(Arcs(s[at]), OidValues(s, at + 1, at + length))
      case _ => BadOid
  }

  lemma Regroup4<T>(a: seq<T>, b: seq<T>, c: seq<T>, d: seq<T>)
    ensures a + (b + c) + d == a + b + (c + d) == a + b + c + d
  {}

  lemma {:induction false} ValuesRoundTrip(values: seq<word32>, front: seq<byte>, rest: seq<byte>)
    ensures OidValues(front + ValuesBytes(values) + rest, |front|, |front| + |ValuesBytes(values)|)
            == Oid(values, |front| + |ValuesBytes(values)|)
    decreases |values|
  {
    if values != [] {
      var head, tail := ValueBytes(values[0]), ValuesBytes(values[1..]);
      ValueRoundTrip(values[0], front, tail + rest);
      ValuesRoundTrip(values[1..], front + head, rest);
      MoreValues(values, front, rest);
    }
  }

  lemma MoreValues(values: seq<word32>, front: seq<byte>, rest: seq<byte>)
    requires values != []
    requires var head, tail := ValueBytes(values[0]), ValuesBytes(values[1..]);
      && OidValue(front + head + (tail + rest), |front|, 0) == Number(values[0], |front| + |head|)
      && OidValues(front + head + tail + rest, |front + head|, |front + head| + |tail|)
         == Oid(values[1..], |front + head| + |tail|)
    ensures OidValues(front + ValuesBytes(values) + rest, |front|, |front| + |ValuesBytes(values)|)
            == Oid(values, |front| + |ValuesBytes(values)|)
  {
    var head, tail := ValueBytes(values[0]), ValuesBytes(values[1..]);
    assert ValuesBytes(values) == head + tail && [values[0]] + values[1..] == values;
    var at, used, end := |front|, |front + head|, |front + head| + |tail|;
    assert used == at + |head| && end == at + |head + tail|;
    hide OidValue, OidValues, ValueBytes, ValuesBytes;
    Regroup4(front, head, tail, rest);
    OneMoreValue(front + head + tail + rest, at, end, values[0], used);
  }

  lemma OneMoreValue(s: seq<byte>, at: nat, end: nat, v: word32, used: nat)
    requires at < used <= end && at <= |s| && OidValue(s, at, 0) == Number(v, used)
    ensures OidValues(s, at, end) == Prepend([v], OidValues(s, used, end))
  {
    hide OidValue;
  }

  lemma FirstOfContent(l: seq<byte>, c: seq<byte>, rest: seq<byte>)
    requires c != []
    ensures [OBJECT_IDENTIFIER] + l + c + rest == [OBJECT_IDENTIFIER] + l + [c[0]] + c[1..] + rest
    ensures ([OBJECT_IDENTIFIER] + l + c + rest)[1 + |l|] == c[0]
  {}

  lemma ContentTail(values: seq<word32>)
    requires |values| >= 2
    ensures OidContent(values)[1..] == ValuesBytes(values[2..])
  {}

  lemma OidReadsBack(values: seq<word32>, rest: seq<byte>)
    requires |values| >= 2 && |OidContent(values)| < LIMIT64
    ensures BerOid(DerOid(values) + rest) == Oid(Arcs(OidContent(values)[0]) + values[2..], |DerOid(values)|)
  {
    hide DerLength, BerLength, OidValues, ValuesBytes, Arcs, OidContent;
    var c, l := OidContent(values), DerLength(|OidContent(values)|);
    ReadBack(OBJECT_IDENTIFIER, c, rest);
    ContentTail(values);
    FirstOfContent(l, c, rest);
    ValuesRoundTrip(values[2..], [OBJECT_IDENTIFIER] + l + [c[0]], rest);
  }

  lemma SameFront(arcs: seq<word32>, values: seq<word32>)
    requires |values| >= 2 && |arcs| == 2
    ensures arcs + values[2..] == values <==> arcs[0] == values[0] && arcs[1] == values[1]
  {
    var back := arcs + values[2..];
    assert back[0] == arcs[0] && back[1] == arcs[1];
  }

  lemma FirstByte(v: nat, w: nat)
    ensures var b := FirstOctet(v, w); (b / 40 == v && b % 40 == w) <==> FitOctet(v, w)
  {}

  /** An OID comes back exactly when its second arc is below 40 and the first two fit one byte. */
  lemma OidRoundTrip(values: seq<word32>, rest: seq<byte>)
    requires |values| >= 2 && |OidContent(values)| < LIMIT64
    ensures BerOid(DerOid(values) + rest) == Oid(values, |DerOid(values)|)
            <==> FitOctet(values[0], values[1])
  {
    OidReadsBack(values, rest);
    var b := OidContent(values)[0];
    assert b == FirstOctet(values[0], values[1]);
    FirstByte(values[0], values[1]);
    SameFront(Arcs(b), values);
    hide BerOid, DerOid, OidContent, FirstOctet, FitOctet;
  }
}
