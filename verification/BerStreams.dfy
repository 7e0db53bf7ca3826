/** The ASN.1 encoders and decoders on streams, byte by byte, each proved against the function of BerCoding for the
    same octets. */
module BerStreams {
  import opened BufferedBytes
  import opened BerCoding
  import Bits

  /** DERLengthEncode */
  method DERLengthEncode(bt: Buffered, length: nat) returns (i: nat)
    requires bt.inner == null
    modifies bt
    ensures bt.bytes == old(bt.bytes) + DerLength(length) && i == |DerLength(length)|
  {
    i := 0;
    if length <= 0x7F {
      bt.Put([length]);
      i := i + 1;
    } else {
      var n := Precision(length);
      bt.Put([(n + 0x80) % 256]);
      i := i + 1;
      var j := n;
      ghost var start := bt.bytes;
      while j != 0
        invariant 0 <= j <= n && i == 1 + n - j
        invariant bt.bytes == start + BigEndian(Shift(length, j), n - j)
        decreases j
      {
        j := j - 1;
        bt.Put([Shift(length, j) % 256]);
        i := i + 1;
      }
    }
  }

  /** The tag, the length and the contents. */
  method PutElement(bt: Buffered, asnTag: byte, content: seq<byte>) returns (n: nat)
    requires bt.inner == null
    modifies bt
    ensures bt.bytes == old(bt.bytes) + ([asnTag] + DerLength(|content|) + content)
    ensures n == 1 + |DerLength(|content|)| + |content|
  {
    bt.Put([asnTag]);
    var lengthBytes := DERLengthEncode(bt, |content|);
    bt.Put(content);
    hide DerLength;
    n := 1 + lengthBytes + |content|;
  }

  /** length >> 8j */
  function Shift(v: nat, j: nat): nat { if j == 0 then v else Shift(v, j - 1) / 256 }

  /** BERLengthDecode */
  method BERLengthDecode(bt: Buffered) returns (r: LengthRead)
    requires bt.Linked()
    modifies bt.chain
    ensures r == BerLength(old(bt.Available())) && bt.Available() == old(bt.Available())[r.used..]
  {
    ghost var s := bt.Available();
    var ok, b := bt.Get();
    if !ok { return Ended(0); }
    if b < 0x80 { return LengthRead.Definite(b, 1); }
    var lengthBytes := b - 0x80;
    if lengthBytes == 0 { return Indefinite(1); }
    var length: nat, used: nat := 0, 1;
    while lengthBytes != 0
      invariant 0 <= lengthBytes && used <= |s|
      invariant bt.Linked() && bt.Available() == s[used..]
      invariant BerLength(s) == LengthBytes(s, used, lengthBytes, length)
      decreases lengthBytes
    {
      lengthBytes := lengthBytes - 1;
      if length >= LIMIT56 { return Overflow(used); }
      ok, b := bt.Get();
      if !ok { return Ended(used); }
      length, used := length * 256 + b, used + 1;
    }
    r := LengthRead.Definite(length, used);
  }

  lemma {:induction false} ShiftFirst(v: nat, j: nat)
    ensures Shift(v, j + 1) == Shift(v / 256, j)
  {
    if j > 0 { ShiftFirst(v, j - 1); }
  }

  lemma {:induction false} BigEndianAt(v: nat, n: nat, i: nat)
    requires i < n
    ensures BigEndian(v, n)[i] == Shift(v, n - 1 - i) % 256
  {
    if i < n - 1 {
      BigEndianAt(v / 256, n - 1, i);
      ShiftFirst(v, n - 2 - i);
    }
  }

  lemma {:induction false} LowBytes(v: nat, n: nat, k: nat)
    requires k <= n
    ensures BigEndian(v, n)[n - k..] == BigEndian(v, k)
  {
    if k > 0 { LowBytes(v / 256, n - 1, k - 1); }
  }

  lemma {:induction false} TopByteZero(v: nat, n: nat)
    requires n > 0 && Precision(v) < n
    ensures BigEndian(v, n)[0] == 0
  {
    if n > 1 { TopByteZero(v / 256, n - 1); }
  }

  lemma ZeroDropped(v: nat, n: nat)
    requires n > 0 && Precision(v) <= n && BigEndian(v, n)[0] == 0
    ensures Precision(v) <= n - 1
  {
    var s := BigEndian(v, n);
    FromBigEndian(v, n);
    assert s == [0] + s[1..];
    LeadingZero(s[1..]);
    FromBytesPrecision(s[1..]);
  }

  /** The octet where the low bc bytes start. */
  lemma OctetInBuffer(buf: seq<byte>, w: nat, size: nat, bc: nat)
    requires 1 <= bc <= size && buf == [0] + BigEndian(w, size)
    ensures buf[size + 1 - bc] == BigEndian(w, bc)[0] && buf[size + 1 - bc..] == BigEndian(w, bc)
  {
    LowBytes(w, size, bc);
    hide BigEndian;
    assert buf[size + 1 - bc..] == BigEndian(w, size)[size - bc..];
  }

  /** The octets of the buffer that are sent. */
  lemma ContentInBuffer(buf: seq<byte>, w: nat, size: nat, bc: nat)
    requires 1 <= bc <= size && buf == [0] + BigEndian(w, size)
    requires Precision(w) <= bc && (bc > 1 ==> BigEndian(w, bc)[0] != 0)
    ensures buf[size + 1 - bc] == BigEndian(w, bc)[0]
    ensures buf[size + 1 - (if BigEndian(w, bc)[0] >= 0x80 then bc + 1 else bc)..] == UnsignedContent(w)
  {
    hide *;
    OctetInBuffer(buf, w, size, bc);
    DigitsOfContent(w, bc);
    if bc < size {
      OctetInBuffer(buf, w, size, bc + 1);
      TopByteZero(w, bc + 1);
    }
    FirstOfTail(buf, size - bc);
  }

  lemma DigitsOfContent(w: nat, bc: nat)
    requires bc >= 1 && Precision(w) <= bc && (bc > 1 ==> BigEndian(w, bc)[0] != 0)
    ensures UnsignedContent(w) == if BigEndian(w, bc)[0] >= 0x80 then [0] + BigEndian(w, bc) else BigEndian(w, bc)
  {
    if Precision(w) < bc && bc > 1 { TopByteZero(w, bc); }
    assert Precision(w) == 0 <==> w == 0;
    hide BigEndian, Precision;
  }

  lemma FirstOfTail<T>(s: seq<T>, at: nat)
    requires at < |s|
    ensures s[at..] == [s[at]] + s[at + 1..]
  {}

  /** The bytes of w behind a zero. */
  method FillBuffer(w: nat, size: nat) returns (buf: array<byte>)
    ensures fresh(buf) && buf[..] == [0] + BigEndian(w, size)
  {
    buf := new byte[size + 1](_ => 0);
    ghost var digits := BigEndian(w, size);
    hide BigEndian, Shift;
    for i := 0 to size
      invariant buf[..i + 1] == [0] + digits[..i]
    {
      BigEndianAt(w, size, i);
      buf[i + 1] := Shift(w, size - 1 - i) % 256;
    }
    assert buf[..] == buf[..size + 1];
  }

  /** The number goes into a buffer with a zero byte in front; leading zeros are left out, but for one where the
      next byte would look negative. */
  method ContentOctets(w: nat, size: nat, asnTag: byte) returns (content: seq<byte>)
    requires size > 0 && Precision(w) <= size
    ensures content == ContentOf(w, asnTag)
  {
    if asnTag == BOOLEAN { return [if w != 0 then 0xFF else 0]; }
    var buffer := FillBuffer(w, size);
    var buf, bc: nat := buffer[..], size;
    hide Precision, BigEndian, UnsignedContent;
    OctetInBuffer(buf, w, size, bc);
    while bc > 1 && buf[size + 1 - bc] == 0
      invariant 1 <= bc <= size && Precision(w) <= bc
      invariant buf[size + 1 - bc] == BigEndian(w, bc)[0]
    {
      ZeroDropped(w, bc);
      bc := bc - 1;
      OctetInBuffer(buf, w, size, bc);
    }
    ContentInBuffer(buf, w, size, bc);
    if buf[size + 1 - bc] >= 0x80 { bc := bc + 1; }
    content := buf[size + 1 - bc..];
  }

  /** DEREncodeUnsigned for a word of size bytes. */
  method DEREncodeUnsigned(out: Buffered, w: nat, size: nat, asnTag: byte) returns (n: nat)
    requires out.inner == null && size > 0 && Precision(w) <= size
    modifies out
    ensures out.bytes == old(out.bytes) + DerUnsigned(w, asnTag) && n == |DerUnsigned(w, asnTag)|
  {
    var content := ContentOctets(w, size, asnTag);
    hide DerLength, ContentOf, Precision;
    n := PutElement(out, asnTag, content);
  }

  // ----- decoding unsigned integers --------------------------------------------------------------------------

  lemma {:induction false} FirstDigitCounts(s: seq<byte>)
    requires s != [] && s[0] != 0
    ensures Precision(FromBytes(s)) == |s|
  {
    var front := s[..|s| - 1];
    if |s| == 1 {
      assert front == [];
      assert Precision(s[0] / 256) == 0;
    } else {
      FirstDigitCounts(front);
    }
    DropByte(FromBytes(front), s[|s| - 1]);
  }

  /** The word that contents spell, unless it is too large for size bytes; leading zeros do not matter. */
  method ReadWord(buf: seq<byte>, size: nat) returns (ok: bool, w: nat)
    ensures ok == (Precision(FromBytes(buf)) <= size)
    ensures ok ==> w == FromBytes(buf)
  {
    var ptr: nat := 0;
    var bc: nat := |buf|;
    hide Precision, FromBytes;
    assert buf[0..] == buf;
    while bc > size && buf[ptr] == 0
      invariant 0 <= ptr && ptr + bc == |buf| && FromBytes(buf[ptr..]) == FromBytes(buf)
    {
      assert buf[ptr..] == [0] + buf[ptr + 1..];
      LeadingZero(buf[ptr + 1..]);
      bc := bc - 1;
      ptr := ptr + 1;
    }
    ghost var rest := buf[ptr..];
    if bc > size {
      FirstDigitCounts(rest);
      return false, 0;
    }
    FromBytesPrecision(rest);
    w := 0;
    for i := 0 to bc
      invariant w == FromBytes(rest[..i])
    {
      OneByteMore(rest, i);
      w := w * 256 + buf[ptr + i];
    }
    assert rest[..bc] == rest;
    ok := true;
  }

  lemma OneByteMore(s: seq<byte>, i: nat)
    requires i < |s|
    ensures FromBytes(s[..i + 1]) == FromBytes(s[..i]) * 256 + s[i]
  {
    assert s[..i + 1][..i] == s[..i];
  }

  /** The right tag and a definite length. */
  predicate HasHeader(s: seq<byte>, asnTag: byte) { s != [] && s[0] == asnTag && BerLength(s[1..]).Definite? }

  /** Reads the tag and the length. */
  method ReadHeader(bt: Buffered, asnTag: byte) returns (ok: bool, length: nat, used: nat)
    requires bt.Linked()
    modifies bt.chain
    ensures ok == HasHeader(old(bt.Available()), asnTag)
    ensures ok ==>
      length == BerLength(old(bt.Available())[1..]).length && used == 1 + BerLength(old(bt.Available())[1..]).used
    ensures ok ==> bt.Available() == old(bt.Available())[used..]
  {
    ghost var s := bt.Available();
    var b;
    ok, b := bt.Get();
    if !ok || b != asnTag { return false, 0, 0; }
    var l := BERLengthDecode(bt);
    hide BerLength;
    if !l.Definite? { return false, 0, 0; }
    assert s[1..][l.used..] == s[1 + l.used..];
    ok, length, used := true, l.length, 1 + l.used;
  }

  /** Reads exactly so many bytes. */
  method ReadContents(bt: Buffered, length: nat) returns (ok: bool, buf: seq<byte>)
    requires bt.Linked()
    modifies bt.chain
    ensures ok == (length <= |old(bt.Available())|)
    ensures ok ==> buf == old(bt.Available())[..length] && bt.Available() == old(bt.Available())[length..]
  {
    buf := bt.Transfer(length);
    ok := |buf| == length;
  }

  lemma UnsignedOf(s: seq<byte>, size: nat, asnTag: byte, min: nat, max: nat)
    ensures !HasHeader(s, asnTag) ==> BerUnsigned(s, size, asnTag, min, max) == BadNumber
    ensures HasHeader(s, asnTag) ==>
      var used, length := 1 + BerLength(s[1..]).used, BerLength(s[1..]).length;
      BerUnsigned(s, size, asnTag, min, max) ==
        if length > |s[used..]| then BadNumber
        else InRange(FromBytes(s[used..][..length]), size, min, max, used + length)
  {
    hide BerLength, FromBytes, InRange;
    if HasHeader(s, asnTag) {
      var used, length := 1 + BerLength(s[1..]).used, BerLength(s[1..]).length;
      if length <= |s| - used { assert s[used..][..length] == s[used..used + length]; }
    }
  }

  /** BERDecodeUnsigned for a word of size bytes. */
  method BERDecodeUnsigned(bt: Buffered, size: nat, asnTag: byte, min: nat, max: nat) returns (r: NumberRead)
    requires bt.Linked()
    modifies bt.chain
    ensures r == BerUnsigned(old(bt.Available()), size, asnTag, min, max)
    ensures r.Number? ==> r.used <= |old(bt.Available())| && bt.Available() == old(bt.Available())[r.used..]
  {
    ghost var s := bt.Available();
    UnsignedOf(s, size, asnTag, min, max);
    hide BerUnsigned, BerLength, FromBytes, Precision, HasHeader;
    var ok, bc, used := ReadHeader(bt, asnTag);
    if !ok { return BadNumber; }
    var buf;
    ok, buf := ReadContents(bt, bc);
    if !ok { return BadNumber; }
    assert bt.Available() == s[used + bc..];
    var w;
    ok, w := ReadWord(buf, size);
    if !ok || w < min || w > max { return BadNumber; }
    r := Number(w, used + bc);
  }

  // ----- object identifiers ----------------------------------------------------------------------------------

  function RoundUp7(n: nat): nat { (n + 6) / 7 * 7 }

  function Max(a: nat, b: nat): nat { if a >= b then a else b }

  lemma Halves(v: nat)
    ensures v / 2 / 2 / 2 / 2 / 2 / 2 / 2 == v / 128
  {}

  lemma {:induction false} ShrSeven(v: nat, i: nat)
    ensures Bits.Shr(v, i + 7) == Bits.Shr(v, i) / 128
  {
    if i > 0 {
      ShrSeven(v / 2, i - 1);
    } else {
      ShrHalves(v);
      Halves(v);
    }
  }

  lemma ShrHalf(v: nat, i: nat)
    ensures Bits.Shr(v, i + 1) == Bits.Shr(v / 2, i)
  {}

  lemma ShrHalves(v: nat)
    ensures Bits.Shr(v, 7) == v / 2 / 2 / 2 / 2 / 2 / 2 / 2
  {
    hide Bits.Shr;
    ShrHalf(v, 6);
    ShrHalf(v / 2, 5);
    ShrHalf(v / 2 / 2, 4);
    ShrHalf(v / 2 / 2 / 2, 3);
    ShrHalf(v / 2 / 2 / 2 / 2, 2);
    ShrHalf(v / 2 / 2 / 2 / 2 / 2, 1);
    ShrHalf(v / 2 / 2 / 2 / 2 / 2 / 2, 0);
    ShrNothing(v / 2 / 2 / 2 / 2 / 2 / 2 / 2);
  }

  lemma ShrNothing(v: nat)
    ensures Bits.Shr(v, 0) == v
  {}

  lemma {:induction false} ShrIsPositive(v: nat, i: nat)
    requires i < Bits.BitCount(v)
    ensures Bits.Shr(v, i) > 0
  {
    if i > 0 { ShrIsPositive(v / 2, i - 1); }
  }

  /** The groups of what lies above the bits still to come. */
  function GroupsAbove(v: nat): seq<byte> { if v == 0 then [] else Groups(v) }

  lemma LastGroup(v: nat)
    ensures ValueBytes(v) == GroupsAbove(Bits.Shr(v, 7)) + [v % 128]
  {
    ShrNothing(v);
    ShrSeven(v, 0);
  }

  /** EncodeValue */
  method EncodeValue(bt: Buffered, v: nat)
    requires bt.inner == null
    modifies bt
    ensures bt.bytes == old(bt.bytes) + ValueBytes(v)
  {
    var i: nat := RoundUp7(Max(7, Bits.BitCount(v))) - 7;
    ghost var k := StartOfGroups(v);
    assert GroupStart(v, i, k);
    hide Bits.BitCount, Bits.Shr, Bits.Pow2, RoundUp7, Max, GroupsAbove, Groups, ValueBytes, GroupByte, GroupStart;
    while i != 0
      invariant GroupStart(v, i, k)
      invariant bt.bytes == old(bt.bytes) + GroupsAbove(Bits.Shr(v, i + 7))
      decreases i
    {
      NextStart(v, i, k);
      GroupAt(v, i);
      bt.Put([GroupByte(v, i)]);
      i, k := i - 7, k - 1;
    }
    LastGroup(v);
    bt.Put([v % 128]);
  }

  /** i is the start of group k of v, and below the highest bit unless it is 0. */
  ghost predicate GroupStart(v: nat, i: nat, k: nat) { i == 7 * k && (i == 0 || i < Bits.BitCount(v)) }

  lemma NextStart(v: nat, i: nat, k: nat)
    requires GroupStart(v, i, k) && i != 0
    ensures i < Bits.BitCount(v) && i >= 7 && k >= 1 && GroupStart(v, i - 7, k - 1)
  {}

  /** 0x80 | ((v >> i) & 0x7f) */
  function GroupByte(v: nat, i: nat): byte { 0x80 + Bits.Shr(v, i) % 128 }

  lemma StartOfGroups(v: nat) returns (k: nat)
    ensures RoundUp7(Max(7, Bits.BitCount(v))) == 7 * k + 7 && (k == 0 || 7 * k < Bits.BitCount(v))
    ensures GroupsAbove(Bits.Shr(v, 7 * k + 7)) == []
  {
    var n := Max(7, Bits.BitCount(v));
    k := RoundUp7(n) / 7 - 1;
    Bits.ShiftOut(v, 7 * k + 7);
  }

  lemma GroupAt(v: nat, i: nat)
    requires i < Bits.BitCount(v)
    ensures GroupsAbove(Bits.Shr(v, i)) == GroupsAbove(Bits.Shr(v, i + 7)) + [GroupByte(v, i)]
  {
    ShrIsPositive(v, i);
    ShrSeven(v, i);
    hide Bits.Shr, Bits.BitCount;
  }

  /** DecodeValue */
  method DecodeValue(bt: Buffered) returns (r: NumberRead)
    requires bt.Linked()
    modifies bt.chain
    ensures r == OidValue(old(bt.Available()), 0, 0)
    ensures r.Number? ==> r.used <= |old(bt.Available())| && bt.Available() == old(bt.Available())[r.used..]
  {
    ghost var s := bt.Available();
    var v: nat, i: nat := 0, 0;
    while true
      invariant bt.Linked() && i <= |s| && bt.Available() == s[i..] && OidValue(s, 0, 0) == OidValue(s, i, v)
      decreases |s| - i
    {
      var ok, b := bt.Get();
      if !ok { return BadNumber; }
      if v >= LIMIT25 { return BadNumber; }
      v := v * 128 + b % 128;
      i := i + 1;
      if b < 0x80 { return Number(v, i); }
    }
  }

  lemma {:induction false} OidValueFrom(s: seq<byte>, at: nat, i: nat, v: nat)
    requires at + i <= |s|
    ensures var r, r' := OidValue(s, at + i, v), OidValue(s[at..], i, v);
      if r.Number? then r' == Number(r.value, r.used - at) && r.used >= at else r' == BadNumber
    decreases |s| - at - i
  {
    if at + i < |s| && v < LIMIT25 && s[at + i] >= 0x80 {
      OidValueFrom(s, at, i + 1, v * 128 + (s[at + i] - 0x80));
    }
  }

  /** One round of the loop of BERDecode. */
  lemma OneValue(s: seq<byte>, at: nat, end: nat, front: seq<word32>, r: NumberRead)
    requires at < end && at <= |s| && r == OidValue(s[at..], 0, 0)
    ensures Prepend(front, OidValues(s, at, end)) ==
            if r.BadNumber? || at + r.used > end then BadOid
            else Prepend(front + [r.value], OidValues(s, at + r.used, end))
  {
    OidValueFrom(s, at, 0, 0);
    hide OidValue;
    if r.Number? && at + r.used <= end && OidValues(s, at + r.used, end).Oid? {
      var tail := OidValues(s, at + r.used, end).values;
      assert front + ([r.value] + tail) == front + [r.value] + tail;
    }
  }

  /** Reads one value of the contents that end at a place, after those in front. */
  method DecodeNext(bt: Buffered, ghost s: seq<byte>, ghost at: nat, ghost end: nat, ghost front: seq<word32>)
    returns (r: NumberRead)
    requires bt.Linked() && at < end && at <= |s| && bt.Available() == s[at..]
    modifies bt.chain
    ensures r.Number? ==>
      r.value < 0x1_0000_0000 && 0 < r.used && at + r.used <= |s| && bt.Available() == s[at + r.used..]
    ensures Prepend(front, OidValues(s, at, end)) ==
            if r.BadNumber? || at + r.used > end then BadOid
            else Prepend(front + [r.value], OidValues(s, at + r.used, end))
  {
    r := DecodeValue(bt);
    OneValue(s, at, end, front, r);
    hide OidValue, OidValues, Prepend;
    if r.Number? { DropDrop(s, at, r.used); }
  }

  lemma DropDrop<T>(s: seq<T>, at: nat, n: nat)
    requires at + n <= |s|
    ensures s[at..][n..] == s[at + n..]
  {}

  /** What follows the header. */
  function OidBody(s: seq<byte>, at: nat, length: nat): (r: OidRead)
    requires at <= |s|
    ensures r.Oid? ==> r.used <= |s|
  {
    if length < 1 || at == |s| then BadOid else Prepend(Arcs(s[at]), OidValues(s, at + 1, at + length))
  }

  class ObjectId {
    var values: seq<word32>

    constructor (values: seq<word32>)
      ensures this.values == values
    {
      this.values := values;
    }

    /** DEREncode, for the two values or more that it asserts. */
    method DEREncode(bt: Buffered)
      requires bt.inner == null && |values| >= 2
      modifies bt
      ensures bt.bytes == old(bt.bytes) + DerOid(values)
    {
      var temp := new Buffered.Queue([]);
      temp.Put([FirstOctet(values[0], values[1])]);
      EncodeRest(temp, values);
      hide FirstOctet, ValuesBytes, DerLength;
      var _ := PutElement(bt, OBJECT_IDENTIFIER, temp.bytes);
    }

    static method EncodeRest(temp: Buffered, values: seq<word32>)
      requires temp.inner == null && |values| >= 2
      modifies temp
      ensures temp.bytes == old(temp.bytes) + ValuesBytes(values[2..])
    {
      hide ValueBytes;
      ghost var done: seq<byte> := [];
      assert values[2..2] == [] && ValuesBytes([]) == [];
      for i := 2 to |values|
        invariant temp.bytes == old(temp.bytes) + done && done == ValuesBytes(values[2..i])
      {
        EncodeValue(temp, values[i]);
        ValuesBytesMore(values[2..i], values[i]);
        assert values[2..i] + [values[i]] == values[2..i + 1];
        done := done + ValueBytes(values[i]);
      }
      assert values[2..|values|] == values[2..];
    }

    /** BERDecode; an error leaves the values read so far. */
    method BERDecode(bt: Buffered) returns (ok: bool)
      requires bt.Linked()
      modifies this, bt.chain
      ensures ok == BerOid(old(bt.Available())).Oid?
      ensures ok ==> values == BerOid(old(bt.Available())).values
      ensures ok ==> bt.Available() == old(bt.Available())[BerOid(old(bt.Available())).used..]
    {
      ghost var s := bt.Available();
      hide BerOid, BerLength, HasHeader, OidBody;
      var length, used;
      ok, length, used := ReadHeader(bt, OBJECT_IDENTIFIER);
      if !ok { return false; }
      ok := ReadArcs(bt, length, s, used);
    }

    /** The contents, used bytes into the element. */
    method ReadArcs(bt: Buffered, length: nat, ghost s: seq<byte>, ghost used: nat) returns (ok: bool)
      requires bt.Linked() && used <= |s| && bt.Available() == s[used..]
      modifies this, bt.chain
      ensures ok == OidBody(s, used, length).Oid?
      ensures ok ==> values == OidBody(s, used, length).values && bt.Available() == s[OidBody(s, used, length).used..]
    {
      if length < 1 { return false; }
      var b;
      ok, b := bt.Get();
      if !ok { return false; }
      var left: nat := length - 1;
      values := Arcs(b);
      assert s[used..][1..] == s[used + 1..];
      ok := ReadValues(bt, length - 1, s, used + 1);
    }

    /** The loop: values until no byte of the contents is left. */
    method ReadValues(bt: Buffered, length: nat, ghost s: seq<byte>, ghost start: nat) returns (ok: bool)
      requires bt.Linked() && start <= |s| && bt.Available() == s[start..]
      modifies this, bt.chain
      ensures ok == OidValues(s, start, start + length).Oid?
      ensures ok ==> values == old(values) + OidValues(s, start, start + length).values
      ensures ok ==> start + length <= |s| && bt.Available() == s[start + length..]
    {
      var left: nat := length;
      ghost var at: nat, end: nat := start, start + length;
      hide OidValues, Prepend;
      while left > 0
        invariant bt.Linked() && at <= |s| && bt.Available() == s[at..] && 0 <= left && at + left == end
        invariant Prepend(values, OidValues(s, at, end)) == Prepend(old(values), OidValues(s, start, end))
        decreases left
      {
        var r := DecodeNext(bt, s, at, end, values);
        if r.BadNumber? || r.used > left {
          return false;
        }
        values := values + [r.value];
        left, at := left - r.used, at + r.used;
      }
      ok := true;
    }
  }

  lemma {:induction false} ValuesBytesMore(values: seq<word32>, v: word32)
    ensures ValuesBytes(values + [v]) == ValuesBytes(values) + ValueBytes(v)
    decreases |values|
  {
    if values == [] {
      assert [v][1..] == [];
    } else {
      assert (values + [v])[1..] == values[1..] + [v];
      ValuesBytesMore(values[1..], v);
    }
  }
}
