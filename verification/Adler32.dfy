/** Adler-32 with delayed reductions, against section 2.2 of RFC 1950. */
module Adler32Checksum {
  import Utf8

  type byte = Utf8.byte

  const BASE := 65521

  const WORD := 0x1_0000_0000

  const DIGEST_SIZE := 4

  /** The sum of all bytes and one. */
  function Sum1(data: seq<byte>): nat {
    if data == [] then 1 else Sum1(data[..|data| - 1]) + data[|data| - 1]
  }

  /** The sum of all the values Sum1 takes on the way. */
  function Sum2(data: seq<byte>): nat {
    if data == [] then 0 else Sum2(data[..|data| - 1]) + Sum1(data)
  }

  /** The two bytes of a sum, the higher first. */
  function Octets(s: nat): (r: seq<byte>)
    requires s < 0x1_0000
    ensures |r| == 2
  {
    [s / 256, s % 256]
  }

  /** The checksum, most significant byte first. */
  function Digest(data: seq<byte>): seq<byte> {
    Octets(Sum2(data) % BASE) + Octets(Sum1(data) % BASE)
  }

  function Total(data: seq<byte>): nat { if data == [] then 0 else data[0] + Total(data[1..]) }

  /** Each byte as often as there are bytes from it on. */
  function Moment(data: seq<byte>): nat { if data == [] then 0 else |data| * data[0] + Moment(data[1..]) }

  lemma {:induction false} TotalMore(data: seq<byte>, b: byte)
    ensures Total(data + [b]) == Total(data) + b
    ensures Moment(data + [b]) == Moment(data) + Total(data) + b
  {
    if data == [] {
      assert [b][1..] == [];
    } else {
      assert (data + [b])[1..] == data[1..] + [b];
      TotalMore(data[1..], b);
      OneMoreTimes(|data|, data[0]);
    }
  }

  lemma OneMoreTimes(n: nat, b: nat)
    ensures (n + 1) * b == n * b + b
  {}

  /** The first sum is one and all bytes; the second counts every byte once for each place from it to the end, and the
      one once for each byte. */
  lemma {:induction false} SumsInClosedForm(data: seq<byte>)
    ensures Sum1(data) == 1 + Total(data) && Sum2(data) == |data| + Moment(data)
  {
    if data != [] {
      var front, b := data[..|data| - 1], data[|data| - 1];
      SumsInClosedForm(front);
      TotalMore(front, b);
      assert data == front + [b];
    }
  }

  /** Section 2.2 of RFC 1950: the checksum is s2 * 65536 + s1, most significant byte first. */
  lemma DigestIsChecksum(data: seq<byte>)
    ensures var d := Digest(data);
      |d| == 4 && (d[0] as nat) * 0x100_0000 + (d[1] as nat) * 0x1_0000 + (d[2] as nat) * 0x100 + d[3]
                  == Sum2(data) % 65521 * 65536 + Sum1(data) % 65521
  {
    hide Sum1, Sum2;
  }

  /** Addition of an unsigned long of 32 bits. */
  function Add(x: nat, y: nat): nat { (x + y) % WORD }

  /** s1 and s2 are the two sums up to multiples of BASE. */
  predicate Sums(s1: nat, s2: nat, data: seq<byte>) {
    s1 % BASE == Sum1(data) % BASE && s2 % BASE == Sum2(data) % BASE
  }

  lemma AddByte(s1: nat, s2: nat, data: seq<byte>, b: byte)
    requires Sums(s1, s2, data)
    ensures Sums(s1 + b, s2 + (s1 + b), data + [b])
  {
    var longer := data + [b];
    assert longer[..|longer| - 1] == data;
    Congruent(s1, Sum1(data), b);
    CongruentSum(s2, Sum2(data), s1 + b, Sum1(longer));
  }

  lemma DigestOf(s1: nat, s2: nat, data: seq<byte>)
    requires s1 < BASE && s2 < BASE && Sums(s1, s2, data)
    ensures Digest(data) == Octets(s2) + Octets(s1)
  {
    hide Sum1, Sum2, Octets;
    assert s1 % BASE == s1 && s2 % BASE == s2;
  }

  lemma AddFits(x: nat, y: nat)
    requires x + y < WORD
    ensures Add(x, y) == x + y
  {}

  lemma Congruent(x: nat, y: nat, a: nat)
    requires x % BASE == y % BASE
    ensures (x + a) % BASE == (y + a) % BASE
  {}

  lemma CongruentSum(x: nat, y: nat, a: nat, b: nat)
    requires x % BASE == y % BASE && a % BASE == b % BASE
    ensures (x + a) % BASE == (y + b) % BASE
  {}

  lemma ReduceFirst(s1: nat, s2: nat, data: seq<byte>)
    requires Sums(s1, s2, data) && BASE <= s1
    ensures Sums(s1 - BASE, s2, data)
  {}

  lemma ReduceSecond(s1: nat, s2: nat, data: seq<byte>)
    requires Sums(s1, s2, data)
    ensures Sums(s1, s2 % BASE, data)
  {}

  /** The largest s1 gets between two reductions. */
  const TOP := BASE - 1 + 8 * 255

  /** s2 after since bytes without a reduction, length bytes before the end. */
  predicate Bounded(s2: nat, since: nat, length: nat) {
    && s2 <= BASE - 1 + since * TOP
    && since + length % 0x8000 <= 0x8000
    && (length % 0x8000 == 0 ==> since == 0)
  }

  lemma AfterEight(s2: nat, since: nat, length: nat, s2': nat)
    requires Bounded(s2, since, length) && length >= 8 && length % 8 == 0 && s2' <= s2 + 8 * TOP
    ensures (length - 8) % 0x8000 != 0 ==> Bounded(s2', since + 8, length - 8)
    ensures (length - 8) % 0x8000 == 0 ==> Bounded(s2' % BASE, 0, length - 8)
  {}

  /** Even the longest stretch without a reduction fits 32 bits. */
  lemma NoOverflow(s2: nat, since: nat, length: nat)
    requires Bounded(s2, since, length) && length >= 8 && length % 8 == 0
    ensures s2 + 8 * TOP < WORD
  {}

  class Adler32 {
    var s1: nat
    var s2: nat
    ghost var data: seq<byte>

    ghost predicate Valid()
      reads this
    {
      s1 < BASE && s2 < BASE && Sums(s1, s2, data)
    }

    constructor ()
      ensures Valid() && data == []
    {
      s1, s2, data := 1, 0, [];
    }

    method Reset()
      modifies this
      ensures Valid() && data == []
    {
      s1, s2, data := 1, 0, [];
    }

    /** However the data is cut into updates, the fields are the two sums of all of it, reduced; no addition
        of 32 bits on the way wraps around. */
    method Update(input: seq<byte>)
      requires Valid()
      modifies this
      ensures Valid() && data == old(data) + input
    {
      hide Sums;
      var a: nat, b: nat := s1, s2;
      var length: nat, at: nat := |input|, 0;
      assert data + input[..0] == data;
      if length % 8 != 0 {
        a, b, at := AddFirst(a, b, input, data);
        length := |input| - at;
        if a >= BASE {
          ReduceFirst(a, b, data + input[..at]);
          a := a - BASE;
        }
        ReduceSecond(a, b, data + input[..at]);
        b := b % BASE;
      }
      assert Bounded(b, 0, length);
      ghost var since: nat := 0;
      hide Bounded;
      while length > 0
        invariant data == old(data) && at + length == |input| && length % 8 == 0
        invariant a < BASE && Bounded(b, since, length) && (length == 0 ==> b < BASE)
        invariant Sums(a, b, data + input[..at])
        decreases length
      {
        NoOverflow(b, since, length);
        ghost var b0 := b;
        a, b := AddEight(a, b, input, at, data);
        AfterEight(b0, since, length, b);
        length := length - 8;
        at := at + 8;
        if a >= BASE {
          ReduceFirst(a, b, data + input[..at]);
          a := a - BASE;
        }
        since := since + 8;
        if length % 0x8000 == 0 {
          ReduceSecond(a, b, data + input[..at]);
          b := b % BASE;
          since := 0;
        }
      }
      assert input[..at] == input;
      s1, s2 := a, b;
      data := data + input;
    }

    /** The bytes before a multiple of eight is left. */
    static method AddFirst(s1: nat, s2: nat, input: seq<byte>, ghost data: seq<byte>) returns (a: nat, b: nat, at: nat)
      requires s1 < BASE && s2 < BASE && |input| % 8 != 0 && Sums(s1, s2, data)
      ensures a < 2 * BASE && at <= |input| && (|input| - at) % 8 == 0 && Sums(a, b, data + input[..at])
    {
      hide Sums, Add;
      a, b, at := s1, s2, 0;
      var length := |input|;
      assert data + input[..0] == data;
      while true
        invariant at + length == |input| && 0 < length % 8 == |input| % 8 - at
        invariant a <= BASE - 1 + at * 255 && b <= BASE - 1 + at * TOP
        invariant Sums(a, b, data + input[..at])
        decreases length
      {
        AddByte(a, b, data + input[..at], input[at]);
        assert data + input[..at] + [input[at]] == data + input[..at + 1];
        AddFits(a, input[at]);
        a, at := Add(a, input[at]), at + 1;
        AddFits(b, a);
        b := Add(b, a);
        length := length - 1;
        if length % 8 == 0 { break; }
      }
    }

    /** The eight unrolled additions. */
    static method AddEight(s1: nat, s2: nat, input: seq<byte>, at: nat, ghost data: seq<byte>) returns (a: nat, b: nat)
      requires s1 < BASE && s2 + 8 * TOP < WORD && at + 8 <= |input| && Sums(s1, s2, data + input[..at])
      ensures a <= TOP && b <= s2 + 8 * TOP && Sums(a, b, data + input[..at + 8])
    {
      a, b := s1, s2;
      hide Sums, Add;
      for i := 0 to 8
        invariant a <= BASE - 1 + i * 255 && b <= s2 + i * TOP
        invariant Sums(a, b, data + input[..at + i])
      {
        AddByte(a, b, data + input[..at + i], input[at + i]);
        assert data + input[..at + i] + [input[at + i]] == data + input[..at + i + 1];
        AddFits(a, input[at + i]);
        a := Add(a, input[at + i]);
        AddFits(b, a);
        b := Add(b, a);
      }
    }

    /** TruncatedFinal: the first size bytes of the checksum, and a fresh start; an error changes nothing. */
    method TruncatedFinal(hash: array<byte>, size: nat) returns (ok: bool)
      requires Valid() && (size <= DIGEST_SIZE ==> size <= hash.Length)
      modifies this, hash
      ensures Valid() && ok == (size <= DIGEST_SIZE)
      ensures ok ==> hash[..] == old(Digest(data))[..size] + old(hash[size..]) && data == []
      ensures !ok ==> data == old(data) && hash[..] == old(hash[..])
    {
      if size > DIGEST_SIZE { return false; }
      DigestOf(s1, s2, data);
      hide Digest, Sum1, Sum2, Sums, Octets;
      var d := Octets(s2) + Octets(s1);
      PutDigest(hash, size, d);
      Reset();
      ok := true;
    }

    /** The switch that falls through. */
    static method PutDigest(hash: array<byte>, size: nat, d: seq<byte>)
      requires |d| == 4 && size <= 4 && size <= hash.Length
      modifies hash
      ensures hash[..] == d[..size] + old(hash[size..])
    {
      if size >= 4 { hash[3] := d[3]; }
      if size >= 3 { hash[2] := d[2]; }
      if size >= 2 { hash[1] := d[1]; }
      if size >= 1 { hash[0] := d[0]; }
    }
  }
}
