/** UTF-8 as read by CBU8_NEXT and written by CBU8_APPEND_UNSAFE; shifts and masks are written as / and %. */
module Utf8 {
  type byte = b: int | 0 <= b < 256

  /** Any code point but a surrogate (IsValidCodepoint). */
  predicate IsScalar(c: int) { 0 <= c < 0xD800 || 0xE000 <= c <= 0x10FFFF }

  /** A scalar value that is not one of the noncharacters. */
  predicate IsValidCharacter(c: int) {
    0 <= c < 0xD800 || 0xE000 <= c < 0xFDD0 || (0xFDEF < c <= 0x10FFFF && c % 0x10000 / 2 != 0x7FFF)
  }

  predicate IsTrail(b: byte) { b / 64 == 2 }

  /** The encoding of RFC 3629, section 3. */
  function Encode(c: nat): (s: seq<byte>)
    requires c <= 0x10FFFF
    ensures 1 <= |s| <= 4
    ensures c <= 0x7F ==> s == [c]
    ensures c > 0x7F ==> forall i :: 0 <= i < |s| ==> s[i] >= 0x80
  {
    if c <= 0x7F then [c]
    else if c <= 0x7FF then [c / 64 + 0xC0, c % 64 + 0x80]
    else if c <= 0xFFFF then [c / 4096 + 0xE0, c / 64 % 64 + 0x80, c % 64 + 0x80]
    else [c / 262144 + 0xF0, c / 4096 % 64 + 0x80, c / 64 % 64 + 0x80, c % 64 + 0x80]
  }

  /** utf8_countTrailBytes */
  function CountTrailBytes(lead: byte): (n: nat)
    ensures n <= 5
  {
    if lead < 0xC0 then 0 else if lead < 0xE0 then 1 else if lead < 0xF0 then 2 else if lead < 0xF8 then 3
    else if lead < 0xFC then 4 else if lead < 0xFE then 5 else 0
  }

  predicate IsLead(b: byte) { 0xC0 <= b < 0xFE }

  /** How many of the first k bytes, from the first on, are trail bytes. */
  function TrailRun(s: seq<byte>, k: nat): (n: nat)
    ensures n <= k && n <= |s|
    decreases k
  {
    if k == 0 || s == [] || !IsTrail(s[0]) then 0 else 1 + TrailRun(s[1..], k - 1)
  }

  const SENTINEL := -1

  /** What was read: a code point, or SENTINEL for an ill-formed sequence, and how many bytes it took. */
  datatype Read = Read(codePoint: int, size: nat)

  /** c << 6 | trail & 0x3f */
  function Join(c: nat, trail: byte): nat { c * 64 + trail % 64 }

  /** The code point a lead byte and its trail bytes spell. */
  function Assemble(lead: byte, s: seq<byte>): nat
    requires |s| >= 3 || |s| >= CountTrailBytes(lead)
  {
    match CountTrailBytes(lead)
    case 1 => Join(lead % 32, s[0])
    case 2 => Join(Join(lead % 16, s[0]), s[1])
    case 3 => Join(Join(Join(lead % 8, s[0]), s[1]), s[2])
    case _ => lead
  }

  /** utf8_minLegal */
  function MinLegal(count: nat): nat {
    if count == 0 then 0 else if count == 1 then 0x80 else if count == 2 then 0x800 else 0x10000
  }

  /** A lead byte with all its trail bytes, in shortest form and spelling a scalar value. */
  predicate IsSequence(lead: byte, s: seq<byte>) {
    var count := CountTrailBytes(lead);
    && 1 <= count <= 3 && |s| >= count && TrailRun(s, count) == count
    && MinLegal(count) <= Assemble(lead, s) && IsScalar(Assemble(lead, s))
  }

  function Next(s: seq<byte>): (r: Read)
    requires s != []
    ensures 1 <= r.size <= |s|
  {
    if s[0] < 0x80 then Read(s[0], 1)
    else if !IsLead(s[0]) then Read(SENTINEL, 1)
    else if IsSequence(s[0], s[1..]) then Read(Assemble(s[0], s[1..]), 1 + CountTrailBytes(s[0]))
    else Read(SENTINEL, 1 + TrailRun(s[1..], CountTrailBytes(s[0])))
  }

  lemma TrailRunAll(s: seq<byte>)
    ensures |s| >= 1 ==> (TrailRun(s, 1) == 1 <==> IsTrail(s[0]))
    ensures |s| >= 2 ==> (TrailRun(s, 2) == 2 <==> IsTrail(s[0]) && IsTrail(s[1]))
    ensures |s| >= 3 ==> (TrailRun(s, 3) == 3 <==> IsTrail(s[0]) && IsTrail(s[1]) && IsTrail(s[2]))
  {
    if |s| >= 1 {
      assert TrailRun(s[1..], 0) == 0;
      if |s| >= 2 { assert TrailRun(s[1..][1..], 0) == 0; }
      if |s| >= 3 { assert TrailRun(s[1..][1..][1..], 0) == 0 && s[1..][1..][0] == s[2]; }
    }
  }

  /** A trail byte carries the low six bits. */
  lemma JoinSplits(c: nat, trail: byte)
    requires IsTrail(trail)
    ensures Join(c, trail) / 64 == c && Join(c, trail) % 64 + 0x80 == trail
  {}

  lemma SplitJoins(c: nat)
    ensures IsTrail(c % 64 + 0x80) && Join(c / 64, c % 64 + 0x80) == c
  {}

  lemma Shift12(c: nat)
    ensures c / 64 / 64 == c / 4096 && c / 4096 / 64 == c / 262144
  {}

  /** The bytes spell c when each trail byte is split off in turn. */
  lemma EncodeSplits(c: nat)
    requires 0x7F < c <= 0x10FFFF
    ensures var s := Encode(c);
      && IsLead(s[0]) && CountTrailBytes(s[0]) == |s| - 1
      && (forall i :: 1 <= i < |s| ==> IsTrail(s[i]))
      && Assemble(s[0], s[1..]) == c
  {
    SplitJoins(c);
    SplitJoins(c / 64);
    SplitJoins(c / 4096);
    Shift12(c);
    LeadBits(c / 64, c / 4096, c / 262144);
    var s := Encode(c);
    if c <= 0x7FF {
      assert s[1..] == [c % 64 + 0x80];
    } else if c <= 0xFFFF {
      assert s[1..] == [c / 64 % 64 + 0x80, c % 64 + 0x80];
    } else {
      assert s[1..] == [c / 4096 % 64 + 0x80, c / 64 % 64 + 0x80, c % 64 + 0x80];
    }
    hide Join, Encode, IsTrail;
  }

  lemma LeadBits(x: nat, y: nat, z: nat)
    ensures x < 32 ==> (x + 0xC0) % 32 == x
    ensures y < 16 ==> (y + 0xE0) % 16 == y
    ensures z < 8 ==> (z + 0xF0) % 8 == z
  {}

  /** Every encoded scalar value is read back, whatever follows it. */
  lemma NextOfEncode(c: nat, rest: seq<byte>)
    requires IsScalar(c)
    ensures Next(Encode(c) + rest) == Read(c, |Encode(c)|)
  {
    var e, s := Encode(c), Encode(c) + rest;
    if c > 0x7F {
      EncodeSplits(c);
      TrailRunAll(s[1..]);
      assert forall i :: 0 <= i < |e| ==> s[i] == e[i];
      assert |e| == if c <= 0x7FF then 2 else if c <= 0xFFFF then 3 else 4;
      hide Encode, Join, TrailRun;
    }
  }

  lemma AssembleSplits(lead: byte, s: seq<byte>)
    requires IsSequence(lead, s)
    ensures [lead] + s[..CountTrailBytes(lead)] == Encode(Assemble(lead, s))
  {
    TrailRunAll(s);
    hide Join, TrailRun, IsScalar;
    var n := CountTrailBytes(lead);
    var c := Assemble(lead, s);
    if n == 1 {
      JoinSplits(lead % 32, s[0]);
    } else if n == 2 {
      JoinSplits(lead % 16, s[0]);
      Shift12(c);
      JoinSplits(Join(lead % 16, s[0]), s[1]);
    } else {
      JoinSplits(lead % 8, s[0]);
      JoinSplits(Join(lead % 8, s[0]), s[1]);
      JoinSplits(Join(Join(lead % 8, s[0]), s[1]), s[2]);
      Shift12(c);
    }
  }

  /** Whatever is read without error is the encoding of a scalar value. */
  lemma NextIsEncoded(s: seq<byte>)
    requires s != [] && Next(s).codePoint >= 0
    ensures IsScalar(Next(s).codePoint)
    ensures s[..Next(s).size] == Encode(Next(s).codePoint)
  {
    if s[0] >= 0x80 {
      AssembleSplits(s[0], s[1..]);
      assert s[..Next(s).size] == [s[0]] + s[1..][..CountTrailBytes(s[0])];
    }
  }

  /** Bytes compare as unsigned numbers, strings lexicographically. */
  predicate Less(a: seq<byte>, b: seq<byte>) {
    b != [] && (a == [] || a[0] < b[0] || (a[0] == b[0] && Less(a[1..], b[1..])))
  }

  /** At the first difference the smaller byte decides, and a string comes before what it is the front of. */
  lemma {:induction false} LessIsLexicographic(a: seq<byte>, b: seq<byte>)
    ensures Less(a, b) <==>
      exists k :: 0 <= k <= |a| && k < |b| && a[..k] == b[..k] && (k == |a| || (k < |a| && a[k] < b[k]))
  {
    if a == [] && b != [] {
      assert a[..0] == b[..0];
    } else if a != [] && b != [] {
      var x, y := a[1..], b[1..];
      LessIsLexicographic(x, y);
      if a[0] < b[0] { assert a[..0] == b[..0]; }
      if Less(a, b) && a[0] == b[0] {
        var k :| 0 <= k <= |x| && k < |y| && x[..k] == y[..k] && (k == |x| || (k < |x| && x[k] < y[k]));
        assert a[..k + 1] == [a[0]] + x[..k] && b[..k + 1] == [b[0]] + y[..k];
      }
      if k :| 0 <= k <= |a| && k < |b| && a[..k] == b[..k] && (k == |a| || (k < |a| && a[k] < b[k])) {
        if k > 0 {
          assert a[0] == a[..k][0] == b[..k][0] == b[0];
          assert x[..k - 1] == a[..k][1..] && y[..k - 1] == b[..k][1..];
        }
      }
    }
  }

  lemma {:induction false} LessAt(a: seq<byte>, b: seq<byte>, k: nat)
    requires k < |a| && k < |b| && a[..k] == b[..k] && a[k] < b[k]
    ensures Less(a, b)
  {
    if k > 0 {
      assert a[0] == a[..k][0] == b[..k][0] == b[0];
      assert a[1..][..k - 1] == a[..k][1..] && b[1..][..k - 1] == b[..k][1..];
      LessAt(a[1..], b[1..], k - 1);
    }
  }

  lemma NextPlace(c: nat, d: nat)
    requires c < d
    ensures c / 64 < d / 64 || (c / 64 == d / 64 && c % 64 < d % 64)
  {}

  /** Where two encodings differ first, the first has the smaller byte. */
  predicate Differ(s: seq<byte>, t: seq<byte>)
    requires s != [] && t != []
  {
    || s[0] < t[0]
    || (|s| == |t| > 1 && s[0] == t[0]
        && (|| s[1] < t[1]
            || (|s| > 2 && s[1] == t[1] && (s[2] < t[2] || (|s| > 3 && s[2] == t[2] && s[3] < t[3])))))
  }

  lemma DifferIsLess(s: seq<byte>, t: seq<byte>)
    requires s != [] && t != [] && Differ(s, t)
    ensures Less(s, t)
  {
    hide Less;
    if s[0] < t[0] {
      assert s[..0] == t[..0];
      LessAt(s, t, 0);
    } else if s[1] < t[1] {
      assert s[..1] == [s[0]] && t[..1] == [t[0]];
      LessAt(s, t, 1);
    } else if s[2] < t[2] {
      assert s[..2] == [s[0], s[1]] && t[..2] == [t[0], t[1]];
      LessAt(s, t, 2);
    } else {
      assert s[..3] == [s[0], s[1], s[2]] && t[..3] == [t[0], t[1], t[2]];
      LessAt(s, t, 3);
    }
  }

  lemma TwoInOrder(c: nat, d: nat)
    requires 0x7F < c < d <= 0x7FF && (c / 64 < d / 64 || (c / 64 == d / 64 && c % 64 < d % 64))
    ensures Differ(Encode(c), Encode(d))
  {}

  lemma ThreeInOrder(c: nat, d: nat)
    requires 0x7FF < c < d <= 0xFFFF
    requires || c / 4096 < d / 4096
             || (c / 4096 == d / 4096
                 && (c / 64 % 64 < d / 64 % 64 || (c / 64 % 64 == d / 64 % 64 && c % 64 < d % 64)))
    ensures Differ(Encode(c), Encode(d))
  {
    var s, t := Encode(c), Encode(d);
    assert s == [c / 4096 + 0xE0, c / 64 % 64 + 0x80, c % 64 + 0x80];
    assert t == [d / 4096 + 0xE0, d / 64 % 64 + 0x80, d % 64 + 0x80];
    hide Encode;
  }

  lemma FourInOrder(c: nat, d: nat)
    requires 0xFFFF < c < d <= 0x10FFFF
    requires || c / 262144 < d / 262144
             || (c / 262144 == d / 262144
                 && (|| c / 4096 % 64 < d / 4096 % 64
                     || (c / 4096 % 64 == d / 4096 % 64
                         && (c / 64 % 64 < d / 64 % 64 || (c / 64 % 64 == d / 64 % 64 && c % 64 < d % 64)))))
    ensures Differ(Encode(c), Encode(d))
  {
    var s, t := Encode(c), Encode(d);
    assert s == [c / 262144 + 0xF0, c / 4096 % 64 + 0x80, c / 64 % 64 + 0x80, c % 64 + 0x80];
    assert t == [d / 262144 + 0xF0, d / 4096 % 64 + 0x80, d / 64 % 64 + 0x80, d % 64 + 0x80];
    hide Encode;
  }

  /** A longer encoding, and a single byte, has the larger first byte. */
  lemma LeadInOrder(c: nat, d: nat)
    requires c < d <= 0x10FFFF
    requires c <= 0x7F || (c <= 0x7FF < d) || (c <= 0xFFFF < d)
    ensures Differ(Encode(c), Encode(d))
  {}

  /** Section 1 of RFC 3629: encodings are in the order of their code points. */
  lemma EncodingsAreInOrder(c: nat, d: nat)
    requires c < d <= 0x10FFFF
    ensures Less(Encode(c), Encode(d))
  {
    hide *;
    NextPlace(c, d);
    Shift12(c);
    Shift12(d);
    if c / 64 < d / 64 { NextPlace(c / 64, d / 64); }
    if c / 4096 < d / 4096 { NextPlace(c / 4096, d / 4096); }
    if 0x7F < c && d <= 0x7FF {
      TwoInOrder(c, d);
    } else if 0x7FF < c && d <= 0xFFFF {
      ThreeInOrder(c, d);
    } else if 0xFFFF < c {
      FourInOrder(c, d);
    } else {
      LeadInOrder(c, d);
    }
    DifferIsLess(Encode(c), Encode(d));
  }

  lemma {:induction false} TrailRunIsMaximal(s: seq<byte>, k: nat)
    ensures var n := TrailRun(s, k);
      && (forall i :: 0 <= i < n ==> 0x80 <= s[i] <= 0xBF)
      && (n < k && n < |s| ==> !(0x80 <= s[n] <= 0xBF))
    decreases k
  {
    if k > 0 && s != [] && IsTrail(s[0]) {
      TrailRunIsMaximal(s[1..], k - 1);
      var m := TrailRun(s[1..], k - 1);
      forall i | 0 <= i < 1 + m ensures 0x80 <= s[i] <= 0xBF {
        if i > 0 { assert s[i] == s[1..][i - 1]; }
      }
    }
  }

  /** An ill-formed sequence is one byte, or a lead byte and all the trail bytes behind it that it asks for. */
  lemma IllFormedTakes(s: seq<byte>)
    requires s != [] && Next(s).codePoint < 0
    ensures var n, lead := Next(s).size - 1, s[0];
      var asked := if lead < 0xC0 then 0 else if lead < 0xE0 then 1 else if lead < 0xF0 then 2
                   else if lead < 0xF8 then 3 else if lead < 0xFC then 4 else if lead < 0xFE then 5 else 0;
      && n <= asked && (forall i :: 1 <= i <= n ==> 0x80 <= s[i] <= 0xBF)
      && (n < asked && n + 1 < |s| ==> !(0x80 <= s[n + 1] <= 0xBF))
  {
    var t := s[1..];
    TrailRunIsMaximal(t, CountTrailBytes(s[0]));
    assert forall i :: 1 <= i < |s| ==> s[i] == t[i - 1];
    hide TrailRun, IsSequence;
  }

  /** The ABNF of RFC 3629, section 4. */
  predicate IsRfcSequence(s: seq<byte>) {
    || (|s| == 1 && s[0] <= 0x7F)
    || (|s| == 2 && 0xC2 <= s[0] <= 0xDF && 0x80 <= s[1] <= 0xBF)
    || (|s| == 3 && 0x80 <= s[2] <= 0xBF
        && (|| (s[0] == 0xE0 && 0xA0 <= s[1] <= 0xBF)
            || (0xE1 <= s[0] <= 0xEC && 0x80 <= s[1] <= 0xBF)
            || (s[0] == 0xED && 0x80 <= s[1] <= 0x9F)
            || (0xEE <= s[0] <= 0xEF && 0x80 <= s[1] <= 0xBF)))
    || (|s| == 4 && 0x80 <= s[2] <= 0xBF && 0x80 <= s[3] <= 0xBF
        && (|| (s[0] == 0xF0 && 0x90 <= s[1] <= 0xBF)
            || (0xF1 <= s[0] <= 0xF3 && 0x80 <= s[1] <= 0xBF)
            || (s[0] == 0xF4 && 0x80 <= s[1] <= 0x8F)))
  }

  lemma TwoByteLead(lead: byte, a: byte)
    requires 0xC0 <= lead < 0xE0
    ensures Join(lead % 32, a) >= 0x80 <==> lead >= 0xC2
    ensures IsScalar(Join(lead % 32, a))
  {}

  lemma ThreeByteLead(lead: byte, a: byte, b: byte)
    requires 0xE0 <= lead < 0xF0 && IsTrail(a)
    ensures Join(Join(lead % 16, a), b) >= 0x800 <==> (lead == 0xE0 ==> a >= 0xA0)
    ensures IsScalar(Join(Join(lead % 16, a), b)) <==> (lead == 0xED ==> a <= 0x9F)
  {}

  lemma FourByteLead(lead: byte, a: byte, b: byte, c: byte)
    requires 0xF0 <= lead < 0xF8 && IsTrail(a)
    ensures var v := Join(Join(Join(lead % 8, a), b), c);
      && (v >= 0x10000 <==> (lead == 0xF0 ==> a >= 0x90))
      && (v >= 0x10000 ==> (IsScalar(v) <==> lead < 0xF4 || (lead == 0xF4 && a <= 0x8F)))
  {}

  /** The bytes that may follow a lead byte, in a row of the table of RFC 3629. */
  predicate Follows(lead: byte, s: seq<byte>) {
    || (0xC2 <= lead <= 0xDF && |s| >= 1 && IsTrail(s[0]))
    || (0xE0 <= lead <= 0xEF && |s| >= 2 && IsTrail(s[0]) && IsTrail(s[1])
        && (lead == 0xE0 ==> s[0] >= 0xA0) && (lead == 0xED ==> s[0] <= 0x9F))
    || (0xF0 <= lead <= 0xF4 && |s| >= 3 && IsTrail(s[0]) && IsTrail(s[1]) && IsTrail(s[2])
        && (lead == 0xF0 ==> s[0] >= 0x90) && (lead == 0xF4 ==> s[0] <= 0x8F))
  }

  /** The tests of the code on the assembled value are tests on the bytes. */
  lemma SequenceByBytes(lead: byte, s: seq<byte>)
    requires lead >= 0x80
    ensures IsSequence(lead, s) <==> Follows(lead, s)
  {
    TrailRunAll(s);
    hide Join, IsScalar, TrailRun;
    if 0xC0 <= lead < 0xE0 && |s| >= 1 && IsTrail(s[0]) {
      TwoByteLead(lead, s[0]);
    } else if 0xE0 <= lead < 0xF0 && |s| >= 2 && IsTrail(s[0]) && IsTrail(s[1]) {
      ThreeByteLead(lead, s[0], s[1]);
    } else if 0xF0 <= lead < 0xF8 && |s| >= 3 && IsTrail(s[0]) && IsTrail(s[1]) && IsTrail(s[2]) {
      FourByteLead(lead, s[0], s[1], s[2]);
    }
    hide IsTrail;
  }

  /** The reader accepts nothing but what the grammar of RFC 3629 generates. */
  lemma AcceptsOnlyRfc3629(s: seq<byte>)
    requires s != [] && Next(s).codePoint >= 0
    ensures IsRfcSequence(s[..Next(s).size])
  {
    if s[0] >= 0x80 {
      SequenceByBytes(s[0], s[1..]);
      hide IsSequence, Assemble, TrailRun, Follows, IsRfcSequence;
    }
  }

  /** The reader accepts all that the grammar of RFC 3629 generates, and nothing shorter. */
  lemma AcceptsAllRfc3629(s: seq<byte>, n: nat)
    requires 1 <= n <= |s| && IsRfcSequence(s[..n])
    ensures Next(s).codePoint >= 0 && Next(s).size == n
  {
    if s[0] >= 0x80 { SequenceByBytes(s[0], s[1..]); }
    hide Follows, IsRfcSequence, TrailRun;
  }

  // ----- the reader as a loop --------------------------------------------------------------------------------

  predicate IsSurrogate(c: int) { 0xD800 <= c <= 0xDFFF }

  predicate IsLeadSurrogate(c: int) { 0xD800 <= c < 0xDC00 }

  predicate IsTrailSurrogate(c: int) { 0xDC00 <= c < 0xE000 }

  const SURROGATE_OFFSET := 0xD800 * 0x400 + 0xDC00 - 0x10000

  /** CBU16_GET_SUPPLEMENTARY */
  function Supplementary(lead: int, trail: int): int { lead * 0x400 + trail - SURROGATE_OFFSET }

  /** The mask (1 << (6 - count)) - 1. */
  function MaskLead(lead: byte, count: nat): nat {
    match count
    case 1 => lead % 32
    case 2 => lead % 16
    case 3 => lead % 8
    case 4 => lead % 4
    case 5 => lead % 2
    case _ => lead
  }

  /** utf8_nextCharSafeBody with strict = -1: start is just past the lead byte. */
  method NextCharSafeBody(s: seq<byte>, start: nat, lead: byte) returns (c: int, i: nat)
    requires 0 < start <= |s| && s[start - 1] == lead && IsLead(lead)
    ensures start <= i <= |s|
    ensures Read(c, i - (start - 1)) == Next(s[start - 1..])
  {
    var t := s[start..];
    assert s[start - 1..][0] == lead && s[start - 1..][1..] == t;
    var count := CountTrailBytes(lead);
    c, i := lead, start;
    if start + count <= |s| {
      c := MaskLead(lead, count);
      var illegal, done := count >= 4, count >= 4;
      TrailRunAll(t);
      if count == 3 {
        var trail := s[i];
        c, i := Join(c, trail), i + 1;
        if c < 0x110 { illegal := illegal || !IsTrail(trail); } else { illegal, done := true, true; }
      }
      if 2 <= count && !done {
        var trail := s[i];
        c, i := Join(c, trail), i + 1;
        illegal := illegal || !IsTrail(trail);
      }
      if 1 <= count && !done {
        var trail := s[i];
        c, i := Join(c, trail), i + 1;
        illegal := illegal || !IsTrail(trail);
      }
      Bounded(lead, t);
      hide TrailRun, Join, IsTrail;
      assert illegal || c < MinLegal(count) || IsSurrogate(c) <==> !IsSequence(lead, t);
      if illegal || c < MinLegal(count) || IsSurrogate(c) {
        i := SkipTrails(s, start, count);
        c := SENTINEL;
      }
    } else {
      TrailRunCapped(t, count);
      i := SkipTrails(s, start, |s| - start);
      c := SENTINEL;
    }
  }

  lemma TrailRunCapped(s: seq<byte>, k: nat)
    requires |s| <= k
    ensures TrailRun(s, k) == TrailRun(s, |s|)
  {}

  lemma Bounded(lead: byte, s: seq<byte>)
    requires |s| >= CountTrailBytes(lead)
    ensures CountTrailBytes(lead) in {1, 2} ==> Assemble(lead, s) <= 0xFFFF
  {}

  /** Steps over at most count trail bytes. */
  method SkipTrails(s: seq<byte>, start: nat, count: nat) returns (i: nat)
    requires start + count <= |s|
    ensures i == start + TrailRun(s[start..], count)
  {
    i := start;
    var left := count;
    while left > 0 && IsTrail(s[i])
      invariant start <= i && i - start + left == count
      invariant start + TrailRun(s[start..], count) == i + TrailRun(s[i..], left)
      decreases left
    {
      assert s[i..][1..] == s[i + 1..];
      i, left := i + 1, left - 1;
    }
  }

  /** CBU8_NEXT */
  method NextCodePoint(s: seq<byte>, at: nat) returns (c: int, i: nat)
    requires at < |s|
    ensures at < i <= |s|
    ensures Read(c, i - at) == Next(s[at..])
  {
    c, i := s[at], at + 1;
    if s[at] >= 0x80 {
      if IsLead(s[at]) { c, i := NextCharSafeBody(s, i, s[at]); } else { c := SENTINEL; }
    }
  }

  /** ReadUnicodeCharacter for UTF-8: leaves the index on the last byte read. */
  method ReadUnicodeCharacter(src: seq<byte>, at: nat) returns (ok: bool, codePoint: int, charIndex: nat)
    requires at < |src|
    ensures codePoint == Next(src[at..]).codePoint && ok == IsScalar(codePoint)
    ensures charIndex == at + Next(src[at..]).size - 1
  {
    var i;
    codePoint, i := NextCodePoint(src, at);
    charIndex := i - 1;
    ok := IsScalar(codePoint);
  }

  /** CBU8_APPEND_UNSAFE: writes the encoding of c at offset i of a buffer with room for it. */
  method AppendUnsafe(buffer: array<byte>, at: nat, c: nat) returns (i: nat)
    requires c <= 0x10FFFF && at + |Encode(c)| <= buffer.Length
    modifies buffer
    ensures i == at + |Encode(c)|
    ensures buffer[..] == old(buffer[..at]) + Encode(c) + old(buffer[i..])
  {
    i := at;
    var e := Encode(c);
    if c <= 0x7F {
      buffer[i], i := c, i + 1;
    } else {
      if c <= 0x7FF {
        buffer[i], i := c / 64 + 0xC0, i + 1;
      } else {
        if c <= 0xFFFF {
          buffer[i], i := c / 4096 + 0xE0, i + 1;
        } else {
          buffer[i], i := c / 262144 + 0xF0, i + 1;
          buffer[i], i := c / 4096 % 64 + 0x80, i + 1;
        }
        buffer[i], i := c / 64 % 64 + 0x80, i + 1;
      }
      buffer[i], i := c % 64 + 0x80, i + 1;
    }
    assert i == at + |e| && forall j :: 0 <= j < |e| ==> buffer[at + j] == e[j];
    hide Encode;
  }
}
