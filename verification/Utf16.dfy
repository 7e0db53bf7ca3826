/** UTF-16, and the conversions between it and UTF-8; shifts and masks are written as / and %. */
module Utf16 {
  import opened Utf8
  import AsciiScan

  type unit = u: int | 0 <= u < 0x10000

  type scalar = c: int | IsScalar(c)

  const REPLACEMENT: scalar := 0xFFFD

  /** Section 2.1 of RFC 2781. */
  function Encode16(c: nat): (s: seq<unit>)
    requires c <= 0x10FFFF
    ensures 1 <= |s| <= 2
  {
    if c <= 0xFFFF then [c] else [c / 0x400 + 0xD7C0, c % 0x400 + 0xDC00]
  }

  /** What ReadUnicodeCharacter makes of the front of s; an unpaired surrogate is an error of one unit. */
  function Next16(s: seq<unit>): (r: Read)
    requires s != []
    ensures 1 <= r.size <= |s| && (r.codePoint >= 0 ==> IsScalar(r.codePoint))
  {
    if !IsSurrogate(s[0]) then Read(s[0], 1)
    else if IsLeadSurrogate(s[0]) && |s| >= 2 && IsTrailSurrogate(s[1]) then Read(Supplementary(s[0], s[1]), 2)
    else Read(SENTINEL, 1)
  }

  lemma SurrogateKinds(u: unit)
    ensures IsSurrogate(u) <==> IsLeadSurrogate(u) || IsTrailSurrogate(u)
    ensures !(IsLeadSurrogate(u) && IsTrailSurrogate(u))
  {}

  lemma PairSpells(lead: unit, trail: unit)
    requires IsLeadSurrogate(lead) && IsTrailSurrogate(trail)
    ensures Encode16(Supplementary(lead, trail)) == [lead, trail]
  {}

  /** The steps of section 2.1 of RFC 2781. */
  lemma Encode16IsRfc2781(c: nat)
    requires c <= 0x10FFFF
    ensures c < 0x10000 ==> Encode16(c) == [c]
    ensures c >= 0x10000 ==> Encode16(c) == [0xD800 + (c - 0x10000) / 0x400, 0xDC00 + (c - 0x10000) % 0x400]
  {}

  lemma NextOfEncode16(c: nat, rest: seq<unit>)
    requires IsScalar(c)
    ensures Next16(Encode16(c) + rest) == Read(c, |Encode16(c)|)
  {
    if c > 0xFFFF {
      SurrogateKinds(Encode16(c)[0]);
      assert (Encode16(c) + rest)[1] == Encode16(c)[1];
      hide Encode16, Supplementary;
    }
  }

  lemma NextIsEncoded16(s: seq<unit>)
    requires s != [] && Next16(s).codePoint >= 0
    ensures s[..Next16(s).size] == Encode16(Next16(s).codePoint)
  {
    if IsSurrogate(s[0]) { PairSpells(s[0], s[1]); }
  }

  // ----- text ------------------------------------------------------------------------------------------------

  /** What a conversion takes a read for. */
  function Mend(r: Read): scalar { if IsScalar(r.codePoint) then r.codePoint else REPLACEMENT }

  function Decode8(s: seq<byte>): seq<scalar> {
    if s == [] then [] else [Mend(Next(s))] + Decode8(s[Next(s).size..])
  }

  function Decode16(s: seq<unit>): seq<scalar> {
    if s == [] then [] else [Mend(Next16(s))] + Decode16(s[Next16(s).size..])
  }

  function Text8(cs: seq<scalar>): seq<byte> {
    if cs == [] then [] else Encode(cs[0]) + Text8(cs[1..])
  }

  function Text16(cs: seq<scalar>): seq<unit> {
    if cs == [] then [] else Encode16(cs[0]) + Text16(cs[1..])
  }

  /** A row of the sequences RFC 3629 allows, in section 4. */
  predicate WellFormed8(s: seq<byte>)
    decreases |s|
  {
    s == [] || exists n: nat :: 1 <= n <= |s| && IsRfcSequence(s[..n]) && WellFormed8(s[n..])
  }

  /** Every lead surrogate has a trail surrogate after it, and every trail surrogate a lead one before it. */
  predicate WellFormed16(s: seq<unit>) {
    && (forall i :: 0 <= i < |s| && IsLeadSurrogate(s[i]) ==> i + 1 < |s| && IsTrailSurrogate(s[i + 1]))
    && (forall i :: 0 <= i < |s| && IsTrailSurrogate(s[i]) ==> i > 0 && IsLeadSurrogate(s[i - 1]))
  }

  /** No read fails. */
  predicate ReadsWell8(s: seq<byte>) {
    s == [] || (Next(s).codePoint >= 0 && ReadsWell8(s[Next(s).size..]))
  }

  predicate ReadsWell16(s: seq<unit>) {
    s == [] || (Next16(s).codePoint >= 0 && ReadsWell16(s[Next16(s).size..]))
  }

  lemma {:induction false} ReadsWellIffWellFormed8(s: seq<byte>)
    ensures ReadsWell8(s) <==> WellFormed8(s)
    decreases |s|
  {
    if s != [] {
      hide Next, IsRfcSequence;
      var n := Next(s).size;
      ReadsWellIffWellFormed8(s[n..]);
      if ReadsWell8(s) { AcceptsOnlyRfc3629(s); }
      if WellFormed8(s) {
        var k: nat :| 1 <= k <= |s| && IsRfcSequence(s[..k]) && WellFormed8(s[k..]);
        AcceptsAllRfc3629(s, k);
      }
    }
  }

  lemma {:induction false} ReadsWellIffWellFormed16(s: seq<unit>)
    ensures ReadsWell16(s) <==> WellFormed16(s)
    decreases |s|
  {
    if s != [] {
      SurrogateKinds(s[0]);
      var n := Next16(s).size;
      ReadsWellIffWellFormed16(s[n..]);
      if Next16(s).codePoint >= 0 {
        if n == 2 { PairSpells(s[0], s[1]); SurrogateKinds(s[1]); }
        hide IsLeadSurrogate, IsTrailSurrogate, Supplementary, ReadsWell16;
        WellFormedTail(s, n);
      } else {
        hide IsLeadSurrogate, IsTrailSurrogate, Supplementary;
      }
      assert ReadsWell16(s) <==> Next16(s).codePoint >= 0 && ReadsWell16(s[n..]);
    }
  }

  lemma WellFormedTail(s: seq<unit>, n: nat)
    requires 1 <= n <= |s| && n <= 2 && !IsTrailSurrogate(s[0]) && !IsLeadSurrogate(s[n - 1])
    requires n == 2 ==> IsLeadSurrogate(s[0]) && IsTrailSurrogate(s[1])
    ensures WellFormed16(s) <==> WellFormed16(s[n..])
  {
    hide IsLeadSurrogate, IsTrailSurrogate;
    var t := s[n..];
    assert forall i :: 0 <= i < |t| ==> t[i] == s[i + n];
    if WellFormed16(t) {
      forall i | 0 <= i < |s| && IsLeadSurrogate(s[i]) ensures i + 1 < |s| && IsTrailSurrogate(s[i + 1]) {
        if i >= n { assert t[i - n] == s[i]; }
      }
      forall i | 0 <= i < |s| && IsTrailSurrogate(s[i]) ensures i > 0 && IsLeadSurrogate(s[i - 1]) {
        if i >= n { assert t[i - n] == s[i]; }
      }
    }
    if WellFormed16(s) {
      forall i | 0 <= i < |t| && IsLeadSurrogate(t[i]) ensures i + 1 < |t| && IsTrailSurrogate(t[i + 1]) {
        assert s[i + n] == t[i];
      }
      forall i | 0 <= i < |t| && IsTrailSurrogate(t[i]) ensures i > 0 && IsLeadSurrogate(t[i - 1]) {
        assert s[i + n] == t[i];
      }
    }
  }

  lemma {:induction false} DecodeOfText8(cs: seq<scalar>)
    ensures Decode8(Text8(cs)) == cs && ReadsWell8(Text8(cs))
  {
    if cs != [] {
      var s, e := Text8(cs), Encode(cs[0]);
      NextOfEncode(cs[0], Text8(cs[1..]));
      hide Encode, Next;
      assert s[|e|..] == Text8(cs[1..]);
      DecodeOfText8(cs[1..]);
    }
  }

  lemma {:induction false} DecodeOfText16(cs: seq<scalar>)
    ensures Decode16(Text16(cs)) == cs && ReadsWell16(Text16(cs))
  {
    if cs != [] {
      var s, e := Text16(cs), Encode16(cs[0]);
      NextOfEncode16(cs[0], Text16(cs[1..]));
      hide Encode16, Next16;
      assert s[|e|..] == Text16(cs[1..]);
      DecodeOfText16(cs[1..]);
    }
  }

  /** The first code point of well-formed text, and the rest. */
  predicate Splits8(s: seq<byte>, c: int, rest: seq<byte>) {
    IsScalar(c) && s == Encode(c) + rest && ReadsWell8(rest) && Decode8(s) == [c] + Decode8(rest)
  }

  lemma FrontEncoded8(s: seq<byte>)
    requires s != [] && Next(s).codePoint >= 0
    ensures IsScalar(Next(s).codePoint) && s == Encode(Next(s).codePoint) + s[Next(s).size..]
  {
    NextIsEncoded(s);
    hide Encode, Next;
    assert s == s[..Next(s).size] + s[Next(s).size..];
  }

  lemma DecodeStep8(s: seq<byte>)
    requires s != [] && ReadsWell8(s)
    ensures Splits8(s, Next(s).codePoint, s[Next(s).size..])
  {
    FrontEncoded8(s);
    hide Encode, Next, IsScalar;
  }

  lemma {:induction false} TextOfDecode8(s: seq<byte>)
    requires ReadsWell8(s)
    ensures Text8(Decode8(s)) == s
    decreases |s|
  {
    if s != [] {
      DecodeStep8(s);
      var c, rest := Next(s).codePoint, s[Next(s).size..];
      hide Next, Encode, IsScalar, Text8, Decode8, ReadsWell8;
      TextOfDecode8(rest);
    }
  }

  lemma {:induction false} TextOfDecode16(s: seq<unit>)
    requires ReadsWell16(s)
    ensures Text16(Decode16(s)) == s
    decreases |s|
  {
    if s != [] {
      var c, rest := Next16(s).codePoint, s[Next16(s).size..];
      hide Next16, Encode16, IsScalar, Text16, Decode16, ReadsWell16;
      TextOfDecode16(rest);
    }
  }

  function To16(s: seq<byte>): seq<unit> { Text16(Decode8(s)) }

  function To8(s: seq<unit>): seq<byte> { Text8(Decode16(s)) }

  /** What cannot be read becomes U+FFFD: a sequence that is ill-formed, or an unpaired surrogate. */
  lemma IllFormedIsReplaced(s: seq<byte>, t: seq<unit>)
    ensures s != [] && Next(s).codePoint < 0 ==> To16(s) == [0xFFFD] + To16(s[Next(s).size..])
    ensures t != [] && Next16(t).codePoint < 0 ==> To8(t) == [0xEF, 0xBF, 0xBD] + To8(t[1..])
  {
    hide Next;
  }

  /** What is read becomes what it spells. */
  lemma ReadIsConverted(s: seq<byte>, t: seq<unit>)
    ensures s != [] && Next(s).codePoint >= 0 ==> To16(s) == Encode16(Next(s).codePoint) + To16(s[Next(s).size..])
    ensures t != [] && Next16(t).codePoint >= 0 ==> To8(t) == Encode(Next16(t).codePoint) + To8(t[Next16(t).size..])
  {
    if s != [] && Next(s).codePoint >= 0 { NextIsEncoded(s); }
    hide Next, Next16, Encode, Encode16;
  }

  /** Whatever is converted, the result is well formed. */
  lemma OutputIsWellFormed(s: seq<byte>, t: seq<unit>)
    ensures WellFormed16(To16(s)) && WellFormed8(To8(t))
  {
    DecodeOfText16(Decode8(s));
    DecodeOfText8(Decode16(t));
    ReadsWellIffWellFormed16(To16(s));
    ReadsWellIffWellFormed8(To8(t));
    hide WellFormed8, WellFormed16;
  }

  /** UTF-8 to UTF-16 and back is the identity on well-formed text, and on no other. */
  lemma RoundTrip8(s: seq<byte>)
    ensures To8(To16(s)) == s <==> WellFormed8(s)
  {
    hide Text8, Text16, Decode8, Decode16, WellFormed8, WellFormed16, ReadsWell8, ReadsWell16;
    DecodeOfText16(Decode8(s));
    DecodeOfText8(Decode8(s));
    ReadsWellIffWellFormed8(s);
    if ReadsWell8(s) { TextOfDecode8(s); }
  }

  lemma RoundTrip16(s: seq<unit>)
    ensures To16(To8(s)) == s <==> WellFormed16(s)
  {
    hide Text8, Text16, Decode8, Decode16, WellFormed8, WellFormed16, ReadsWell8, ReadsWell16;
    DecodeOfText8(Decode16(s));
    DecodeOfText16(Decode16(s));
    ReadsWellIffWellFormed16(s);
    if ReadsWell16(s) { TextOfDecode16(s); }
  }

  predicate IsAscii(s: seq<int>) { forall i :: 0 <= i < |s| ==> s[i] < 0x80 }

  /** ASCII text is its own conversion, either way: the short cut agrees with the loop. */
  lemma {:induction false} AsciiTo16(s: seq<byte>)
    requires IsAscii(s)
    ensures To16(s) == s && ReadsWell8(s)
  {
    if s != [] {
      assert Next(s) == Read(s[0], 1);
      AsciiTo16(s[1..]);
      hide Next;
      assert Decode8(s)[1..] == Decode8(s[1..]);
      assert s == [s[0]] + s[1..];
    }
  }

  lemma {:induction false} AsciiTo8(s: seq<unit>)
    requires IsAscii(s)
    ensures To8(s) == s && ReadsWell16(s)
  {
    if s != [] {
      assert Next16(s) == Read(s[0], 1);
      AsciiTo8(s[1..]);
      hide Next16;
      assert Decode16(s)[1..] == Decode16(s[1..]);
      assert s == [s[0]] + s[1..];
    }
  }

  // ----- the conversions -------------------------------------------------------------------------------------

  /** ReadUnicodeCharacter for UTF-16. */
  method ReadUnicodeCharacter16(src: seq<unit>, at: nat) returns (ok: bool, codePoint: int, charIndex: nat)
    requires at < |src|
    ensures codePoint == Next16(src[at..]).codePoint && ok == IsScalar(codePoint)
    ensures charIndex == at + Next16(src[at..]).size - 1
  {
    codePoint, charIndex := SENTINEL, at;
    if IsSurrogate(src[at]) {
      if src[at] / 0x400 % 2 != 0 || at + 1 >= |src| || !IsTrailSurrogate(src[at + 1]) {
        return false, codePoint, charIndex;
      }
      codePoint := Supplementary(src[at], src[at + 1]);
      charIndex := at + 1;
    } else {
      codePoint := src[at];
    }
    ok := IsScalar(codePoint);
  }

  /** WriteUnicodeCharacter for UTF-8: the string grows by four bytes and is cut back to what was written. */
  method WriteUnicodeCharacter8(codePoint: nat, output: seq<byte>) returns (longer: seq<byte>, written: nat)
    requires codePoint <= 0x10FFFF
    ensures longer == output + Encode(codePoint) && written == |Encode(codePoint)|
  {
    if codePoint <= 0x7F { return output + [codePoint], 1; }
    var n := |output|;
    var buffer := new byte[n + 4](i => if 0 <= i < n then output[i] else 0);
    assert buffer[..n] == output;
    hide Encode;
    var end := AppendUnsafe(buffer, n, codePoint);
    longer, written := buffer[..end], end - n;
  }

  /** WriteUnicodeCharacter for UTF-16, with CBU16_APPEND_UNSAFE for a pair. */
  method WriteUnicodeCharacter16(codePoint: nat, output: seq<unit>) returns (longer: seq<unit>, written: nat)
    requires codePoint <= 0x10FFFF
    ensures longer == output + Encode16(codePoint) && written == |Encode16(codePoint)|
  {
    if codePoint <= 0xFFFF { return output + [codePoint], 1; }
    var n := |output|;
    var buffer := new unit[n + 2](i => if 0 <= i < n then output[i] else 0);
    buffer[n] := codePoint / 0x400 + 0xD7C0;
    buffer[n + 1] := codePoint % 0x400 + 0xDC00;
    assert buffer[..] == output + Encode16(codePoint);
    longer, written := buffer[..], 2;
  }

  const LIMIT31: nat := 0x8000_0000

  /** static_cast<int32_t> of a length */
  function Narrow(length: nat): int {
    var low := length % 0x1_0000_0000;
    if low < LIMIT31 then low else low - 0x1_0000_0000
  }

  /** The part of the text that ConvertUnicode looks at: all of it, up to 2^31 - 1 units. */
  function Seen<T>(s: seq<T>): (t: seq<T>)
    ensures t <= s && (|s| < LIMIT31 ==> t == s)
    ensures Narrow(|s|) == |t| || (Narrow(|s|) < 0 && t == [])
  {
    if Narrow(|s|) >= 0 then s[..Narrow(|s|)] else []
  }

  lemma NothingToConvert()
    ensures To16([]) == [] && To8([]) == [] && ReadsWell8([]) && ReadsWell16([])
  {}

  lemma ScalarRange(c: int)
    requires IsScalar(c)
    ensures 0 <= c <= 0x10FFFF
  {}

  /** One round of the loop: what is written makes up for what is read. */
  lemma To16Advance(text: seq<byte>, i: nat, written: seq<unit>)
    requires i < |text|
    ensures var r := Next(text[i..]);
      && i + r.size <= |text|
      && written + Encode16(Mend(r)) + To16(text[i + r.size..]) == written + To16(text[i..])
      && (ReadsWell8(text[i..]) <==> IsScalar(r.codePoint) && ReadsWell8(text[i + r.size..]))
  {
    var t := text[i..];
    hide *;
    assert t[Next(t).size..] == text[i + Next(t).size..];
  }

  /** One round of the loop: what is written makes up for what is read. */
  lemma To8Advance(text: seq<unit>, i: nat, written: seq<byte>)
    requires i < |text|
    ensures var r := Next16(text[i..]);
      && i + r.size <= |text|
      && written + Encode(Mend(r)) + To8(text[i + r.size..]) == written + To8(text[i..])
      && (ReadsWell16(text[i..]) <==> IsScalar(r.codePoint) && ReadsWell16(text[i + r.size..]))
  {
    var t := text[i..];
    hide *;
    assert t[Next16(t).size..] == text[i + Next16(t).size..];
  }

  /** ConvertUnicode from UTF-8 */
  method ConvertUnicode8(src: seq<byte>, output: seq<unit>) returns (success: bool, longer: seq<unit>)
    ensures longer == output + To16(Seen(src))
    ensures success <==> ReadsWell8(Seen(src))
  {
    hide To16, To8, ReadsWell8, ReadsWell16, Next, Next16, Encode, Encode16, IsScalar, Seen, Narrow;
    var text, length := Seen(src), Narrow(|src|);
    success, longer := true, output;
    var i := 0;
    assert text[0..] == text;
    NothingToConvert();
    while i < length
      invariant 0 <= i <= |text|
      invariant length == |text| || (length < 0 && text == [])
      invariant longer + To16(text[i..]) == output + To16(text)
      invariant success && ReadsWell8(text[i..]) <==> ReadsWell8(text)
      decreases length - i
    {
      To16Advance(text, i, longer);
      var ok, codePoint, written;
      ok, codePoint, i := ReadUnicodeCharacter(text, i);
      if !ok {
        codePoint, success := REPLACEMENT, false;
      }
      ScalarRange(codePoint);
      longer, written := WriteUnicodeCharacter16(codePoint, longer);
      i := i + 1;
    }
    assert text[i..] == [];
  }

  /** ConvertUnicode from UTF-16 */
  method ConvertUnicode16(src: seq<unit>, output: seq<byte>) returns (success: bool, longer: seq<byte>)
    ensures longer == output + To8(Seen(src))
    ensures success <==> ReadsWell16(Seen(src))
  {
    hide To16, To8, ReadsWell8, ReadsWell16, Next, Next16, Encode, Encode16, IsScalar, Seen, Narrow;
    var text, length := Seen(src), Narrow(|src|);
    success, longer := true, output;
    var i := 0;
    assert text[0..] == text;
    NothingToConvert();
    while i < length
      invariant 0 <= i <= |text|
      invariant length == |text| || (length < 0 && text == [])
      invariant longer + To8(text[i..]) == output + To8(text)
      invariant success && ReadsWell16(text[i..]) <==> ReadsWell16(text)
      decreases length - i
    {
      To8Advance(text, i, longer);
      var ok, codePoint, written;
      ok, codePoint, i := ReadUnicodeCharacter16(text, i);
      if !ok {
        codePoint, success := REPLACEMENT, false;
      }
      ScalarRange(codePoint);
      longer, written := WriteUnicodeCharacter8(codePoint, longer);
      i := i + 1;
    }
    assert text[i..] == [];
  }

  /** UTF-8 to UTF-16: ASCII goes over as it is, all else through the loop. */
  function Converted8(src: seq<byte>): seq<unit> { if IsAscii(src) then src else To16(Seen(src)) }

  function Converted16(src: seq<unit>): seq<byte> { if IsAscii(src) then src else To8(Seen(src)) }

  /** Up to 2^31 - 1 units the short cut cannot be told from the loop. */
  lemma ShortCutAgrees(s: seq<byte>, t: seq<unit>)
    ensures |s| < LIMIT31 ==> Converted8(s) == To16(s)
    ensures |t| < LIMIT31 ==> Converted16(t) == To8(t)
  {
    if IsAscii(s) { AsciiTo16(s); }
    if IsAscii(t) { AsciiTo8(t); }
    hide To16, To8;
  }

  lemma Bits8(b: byte)
    ensures (b as bv8) < 0x80 <==> b < 0x80
  {}

  lemma Bits16(u: unit)
    ensures (u as bv16) < 0x80 <==> u < 0x80
  {}

  /** UTF8ToUTF16; address is where the text lies, machine what words it is read in. */
  method UTF8ToUTF16(src: seq<byte>, address: nat, machine: AsciiScan.Machine)
      returns (success: bool, output: seq<unit>)
    ensures output == Converted8(src)
    ensures success <==> IsAscii(src) || WellFormed8(Seen(src))
  {
    hide To16, WellFormed8, Seen;
    var chars := seq(|src|, i requires 0 <= i < |src| => src[i] as bv8);
    var ascii := AsciiScan.IsStringAscii8(machine, chars, address);
    forall i | 0 <= i < |src| ensures chars[i] < 0x80 <==> src[i] < 0x80 { Bits8(src[i]); }
    assert ascii <==> IsAscii(src);
    if ascii { return true, src; }
    ReadsWellIffWellFormed8(Seen(src));
    success, output := ConvertUnicode8(src, []);
  }

  /** UTF16ToUTF8 */
  method UTF16ToUTF8(src: seq<unit>, address: nat, machine: AsciiScan.Machine)
      returns (success: bool, output: seq<byte>)
    ensures output == Converted16(src)
    ensures success <==> IsAscii(src) || WellFormed16(Seen(src))
  {
    hide To8, WellFormed16, Seen;
    var chars := seq(|src|, i requires 0 <= i < |src| => src[i] as bv16);
    var ascii := AsciiScan.IsStringAscii16(machine, chars, address);
    forall i | 0 <= i < |src| ensures chars[i] < 0x80 <==> src[i] < 0x80 { Bits16(src[i]); }
    assert ascii <==> IsAscii(src);
    if ascii { return true, src; }
    ReadsWellIffWellFormed16(Seen(src));
    success, output := ConvertUnicode16(src, []);
  }

  // ----- there and back --------------------------------------------------------------------------------------

  lemma {:induction false} To16IsNoLonger(s: seq<byte>)
    ensures |To16(s)| <= |s|
  {
    if s != [] {
      var r := Next(s);
      LengthOf16(s);
      To16IsNoLonger(s[r.size..]);
      hide Next, Encode16, Mend;
      assert Decode8(s)[1..] == Decode8(s[r.size..]);
    }
  }

  lemma LengthOf16(s: seq<byte>)
    requires s != []
    ensures |Encode16(Mend(Next(s)))| <= Next(s).size
  {
    if Next(s).codePoint >= 0 {
      NextIsEncoded(s);
      hide Next;
    }
  }

  lemma {:induction false} To8IsAtMostThrice(t: seq<unit>)
    ensures |To8(t)| <= 3 * |t|
  {
    if t != [] {
      var r := Next16(t);
      assert |Encode(Mend(r))| <= 3 * r.size;
      To8IsAtMostThrice(t[r.size..]);
      hide Next16, Encode, Mend;
      assert Decode16(t)[1..] == Decode16(t[r.size..]);
    }
  }

  /** What a text of 2^31 units or more loses: from there on nothing is seen, from 2^32 on less than 2^31 units. */
  lemma SeenIsShort<T>(s: seq<T>)
    ensures |Seen(s)| < LIMIT31
    ensures |s| >= LIMIT31 ==> Seen(s) == [] || |Seen(s)| + 2 * LIMIT31 <= |s|
  {}

  /** The first text that is lost: it need only have a character that is not ASCII. */
  lemma LongTextIsLost(s: seq<byte>, t: seq<unit>)
    ensures |s| == LIMIT31 && !IsAscii(s) ==> Converted8(s) == []
    ensures |t| == LIMIT31 && !IsAscii(t) ==> Converted16(t) == []
  {
    NothingToConvert();
    hide To16, To8;
  }

  /** The conversions themselves: there and back is the identity on ASCII of any length, and on well-formed text of
      fewer than 2^31 bytes. */
  lemma ConversionsRoundTrip8(s: seq<byte>)
    ensures Converted16(Converted8(s)) == s <==> IsAscii(s) || (|s| < LIMIT31 && WellFormed8(s))
  {
    if !IsAscii(s) {
      var u := To16(Seen(s));
      SeenIsShort(s);
      To16IsNoLonger(Seen(s));
      To8IsAtMostThrice(u);
      ShortCutAgrees(s, u);
      RoundTrip8(s);
      NothingToConvert();
      hide To16, To8, Seen, WellFormed8;
    }
  }

  /** From UTF-16 the UTF-8 in between has to stay below 2^31 bytes too. */
  lemma ConversionsRoundTrip16(t: seq<unit>)
    ensures Converted8(Converted16(t)) == t
       <==> IsAscii(t) || (|t| < LIMIT31 && |To8(t)| < LIMIT31 && WellFormed16(t))
  {
    if !IsAscii(t) {
      var v := To8(Seen(t));
      SeenIsShort(t);
      SeenIsShort(v);
      To8IsAtMostThrice(Seen(t));
      To16IsNoLonger(v);
      To16IsNoLonger(Seen(v));
      if IsAscii(v) { AsciiTo16(v); }
      ShortCutAgrees(v, t);
      RoundTrip16(t);
      NothingToConvert();
      hide To16, To8, Seen, WellFormed16;
    }
  }

  /** UTF8ToUTF16 followed by UTF16ToUTF8 */
  method ThereAndBack8(src: seq<byte>, address: nat, address': nat, machine: AsciiScan.Machine)
      returns (back: seq<byte>)
    ensures back == src <==> IsAscii(src) || (|src| < LIMIT31 && WellFormed8(src))
  {
    ConversionsRoundTrip8(src);
    hide Converted8, Converted16, WellFormed8, WellFormed16, Seen, IsAscii;
    var ok, wide := UTF8ToUTF16(src, address, machine);
    ok, back := UTF16ToUTF8(wide, address', machine);
  }

  /** UTF16ToUTF8 followed by UTF8ToUTF16 */
  method ThereAndBack16(src: seq<unit>, address: nat, address': nat, machine: AsciiScan.Machine)
      returns (back: seq<unit>)
    ensures back == src <==> IsAscii(src) || (|src| < LIMIT31 && |To8(src)| < LIMIT31 && WellFormed16(src))
  {
    ConversionsRoundTrip16(src);
    hide Converted8, Converted16, WellFormed8, WellFormed16, Seen, IsAscii, To8;
    var ok, narrow := UTF16ToUTF8(src, address, machine);
    ok, back := UTF8ToUTF16(narrow, address', machine);
  }
}
