/** IsStringASCII: or-ing a string together a machine word at a time and looking at the high bits. */
module AsciiScan {
  /** Words of eight bytes or of four, the lowest byte first or last. A word of four is the lower half of a bv64. */
  datatype Machine = Machine(wide: bool, littleEndian: bool)
  {
    function WordSize(): nat { if wide then 8 else 4 }
    predicate IsAligned(address: nat) { address % WordSize() == 0 }
    function AlignDown(address: nat): nat { address - address % WordSize() }
  }

  lemma BelowEnd(m: Machine, end: nat)
    ensures m.AlignDown(end) <= end
  {}

  lemma WordFits(m: Machine, here: nat, end: nat)
    requires m.IsAligned(here) && here < m.AlignDown(end)
    ensures here + m.WordSize() <= m.AlignDown(end) && m.IsAligned(here + m.WordSize())
  {
    if m.wide { NextMultipleOf8(here, m.AlignDown(end)); } else { NextMultipleOf4(here, m.AlignDown(end)); }
  }

  lemma NextMultipleOf8(here: nat, end: nat)
    requires here % 8 == 0 && end % 8 == 0 && here < end
    ensures here + 8 <= end && (here + 8) % 8 == 0
  {}

  lemma NextMultipleOf4(here: nat, end: nat)
    requires here % 4 == 0 && end % 4 == 0 && here < end
    ensures here + 4 <= end && (here + 4) % 4 == 0
  {}

  // ----- char, which is signed -------------------------------------------------------------------------------

  /** NonASCIIMask for char */
  function Mask8(m: Machine): bv64 { if m.wide then 0x8080_8080_8080_8080 else 0x8080_8080 }

  function SignExtend(c: bv8): bv64 { if c >= 0x80 then 0xFFFF_FFFF_FFFF_FF00 | (c as bv64) else c as bv64 }

  /** Four characters, the first lowest. */
  function Half8(a: bv8, b: bv8, c: bv8, d: bv8): bv64 {
    (a as bv64) | ((b as bv64) << 8) | ((c as bv64) << 16) | ((d as bv64) << 24)
  }

  function Raise(half: bv64): bv64 { half << 32 }

  function Quad8(m: Machine, s: seq<bv8>, i: nat): bv64
    requires i + 4 <= |s|
  {
    if m.littleEndian then Half8(s[i], s[i + 1], s[i + 2], s[i + 3]) else Half8(s[i + 3], s[i + 2], s[i + 1], s[i])
  }

  /** The characters of a word read as one. */
  function Word8(m: Machine, s: seq<bv8>, i: nat): bv64
    requires i + m.WordSize() <= |s|
  {
    if !m.wide then Quad8(m, s, i)
    else if m.littleEndian then Or(Quad8(m, s, i), Raise(Quad8(m, s, i + 4)))
    else Or(Quad8(m, s, i + 4), Raise(Quad8(m, s, i)))
  }

  function Or(x: bv64, y: bv64): bv64 { x | y }

  /** No bit of x lies under the mask. */
  predicate Clear(x: bv64, mask: bv64) { x & mask == 0 }

  lemma BitsDistribute(x: bv64, y: bv64, mask: bv64)
    ensures (x | y) & mask == (x & mask) | (y & mask)
  {}

  lemma BothZero(x: bv64, y: bv64)
    ensures x | y == 0 <==> x == 0 && y == 0
  {}

  lemma BitsKept(x: bv64, y: bv64, mask: bv64)
    ensures Clear(x | y, mask) <==> Clear(x, mask) && Clear(y, mask)
  {
    BitsDistribute(x, y, mask);
    BothZero(x & mask, y & mask);
  }

  lemma OrKeepsBits(x: bv64, y: bv64, mask: bv64)
    ensures Clear(Or(x, y), mask) <==> Clear(x, mask) && Clear(y, mask)
  {
    hide Clear;
    BitsKept(x, y, mask);
  }

  lemma CharBits(m: Machine, c: bv8)
    ensures Clear(SignExtend(c), Mask8(m)) <==> c < 0x80
  {}

  lemma HalfBits(a: bv8, b: bv8, c: bv8, d: bv8)
    ensures Clear(Half8(a, b, c, d), 0x8080_8080_8080_8080) <==> a < 0x80 && b < 0x80 && c < 0x80 && d < 0x80
  {}

  lemma RaisedBits(a: bv8, b: bv8, c: bv8, d: bv8)
    ensures Clear(Raise(Half8(a, b, c, d)), 0x8080_8080_8080_8080) <==> a < 0x80 && b < 0x80 && c < 0x80 && d < 0x80
  {}

  lemma NarrowBits(a: bv8, b: bv8, c: bv8, d: bv8)
    ensures Clear(Half8(a, b, c, d), 0x8080_8080) <==> a < 0x80 && b < 0x80 && c < 0x80 && d < 0x80
  {}

  lemma FourBytes(a: bv8, b: bv8, c: bv8, d: bv8)
    ensures Clear(Half8(a, b, c, d), 0x8080_8080_8080_8080) <==> a < 0x80 && b < 0x80 && c < 0x80 && d < 0x80
    ensures Clear(Raise(Half8(a, b, c, d)), 0x8080_8080_8080_8080) <==> a < 0x80 && b < 0x80 && c < 0x80 && d < 0x80
    ensures Clear(Half8(a, b, c, d), 0x8080_8080) <==> a < 0x80 && b < 0x80 && c < 0x80 && d < 0x80
  {
    hide Half8, Raise, Clear;
    HalfBits(a, b, c, d);
    RaisedBits(a, b, c, d);
    NarrowBits(a, b, c, d);
  }

  lemma QuadBits(m: Machine, s: seq<bv8>, i: nat)
    requires i + 4 <= |s|
    ensures Clear(Quad8(m, s, i), Mask8(m)) <==> forall k :: i <= k < i + 4 ==> s[k] < 0x80
    ensures m.wide ==> (Clear(Raise(Quad8(m, s, i)), Mask8(m)) <==> forall k :: i <= k < i + 4 ==> s[k] < 0x80)
  {
    hide Half8, Raise, Clear;
    FourBytes(s[i], s[i + 1], s[i + 2], s[i + 3]);
    FourBytes(s[i + 3], s[i + 2], s[i + 1], s[i]);
  }

  lemma Word8Bits(m: Machine, s: seq<bv8>, i: nat)
    requires i + m.WordSize() <= |s|
    ensures Clear(Word8(m, s, i), Mask8(m)) <==> forall k :: i <= k < i + m.WordSize() ==> s[k] < 0x80
  {
    hide Quad8, Raise, Or, Clear, Mask8;
    QuadBits(m, s, i);
    if m.wide {
      QuadBits(m, s, i + 4);
      OrKeepsBits(Quad8(m, s, i), Raise(Quad8(m, s, i + 4)), Mask8(m));
      OrKeepsBits(Quad8(m, s, i + 4), Raise(Quad8(m, s, i)), Mask8(m));
    }
  }

  method WithChar(m: Machine, bits: bv64, c: bv8) returns (r: bv64)
    ensures Clear(r, Mask8(m)) <==> Clear(bits, Mask8(m)) && c < 0x80
  {
    hide Or, Clear, SignExtend, Mask8;
    OrKeepsBits(bits, SignExtend(c), Mask8(m));
    CharBits(m, c);
    r := Or(bits, SignExtend(c));
  }

  method WithChars(m: Machine, bits: bv64, s: seq<bv8>, i: nat) returns (r: bv64)
    requires i + m.WordSize() <= |s|
    ensures Clear(r, Mask8(m)) <==> Clear(bits, Mask8(m)) && forall k :: i <= k < i + m.WordSize() ==> s[k] < 0x80
  {
    hide Or, Clear, Word8, Mask8;
    OrKeepsBits(bits, Word8(m, s, i), Mask8(m));
    Word8Bits(m, s, i);
    r := Or(bits, Word8(m, s, i));
  }

  /** DoIsStringASCII<char>: address is where the string lies. */
  method IsStringAscii8(m: Machine, s: seq<bv8>, address: nat) returns (ascii: bool)
    ensures ascii <==> forall i :: 0 <= i < |s| ==> s[i] < 0x80
  {
    var allCharBits: bv64 := 0;
    var i, n := 0, |s|;
    assert Clear(allCharBits, Mask8(m));
    hide Or, SignExtend, Word8, Clear, Machine.IsAligned, Machine.AlignDown, Mask8;
    while !m.IsAligned(address + i) && i != n
      invariant 0 <= i <= n
      invariant Clear(allCharBits, Mask8(m)) <==> forall k :: 0 <= k < i ==> s[k] < 0x80
      decreases n - i
    {
      allCharBits := WithChar(m, allCharBits, s[i]);
      i := i + 1;
    }
    var wordEnd := m.AlignDown(address + n);
    assert wordEnd <= address + n by { BelowEnd(m, address + n); }
    while address + i < wordEnd
      invariant 0 <= i <= n && (address + i < wordEnd ==> m.IsAligned(address + i))
      invariant Clear(allCharBits, Mask8(m)) <==> forall k :: 0 <= k < i ==> s[k] < 0x80
      decreases n - i
    {
      WordFits(m, address + i, address + n);
      allCharBits := WithChars(m, allCharBits, s, i);
      i := i + m.WordSize();
    }
    while i != n
      invariant 0 <= i <= n
      invariant Clear(allCharBits, Mask8(m)) <==> forall k :: 0 <= k < i ==> s[k] < 0x80
      decreases n - i
    {
      allCharBits := WithChar(m, allCharBits, s[i]);
      i := i + 1;
    }
    ascii := Clear(allCharBits, Mask8(m));
  }

  // ----- char16_t --------------------------------------------------------------------------------------------

  /** NonASCIIMask for char16_t */
  function Mask16(m: Machine): bv64 { if m.wide then 0xFF80_FF80_FF80_FF80 else 0xFF80_FF80 }

  function Four16(a: bv16, b: bv16, c: bv16, d: bv16): bv64 {
    (a as bv64) | ((b as bv64) << 16) | ((c as bv64) << 32) | ((d as bv64) << 48)
  }

  /** The characters of a word read as one. */
  function Word16(m: Machine, s: seq<bv16>, i: nat): bv64
    requires i + m.WordSize() / 2 <= |s|
  {
    if m.wide then
      if m.littleEndian then Four16(s[i], s[i + 1], s[i + 2], s[i + 3]) else Four16(s[i + 3], s[i + 2], s[i + 1], s[i])
    else
      if m.littleEndian then Four16(s[i], s[i + 1], 0, 0) else Four16(s[i + 1], s[i], 0, 0)
  }

  function Widen(c: bv16): bv64 { c as bv64 }

  lemma UnitBits(m: Machine, c: bv16)
    ensures Clear(Widen(c), Mask16(m)) <==> c < 0x80
  {}

  lemma FourBits(a: bv16, b: bv16, c: bv16, d: bv16)
    ensures Clear(Four16(a, b, c, d), 0xFF80_FF80_FF80_FF80) <==> a < 0x80 && b < 0x80 && c < 0x80 && d < 0x80
    ensures Clear(Four16(a, b, 0, 0), 0xFF80_FF80) <==> a < 0x80 && b < 0x80
  {}

  lemma Word16Bits(m: Machine, s: seq<bv16>, i: nat)
    requires i + m.WordSize() / 2 <= |s|
    ensures Clear(Word16(m, s, i), Mask16(m)) <==> forall k :: i <= k < i + m.WordSize() / 2 ==> s[k] < 0x80
  {
    hide Four16, Clear;
    if m.wide {
      FourBits(s[i], s[i + 1], s[i + 2], s[i + 3]);
      FourBits(s[i + 3], s[i + 2], s[i + 1], s[i]);
    } else {
      FourBits(s[i], s[i + 1], 0, 0);
      FourBits(s[i + 1], s[i], 0, 0);
    }
  }

  method WithUnit(m: Machine, bits: bv64, c: bv16) returns (r: bv64)
    ensures Clear(r, Mask16(m)) <==> Clear(bits, Mask16(m)) && c < 0x80
  {
    hide Or, Clear, Widen, Mask16;
    OrKeepsBits(bits, Widen(c), Mask16(m));
    UnitBits(m, c);
    r := Or(bits, Widen(c));
  }

  method WithUnits(m: Machine, bits: bv64, s: seq<bv16>, i: nat) returns (r: bv64)
    requires i + m.WordSize() / 2 <= |s|
    ensures Clear(r, Mask16(m)) <==> Clear(bits, Mask16(m)) && forall k :: i <= k < i + m.WordSize() / 2 ==> s[k] < 0x80
  {
    hide Or, Clear, Word16, Mask16;
    OrKeepsBits(bits, Word16(m, s, i), Mask16(m));
    Word16Bits(m, s, i);
    r := Or(bits, Word16(m, s, i));
  }

  /** DoIsStringASCII<char16_t> */
  method IsStringAscii16(m: Machine, s: seq<bv16>, address: nat) returns (ascii: bool)
    ensures ascii <==> forall i :: 0 <= i < |s| ==> s[i] < 0x80
  {
    var allCharBits: bv64 := 0;
    var i, n := 0, |s|;
    var increment := m.WordSize() / 2;
    assert Clear(allCharBits, Mask16(m)) && 2 * increment == m.WordSize() > 0;
    hide Machine.WordSize, Or, Widen, Word16, Clear, Machine.IsAligned, Machine.AlignDown, Mask16;
    while !m.IsAligned(address + 2 * i) && i != n
      invariant 0 <= i <= n
      invariant Clear(allCharBits, Mask16(m)) <==> forall k :: 0 <= k < i ==> s[k] < 0x80
      decreases n - i
    {
      allCharBits := WithUnit(m, allCharBits, s[i]);
      i := i + 1;
    }
    var wordEnd := m.AlignDown(address + 2 * n);
    assert wordEnd <= address + 2 * n by { BelowEnd(m, address + 2 * n); }
    while address + 2 * i < wordEnd
      invariant 0 <= i <= n && (address + 2 * i < wordEnd ==> m.IsAligned(address + 2 * i))
      invariant Clear(allCharBits, Mask16(m)) <==> forall k :: 0 <= k < i ==> s[k] < 0x80
      decreases n - i
    {
      WordFits(m, address + 2 * i, address + 2 * n);
      allCharBits := WithUnits(m, allCharBits, s, i);
      i := i + increment;
    }
    while i != n
      invariant 0 <= i <= n
      invariant Clear(allCharBits, Mask16(m)) <==> forall k :: 0 <= k < i ==> s[k] < 0x80
      decreases n - i
    {
      allCharBits := WithUnit(m, allCharBits, s[i]);
      i := i + 1;
    }
    ascii := Clear(allCharBits, Mask16(m));
  }
}
