/** CMAC over any block cipher: sections 6.1 and 6.2 of NIST SP 800-38B. */
module CmacMode {
  import Bits

  type byte = bv8

  /** An uninterpreted block cipher under a fixed key. */
  datatype Cipher = Cipher(blockSize: nat, process: seq<byte> -> seq<byte>)
  {
    /** Blocks go to blocks of the same size. */
    ghost predicate Valid() {
      && blockSize > 0
      && forall block: seq<byte> :: |block| == blockSize ==> |process(block)| == blockSize
    }
  }

  function Zeros(n: nat): (s: seq<byte>)
    ensures |s| == n
  {
    seq(n, _ => 0)
  }

  function XorByte(a: byte, b: byte): byte { a ^ b }

  function Xor(a: seq<byte>, b: seq<byte>): (s: seq<byte>)
    requires |a| == |b|
    ensures |s| == |a|
  {
    seq(|a|, i requires 0 <= i < |a| => XorByte(a[i], b[i]))
  }

  /** t xored into the front of s. */
  function XorFront(s: seq<byte>, t: seq<byte>): (r: seq<byte>)
    requires |t| <= |s|
    ensures |r| == |s|
  {
    seq(|s|, i requires 0 <= i < |s| => if i < |t| then XorByte(s[i], t[i]) else s[i])
  }

  // ----- doubling --------------------------------------------------------------------------------------------

  /** The bit that a byte shifts out at the top. */
  function CarryOut(b: byte): byte { b >> 7 }

  function Twice(b: byte, carry: byte): byte { b + (b + carry) }

  function ShiftLeft(k: seq<byte>): (r: seq<byte>)
    ensures |r| == |k|
  {
    seq(|k|, i requires 0 <= i < |k| => Twice(k[i], if i + 1 < |k| then CarryOut(k[i + 1]) else 0))
  }

  predicate TopBit(k: seq<byte>) { k != [] && CarryOut(k[0]) != 0 }

  /** The block sizes a carry can be folded back into. */
  predicate Supported(length: nat) { length == 8 || length == 16 || length == 32 }

  function Fold(k: seq<byte>): (r: seq<byte>)
    requires Supported(|k|)
    ensures |r| == |k|
  {
    if |k| == 8 then k[7 := XorByte(k[7], 0x1B)]
    else if |k| == 16 then k[15 := XorByte(k[15], 0x87)]
    else k[30 := XorByte(k[30], 0x04)][31 := XorByte(k[31], 0x23)]
  }

  predicate CanDouble(k: seq<byte>) { TopBit(k) ==> Supported(|k|) }

  function Double(k: seq<byte>): (r: seq<byte>)
    requires CanDouble(k)
    ensures |r| == |k|
  {
    if TopBit(k) then Fold(ShiftLeft(k)) else ShiftLeft(k)
  }

  predicate BitAt(b: byte, i: nat)
    requires i < 8
  {
    match i
    case 0 => b & 1 != 0 case 1 => b & 2 != 0 case 2 => b & 4 != 0 case 3 => b & 8 != 0
    case 4 => b & 16 != 0 case 5 => b & 32 != 0 case 6 => b & 64 != 0 case 7 => b & 128 != 0
  }

  /** A block as a polynomial over GF(2): the coefficient of x^e. */
  predicate Coefficient(k: seq<byte>, e: nat)
    requires e < 8 * |k|
  {
    BitAt(k[|k| - 1 - e / 8], e % 8)
  }

  /** The reduction polynomial of each field, but for its leading term. */
  predicate InPolynomial(length: nat, e: nat) {
    match length
    case 8 => e == 4 || e == 3 || e == 1 || e == 0
    case 16 => e == 7 || e == 2 || e == 1 || e == 0
    case 32 => e == 10 || e == 5 || e == 1 || e == 0
    case _ => false
  }

  lemma CarryOf(b: byte)
    ensures CarryOut(b) == if BitAt(b, 7) then 1 else 0
  {}

  lemma {:induction false} ShiftCoefficient(k: seq<byte>, e: nat)
    requires e < 8 * |k|
    ensures Coefficient(ShiftLeft(k), e) == (e > 0 && Coefficient(k, e - 1))
  {
    var i := |k| - 1 - e / 8;
    var carry := if i + 1 < |k| then CarryOut(k[i + 1]) else 0;
    if i + 1 < |k| { CarryOf(k[i + 1]); }
    hide BitAt;
    if e > 0 { Predecessor(e); }
  }

  lemma Predecessor(e: nat)
    requires e > 0
    ensures if e % 8 == 0 then (e - 1) / 8 == e / 8 - 1 && (e - 1) % 8 == 7
            else (e - 1) / 8 == e / 8 && (e - 1) % 8 == e % 8 - 1
  {}

  lemma FoldCoefficient(k: seq<byte>, e: nat)
    requires Supported(|k|) && e < 8 * |k|
    ensures Coefficient(Fold(k), e) == (Coefficient(k, e) != InPolynomial(|k|, e))
  {
    var i, j := |k| - 1 - e / 8, e % 8;
    hide BitAt, XorByte;
    if |k| == 8 {
      assert InPolynomial(8, e) == (i == 7 && (j == 4 || j == 3 || j == 1 || j == 0));
    } else if |k| == 16 {
      assert InPolynomial(16, e) == (i == 15 && (j == 7 || j == 2 || j == 1 || j == 0));
    } else {
      assert InPolynomial(32, e) == ((i == 30 && j == 2) || (i == 31 && (j == 5 || j == 1 || j == 0)));
    }
  }

  /** Doubling is multiplication by x: every coefficient moves up one place, and a term x^n that drops out
      at the top is replaced by the rest of the reduction polynomial. */
  lemma DoubleIsTimesX(k: seq<byte>, e: nat)
    requires Supported(|k|) && e < 8 * |k|
    ensures Coefficient(Double(k), e) ==
            ((e > 0 && Coefficient(k, e - 1)) != (Coefficient(k, 8 * |k| - 1) && InPolynomial(|k|, e)))
  {
    ShiftCoefficient(k, e);
    CarryOf(k[0]);
    assert TopBit(k) == Coefficient(k, 8 * |k| - 1);
    if TopBit(k) { FoldCoefficient(ShiftLeft(k), e); }
    hide BitAt, Fold, ShiftLeft, InPolynomial, Coefficient, CarryOut;
  }

  // ----- the mode --------------------------------------------------------------------------------------------

  predicate CanKey(l: seq<byte>) { CanDouble(l) && CanDouble(Double(l)) }

  /** The subkeys of SP 800-38B, section 6.1: a zero block enciphered, doubled once and twice. */
  function KeyOf(cipher: Cipher): (key: Keyed)
    requires CanKey(cipher.process(Zeros(cipher.blockSize)))
  {
    var l := cipher.process(Zeros(cipher.blockSize));
    Keyed(cipher, Double(l), Double(Double(l)))
  }

  /** The cipher with its two subkeys. */
  datatype Keyed = Keyed(cipher: Cipher, subkey1: seq<byte>, subkey2: seq<byte>)
  {
    ghost predicate Valid() {
      cipher.Valid() && |subkey1| == cipher.blockSize && |subkey2| == cipher.blockSize
    }

    /** The cipher block chaining of whole blocks. */
    ghost function Chain(state: seq<byte>, blocks: seq<byte>): (r: seq<byte>)
      requires Valid() && |state| == cipher.blockSize
      ensures |r| == cipher.blockSize
      decreases |blocks|
    {
      if |blocks| < cipher.blockSize then state
      else Chain(cipher.process(Xor(state, blocks[..cipher.blockSize])), blocks[cipher.blockSize..])
    }

    ghost predicate WholeBlocks(n: nat)
      requires Valid()
    {
      n == 0 || (n >= cipher.blockSize && WholeBlocks(n - cipher.blockSize))
    }

    /** A one bit and zeros fill up the last block. */
    function Pad(last: seq<byte>): (r: seq<byte>)
      requires |last| < cipher.blockSize
      ensures |r| == cipher.blockSize
    {
      last + [0x80] + Zeros(cipher.blockSize - |last| - 1)
    }

    /** The last block, complete or not. */
    ghost function Final(state: seq<byte>, last: seq<byte>): (r: seq<byte>)
      requires Valid() && |state| == cipher.blockSize && |last| <= cipher.blockSize
      ensures |r| == cipher.blockSize
    {
      cipher.process(Xor(state, if |last| == cipher.blockSize then Xor(last, subkey1) else Xor(Pad(last), subkey2)))
    }

    /** The mode on what is left of the message. */
    ghost function MacFrom(state: seq<byte>, message: seq<byte>): (r: seq<byte>)
      requires Valid() && |state| == cipher.blockSize
      ensures |r| == cipher.blockSize
      decreases |message|
    {
      if |message| <= cipher.blockSize then Final(state, message)
      else MacFrom(cipher.process(Xor(state, message[..cipher.blockSize])), message[cipher.blockSize..])
    }

    /** The MAC of a message in one go: section 6.2 of SP 800-38B. */
    ghost function Mac(message: seq<byte>): (r: seq<byte>)
      requires Valid()
      ensures |r| == cipher.blockSize
    {
      MacFrom(Zeros(cipher.blockSize), message)
    }

    lemma {:induction false} WholeByRemainder(n: nat)
      requires Valid()
      ensures WholeBlocks(n) <==> n % cipher.blockSize == 0
    {
      var m := cipher.blockSize;
      Bits.RemainderStep(n, m);
      if n >= m {
        WholeByRemainder(n - m);
      }
    }

    lemma {:induction false} ChainOneMore(state: seq<byte>, blocks: seq<byte>, block: seq<byte>)
      requires Valid() && |state| == cipher.blockSize && WholeBlocks(|blocks|) && |block| == cipher.blockSize
      ensures Chain(state, blocks + block) == cipher.process(Xor(Chain(state, blocks), block))
      ensures WholeBlocks(|blocks| + cipher.blockSize)
      decreases |blocks|
    {
      var n := cipher.blockSize;
      if blocks == [] {
        assert blocks + block == block && block[..n] == block && |block[n..]| == 0;
      } else {
        var next := cipher.process(Xor(state, blocks[..n]));
        assert (blocks + block)[..n] == blocks[..n];
        assert (blocks + block)[n..] == blocks[n..] + block;
        ChainOneMore(next, blocks[n..], block);
      }
    }

    /** Holding back the last block, whole or not, is all the mode needs. */
    lemma {:induction false} MacSplits(state: seq<byte>, blocks: seq<byte>, last: seq<byte>)
      requires Valid() && |state| == cipher.blockSize && WholeBlocks(|blocks|) && |last| <= cipher.blockSize
      requires last == [] ==> blocks == []
      ensures MacFrom(state, blocks + last) == Final(Chain(state, blocks), last)
      decreases |blocks|
    {
      var n := cipher.blockSize;
      if blocks == [] {
        assert blocks + last == last;
      } else {
        var next := cipher.process(Xor(state, blocks[..n]));
        assert (blocks + last)[..n] == blocks[..n];
        assert (blocks + last)[n..] == blocks[n..] + last;
        MacSplits(next, blocks[n..], last);
        hide Final, Xor;
      }
    }
  }

  lemma LastWhole(cipher: Cipher, state: seq<byte>, last: seq<byte>)
    requires cipher.Valid() && |state| == |last| == cipher.blockSize && CanKey(cipher.process(Zeros(cipher.blockSize)))
    ensures KeyOf(cipher).Valid()
    ensures KeyOf(cipher).Final(state, last)
         == cipher.process(Xor(state, Xor(last, Double(cipher.process(Zeros(cipher.blockSize))))))
  {
    hide Double, CanDouble, Xor, Zeros;
  }

  lemma LastShort(cipher: Cipher, state: seq<byte>, last: seq<byte>)
    requires cipher.Valid() && |state| == cipher.blockSize && |last| < cipher.blockSize
    requires CanKey(cipher.process(Zeros(cipher.blockSize)))
    ensures KeyOf(cipher).Valid()
    ensures KeyOf(cipher).Final(state, last)
         == cipher.process(Xor(state, Xor(last + [0x80] + Zeros(cipher.blockSize - |last| - 1),
                                          Double(Double(cipher.process(Zeros(cipher.blockSize)))))))
  {
    hide Double, CanDouble, Xor, Zeros;
  }

  /** The MAC of section 6.2 of SP 800-38B in terms of the enciphered zero block l: the chain over all blocks, the last
      of them xored with the doubled l if it is whole, and otherwise filled up with a one bit and zeros and xored with
      the twice doubled l. */
  lemma MacOfStandard(cipher: Cipher, blocks: seq<byte>, last: seq<byte>)
    requires cipher.Valid() && |blocks| % cipher.blockSize == 0 && |last| <= cipher.blockSize
    requires last == [] ==> blocks == []
    requires CanKey(cipher.process(Zeros(cipher.blockSize)))
    ensures var n, l, key := cipher.blockSize, cipher.process(Zeros(cipher.blockSize)), KeyOf(cipher);
      && key.Valid()
      && (|last| == n ==> key.Mac(blocks + last) == key.Chain(Zeros(n), blocks + Xor(last, Double(l))))
      && (|last| < n ==>
            key.Mac(blocks + last)
            == key.Chain(Zeros(n), blocks + Xor(last + [0x80] + Zeros(n - |last| - 1), Double(Double(l)))))
  {
    var n, l, key := cipher.blockSize, cipher.process(Zeros(cipher.blockSize)), KeyOf(cipher);
    assert key.Valid() && key.cipher == cipher && |l| == n by { LastShort(cipher, Zeros(n), []); }
    assert key.Mac(blocks + last) == key.MacFrom(Zeros(n), blocks + last);
    var state := key.Chain(Zeros(n), blocks);
    hide *;
    key.WholeByRemainder(|blocks|);
    key.MacSplits(Zeros(n), blocks, last);
    if |last| == n {
      LastWhole(cipher, state, last);
      key.ChainOneMore(Zeros(n), blocks, Xor(last, Double(l)));
    } else {
      LastShort(cipher, state, last);
      key.ChainOneMore(Zeros(n), blocks, Xor(last + [0x80] + Zeros(n - |last| - 1), Double(Double(l))));
    }
  }

  /** Up to i the block is as it was, and behind that it is shifted. */
  predicate HalfShifted(k: seq<byte>, block: seq<byte>, i: int) {
    |k| == |block| && -1 <= i < |block| && k[..i + 1] == block[..i + 1] && k[i + 1..] == ShiftLeft(block)[i + 1..]
  }

  lemma ShiftPair(k: seq<byte>, block: seq<byte>, i: int, longer: seq<byte>)
    requires HalfShifted(k, block, i) && i >= 1
    requires longer == k[i := ShiftLeft(block)[i]][i - 1 := ShiftLeft(block)[i - 1]]
    ensures HalfShifted(longer, block, i - 2)
  {
    hide ShiftLeft;
    assert longer[..i - 1] == k[..i + 1][..i - 1];
    assert block[..i - 1] == block[..i + 1][..i - 1];
    assert longer[i - 1..] == [longer[i - 1], longer[i]] + k[i + 1..];
    var shifted := ShiftLeft(block);
    assert shifted[i - 1..] == [shifted[i - 1], shifted[i]] + shifted[i + 1..];
  }

  lemma StillThere(k: seq<byte>, block: seq<byte>, i: int)
    requires HalfShifted(k, block, i) && i >= 1
    ensures k[i] == block[i] && k[i - 1] == block[i - 1]
  {
    assert k[i] == k[..i + 1][i] && k[i - 1] == k[..i + 1][i - 1];
  }

  /** The first byte of a block of odd length, which the loop of MulU leaves alone; and the others. */
  function Skipped(k: seq<byte>): seq<byte> { k[..|k| % 2] }

  function Shifted(k: seq<byte>): seq<byte> { k[|k| % 2..] }

  lemma ShiftOthers(k: seq<byte>)
    ensures ShiftLeft(k)[|k| % 2..] == ShiftLeft(Shifted(k))
    ensures |k| % 2 == 0 ==> Skipped(k) == [] && Shifted(k) == k
  {}

  /** The bit that comes into byte i from the right. */
  function CarryInto(block: seq<byte>, i: int): byte
    requires i >= -1
  {
    if i + 1 < |block| then CarryOut(block[i + 1]) else 0
  }

  /** The loop of MulU: two bytes a round, from the last to the first. */
  method ShiftInPlace(k: array<byte>) returns (carry: byte)
    modifies k
    ensures k[..] == Skipped(old(k[..])) + ShiftLeft(Shifted(old(k[..])))
    ensures carry != 0 <==> TopBit(Shifted(old(k[..])))
  {
    ghost var block := k[..];
    ghost var pairs: nat, n := k.Length / 2, k.Length % 2;
    LoopStarts(block);
    hide CarryInto, ShiftLeft, HalfShifted, TopBit, Skipped, Shifted;
    carry := 0;
    var i: int := k.Length - 1;
    while i >= 1
      invariant i == 2 * pairs - 1 + n && i < k.Length
      invariant HalfShifted(k[..], block, i) && carry == CarryInto(block, i)
    {
      carry := ShiftTwo(k, i, carry, block);
      i, pairs := i - 2, pairs - 1;
    }
    AllShifted(k[..], block, n);
  }

  method ShiftTwo(k: array<byte>, i: nat, carryIn: byte, ghost block: seq<byte>) returns (carry: byte)
    requires 1 <= i < k.Length && HalfShifted(k[..], block, i) && carryIn == CarryInto(block, i)
    modifies k
    ensures HalfShifted(k[..], block, i - 2) && carry == CarryInto(block, i - 2)
  {
    StillThere(k[..], block, i);
    ghost var before := k[..];
    hide CarryOut, Twice, HalfShifted;
    var carry2 := CarryOut(k[i]);
    k[i] := Twice(k[i], carryIn);
    carry := CarryOut(k[i - 1]);
    k[i - 1] := Twice(k[i - 1], carry2);
    ShiftPair(before, block, i, k[..]);
  }

  lemma LoopStarts(block: seq<byte>)
    ensures HalfShifted(block, block, |block| - 1) && CarryInto(block, |block| - 1) == 0
  {}

  lemma AllShifted(k: seq<byte>, block: seq<byte>, n: nat)
    requires HalfShifted(k, block, n - 1) && n == |block| % 2
    ensures k == Skipped(block) + ShiftLeft(Shifted(block))
    ensures CarryInto(block, n - 1) != 0 <==> TopBit(Shifted(block))
  {
    ShiftOthers(block);
    hide ShiftLeft, CarryOut;
    assert k == k[..n] + k[n..];
  }

  /** A carry out of a block of any but the three sizes is an error. */
  predicate Overflows(k: seq<byte>) { TopBit(Shifted(k)) && !Supported(|k|) }

  /** What MulU leaves. */
  function AfterMulU(k: seq<byte>): seq<byte> {
    if TopBit(Shifted(k)) && Supported(|k|) then Fold(ShiftLeft(k)) else Skipped(k) + ShiftLeft(Shifted(k))
  }

  /** On blocks of an even number of bytes that is doubling. */
  lemma MulUDoubles(k: seq<byte>)
    requires |k| % 2 == 0
    ensures Overflows(k) == !CanDouble(k) && (CanDouble(k) ==> AfterMulU(k) == Double(k))
  {
    hide ShiftLeft, Fold;
    assert Skipped(k) == [] && Shifted(k) == k && [] + ShiftLeft(k) == ShiftLeft(k);
  }

  lemma AllBytesShift(k: seq<byte>)
    requires |k| % 2 == 0
    ensures Skipped(k) + ShiftLeft(Shifted(k)) == ShiftLeft(k)
  {
    assert Skipped(k) == [] && Shifted(k) == k;
    hide ShiftLeft;
  }

  /** Whether UncheckedSetKey succeeds, and the key it makes. */
  predicate CanMakeKey(cipher: Cipher) {
    var l := cipher.process(Zeros(cipher.blockSize));
    !Overflows(l) && !Overflows(AfterMulU(l))
  }

  function MadeKey(cipher: Cipher): Keyed {
    var l := cipher.process(Zeros(cipher.blockSize));
    Keyed(cipher, AfterMulU(l), AfterMulU(AfterMulU(l)))
  }

  /** For blocks of an even number of bytes it is the standard's. */
  lemma EvenKey(cipher: Cipher)
    requires cipher.Valid() && cipher.blockSize % 2 == 0
    ensures CanMakeKey(cipher) == CanKey(cipher.process(Zeros(cipher.blockSize)))
    ensures CanMakeKey(cipher) ==> MadeKey(cipher) == KeyOf(cipher)
  {
    var l := cipher.process(Zeros(cipher.blockSize));
    MulUDoubles(l);
    hide Double, CanDouble, Overflows, AfterMulU;
    if CanDouble(l) { MulUDoubles(Double(l)); }
  }

  method MulU(k: array<byte>) returns (ok: bool)
    modifies k
    ensures ok == !Overflows(old(k[..])) && k[..] == AfterMulU(old(k[..]))
  {
    ghost var block := k[..];
    MulUCases(block);
    hide *;
    var carry := ShiftInPlace(k);
    ok := carry == 0 || Supported(k.Length);
    if carry != 0 && Supported(k.Length) { FoldInPlace(k); }
  }

  lemma MulUCases(k: seq<byte>)
    ensures Overflows(k) == (TopBit(Shifted(k)) && !Supported(|k|))
    ensures if TopBit(Shifted(k)) && Supported(|k|) then AfterMulU(k) == Fold(Skipped(k) + ShiftLeft(Shifted(k)))
            else AfterMulU(k) == Skipped(k) + ShiftLeft(Shifted(k))
  {
    if Supported(|k|) { AllBytesShift(k); }
    hide TopBit, Skipped, Shifted, ShiftLeft, Fold;
  }

  /** The bytes of the field polynomial. */
  method FoldInPlace(k: array<byte>)
    requires Supported(k.Length)
    modifies k
    ensures k[..] == Fold(old(k[..]))
  {
    hide XorByte;
    if k.Length == 8 {
      k[7] := XorByte(k[7], 0x1B);
    } else if k.Length == 16 {
      k[15] := XorByte(k[15], 0x87);
    } else {
      k[30] := XorByte(k[30], 0x04);
      k[31] := XorByte(k[31], 0x23);
    }
  }

  lemma XorFrontWhole(s: seq<byte>, t: seq<byte>)
    requires |s| == |t|
    ensures XorFront(s, t) == Xor(s, t)
  {}

  lemma XorFrontNothing(s: seq<byte>)
    ensures XorFront(s, []) == s
  {}

  lemma XorFrontMore(s: seq<byte>, t: seq<byte>, b: byte)
    requires |t| < |s|
    ensures XorFront(s, t + [b]) == XorFront(s, t)[|t| := XorByte(XorFront(s, t)[|t|], b)]
  {
    hide XorByte;
  }

  lemma XorByteAssociates(a: byte, b: byte, c: byte)
    ensures XorByte(XorByte(a, b), c) == XorByte(a, XorByte(b, c))
  {}

  lemma XorThree(a: seq<byte>, b: seq<byte>, c: seq<byte>)
    requires |a| == |b| == |c|
    ensures Xor(Xor(a, b), c) == Xor(a, Xor(b, c))
  {
    forall i | 0 <= i < |a| ensures Xor(Xor(a, b), c)[i] == Xor(a, Xor(b, c))[i] {
      XorByteAssociates(a[i], b[i], c[i]);
    }
  }

  class Cmac {
    var cipher: Cipher
    /** The three blocks of m_reg. */
    var reg: array<byte>
    var subkey1: array<byte>
    var subkey2: array<byte>
    var counter: nat
    /** The message so far: the blocks gone through the cipher, and the block held back. */
    ghost var chained: seq<byte>
    ghost var pending: seq<byte>

    constructor ()
      ensures fresh(reg) && fresh(subkey1) && fresh(subkey2)
    {
      cipher := Cipher(0, s => s);
      reg, subkey1, subkey2, counter := new byte[0], new byte[0], new byte[0], 0;
    }

    ghost function Key(): Keyed
      reads this, subkey1, subkey2
    {
      Keyed(cipher, subkey1[..], subkey2[..])
    }

    /** Everything but the rule that the last block is held back. */
    ghost predicate Running()
      reads this, reg, subkey1, subkey2
    {
      && Key().Valid() && reg != subkey1 && reg != subkey2 && reg.Length == cipher.blockSize
      && Key().WholeBlocks(|chained|) && counter == |pending| <= cipher.blockSize
      && reg[..] == XorFront(Key().Chain(Zeros(cipher.blockSize), chained), pending)
    }

    ghost predicate Valid()
      reads this, reg, subkey1, subkey2
    {
      Running() && (pending == [] ==> chained == [])
    }

    ghost function Message(): seq<byte>
      reads this
    {
      chained + pending
    }

    /** UncheckedSetKey: the subkeys are the once and twice doubled encryption of a zero block. */
    method UncheckedSetKey(cipher: Cipher) returns (ok: bool)
      requires cipher.Valid()
      modifies this
      ensures ok == CanMakeKey(cipher) && (ok ==> Key() == MadeKey(cipher))
      ensures cipher.blockSize % 2 == 0 ==> ok == CanKey(cipher.process(Zeros(cipher.blockSize)))
      ensures cipher.blockSize % 2 == 0 && ok ==> Key() == KeyOf(cipher)
      ensures ok ==> Valid() && Message() == [] && fresh(reg) && fresh(subkey1) && fresh(subkey2)
    {
      hide Double, CanDouble, ShiftLeft, XorFront, Overflows, AfterMulU, KeyOf, CanKey;
      if cipher.blockSize % 2 == 0 { EvenKey(cipher); }
      this.cipher := cipher;
      counter, chained, pending := 0, [], [];
      reg := Copy(Zeros(cipher.blockSize));
      XorFrontNothing(reg[..]);
      var l := cipher.process(reg[..]);
      subkey1 := Copy(l);
      ok := MulU(subkey1);
      if !ok { return; }
      subkey2 := Copy(subkey1[..]);
      ok := MulU(subkey2);
    }

    /** xorbuf of t into the block at an offset. */
    static method Xorbuf(reg: array<byte>, at: nat, t: seq<byte>, ghost base: seq<byte>, ghost pending: seq<byte>)
      requires at == |pending| && at + |t| <= |base| && reg[..] == XorFront(base, pending)
      modifies reg
      ensures reg[..] == XorFront(base, pending + t)
    {
      hide XorByte, XorFront;
      assert pending + t[..0] == pending;
      for i := 0 to |t|
        invariant reg[..] == XorFront(base, pending + t[..i])
      {
        XorFrontMore(base, pending + t[..i], t[i]);
        assert pending + t[..i] + [t[i]] == pending + t[..i + 1];
        reg[at + i] := XorByte(reg[at + i], t[i]);
      }
      assert t[..|t|] == t;
    }

    static method Replace(reg: array<byte>, s: seq<byte>)
      requires reg.Length == |s|
      modifies reg
      ensures reg[..] == s
    {
      forall i | 0 <= i < |s| { reg[i] := s[i]; }
    }

    method Absorb(t: seq<byte>)
      requires Running() && |pending| + |t| <= cipher.blockSize
      modifies this`counter, this`pending, reg
      ensures Running() && pending == old(pending) + t
    {
      Xorbuf(reg, counter, t, Key().Chain(Zeros(cipher.blockSize), chained), pending);
      counter, pending := counter + |t|, pending + t;
    }

    method ProcessBlock()
      requires Running() && |pending| == cipher.blockSize
      modifies this`counter, this`chained, this`pending, reg
      ensures Running() && chained == old(chained + pending) && pending == []
    {
      ghost var zero := Zeros(cipher.blockSize);
      Key().ChainOneMore(zero, chained, pending);
      XorFrontWhole(Key().Chain(zero, chained), pending);
      XorFrontNothing(Key().Chain(zero, chained + pending));
      hide XorFront, Xor, Zeros;
      Replace(reg, cipher.process(reg[..]));
      counter, chained, pending := 0, chained + pending, [];
    }

    /** BlockTransformation::AdvancedProcessBlocks with the input xored into the register. */
    method AdvancedProcessBlocks(input: seq<byte>) returns (leftOver: nat)
      requires Running() && pending == []
      modifies this`counter, this`chained, this`pending, reg
      ensures Running() && pending == [] && leftOver <= |input| && leftOver < cipher.blockSize
      ensures chained == old(chained) + input[..|input| - leftOver]
    {
      var n := cipher.blockSize;
      var at: nat := 0;
      leftOver := |input|;
      while leftOver >= n
        invariant Running() && pending == [] && n == cipher.blockSize && reg == old(reg)
        invariant at + leftOver == |input|
        invariant chained == old(chained) + input[..at]
        decreases leftOver
      {
        Absorb(input[at..at + n]);
        assert old(chained) + input[..at] + input[at..at + n] == old(chained) + input[..at + n];
        ProcessBlock();
        at, leftOver := at + n, leftOver - n;
      }
    }

    /** Tops up the block held back, and lets it go once more input is there. */
    method FillBlock(input: seq<byte>) returns (used: nat)
      requires Valid() && input != []
      modifies this`counter, this`chained, this`pending, reg
      ensures Running() && used <= |input| && Message() == old(Message()) + input[..used]
      ensures if used == |input| then pending != [] else pending == []
    {
      used := 0;
      if counter > 0 {
        used := if cipher.blockSize - counter <= |input| then cipher.blockSize - counter else |input|;
        if used != 0 {
          Absorb(input[..used]);
        }
        if counter == cipher.blockSize && used < |input| {
          ProcessBlock();
        }
      }
    }

    /** However the message is cut into updates, the register holds the chain over all but a last block of it,
        and that block is never empty unless the message is. */
    method Update(input: seq<byte>)
      requires Valid()
      modifies this`counter, this`chained, this`pending, reg
      ensures Valid() && Message() == old(Message()) + input
    {
      if input == [] { return; }
      var used := FillBlock(input);
      var rest := input[used..];
      assert old(Message()) + input == Message() + rest;
      if |rest| > 0 { Finish(rest); }
    }

    /** Whole blocks while more than one block is left, then the rest. */
    method Finish(input: seq<byte>)
      requires Running() && pending == [] && input != []
      modifies this`counter, this`chained, this`pending, reg
      ensures Running() && pending != [] && Message() == old(Message()) + input
    {
      var rest := input;
      if |rest| > cipher.blockSize {
        var leftOver := AdvancedProcessBlocks(rest[..|rest| - 1]);
        leftOver := leftOver + 1;
        rest := rest[|rest| - leftOver..];
      }
      Absorb(rest);
    }

    /** TruncatedFinal: the first size bytes of the MAC of the whole message, and a fresh start. */
    method TruncatedFinal(mac: array<byte>, size: nat) returns (ok: bool)
      requires Valid() && mac != reg && mac != subkey1 && mac != subkey2
      requires size <= cipher.blockSize ==> size <= mac.Length
      modifies this`counter, this`chained, this`pending, reg, mac
      ensures Valid() && ok == (size <= cipher.blockSize)
      ensures ok ==> Message() == [] && mac[..] == old(Key().Mac(Message()))[..size] + old(mac[size..])
      ensures !ok ==> Message() == old(Message()) && mac[..] == old(mac[..])
    {
      if size > cipher.blockSize { return false; }
      LastBlock();
      CopyFront(mac, reg, size);
      Clear();
      ok := true;
    }

    static method CopyFront(to: array<byte>, from: array<byte>, size: nat)
      requires to != from && size <= to.Length && size <= from.Length
      modifies to
      ensures to[..] == from[..size] + old(to[size..])
    {
      forall i | 0 <= i < size { to[i] := from[i]; }
    }

    method Clear()
      requires Key().Valid() && reg != subkey1 && reg != subkey2 && reg.Length == cipher.blockSize
      modifies this`counter, this`chained, this`pending, reg
      ensures Valid() && Message() == []
    {
      Replace(reg, Zeros(cipher.blockSize));
      counter, chained, pending := 0, [], [];
      XorFrontNothing(reg[..]);
      hide XorFront, Zeros;
    }

    /** The block held back goes through with the subkey its length calls for. */
    method LastBlock()
      requires Valid()
      modifies reg
      ensures reg[..] == old(Key().Mac(Message()))
    {
      ghost var key := Key();
      ghost var state := key.Chain(Zeros(cipher.blockSize), chained);
      key.MacSplits(Zeros(cipher.blockSize), chained, pending);
      if counter < cipher.blockSize {
        PadRegister(reg, counter, state, pending);
        XorThree(state, key.Pad(pending), key.subkey2);
        hide XorFront, Xor, Zeros;
        Replace(reg, cipher.process(Xor(reg[..], subkey2[..])));
      } else {
        XorFrontWhole(state, pending);
        XorThree(state, pending, key.subkey1);
        hide XorFront, Xor, Zeros;
        Replace(reg, cipher.process(Xor(reg[..], subkey1[..])));
      }
    }

    static method PadRegister(reg: array<byte>, counter: nat, ghost state: seq<byte>, ghost last: seq<byte>)
      requires counter == |last| < |state| && reg[..] == XorFront(state, last)
      modifies reg
      ensures reg[..] == Xor(state, last + [0x80] + Zeros(|state| - |last| - 1))
    {
      reg[counter] := XorByte(reg[counter], 0x80);
      hide XorByte;
    }

    static method Copy(s: seq<byte>) returns (a: array<byte>)
      ensures fresh(a) && a[..] == s
    {
      a := new byte[|s|](i requires 0 <= i < |s| => s[i]);
    }
  }
}
