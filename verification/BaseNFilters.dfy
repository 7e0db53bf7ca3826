/** BaseN_Encoder, BaseN_Decoder and Grouper, fed in pieces of any size. A block under way is described by the digits
    that are complete and the bits of the next. */
module BaseNFilters {
  import opened Bits
  import opened BaseNCode
  import opened Chunks

  /** A block being filled with digits of w bits: the whole ones, and the first bits of the next. */
  ghost predicate Block(buf: seq<byte>, w: nat, done: seq<nat>, partial: seq<bool>) {
    && |partial| < w && AreDigits(done, w) && |done| <= |buf|
    && (|done| == |buf| ==> partial == [])
    && (forall j :: 0 <= j < |done| ==> buf[j] == done[j])
    && (|done| < |buf| ==> buf[|done|] == Align(partial, w))
    && (forall j :: |done| < j < |buf| ==> buf[j] == 0)
  }

  lemma FreshBlock(buf: seq<byte>, w: nat)
    requires w > 0 && buf != [] && forall j :: 0 <= j < |buf| ==> buf[j] == 0
    ensures Block(buf, w, [], [])
  {}

  /** Or-ing bits into the open digit completes it or not. */
  lemma FillDigit(buf: seq<byte>, w: nat, done: seq<nat>, partial: seq<bool>, more: seq<bool>)
    requires Block(buf, w, done, partial) && |done| < |buf| && 0 < w <= 8
    ensures var d := Or(buf[|done|], Align(more, w - |partial|));
      && d == Align(partial + more, w) && d < 256
      && (|partial| + |more| >= w ==> Block(buf[|done| := d], w, done + [d], []))
      && (|partial| + |more| < w ==> Block(buf[|done| := d], w, done, partial + more))
  {
    OrJoin(partial, more, w);
    assert Pow2(8) == 256;
    PowMono(w, 8);
    hide Align, Or, Pow2;
    if |done| + 1 < |buf| { NothingYet(w); }
  }

  lemma NothingYet(w: nat)
    ensures Align([], w) == 0
  {}

  /** The bits that have gone into a block, and those still to come. */
  ghost predicate Accounts(w: nat, done: seq<nat>, partial: seq<bool>, rest: seq<bool>, all: seq<bool>) {
    DigitBits(done, w) + partial + rest == all
  }

  lemma DigitTaken(w: nat, done: seq<nat>, partial: seq<bool>, rest: seq<bool>, all: seq<bool>)
    requires Accounts(w, done, partial, rest, all) && |partial| < w <= |partial| + |rest|
    ensures Accounts(w, done + [Align(partial + rest, w)], [], rest[w - |partial|..], all)
  {
    var d, t := Align(partial + rest, w), w - |partial|;
    DigitBitsMore(done, d, w);
    DigitBack(partial + rest, w);
    hide Align, BitsOf, DigitBits;
    assert (partial + rest)[..w] == partial + rest[..t];
  }

  lemma BitsTaken(w: nat, done: seq<nat>, partial: seq<bool>, rest: seq<bool>, all: seq<bool>)
    requires Accounts(w, done, partial, rest, all)
    ensures Accounts(w, done, partial + rest, [], all)
  {
    assert DigitBits(done, w) + (partial + rest) + [] == DigitBits(done, w) + partial + rest;
  }

  /** With bits of a byte still to come the block is not full. */
  lemma Room(w: nat, done: seq<nat>, partial: seq<bool>, rest: seq<bool>, data: seq<byte>)
    requires 1 <= w <= 7 && rest != [] && |data| <= BlockBytes(w)
    requires Accounts(w, done, partial, rest, DataBits(data))
    ensures |done| < BlockChars(w)
  {
    DigitBitsJoin(done, [], w);
    DataBitsJoin(data, []);
    if |done| >= BlockChars(w) { MulMono(BlockChars(w), |done|, w); }
  }

  /** The block is full just when its last byte is in, and then no bit is left over. */
  lemma FullBlock(w: nat, done: seq<nat>, partial: seq<bool>, data: seq<byte>)
    requires 1 <= w <= 7 && |partial| < w && 0 < |data| <= BlockBytes(w) && |done| <= BlockChars(w)
    requires Accounts(w, done, partial, [], DataBits(data))
    ensures |done| > 0
    ensures |done| == BlockChars(w) ==> partial == []
    ensures |done| < BlockChars(w) ==> |data| < BlockBytes(w)
  {
    DigitBitsJoin(done, [], w);
    DataBitsJoin(data, []);
    var bits := |DigitBits(done, w)|;
    assert bits + |partial| == 8 * |data|;
    hide DigitBits, DataBits, Accounts;
    BitsInBlock(w, |done|, BlockChars(w), bits, 8 * BlockBytes(w));
    hide BlockChars, BlockBytes;
  }

  /** The bits of n digits, in a block that takes count of them. */
  lemma BitsInBlock(w: nat, n: nat, count: nat, bits: nat, all: nat)
    requires bits == w * n && all == w * count && n <= count
    ensures n == 0 ==> bits == 0
    ensures n == count ==> bits == all
    ensures n < count ==> bits + w <= all
  {
    if n < count {
      MulMono(n + 1, count, w);
      assert (n + 1) * w == n * w + w;
    }
  }

  ghost predicate WholeBlocks(n: nat, block: nat)
    requires block > 0
  {
    n == 0 || (n >= block && WholeBlocks(n - block, block))
  }

  lemma {:induction false} PadAfterBlocks(n: nat, k: nat, block: nat)
    requires block > 0 && WholeBlocks(n, block) && k <= block
    ensures PadLength(n + k, block) == if k == 0 then 0 else block - k
  {
    if n > 0 && !(n == block && k == 0) { PadAfterBlocks(n - block, k, block); }
  }

  /** The inner loop of BaseN_Encoder::Put2: the eight bits of a byte go into one digit after the other. */
  method SplitByte(outBuf: array<byte>, w: nat, bytePosIn: nat, bitPosIn: nat, c: byte,
                   ghost data: seq<byte>, ghost doneIn: seq<nat>, ghost partialIn: seq<bool>)
      returns (bytePos: nat, bitPos: nat, ghost done: seq<nat>, ghost partial: seq<bool>)
    requires 1 <= w <= 7 && outBuf.Length == BlockChars(w) && |data| < BlockBytes(w)
    requires Block(outBuf[..], w, doneIn, partialIn) && bytePosIn == |doneIn| && bitPosIn == |partialIn|
    requires Accounts(w, doneIn, partialIn, [], DataBits(data))
    modifies outBuf
    ensures Block(outBuf[..], w, done, partial) && bytePos == |done| && bitPos == |partial|
    ensures Accounts(w, done, partial, [], DataBits(data + [c]))
  {
    var b: nat, left: nat := c, 8;
    ghost var rest := BitsOf(c, 8);
    ghost var longer := data + [c];
    StartByte(w, doneIn, partialIn, data, c);
    bytePos, bitPos, done, partial := bytePosIn, bitPosIn, doneIn, partialIn;
    hide Block, Accounts, DataBits, DigitBits, BitsOf, Align, Shr, Shl, Low, Or, BlockChars, BlockBytes;
    while true
      invariant 1 <= left == |rest| <= 8 && b == Align(rest, 8)
      invariant Block(outBuf[..], w, done, partial) && bytePos == |done| && bitPos == |partial| < w
      invariant Accounts(w, done, partial, rest, DataBits(longer))
      decreases left
    {
      Room(w, done, partial, rest, longer);
      var target := w - bitPos;
      AlignShr(rest, 8, 8 - target);
      FillDigit(outBuf[..], w, done, partial, rest);
      outBuf[bytePos] := Or(outBuf[bytePos], Shr(b, 8 - target));
      if left >= target {
        DigitTaken(w, done, partial, rest, DataBits(longer));
        done, partial := done + [Align(partial + rest, w)], [];
        bitPos, bytePos, left := 0, bytePos + 1, left - target;
        if left == 0 {
          rest := rest[target..];
          break;
        }
        AlignShl(rest, 8, target);
        AlignLow(rest, target, 8);
        b := Low(Shl(b, target), 8);
        rest := rest[target..];
      } else {
        BitsTaken(w, done, partial, rest, DataBits(longer));
        partial, rest := partial + rest, [];
        bitPos := bitPos + left;
        break;
      }
    }
  }

  lemma StartByte(w: nat, done: seq<nat>, partial: seq<bool>, data: seq<byte>, c: byte)
    requires Accounts(w, done, partial, [], DataBits(data))
    ensures Accounts(w, done, partial, BitsOf(c, 8), DataBits(data + [c])) && Align(BitsOf(c, 8), 8) == c
  {
    DataBitsMore(data, c);
    assert Pow2(8) == 256;
    AlignOfBits(c, 8);
    assert DigitBits(done, w) + partial + [] == DigitBits(done, w) + partial;
  }

  /** Bytes and characters first meet at the end of a block. */
  lemma FirstCommonMultiple(w: nat, bytes: nat, chars: nat)
    requires 1 <= w <= 7
    ensures 1 <= bytes <= BlockBytes(w) ==> (8 * bytes % w == 0 <==> bytes == BlockBytes(w))
    ensures 1 <= chars <= BlockChars(w) ==> (w * chars % 8 == 0 <==> chars == BlockChars(w))
    ensures 8 * BlockBytes(w) / w == BlockChars(w) && w * BlockChars(w) / 8 == BlockBytes(w)
  {
    if w == 1 {} else if w == 2 {} else if w == 3 {} else if w == 4 {} else if w == 5 {} else if w == 6 {} else {}
  }

  datatype BlockSize = InvalidArgument | BlockSize(size: nat)

  /** BaseN_Encoder::IsolatedInitialize: only 1 to 7 bits are a width, and the search finds the block size. */
  method EncoderBlockSize(w: int) returns (r: BlockSize)
    ensures r == if 1 <= w <= 7 then BlockSize(BlockChars(w)) else InvalidArgument
  {
    if w <= 0 || w >= 8 { return InvalidArgument; }
    var i := 8;
    ghost var bytes: nat := 1;
    FirstCommonMultiple(w, bytes, 1);
    while i % w != 0
      invariant i == 8 * bytes && 1 <= bytes <= BlockBytes(w) && (i % w == 0 <==> bytes == BlockBytes(w))
      decreases BlockBytes(w) - bytes
    {
      i, bytes := i + 8, bytes + 1;
      FirstCommonMultiple(w, bytes, 1);
    }
    r := BlockSize(i / w);
  }

  /** BaseN_Decoder::IsolatedInitialize */
  method DecoderBlockSize(w: int) returns (r: BlockSize)
    ensures r == if 1 <= w <= 7 then BlockSize(BlockBytes(w)) else InvalidArgument
  {
    if w <= 0 || w >= 8 { return InvalidArgument; }
    var i := w;
    ghost var chars: nat := 1;
    FirstCommonMultiple(w, 1, chars);
    while i % 8 != 0
      invariant i == w * chars && 1 <= chars <= BlockChars(w) && (i % 8 == 0 <==> chars == BlockChars(w))
      decreases BlockChars(w) - chars
    {
      i, chars := i + w, chars + 1;
      FirstCommonMultiple(w, 1, chars);
    }
    r := BlockSize(i / 8);
  }

  class BaseNEncoder {
    const alphabet: seq<byte>
    const padding: int
    const bitsPerChar: nat
    const outBuf: array<byte>
    var bytePos: nat
    var bitPos: nat
    /** What has gone to the attached filter. */
    var output: seq<byte>
    /** What it had when the message began, and the message so far: the blocks sent, and the one being filled. */
    ghost var before: seq<byte>
    ghost var sentData: seq<byte>
    ghost var sent: seq<nat>
    ghost var data: seq<byte>
    ghost var done: seq<nat>
    ghost var partial: seq<bool>

    ghost predicate Valid()
      reads this, outBuf
    {
      && 1 <= bitsPerChar <= 7 && IsAlphabet(alphabet, bitsPerChar) && -1 <= padding < 256
      && outBuf.Length == BlockChars(bitsPerChar)
      && bytePos == |done| < outBuf.Length && bitPos == |partial| && |data| < BlockBytes(bitsPerChar)
      && (if bytePos == 0 then partial == [] && data == [] else Block(outBuf[..], bitsPerChar, done, partial))
      && Accounts(bitsPerChar, done, partial, [], DataBits(data))
      && SentWell(bitsPerChar, outBuf.Length, alphabet, sent, sentData, before, output)
    }

    ghost function Message(): seq<byte>
      reads this
    {
      sentData + data
    }

    constructor (alphabet: seq<byte>, log2base: nat, padding: int)
      requires 1 <= log2base <= 7 && IsAlphabet(alphabet, log2base) && -1 <= padding < 256
      ensures Valid() && output == before == [] && Message() == []
      ensures this.alphabet == alphabet && bitsPerChar == log2base && this.padding == padding && fresh(outBuf)
    {
      NothingAccounted(log2base);
      NothingSent(log2base, BlockChars(log2base), alphabet, []);
      this.alphabet, this.padding, bitsPerChar := alphabet, padding, log2base;
      var block := EncoderBlockSize(log2base);
      outBuf := new byte[block.size];
      bytePos, bitPos, output := 0, 0, [];
      before, sentData, sent, data, done, partial := [], [], [], [], [], [];
    }

    /** One byte of Put2. */
    method PutByte(c: byte)
      requires Valid()
      modifies this, outBuf
      ensures Valid() && Message() == old(Message()) + [c] && before == old(before)
    {
      var w := bitsPerChar;
      hide SentWell, Accounts, DataBits, IsAlphabet, Block, Pow2, BlockChars, BlockBytes;
      if bytePos == 0 {
        forall i | 0 <= i < outBuf.Length { outBuf[i] := 0; }
        FreshBlock(outBuf[..], w);
        assert done == [] && partial == [];
      }
      bytePos, bitPos, done, partial := SplitByte(outBuf, w, bytePos, bitPos, c, data, done, partial);
      data := data + [c];
      InBlock(outBuf[..], w, done, partial);
      FullBlock(w, done, partial, data);
      assert sentData + data == old(sentData + data) + [c];
      if bytePos == outBuf.Length {
        SendBlock();
      }
    }

    /** A full block goes through the alphabet and out. */
    method SendBlock()
      requires 1 <= bitsPerChar <= 7 && IsAlphabet(alphabet, bitsPerChar) && -1 <= padding < 256
      requires outBuf.Length == BlockChars(bitsPerChar) == bytePos == |done| && partial == []
      requires Block(outBuf[..], bitsPerChar, done, partial) && Accounts(bitsPerChar, done, partial, [], DataBits(data))
      requires SentWell(bitsPerChar, outBuf.Length, alphabet, sent, sentData, before, output)
      modifies this, outBuf
      ensures Valid() && Message() == old(Message()) && before == old(before)
    {
      SentMore(bitsPerChar, outBuf.Length, alphabet, sent, sentData, before, output, done, data);
      assert IsAlphabet(alphabet, bitsPerChar) && AreDigits(done, bitsPerChar);
      Translate(outBuf, bytePos, alphabet, done);
      hide SentWell, Accounts, Letters, Block, DataBits, AreDigits;
      assert outBuf[..bytePos] == outBuf[..];
      output := output + outBuf[..];
      StartBlock();
    }

    /** An empty block, behind what has been sent. */
    method StartBlock()
      modifies this`sent, this`sentData, this`done, this`partial, this`data, this`bytePos, this`bitPos
      ensures sent == old(sent + done) && sentData == old(sentData + data)
      ensures done == [] && partial == [] && data == [] && bytePos == bitPos == 0
      ensures Accounts(bitsPerChar, done, partial, [], DataBits(data))
    {
      sent, sentData := sent + done, sentData + data;
      done, partial, data := [], [], [];
      bytePos, bitPos := 0, 0;
      NothingAccounted(bitsPerChar);
    }

    /** The last, partial block, and its padding. */
    method EndMessage()
      requires Valid()
      modifies this, outBuf
      ensures Valid() && output == before == old(before) + Encoded(old(Message()), bitsPerChar, alphabet, padding)
      ensures Message() == []
    {
      ghost var w, block := bitsPerChar, outBuf.Length;
      ghost var digits := LastDigits(w, done, partial);
      LastBlock(w, block, alphabet, padding, sent, sentData, before, output, done, partial, data);
      hide Encoded, SentWell, Accounts, Letters, Padded, WholeBlocks, LastPadding;
      var size := FinishBlock(outBuf, if bitPos > 0 then bytePos + 1 else bytePos, alphabet, padding, digits);
      output := output + outBuf[..size];
      StartMessage();
    }

    static method FinishBlock(outBuf: array<byte>, bytePos: nat, alphabet: seq<byte>, padding: int,
                              ghost digits: seq<nat>)
        returns (size: nat)
      requires bytePos == |digits| <= outBuf.Length && -1 <= padding < 256
      requires forall j :: 0 <= j < |digits| ==> outBuf[j] == digits[j] < |alphabet|
      modifies outBuf
      ensures size <= outBuf.Length
      ensures outBuf[..size] == Letters(digits, alphabet) + LastPadding(|digits|, outBuf.Length, padding)
    {
      Translate(outBuf, bytePos, alphabet, digits);
      size := bytePos;
      if padding != -1 && bytePos > 0 {
        forall i | bytePos <= i < outBuf.Length { outBuf[i] := padding; }
        size := outBuf.Length;
      }
      assert outBuf[..bytePos] == Letters(digits, alphabet);
      hide Letters;
      assert outBuf[..size] == outBuf[..bytePos] + outBuf[bytePos..size];
    }

    method StartMessage()
      requires IsAlphabet(alphabet, bitsPerChar) && outBuf.Length > 0
      modifies this`before, this`sent, this`sentData, this`done, this`partial, this`data, this`bytePos, this`bitPos
      ensures before == output && sent == [] && sentData == [] && done == [] && partial == [] && data == []
      ensures bytePos == bitPos == 0
      ensures Accounts(bitsPerChar, [], [], [], DataBits([]))
      ensures SentWell(bitsPerChar, outBuf.Length, alphabet, [], [], before, output)
    {
      before, sent, sentData, done, partial, data := output, [], [], [], [], [];
      bytePos, bitPos := 0, 0;
      NothingAccounted(bitsPerChar);
      NothingSent(bitsPerChar, outBuf.Length, alphabet, output);
    }

    /** Put2: bytes, and perhaps the end of the message. However a message is cut, what goes out is its code. */
    method Put2(input: seq<byte>, messageEnd: bool)
      requires Valid()
      modifies this, outBuf
      ensures Valid()
      ensures !messageEnd ==> Message() == old(Message()) + input && before == old(before)
      ensures messageEnd ==> Message() == []
                             && output == old(before) + Encoded(old(Message()) + input, bitsPerChar, alphabet, padding)
    {
      hide Valid;
      ghost var start := Message();
      assert start + input[..0] == start;
      for i := 0 to |input|
        invariant Valid() && Message() == start + input[..i] && before == old(before)
      {
        PutByte(input[i]);
        assert start + input[..i] + [input[i]] == start + input[..i + 1];
      }
      assert input[..|input|] == input;
      if messageEnd { EndMessage(); }
    }

    static method Translate(outBuf: array<byte>, bytePos: nat, alphabet: seq<byte>, ghost digits: seq<nat>)
      requires bytePos == |digits| <= outBuf.Length
      requires forall j :: 0 <= j < |digits| ==> outBuf[j] == digits[j] < |alphabet|
      modifies outBuf
      ensures outBuf[..bytePos] == Letters(digits, alphabet)
    {
      for i := 0 to bytePos
        invariant forall j :: 0 <= j < i ==> outBuf[j] == alphabet[digits[j]]
        invariant forall j :: i <= j < |digits| ==> outBuf[j] == digits[j]
      {
        outBuf[i] := alphabet[outBuf[i]];
      }
    }
  }

  lemma NothingAccounted(w: nat)
    ensures Accounts(w, [], [], [], DataBits([]))
  {}

  /** What has been sent of a message: whole blocks, through the alphabet. */
  ghost predicate SentWell(w: nat, block: nat, alphabet: seq<byte>, sent: seq<nat>, sentData: seq<byte>,
                           before: seq<byte>, output: seq<byte>)
    requires block > 0
  {
    && AreDigits(sent, w) && WholeBlocks(|sent|, block) && Accounts(w, sent, [], [], DataBits(sentData))
    && IsAlphabet(alphabet, w) && output == before + Letters(sent, alphabet)
  }

  lemma NothingSent(w: nat, block: nat, alphabet: seq<byte>, before: seq<byte>)
    requires block > 0 && IsAlphabet(alphabet, w)
    ensures SentWell(w, block, alphabet, [], [], before, before)
  {}

  lemma SentMore(w: nat, block: nat, alphabet: seq<byte>, sent: seq<nat>, sentData: seq<byte>, before: seq<byte>,
                 output: seq<byte>,
                 done: seq<nat>, data: seq<byte>)
    requires block > 0 && SentWell(w, block, alphabet, sent, sentData, before, output)
    requires AreDigits(done, w) && |done| == block && Accounts(w, done, [], [], DataBits(data))
    ensures SentWell(w, block, alphabet, sent + done, sentData + data, before, output + Letters(done, alphabet))
  {
    AccountsJoin(w, sent, done, sentData, data);
    LettersJoin(sent, done, alphabet);
    hide Accounts, WholeBlocks, Letters, DataBits;
  }

  /** The digits of the last block: a partial one counts. */
  ghost function LastDigits(w: nat, done: seq<nat>, partial: seq<bool>): seq<nat> {
    done + if partial == [] then [] else [Align(partial, w)]
  }

  function LastPadding(n: nat, block: nat, padding: int): seq<byte>
    requires -1 <= padding < 256 && n <= block
  {
    if padding == -1 || n == 0 then [] else seq(block - n, _ => padding)
  }

  lemma LastBlock(w: nat, block: nat, alphabet: seq<byte>, padding: int, sent: seq<nat>, sentData: seq<byte>,
                  before: seq<byte>,
                  output: seq<byte>, done: seq<nat>, partial: seq<bool>, data: seq<byte>)
    requires 1 <= w <= 7 && block == BlockChars(w) && -1 <= padding < 256
    requires SentWell(w, block, alphabet, sent, sentData, before, output)
    requires AreDigits(done, w) && |done| < block && |partial| < w && Accounts(w, done, partial, [], DataBits(data))
    ensures var digits := LastDigits(w, done, partial);
      && |digits| <= block && AreDigits(digits, w)
      && output + (Letters(digits, alphabet) + LastPadding(|digits|, block, padding))
         == before + Encoded(sentData + data, w, alphabet, padding)
  {
    var digits := LastDigits(w, done, partial);
    AllDigits(w, sent, sentData, done, partial, data);
    LettersJoin(sent, digits, alphabet);
    PadAfterBlocks(|sent|, |digits|, block);
    hide Digits, DataBits, Letters, Accounts, WholeBlocks, PadLength, LastDigits;
    Regroup3(before, Letters(sent, alphabet), Letters(digits, alphabet), LastPadding(|digits|, block, padding));
  }

  lemma Regroup3<T>(a: seq<T>, b: seq<T>, c: seq<T>, d: seq<T>)
    ensures a + b + (c + d) == a + (b + c + d)
  {}

  lemma AllDigits(w: nat, sent: seq<nat>, sentData: seq<byte>, done: seq<nat>, partial: seq<bool>, data: seq<byte>)
    requires w > 0 && |partial| < w && AreDigits(sent, w) && AreDigits(done, w)
    requires Accounts(w, sent, [], [], DataBits(sentData)) && Accounts(w, done, partial, [], DataBits(data))
    ensures Digits(DataBits(sentData + data), w) == sent + LastDigits(w, done, partial)
    ensures AreDigits(LastDigits(w, done, partial), w)
  {
    hide DigitBits, DataBits, Digits, Align;
    AllAreDigits(w, sent, done, partial);
    hide AreDigits;
    DigitBitsJoin(sent, done, w);
    DataBitsJoin(sentData, data);
    Pieces(DigitBits(sent, w), DigitBits(done, w), partial);
    assert DataBits(sentData + data) == DigitBits(sent + done, w) + partial;
    DigitsOfParts(sent + done, partial, w);
    Regroup(sent, done, if partial == [] then [] else [Align(partial, w)]);
  }

  lemma AllAreDigits(w: nat, sent: seq<nat>, done: seq<nat>, partial: seq<bool>)
    requires AreDigits(sent, w) && AreDigits(done, w)
    ensures AreDigits(sent + done, w) && AreDigits(LastDigits(w, done, partial), w)
  {
    hide Align;
  }

  lemma Pieces<T>(a: seq<T>, b: seq<T>, p: seq<T>)
    ensures a + [] + [] + (b + p + []) == a + b + p
  {}

  lemma LettersJoin(a: seq<nat>, b: seq<nat>, alphabet: seq<byte>)
    requires forall i :: 0 <= i < |a| ==> a[i] < |alphabet|
    requires forall i :: 0 <= i < |b| ==> b[i] < |alphabet|
    ensures Letters(a + b, alphabet) == Letters(a, alphabet) + Letters(b, alphabet)
  {}

  lemma AccountsJoin(w: nat, a: seq<nat>, b: seq<nat>, x: seq<byte>, y: seq<byte>)
    requires Accounts(w, a, [], [], DataBits(x)) && Accounts(w, b, [], [], DataBits(y))
    ensures Accounts(w, a + b, [], [], DataBits(x + y))
  {
    DigitBitsJoin(a, b, w);
    DataBitsJoin(x, y);
    hide DigitBits, DataBits;
    assert DigitBits(a, w) + [] + [] == DigitBits(a, w) && DigitBits(b, w) + [] + [] == DigitBits(b, w);
  }

  // ----- decoding --------------------------------------------------------------------------------------------

  lemma {:induction false} BytesAreDigits(data: seq<byte>)
    ensures DigitBits(data, 8) == DataBits(data) && AreDigits(data, 8)
  {
    assert Pow2(8) == 256;
    if data != [] { BytesAreDigits(data[1..]); }
  }

  /** With bits of a digit still to come the block of bytes is not full. */
  lemma ByteRoom(w: nat, done: seq<nat>, partial: seq<bool>, rest: seq<bool>, values: seq<nat>)
    requires 1 <= w <= 7 && rest != [] && |values| <= BlockChars(w)
    requires Accounts(8, done, partial, rest, DigitBits(values, w))
    ensures |done| < BlockBytes(w)
  {
    DigitBitsJoin(done, [], 8);
    DigitBitsJoin(values, [], w);
    var bits := |DigitBits(values, w)|;
    assert 8 * |done| + |partial| + |rest| == bits;
    hide DigitBits, Accounts;
    BitsInBlock(w, |values|, BlockChars(w), bits, 8 * BlockBytes(w));
    hide BlockChars, BlockBytes;
  }

  /** The block is full just when its last digit is in, and then no bit is left over. */
  lemma FullBytes(w: nat, done: seq<nat>, partial: seq<bool>, values: seq<nat>)
    requires 1 <= w <= 7 && |partial| < 8 && 0 < |values| <= BlockChars(w) && |done| <= BlockBytes(w)
    requires Accounts(8, done, partial, [], DigitBits(values, w))
    ensures |done| > 0 || partial != []
    ensures |done| == BlockBytes(w) ==> partial == []
    ensures |done| < BlockBytes(w) ==> |values| < BlockChars(w)
  {
    DigitBitsJoin(done, [], 8);
    DigitBitsJoin(values, [], w);
    var bits := |DigitBits(values, w)|;
    assert 8 * |done| + |partial| == bits;
    hide DigitBits, Accounts;
    BitsInBlock(w, |values|, BlockChars(w), bits, 8 * BlockBytes(w));
    BitsInBlock(w, 0, |values|, 0, bits);
    hide BlockChars, BlockBytes;
  }

  lemma StartDigit(w: nat, done: seq<nat>, partial: seq<bool>, values: seq<nat>, v: nat)
    requires Accounts(8, done, partial, [], DigitBits(values, w)) && v < Pow2(w)
    ensures Accounts(8, done, partial, BitsOf(v, w), DigitBits(values + [v], w)) && Align(BitsOf(v, w), w) == v
  {
    DigitBitsMore(values, v, w);
    AlignOfBits(v, w);
    assert DigitBits(done, 8) + partial + [] == DigitBits(done, 8) + partial;
  }

  /** The shifts put the bits of a digit where the open byte has room. */
  lemma ShiftedDigit(bits: seq<bool>, w: nat, bitPos: nat)
    requires |bits| == w <= 8 && bitPos < 8
    ensures bitPos + w <= 8 ==> Shl(Align(bits, w), 8 - (bitPos + w)) == Align(bits, 8 - bitPos)
    ensures bitPos + w > 8 ==> Shr(Align(bits, w), bitPos + w - 8) == Align(bits, 8 - bitPos)
    ensures bitPos + w > 8 ==> Low(Shl(Align(bits, w), 16 - (bitPos + w)), 8) == Align(bits[8 - bitPos..], 8)
  {
    hide Align, Shl, Shr, Low;
    if bitPos + w <= 8 {
      AlignShl(bits, w, 8 - (bitPos + w));
    } else {
      AlignShr(bits, w, bitPos + w - 8);
      AlignShl(bits, w, 16 - (bitPos + w));
      AlignLow(bits, 8 - bitPos, 8);
    }
  }

  /** The body of BaseN_Decoder::Put2: the bits of a digit go into one byte or two. */
  method PlaceDigit(outBuf: array<byte>, w: nat, bytePosIn: nat, bitPosIn: nat, value: nat,
                    ghost values: seq<nat>, ghost doneIn: seq<nat>, ghost partialIn: seq<bool>)
      returns (bytePos: nat, bitPos: nat, ghost done: seq<nat>, ghost partial: seq<bool>)
    requires 1 <= w <= 7 && outBuf.Length == BlockBytes(w) && |values| < BlockChars(w) && value < Pow2(w)
    requires Block(outBuf[..], 8, doneIn, partialIn) && bytePosIn == |doneIn| && bitPosIn == |partialIn|
    requires Accounts(8, doneIn, partialIn, [], DigitBits(values, w))
    modifies outBuf
    ensures Block(outBuf[..], 8, done, partial) && bytePos == |done| && bitPos == |partial| < 8
    ensures Accounts(8, done, partial, [], DigitBits(values + [value], w))
  {
    hide *;
    ghost var rest, all := BitsOf(value, w), DigitBits(values + [value], w);
    StartDigit(w, doneIn, partialIn, values, value);
    InBlock(outBuf[..], 8, doneIn, partialIn);
    ByteRoom(w, doneIn, partialIn, rest, values + [value]);
    var newBitPos := bitPosIn + w;
    if newBitPos <= 8 {
      ShiftedDigit(rest, w, bitPosIn);
      done, partial, rest := OrBits(outBuf, bytePosIn, Shl(value, 8 - newBitPos), 8, doneIn, partialIn, rest, all);
    } else {
      done, partial := PlaceAcross(outBuf, w, bytePosIn, newBitPos, value, values + [value], doneIn, partialIn, rest);
    }
    InBlock(outBuf[..], 8, done, partial);
    bytePos, bitPos := Advance(bytePosIn, newBitPos);
  }

  /** A digit that starts in one byte and ends in the next. */
  method PlaceAcross(outBuf: array<byte>, w: nat, bytePos: nat, newBitPos: nat, value: nat,
                     ghost values: seq<nat>, ghost doneIn: seq<nat>, ghost partialIn: seq<bool>, ghost bits: seq<bool>)
      returns (ghost done: seq<nat>, ghost partial: seq<bool>)
    requires 1 <= w <= 7 && outBuf.Length == BlockBytes(w) && |values| <= BlockChars(w)
    requires |bits| == w && value == Align(bits, w) && bytePos == |doneIn| < outBuf.Length && |partialIn| < 8
    requires newBitPos == |partialIn| + w > 8
    requires Block(outBuf[..], 8, doneIn, partialIn) && Accounts(8, doneIn, partialIn, bits, DigitBits(values, w))
    modifies outBuf
    ensures Block(outBuf[..], 8, done, partial) && Accounts(8, done, partial, [], DigitBits(values, w))
    ensures |done| == bytePos + 1 && |partial| == newBitPos - 8
  {
    hide Block, Accounts, DigitBits, Align, Shr, Shl, Low, BlockChars, BlockBytes;
    ShiftedDigit(bits, w, |partialIn|);
    ghost var rest;
    ghost var all := DigitBits(values, w);
    done, partial, rest := OrBits(outBuf, bytePos, Shr(value, newBitPos - 8), 8, doneIn, partialIn, bits, all);
    ByteRoom(w, done, partial, rest, values);
    done, partial, rest := OrBits(outBuf, bytePos + 1, Low(Shl(value, 16 - newBitPos), 8), 8, done, partial, rest, all);
  }

  method Advance(bytePosIn: nat, bitPosIn: nat) returns (bytePos: nat, bitPos: nat)
    ensures bitPos < 8 && 8 * bytePos + bitPos == 8 * bytePosIn + bitPosIn
  {
    bytePos, bitPos := bytePosIn, bitPosIn;
    while bitPos >= 8
      invariant 8 * bytePos + bitPos == 8 * bytePosIn + bitPosIn
    {
      bitPos := bitPos - 8;
      bytePos := bytePos + 1;
    }
  }

  /** outBuf[at] |= x, where x holds as many of the bits as the open digit has room for. */
  method OrBits(outBuf: array<byte>, at: nat, x: nat, ghost w: nat, ghost doneIn: seq<nat>, ghost partialIn: seq<bool>,
                ghost bits: seq<bool>, ghost all: seq<bool>)
      returns (ghost done: seq<nat>, ghost partial: seq<bool>, ghost rest: seq<bool>)
    requires 0 < w <= 8 && at == |doneIn| < outBuf.Length && |partialIn| < w
    requires Block(outBuf[..], w, doneIn, partialIn) && Accounts(w, doneIn, partialIn, bits, all)
    requires x == Align(bits, w - |partialIn|)
    modifies outBuf
    ensures Block(outBuf[..], w, done, partial) && Accounts(w, done, partial, rest, all)
    ensures if |partialIn| + |bits| >= w then |done| == |doneIn| + 1 && partial == [] && rest == bits[w - |partialIn|..]
            else |done| == |doneIn| && |partial| == |partialIn| + |bits| && rest == []
  {
    hide Block, Accounts, Align, Or;
    FillDigit(outBuf[..], w, doneIn, partialIn, bits);
    outBuf[at] := Or(outBuf[at], x);
    if |partialIn| + |bits| >= w {
      DigitTaken(w, doneIn, partialIn, bits, all);
      done, partial, rest := doneIn + [Align(partialIn + bits, w)], [], bits[w - |partialIn|..];
    } else {
      BitsTaken(w, doneIn, partialIn, bits, all);
      done, partial, rest := doneIn, partialIn + bits, [];
    }
  }

  lemma InBlock(buf: seq<byte>, w: nat, done: seq<nat>, partial: seq<bool>)
    requires Block(buf, w, done, partial)
    ensures |partial| < w && |done| <= |buf|
  {}

  /** Every digit of a lookup table fits w bits. */
  predicate IsLookup(lookup: seq<int>, w: nat) {
    |lookup| == 256 && forall c: byte :: Seen(lookup, c) ==> lookup[c] < Pow2(w)
  }

  class BaseNDecoder {
    const lookup: seq<int>
    const bitsPerChar: nat
    const outBuf: array<byte>
    var bytePos: nat
    var bitPos: nat
    /** What has gone to the attached filter. */
    var output: seq<byte>
    /** What it had when the message began; the text so far; the digits and bytes sent; the block being filled. */
    ghost var before: seq<byte>
    ghost var text: seq<byte>
    ghost var sentValues: seq<nat>
    ghost var sent: seq<byte>
    ghost var values: seq<nat>
    ghost var done: seq<nat>
    ghost var partial: seq<bool>

    ghost predicate Valid()
      reads this, outBuf
    {
      && 1 <= bitsPerChar <= 7 && IsLookup(lookup, bitsPerChar) && outBuf.Length == BlockBytes(bitsPerChar)
      && bytePos == |done| < outBuf.Length && bitPos == |partial| < 8 && |values| < BlockChars(bitsPerChar)
      && (if bytePos == 0 && bitPos == 0 then values == [] else Block(outBuf[..], 8, done, partial))
      && Accounts(8, done, partial, [], DigitBits(values, bitsPerChar))
      && Received(bitsPerChar, lookup, text, sentValues, values, sent, before, output)
    }

    constructor (lookup: seq<int>, log2base: nat)
      requires 1 <= log2base <= 7 && IsLookup(lookup, log2base)
      ensures Valid() && output == before == [] && text == []
      ensures this.lookup == lookup && bitsPerChar == log2base && fresh(outBuf)
    {
      NoDigitsYet(log2base);
      assert Received(log2base, lookup, [], [], [], [], [], []);
      hide Received, Accounts, DigitBits;
      this.lookup, bitsPerChar := lookup, log2base;
      var block := DecoderBlockSize(log2base);
      outBuf := new byte[block.size];
      bytePos, bitPos, output := 0, 0, [];
      before, text, sentValues, sent, values, done, partial := [], [], [], [], [], [], [];
    }

    /** One character of Put2. */
    method PutChar(c: byte)
      requires Valid()
      modifies this, outBuf
      ensures Valid() && text == old(text) + [c] && before == old(before)
    {
      ReceiveChar(bitsPerChar, lookup, text, sentValues, values, sent, before, output, c);
      hide Received, Accounts, DigitBits, Block, Values;
      if Seen(lookup, c) {
        PutDigit(lookup[c], c);
      } else {
        text := text + [c];
      }
    }

    method PutDigit(value: nat, ghost c: byte)
      requires Valid() && value < Pow2(bitsPerChar)
      requires Received(bitsPerChar, lookup, text + [c], sentValues, values + [value], sent, before, output)
      modifies this, outBuf
      ensures Valid() && text == old(text) + [c] && before == old(before)
    {
      var w := bitsPerChar;
      hide Received, Accounts, DigitBits, Values, IsLookup, Block, Pow2, BlockChars, BlockBytes;
      if bytePos == 0 && bitPos == 0 {
        forall i | 0 <= i < outBuf.Length { outBuf[i] := 0; }
        FreshBlock(outBuf[..], 8);
        assert done == [] && partial == [];
      }
      bytePos, bitPos, done, partial := PlaceDigit(outBuf, w, bytePos, bitPos, value, values, done, partial);
      values, text := values + [value], text + [c];
      InBlock(outBuf[..], 8, done, partial);
      FullBytes(w, done, partial, values);
      if bytePos == outBuf.Length {
        SendBlock();
      }
    }

    /** A full block goes out. */
    method SendBlock()
      requires 1 <= bitsPerChar <= 7 && IsLookup(lookup, bitsPerChar)
      requires outBuf.Length == BlockBytes(bitsPerChar) == |done|
      requires partial == [] && Block(outBuf[..], 8, done, partial)
      requires Accounts(8, done, partial, [], DigitBits(values, bitsPerChar))
      requires Received(bitsPerChar, lookup, text, sentValues, values, sent, before, output)
      modifies this
      ensures Valid() && text == old(text) && before == old(before)
    {
      assert outBuf[..] == done;
      SendBytes(bitsPerChar, lookup, text, sentValues, values, sent, before, output, outBuf[..]);
      hide Received, Accounts, DigitBits, IsLookup, Block;
      output := output + outBuf[..];
      StartBlock(outBuf[..]);
    }

    /** An empty block, behind the bytes sent. */
    method StartBlock(ghost bytes: seq<byte>)
      modifies this`sent, this`sentValues, this`values, this`done, this`partial, this`bytePos, this`bitPos
      ensures sent == old(sent) + bytes && sentValues == old(sentValues + values)
      ensures values == [] && done == [] && partial == [] && bytePos == bitPos == 0
      ensures Accounts(8, done, partial, [], DigitBits(values, bitsPerChar))
    {
      sent, sentValues := sent + bytes, sentValues + values;
      values, done, partial := [], [], [];
      bytePos, bitPos := 0, 0;
      NoDigitsYet(bitsPerChar);
    }

    /** The bytes of the last block; bits that make no byte are dropped. */
    method EndMessage()
      requires Valid()
      modifies this
      ensures Valid() && output == before == old(before) + Decoded(old(text), bitsPerChar, lookup) && text == []
    {
      ghost var last := outBuf[..bytePos];
      assert last == done;
      LastBytes(bitsPerChar, lookup, text, sentValues, values, sent, before, output, last, partial);
      hide Received, Accounts, DigitBits, IsLookup, Block, Decoded;
      output := output + outBuf[..bytePos];
      StartText();
    }

    method StartText()
      requires |lookup| == 256
      modifies this`before, this`text, this`sent, this`sentValues, this`values, this`done, this`partial, this`bytePos,
        this`bitPos
      ensures before == output && text == [] && values == [] && done == [] && partial == [] && bytePos == bitPos == 0
      ensures Accounts(8, done, partial, [], DigitBits(values, bitsPerChar))
      ensures Received(bitsPerChar, lookup, text, sentValues, values, sent, before, output)
    {
      before, text, sentValues, sent, values, done, partial := output, [], [], [], [], [], [];
      bytePos, bitPos := 0, 0;
      NoDigitsYet(bitsPerChar);
    }

    /** Put2: characters, and perhaps the end of the message. However a text is cut, what comes out is what it
        decodes to. */
    method Put2(input: seq<byte>, messageEnd: bool)
      requires Valid()
      modifies this, outBuf
      ensures Valid()
      ensures !messageEnd ==> text == old(text) + input && before == old(before)
      ensures messageEnd ==> text == [] && output == old(before) + Decoded(old(text) + input, bitsPerChar, lookup)
    {
      hide Valid;
      ghost var start := text;
      assert start + input[..0] == start;
      for i := 0 to |input|
        invariant Valid() && text == start + input[..i] && before == old(before)
      {
        PutChar(input[i]);
        assert start + input[..i] + [input[i]] == start + input[..i + 1];
      }
      assert input[..|input|] == input;
      if messageEnd { EndMessage(); }
    }
  }

  /** The text so far spells the digits sent and those of the open block, and the bytes sent have gone out. */
  ghost predicate Received(w: nat, lookup: seq<int>, text: seq<byte>, sentValues: seq<nat>, values: seq<nat>,
                           sent: seq<byte>,
                           before: seq<byte>, output: seq<byte>)
    requires |lookup| == 256
  {
    && Values(text, lookup) == sentValues + values && output == before + sent
    && Accounts(8, sent, [], [], DigitBits(sentValues, w))
  }

  lemma ReceiveChar(w: nat, lookup: seq<int>, text: seq<byte>, sentValues: seq<nat>, values: seq<nat>, sent: seq<byte>,
                    before: seq<byte>, output: seq<byte>, c: byte)
    requires |lookup| == 256 && Received(w, lookup, text, sentValues, values, sent, before, output)
    ensures Received(w, lookup, text + [c], sentValues, if Seen(lookup, c) then values + [lookup[c]] else values, sent,
                     before, output)
  {
    ValuesJoin(text, [c], lookup);
    hide Values, Accounts, DigitBits;
    if Seen(lookup, c) { Regroup(sentValues, values, [lookup[c]]); }
  }

  lemma SendBytes(w: nat, lookup: seq<int>, text: seq<byte>, sentValues: seq<nat>, values: seq<nat>, sent: seq<byte>,
                  before: seq<byte>, output: seq<byte>, bytes: seq<byte>)
    requires |lookup| == 256 && Received(w, lookup, text, sentValues, values, sent, before, output)
    requires Accounts(8, bytes, [], [], DigitBits(values, w))
    ensures Received(w, lookup, text, sentValues + values, [], sent + bytes, before, output + bytes)
  {
    AccountsDigits(w, sent, bytes, sentValues, values);
    hide Values, Accounts, DigitBits;
    Regroup(before, sent, bytes);
  }

  lemma LastBytes(w: nat, lookup: seq<int>, text: seq<byte>, sentValues: seq<nat>, values: seq<nat>, sent: seq<byte>,
                  before: seq<byte>, output: seq<byte>, bytes: seq<byte>, partial: seq<bool>)
    requires |lookup| == 256 && Received(w, lookup, text, sentValues, values, sent, before, output)
    requires |partial| < 8 && Accounts(8, bytes, partial, [], DigitBits(values, w))
    ensures output + bytes == before + Decoded(text, w, lookup)
  {
    BytesAreDigits(bytes);
    AllBytes(w, sent, bytes, partial, sentValues, values);
    hide Values, Accounts, DigitBits, Bytes;
    Regroup(before, sent, bytes);
  }

  lemma NoDigitsYet(w: nat)
    ensures Accounts(8, [], [], [], DigitBits([], w))
  {}

  lemma AccountsDigits(w: nat, a: seq<nat>, b: seq<nat>, x: seq<nat>, y: seq<nat>)
    requires Accounts(8, a, [], [], DigitBits(x, w)) && Accounts(8, b, [], [], DigitBits(y, w))
    ensures Accounts(8, a + b, [], [], DigitBits(x + y, w))
  {
    DigitBitsJoin(a, b, 8);
    DigitBitsJoin(x, y, w);
    hide DigitBits;
    assert DigitBits(a, 8) + [] + [] == DigitBits(a, 8) && DigitBits(b, 8) + [] + [] == DigitBits(b, 8);
  }

  lemma AllBytes(w: nat, sent: seq<byte>, done: seq<nat>, partial: seq<bool>, sentValues: seq<nat>, values: seq<nat>)
    requires |partial| < 8 && AreDigits(done, 8)
    requires Accounts(8, sent, [], [], DigitBits(sentValues, w)) && Accounts(8, done, partial, [], DigitBits(values, w))
    ensures Bytes(DigitBits(sentValues + values, w)) == sent + done
  {
    hide DigitBits, Bytes, DataBits;
    DigitBitsJoin(sentValues, values, w);
    DigitBitsJoin(sent, done, 8);
    Pieces(DigitBits(sent, 8), DigitBits(done, 8), partial);
    assert Pow2(8) == 256;
    BytesAreDigits(sent + done);
    BytesBack(sent + done, partial);
  }

  // ----- the lookup table ------------------------------------------------------------------------------------

  predicate IsAlpha(c: byte) { 0x41 <= c <= 0x5A || 0x61 <= c <= 0x7A }

  function ToUpper(c: byte): byte { if 0x61 <= c <= 0x7A then c - 0x20 else c }

  function ToLower(c: byte): byte { if 0x41 <= c <= 0x5A then c + 0x20 else c }

  /** Whether c stands for the alphabet's character a. */
  predicate Matches(a: byte, c: byte, caseInsensitive: bool) {
    if caseInsensitive && IsAlpha(a) then c == ToUpper(a) || c == ToLower(a) else c == a
  }

  /** The last of the first n characters of the alphabet that c stands for, or -1. */
  function LastMatch(alphabet: seq<byte>, n: nat, c: byte, caseInsensitive: bool): (i: int)
    requires n <= |alphabet|
    ensures -1 <= i < n
    ensures i >= 0 ==> Matches(alphabet[i], c, caseInsensitive)
    ensures forall j :: i < j < n ==> !Matches(alphabet[j], c, caseInsensitive)
  {
    if n == 0 then -1
    else if Matches(alphabet[n - 1], c, caseInsensitive) then n - 1
    else LastMatch(alphabet, n - 1, c, caseInsensitive)
  }

  /** InitializeDecodingLookupArray */
  method InitializeDecodingLookupArray(lookup: array<int>, alphabet: seq<byte>, base: nat, caseInsensitive: bool)
    requires lookup.Length == 256 && base <= |alphabet|
    modifies lookup
    ensures forall c: byte :: lookup[c] == LastMatch(alphabet, base, c, caseInsensitive)
  {
    forall i | 0 <= i < 256 { lookup[i] := -1; }
    for i := 0 to base
      invariant forall c: byte :: lookup[c] == LastMatch(alphabet, i, c, caseInsensitive)
    {
      if caseInsensitive && IsAlpha(alphabet[i]) {
        lookup[ToUpper(alphabet[i])] := i;
        lookup[ToLower(alphabet[i])] := i;
      } else {
        lookup[alphabet[i]] := i;
      }
    }
  }

  /** The table inverts the alphabet exactly when no character is hidden by a later one. */
  lemma TableInverts(lookup: seq<int>, alphabet: seq<byte>, w: nat, caseInsensitive: bool)
    requires 1 <= w <= 7 && |lookup| == 256 && IsAlphabet(alphabet, w)
    requires forall c: byte :: lookup[c] == LastMatch(alphabet, |alphabet|, c, caseInsensitive)
    ensures IsLookup(lookup, w)
    ensures Inverts(lookup, alphabet, w) <==>
            forall i, j :: 0 <= i < j < |alphabet| ==> !Matches(alphabet[j], alphabet[i], caseInsensitive)
  {
    hide Pow2;
    if Inverts(lookup, alphabet, w) {
      forall i, j | 0 <= i < j < |alphabet| ensures !Matches(alphabet[j], alphabet[i], caseInsensitive) {
        assert lookup[alphabet[i]] == i;
      }
    } else {
      var d :| 0 <= d < |alphabet| && lookup[alphabet[d]] != d;
      assert Matches(alphabet[d], alphabet[d], caseInsensitive);
      var j := lookup[alphabet[d]];
      assert d < j < |alphabet| && Matches(alphabet[j], alphabet[d], caseInsensitive);
    }
  }

  // ----- grouping --------------------------------------------------------------------------------------------

  function NextCounter(counter: nat, groupSize: nat): nat { if counter == groupSize then 1 else counter + 1 }

  /** What goes out for one character. */
  function OneGrouped(c: byte, counter: nat, groupSize: nat, separator: seq<byte>): seq<byte> {
    (if counter == groupSize then separator else []) + [c]
  }

  lemma {:induction false} GroupedRun(s: seq<byte>, counter: nat, groupSize: nat, separator: seq<byte>, n: nat)
    requires counter + n <= groupSize && n <= |s|
    ensures Grouped(s, counter, groupSize, separator) == s[..n] + Grouped(s[n..], counter + n, groupSize, separator)
    decreases n
  {
    if n == 0 {
      assert s[0..] == s && s[..0] == [];
    } else {
      GroupedRun(s[1..], counter + 1, groupSize, separator, n - 1);
      GroupedStep(s, counter, groupSize, separator);
      hide Grouped;
      assert [] + [s[0]] == [s[0]];
      TakeOne(s, n, Grouped(s[n..], counter + n, groupSize, separator));
    }
  }

  lemma TakeOne<T>(s: seq<T>, n: nat, tail: seq<T>)
    requires 0 < n <= |s|
    ensures s[1..][n - 1..] == s[n..] && [s[0]] + (s[1..][..n - 1] + tail) == s[..n] + tail
  {
    assert [s[0]] + s[1..][..n - 1] == s[..n];
  }

  /** A separator behind every groupSize characters that others follow. */
  lemma GroupsAndSeparators(s: seq<byte>, groupSize: nat, separator: seq<byte>)
    requires groupSize > 0
    ensures |s| <= groupSize ==> Grouped(s, 0, groupSize, separator) == s
    ensures |s| > groupSize ==>
      Grouped(s, 0, groupSize, separator)
      == s[..groupSize] + separator + Grouped(s[groupSize..], 0, groupSize, separator)
  {
    if |s| <= groupSize {
      GroupedRun(s, 0, groupSize, separator, |s|);
      assert s[..|s|] == s && s[|s|..] == [];
    } else {
      var t := s[groupSize..];
      GroupedRun(s, 0, groupSize, separator, groupSize);
      Regroup(s[..groupSize], separator, Grouped(t, 0, groupSize, separator));
      Regroup(separator, [t[0]], Grouped(t[1..], 1, groupSize, separator));
    }
  }

  /** The counter after n more characters. */
  function CounterAfter(counter: nat, n: nat, groupSize: nat): (c: nat)
    requires counter <= groupSize
    ensures c <= groupSize
    decreases n
  {
    if n == 0 || groupSize == 0 then counter else CounterAfter(NextCounter(counter, groupSize), n - 1, groupSize)
  }

  lemma {:induction false} CounterRun(counter: nat, n: nat, m: nat, groupSize: nat)
    requires groupSize > 0 && counter + n <= groupSize
    ensures CounterAfter(counter, n + m, groupSize) == CounterAfter(counter + n, m, groupSize)
    decreases n
  {
    if n > 0 { CounterRun(counter + 1, n - 1, m, groupSize); }
  }

  lemma GroupedStep(s: seq<byte>, counter: nat, groupSize: nat, separator: seq<byte>)
    requires s != [] && groupSize > 0
    ensures Grouped(s, counter, groupSize, separator)
            == OneGrouped(s[0], counter, groupSize, separator)
               + Grouped(s[1..], NextCounter(counter, groupSize), groupSize, separator)
  {
    assert [] + [s[0]] == [s[0]];
  }

  lemma {:induction false} GroupedJoin(s: seq<byte>, t: seq<byte>, counter: nat, groupSize: nat, separator: seq<byte>)
    requires counter <= groupSize
    ensures Grouped(s + t, counter, groupSize, separator)
            == Grouped(s, counter, groupSize, separator)
               + Grouped(t, CounterAfter(counter, |s|, groupSize), groupSize, separator)
    ensures CounterAfter(counter, |s + t|, groupSize)
            == CounterAfter(CounterAfter(counter, |s|, groupSize), |t|, groupSize)
    decreases |s|
  {
    if groupSize > 0 {
      if s == [] {
        assert s + t == t;
      } else {
        assert (s + t)[1..] == s[1..] + t;
        GroupedJoin(s[1..], t, NextCounter(counter, groupSize), groupSize, separator);
        GroupedStep(s, counter, groupSize, separator);
        GroupedStep(s + t, counter, groupSize, separator);
        hide Grouped, OneGrouped;
        Regroup(OneGrouped(s[0], counter, groupSize, separator),
                Grouped(s[1..], NextCounter(counter, groupSize), groupSize, separator),
                Grouped(t, CounterAfter(counter, |s|, groupSize), groupSize, separator));
      }
    }
  }

  class Grouper {
    const groupSize: nat
    const separator: seq<byte>
    const terminator: seq<byte>
    var counter: nat
    var output: seq<byte>
    ghost var before: seq<byte>
    ghost var text: seq<byte>

    ghost predicate Valid()
      reads this
    {
      counter == CounterAfter(0, |text|, groupSize) && output == before + Grouped(text, 0, groupSize, separator)
    }

    constructor (groupSize: nat, separator: seq<byte>, terminator: seq<byte>)
      ensures Valid() && output == before == [] && text == []
      ensures this.groupSize == groupSize && this.separator == separator && this.terminator == terminator
    {
      this.groupSize, this.separator, this.terminator := groupSize, separator, terminator;
      counter, output, before, text := 0, [], [], [];
    }

    /** The loop of Put2: as much of a group as there is, and a separator in front of the next. */
    method PutGroups(input: seq<byte>)
      requires groupSize > 0 && counter <= groupSize
      modifies this`counter, this`output
      ensures output == old(output) + Grouped(input, old(counter), groupSize, separator)
      ensures counter == CounterAfter(old(counter), |input|, groupSize)
    {
      hide Grouped, CounterAfter, NextCounter, OneGrouped;
      var inputPosition: nat := 0;
      assert input[0..] == input;
      while inputPosition < |input|
        invariant inputPosition <= |input| && counter <= groupSize
        invariant output + Grouped(input[inputPosition..], counter, groupSize, separator)
                  == old(output) + Grouped(input, old(counter), groupSize, separator)
        invariant CounterAfter(counter, |input| - inputPosition, groupSize)
                == CounterAfter(old(counter), |input|, groupSize)
      {
        if counter == groupSize {
          PutSeparator(input[inputPosition..]);
        }
        var len := Min(|input| - inputPosition, groupSize - counter);
        PutPart(input[inputPosition..], len);
        assert input[inputPosition..][len..] == input[inputPosition + len..];
        inputPosition := inputPosition + len;
      }
      assert input[inputPosition..] == [];
      NoGroups(counter, groupSize, separator);
    }

    /** A separator, now that more is to come. */
    method PutSeparator(ghost rest: seq<byte>)
      requires groupSize > 0 && counter == groupSize && rest != []
      modifies this`counter, this`output
      ensures counter == 0
      ensures output + Grouped(rest, 0, groupSize, separator)
              == old(output) + Grouped(rest, groupSize, groupSize, separator)
      ensures CounterAfter(0, |rest|, groupSize) == CounterAfter(groupSize, |rest|, groupSize)
    {
      ResetCounter(|rest|, groupSize);
      hide Grouped, CounterAfter;
      Regroup(output, separator, Grouped(rest, 0, groupSize, separator));
      output := output + separator;
      counter := 0;
    }

    /** The next len characters, which the group has room for. */
    method PutPart(rest: seq<byte>, len: nat)
      requires groupSize > 0 && counter + len <= groupSize && len <= |rest|
      modifies this`counter, this`output
      ensures counter == old(counter) + len
      ensures output + Grouped(rest[len..], counter, groupSize, separator)
              == old(output) + Grouped(rest, old(counter), groupSize, separator)
      ensures CounterAfter(counter, |rest| - len, groupSize) == CounterAfter(old(counter), |rest|, groupSize)
    {
      GroupedRun(rest, counter, groupSize, separator, len);
      CounterRun(counter, len, |rest| - len, groupSize);
      hide Grouped, CounterAfter;
      Regroup(output, rest[..len], Grouped(rest[len..], counter + len, groupSize, separator));
      output := output + rest[..len];
      counter := counter + len;
    }

    /** Put2: however a text is cut, the separators fall in the same places. */
    method Put2(input: seq<byte>, messageEnd: bool)
      requires Valid()
      modifies this
      ensures Valid()
      ensures !messageEnd ==> text == old(text) + input && before == old(before)
      ensures messageEnd ==> text == []
                             && output == old(before)
                                          + (Grouped(old(text) + input, 0, groupSize, separator) + terminator)
    {
      GroupedJoin(text, input, 0, groupSize, separator);
      hide Grouped, CounterAfter;
      if groupSize != 0 {
        PutGroups(input);
      } else {
        output := output + input;
      }
      Regroup(before, Grouped(text, 0, groupSize, separator), Grouped(input, old(counter), groupSize, separator));
      text := text + input;
      if messageEnd {
        Regroup(before, Grouped(text, 0, groupSize, separator), terminator);
        output := output + terminator;
        counter, before, text := 0, output, [];
        NoGroups(0, groupSize, separator);
      }
    }
  }

  lemma NoGroups(counter: nat, groupSize: nat, separator: seq<byte>)
    requires counter <= groupSize
    ensures Grouped([], counter, groupSize, separator) == [] && CounterAfter(counter, 0, groupSize) == counter
  {}

  lemma ResetCounter(n: nat, groupSize: nat)
    requires n > 0 && groupSize > 0
    ensures CounterAfter(groupSize, n, groupSize) == CounterAfter(0, n, groupSize)
  {}

  /** Encoder, grouper and decoder in a row give the message back, whatever chunks each of them gets its input in. */
  method EncodeGroupDecode(data: seq<seq<byte>>, w: nat, alphabet: seq<byte>, padding: int, lookup: seq<int>,
                           groupSize: nat, separator: seq<byte>, terminator: seq<byte>, cuts: seq<nat>, cuts': seq<nat>)
      returns (back: seq<byte>)
    requires 1 <= w <= 7 && Inverts(lookup, alphabet, w) && IsLookup(lookup, w) && -1 <= padding < 256
    requires padding >= 0 ==> !Seen(lookup, padding)
    requires Invisible(separator, lookup) && Invisible(terminator, lookup) && data != []
    ensures back == Join(data)
  {
    RoundTrip(Join(data), w, alphabet, padding, lookup, groupSize, separator, terminator);
    hide Encoded, Decoded, Grouped, Inverts, IsLookup, IsAlphabet, Invisible, Join, Cut;
    var text := Encode(data, w, alphabet, padding);
    var grouped := Group(Cut(text, cuts), groupSize, separator, terminator);
    back := Decode(Cut(grouped, cuts'), w, lookup);
  }

  method Encode(chunks: seq<seq<byte>>, w: nat, alphabet: seq<byte>, padding: int) returns (text: seq<byte>)
    requires 1 <= w <= 7 && IsAlphabet(alphabet, w) && -1 <= padding < 256 && chunks != []
    ensures text == Encoded(Join(chunks), w, alphabet, padding)
  {
    hide Encoded, IsAlphabet;
    var encoder := new BaseNEncoder(alphabet, w, padding);
    var last := |chunks| - 1;
    EmptyFront(Encoded(Join(chunks), w, alphabet, padding));
    assert Join(chunks[..0]) == [];
    hide BaseNEncoder.Valid, Join;
    for k := 0 to last
      invariant encoder.Valid() && encoder.Message() == Join(chunks[..k]) && encoder.before == []
    {
      JoinNext(chunks, k);
      encoder.Put2(chunks[k], false);
    }
    JoinNext(chunks, last);
    encoder.Put2(chunks[last], true);
    text := encoder.output;
  }

  method Group(chunks: seq<seq<byte>>, groupSize: nat, separator: seq<byte>, terminator: seq<byte>)
      returns (grouped: seq<byte>)
    requires chunks != []
    ensures grouped == Grouped(Join(chunks), 0, groupSize, separator) + terminator
  {
    hide Grouped;
    var grouper := new Grouper(groupSize, separator, terminator);
    var last := |chunks| - 1;
    EmptyFront(Grouped(Join(chunks), 0, groupSize, separator) + terminator);
    assert Join(chunks[..0]) == [];
    hide Grouper.Valid, Join;
    for k := 0 to last
      invariant grouper.Valid() && grouper.text == Join(chunks[..k]) && grouper.before == []
    {
      JoinNext(chunks, k);
      grouper.Put2(chunks[k], false);
    }
    JoinNext(chunks, last);
    grouper.Put2(chunks[last], true);
    grouped := grouper.output;
  }

  method Decode(chunks: seq<seq<byte>>, w: nat, lookup: seq<int>) returns (data: seq<byte>)
    requires 1 <= w <= 7 && IsLookup(lookup, w) && chunks != []
    ensures data == Decoded(Join(chunks), w, lookup)
  {
    LookupSize(lookup, w);
    hide Decoded, IsLookup;
    var decoder := new BaseNDecoder(lookup, w);
    var last := |chunks| - 1;
    EmptyFront(Decoded(Join(chunks), w, lookup));
    assert Join(chunks[..0]) == [];
    hide BaseNDecoder.Valid, Join;
    for k := 0 to last
      invariant decoder.Valid() && decoder.text == Join(chunks[..k]) && decoder.before == []
    {
      JoinNext(chunks, k);
      decoder.Put2(chunks[k], false);
    }
    JoinNext(chunks, last);
    decoder.Put2(chunks[last], true);
    data := decoder.output;
  }

  lemma EmptyFront<T>(s: seq<T>)
    ensures [] + s == s
  {}

  lemma LookupSize(lookup: seq<int>, w: nat)
    requires IsLookup(lookup, w)
    ensures |lookup| == 256
  {}
}
