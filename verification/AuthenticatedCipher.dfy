/** AuthenticatedSymmetricCipherBase: the state machine around its hooks, and the block buffering in front of them. */
module AuthenticatedEncryption {
  import opened Chunks
  import Utf8

  type byte = Utf8.byte

  /** A hook that ends a part of the message, with all that was authenticated for that part: the whole blocks
      handed over before, and what the buffer holds when it is called. */
  datatype Hook =
    | LastHeaderBlock(data: seq<byte>)
    | LastConfidentialBlock(data: seq<byte>)
    | LastFooterBlock(data: seq<byte>)

  datatype Stage = Start | KeySet | IVSet | AuthUntransformed | AuthTransformed | AuthFooter

  datatype Outcome = Done | BadState | InvalidArgument

  /** The cipher inside, keyed and with its IV: what it makes of a byte at a position. */
  type Stream = (nat, byte) -> byte

  function Transform(stream: Stream, start: nat, data: seq<byte>): (r: seq<byte>)
    ensures |r| == |data|
  {
    seq(|data|, i requires 0 <= i < |data| => stream(start + i, data[i]))
  }

  /** What the virtual functions of a mode say about it. */
  datatype Mode = Mode(
    blockSize: nat, onPlaintext: bool, maxHeader: nat, maxMessage: nat, maxFooter: nat, minIV: nat, maxIV: nat)

  /** ThrowIfInvalidIVLength: a negative length stands for the mode's own. */
  predicate ValidIVLength(mode: Mode, length: int) { length < 0 || mode.minIV <= length <= mode.maxIV }

  /** The IV among the parameters of SetKey. */
  datatype IV = Missing | Null(length: int) | Given(stream: Stream, length: int)

  const LWORD := 0x1_0000_0000_0000_0000

  /** Adding to an lword. */
  function AddLength(total: nat, length: nat): nat { (total + length) % LWORD }

  /** Of what went in and what came out, the side that is authenticated. */
  function Side(mode: Mode, forward: bool, input: seq<byte>, output: seq<byte>): seq<byte> {
    if mode.onPlaintext == forward then input else output
  }

  /** What dec makes of what enc makes of the data, position by position, is the data. */
  predicate Inverse(enc: Stream, dec: Stream, data: seq<byte>) {
    forall i :: 0 <= i < |data| ==> dec(i, enc(i, data[i])) == data[i]
  }

  lemma TransformChunks(stream: Stream, a: seq<byte>, b: seq<byte>)
    ensures Transform(stream, 0, a + b) == Transform(stream, 0, a) + Transform(stream, |a|, b)
  {}

  /** What whole blocks leave. */
  function LeftOver(length: nat, blockSize: nat): (n: nat)
    requires blockSize > 0
    ensures n < blockSize && n <= length
  {
    if length < blockSize then length else LeftOver(length - blockSize, blockSize)
  }

  lemma NothingYet(stream: Stream, mode: Mode, forward: bool)
    ensures Transform(stream, 0, []) == [] && Side(mode, forward, [], []) == []
  {}

  lemma Wrap(total: nat, length: nat)
    ensures AddLength(total % LWORD, length) == (total + length) % LWORD
  {}

  predicate MessageStage(stage: Stage) {
    stage.IVSet? || stage.AuthUntransformed? || stage.AuthTransformed? || stage.AuthFooter?
  }

  /** The hooks called so far, and the open part. */
  predicate InPart(stage: Stage, ended: seq<Hook>, part: seq<byte>, header: seq<byte>, message: seq<byte>,
                   footer: seq<byte>) {
    match stage
    case IVSet => ended == [] && part == header && message == [] && footer == []
    case AuthUntransformed => ended == [LastHeaderBlock(header)] && part == message && footer == []
    case AuthTransformed => ended == [LastHeaderBlock(header)] && part == message && footer == []
    case AuthFooter => ended == [LastHeaderBlock(header), LastConfidentialBlock(message)] && part == footer
    case _ => true
  }

  class AuthenticatedCipher {
    const mode: Mode
    const forward: bool
    var stage: Stage
    var bufferedDataLength: nat
    var buffer: array<byte>
    var totalHeaderLength: nat
    var totalMessageLength: nat
    var totalFooterLength: nat
    /** The cipher inside, and how far it has run. */
    var stream: Stream
    var position: nat
    /** What the hooks have seen since the last resynchronization: the parts ended, and the blocks of this part. */
    ghost var ended: seq<Hook>
    ghost var blocks: seq<byte>
    /** What the caller has given and got. */
    ghost var header: seq<byte>
    ghost var input: seq<byte>
    ghost var output: seq<byte>
    ghost var footer: seq<byte>

    constructor (mode: Mode, forward: bool, stream: Stream)
      requires mode.blockSize > 0
      ensures Valid() && stage == Start && this.mode == mode && this.forward == forward && fresh(buffer)
    {
      this.mode, this.forward, this.stream, position := mode, forward, stream, 0;
      stage, bufferedDataLength := Start, 0;
      buffer := new byte[mode.blockSize];
      totalHeaderLength, totalMessageLength, totalFooterLength := 0, 0, 0;
      ended, blocks, header, input, output, footer := [], [], [], [], [], [];
    }

    /** The bytes of the open part that the hooks have or will get. */
    ghost function Part(): seq<byte>
      reads this, buffer
      requires bufferedDataLength <= buffer.Length
    {
      blocks + buffer[..bufferedDataLength]
    }

    /** The bytes of the confidential part. */
    ghost function Message(): seq<byte>
      reads this
    {
      Side(mode, forward, input, output)
    }

    ghost predicate Valid()
      reads this, buffer
    {
      && 0 < mode.blockSize == buffer.Length && bufferedDataLength < mode.blockSize
      && InPart(stage, ended, Part(), header, Message(), footer)
      && (MessageStage(stage) ==>
            && output == Transform(stream, 0, input) && position == |input|
            && totalHeaderLength == |header| % LWORD && totalFooterLength == |footer| % LWORD
            && (stage.AuthUntransformed? ==> mode.onPlaintext == forward)
            && (stage.AuthTransformed? ==> mode.onPlaintext != forward)
            && (stage.IVSet? ==> input == []))
    }

    /** AuthenticateBlocks of the derived class takes the whole blocks there are. */
    method AuthenticateBlocks(data: seq<byte>) returns (leftOver: nat)
      requires mode.blockSize > 0
      modifies this`blocks
      ensures leftOver == LeftOver(|data|, mode.blockSize)
      ensures blocks == old(blocks) + data[..|data| - leftOver]
    {
      leftOver := |data|;
      while leftOver >= mode.blockSize
        invariant leftOver <= |data| && LeftOver(leftOver, mode.blockSize) == LeftOver(|data|, mode.blockSize)
      {
        leftOver := leftOver - mode.blockSize;
      }
      blocks := blocks + data[..|data| - leftOver];
    }

    /** What is authenticated is what was given, in order, and less than a block of it waits in the buffer. */
    method AuthenticateData(data: seq<byte>)
      requires mode.blockSize == buffer.Length && bufferedDataLength < mode.blockSize
      modifies this`blocks, this`bufferedDataLength, buffer
      ensures bufferedDataLength < mode.blockSize
      ensures Part() == old(Part()) + data
    {
      var rest := data;
      if bufferedDataLength != 0 {
        if bufferedDataLength + |rest| >= mode.blockSize {
          var room := mode.blockSize - bufferedDataLength;
          CompleteBlock(rest[..room]);
          rest := rest[room..];
        } else {
          CopyIn(bufferedDataLength, rest);
          bufferedDataLength := bufferedDataLength + |rest|;
          return;
        }
      }
      assert blocks + rest == old(Part()) + data;
      StartBuffer(rest);
    }

    /** Whole blocks go to the hook, and the rest into the empty buffer. */
    method StartBuffer(data: seq<byte>)
      requires mode.blockSize == buffer.Length && mode.blockSize > 0
      modifies this`blocks, this`bufferedDataLength, buffer
      ensures bufferedDataLength < mode.blockSize
      ensures Part() == old(blocks) + data
    {
      var rest := data;
      if |rest| >= mode.blockSize {
        ghost var before := blocks;
        var leftOver := AuthenticateBlocks(rest);
        rest := rest[|rest| - leftOver..];
      }
      CopyIn(0, rest);
      bufferedDataLength := |rest|;
    }

    method CompleteBlock(data: seq<byte>)
      requires mode.blockSize == buffer.Length == bufferedDataLength + |data| && buffer.Length > 0
      modifies this`blocks, this`bufferedDataLength, buffer
      ensures blocks == old(Part()) + data && bufferedDataLength == 0
    {
      CopyIn(bufferedDataLength, data);
      assert buffer[..bufferedDataLength + |data|] == buffer[..];
      var _ := AuthenticateBlocks(buffer[..]);
      bufferedDataLength := 0;
    }

    method CopyIn(at: nat, data: seq<byte>)
      requires at + |data| <= buffer.Length
      modifies buffer
      ensures buffer[..at + |data|] == old(buffer[..at]) + data
    {
      forall i | 0 <= i < |data| { buffer[at + i] := data[i]; }
    }

    /** SetKey: the modes need an IV, and accept a null one without using it. */
    method SetKey(iv: IV) returns (r: Outcome)
      requires Valid()
      modifies this
      ensures Valid() && buffer == old(buffer)
      ensures r.Done? <==> !iv.Missing? && ValidIVLength(mode, iv.length)
      ensures !r.Done? ==> r == InvalidArgument
      ensures stage == if r.Done? && iv.Given? then IVSet else KeySet
      ensures stage.IVSet? ==> stream == iv.stream && totalMessageLength == 0
      ensures stage.IVSet? ==> header == input == output == footer == [] && ended == []
    {
      bufferedDataLength := 0;
      stage := KeySet;
      if iv.Missing? || !ValidIVLength(mode, iv.length) { return InvalidArgument; }
      hide Valid;
      r := Done;
      if iv.Given? { r := Resynchronize(iv.stream, iv.length); }
    }

    method Restart()
      requires Valid()
      modifies this`stage
      ensures Valid() && stage == if old(stage).Start? then Start else KeySet
    {
      if !stage.Start? { stage := KeySet; }
    }

    /** Resynchronize: a new IV starts a new message; one of a wrong length ends the old message all the same. */
    method Resynchronize(stream: Stream, length: int) returns (r: Outcome)
      requires Valid()
      modifies this
      ensures Valid() && buffer == old(buffer)
      ensures r == if old(stage).Start? then BadState else if ValidIVLength(mode, length) then Done else InvalidArgument
      ensures stage == if r.Done? then IVSet else if r.BadState? then Start else KeySet
      ensures r.Done? ==> this.stream == stream && totalMessageLength == 0
      ensures r.Done? ==> header == input == output == footer == [] && ended == []
    {
      hide Transform, Side;
      NothingYet(stream, mode, forward);
      if stage.Start? { return BadState; }
      bufferedDataLength := 0;
      totalHeaderLength, totalMessageLength, totalFooterLength := 0, 0, 0;
      stage := KeySet;
      if !ValidIVLength(mode, length) { return InvalidArgument; }
      this.stream, position := stream, 0;
      Forget();
      stage := IVSet;
      r := Done;
    }

    ghost method Forget()
      modifies this`ended, this`blocks, this`header, this`input, this`output, this`footer
      ensures ended == [] && blocks == header == input == output == footer == []
    {
      ended, blocks, header, input, output, footer := [], [], [], [], [], [];
    }

    method EndHeader()
      requires Valid() && stage.IVSet?
      modifies this`ended, this`blocks, this`bufferedDataLength
      ensures bufferedDataLength == 0 && ended == [LastHeaderBlock(header)] && Part() == []
    {
      ended, blocks := ended + [LastHeaderBlock(Part())], [];
      bufferedDataLength := 0;
    }

    method EndConfidential()
      requires bufferedDataLength <= buffer.Length && ended == [LastHeaderBlock(header)] && Part() == Message()
      modifies this`ended, this`blocks, this`bufferedDataLength
      ensures bufferedDataLength == 0 && ended == [LastHeaderBlock(header), LastConfidentialBlock(Message())]
      ensures Part() == []
    {
      ended, blocks := ended + [LastConfidentialBlock(Part())], [];
      bufferedDataLength := 0;
    }

    method AddHeader(data: seq<byte>)
      requires Valid() && stage.IVSet?
      modifies this`blocks, this`bufferedDataLength, this`header, this`totalHeaderLength, buffer
      ensures Valid() && header == old(header) + data
    {
      AuthenticateData(data);
      Wrap(|header|, |data|);
      header := header + data;
      totalHeaderLength := AddLength(totalHeaderLength, |data|);
    }

    method AddFooter(data: seq<byte>)
      requires Valid() && stage.AuthFooter?
      modifies this`blocks, this`bufferedDataLength, this`footer, this`totalFooterLength, buffer
      ensures Valid() && footer == old(footer) + data
    {
      AuthenticateData(data);
      Wrap(|footer|, |data|);
      footer := footer + data;
      totalFooterLength := AddLength(totalFooterLength, |data|);
    }

    /** Update: header data before the message, footer data after it. */
    method Update(data: seq<byte>) returns (r: Outcome)
      requires Valid()
      modifies this`blocks, this`bufferedDataLength, this`header, this`totalHeaderLength, this`footer,
        this`totalFooterLength,
        this`ended, this`stage, buffer
      ensures Valid() && r == (if data != [] && !MessageStage(old(stage)) then BadState else Done)
      ensures stage == if data == [] || r.BadState? || old(stage).IVSet? then old(stage) else AuthFooter
      ensures header == if old(stage).IVSet? then old(header) + data else old(header)
      ensures footer == if MessageStage(old(stage)) && !old(stage).IVSet? then old(footer) + data else old(footer)
    {
      r := Done;
      if data == [] { return; }
      if !MessageStage(stage) { return BadState; }
      if stage.IVSet? {
        AddHeader(data);
      } else {
        if !stage.AuthFooter? {
          EndConfidential();
          stage := AuthFooter;
        }
        AddFooter(data);
      }
    }

    /** ProcessData of the cipher inside; it works in place too. */
    method ProcessSymmetric(outString: array<byte>, inString: array<byte>, length: nat)
      requires length <= inString.Length && length <= outString.Length
      modifies outString, this`position
      ensures outString[..] == Transform(stream, old(position), old(inString[..length])) + old(outString[length..])
      ensures position == old(position) + length
    {
      for i := 0 to length
        invariant position == old(position)
        invariant forall j :: 0 <= j < i ==> outString[j] == stream(position + j, old(inString[j]))
        invariant forall j :: i <= j < outString.Length ==> outString[j] == old(outString[j])
        invariant forall j :: i <= j < inString.Length ==> inString[j] == old(inString[j])
      {
        outString[i] := stream(position + i, inString[i]);
      }
      assert outString[..length] == Transform(stream, position, old(inString[..length]));
      position := position + length;
    }

    /** The states AuthUntransformed and AuthTransformed. Where input and output are the same array, the side that
        is authenticated is still the right one: it is read before the cipher overwrites it, or after. */
    method ProcessMessage(outString: array<byte>, inString: array<byte>, length: nat)
      requires Valid() && (stage.AuthUntransformed? || stage.AuthTransformed?)
      requires length <= inString.Length && length <= outString.Length && outString != buffer && inString != buffer
      modifies this`blocks, this`bufferedDataLength, this`input, this`output, this`position, outString, buffer
      ensures Valid() && input == old(input) + old(inString[..length])
      ensures output == old(output) + outString[..length] && outString[length..] == old(outString[length..])
      ensures var plaintext := if forward then old(inString[..length]) else outString[..length];
        var ciphertext := if forward then outString[..length] else old(inString[..length]);
        Part() == old(Part()) + if mode.onPlaintext then plaintext else ciphertext
    {
      ghost var data := inString[..length];
      TransformChunks(stream, input, data);
      hide Transform;
      if stage.AuthUntransformed? {
        AuthenticateData(inString[..length]);
        ProcessSymmetric(outString, inString, length);
      } else {
        ProcessSymmetric(outString, inString, length);
        AuthenticateData(outString[..length]);
      }
      assert outString[..length] == Transform(stream, old(position), data);
      input, output := input + data, output + outString[..length];
    }

    /** ProcessData */
    method ProcessData(outString: array<byte>, inString: array<byte>, length: nat) returns (r: Outcome)
      requires Valid() && length <= inString.Length && length <= outString.Length && outString != buffer
      requires inString != buffer
      modifies this`blocks, this`bufferedDataLength, this`input, this`output, this`position, this`ended, this`stage,
        this`totalMessageLength, outString, buffer
      ensures Valid() && totalMessageLength == AddLength(old(totalMessageLength), length)
      ensures r == if MessageStage(old(stage)) && totalMessageLength > mode.maxMessage then InvalidArgument
                   else if !MessageStage(old(stage)) || old(stage).AuthFooter? then BadState
                   else Done
      ensures r.Done? ==> input == old(input) + old(inString[..length]) && output == old(output) + outString[..length]
                          && outString[length..] == old(outString[length..])
                          && (stage.AuthUntransformed? || stage.AuthTransformed?)
      ensures !r.Done? ==>
        input == old(input) && output == old(output) && outString[..] == old(outString[..]) && stage == old(stage)
    {
      totalMessageLength := AddLength(totalMessageLength, length);
      if MessageStage(stage) && totalMessageLength > mode.maxMessage { return InvalidArgument; }
      if !MessageStage(stage) || stage.AuthFooter? { return BadState; }
      if stage.IVSet? {
        EndHeader();
        stage := if mode.onPlaintext == forward then AuthUntransformed else AuthTransformed;
      }
      ProcessMessage(outString, inString, length);
      r := Done;
    }

    /** TruncatedFinal: when it gets as far as the MAC, the hooks have been called once each and in this order,
        over exactly the header, the message and the footer. */
    method TruncatedFinal() returns (r: Outcome)
      requires Valid()
      modifies this`blocks, this`bufferedDataLength, this`ended, this`stage
      ensures Valid()
      ensures r == if totalHeaderLength > mode.maxHeader || totalFooterLength > mode.maxFooter then InvalidArgument
                   else if !MessageStage(old(stage)) then BadState
                   else Done
      ensures r.Done? ==> stage == KeySet
                          && ended == [LastHeaderBlock(header), LastConfidentialBlock(Message()),
                                       LastFooterBlock(footer)]
      ensures !r.Done? ==> stage == old(stage) && ended == old(ended)
    {
      if totalHeaderLength > mode.maxHeader || totalFooterLength > mode.maxFooter { return InvalidArgument; }
      if !MessageStage(stage) { return BadState; }
      if stage.IVSet? { EndHeader(); }
      if !stage.AuthFooter? { EndConfidential(); }
      ended, blocks := ended + [LastFooterBlock(Part())], [];
      bufferedDataLength := 0;
      stage := KeySet;
      r := Done;
    }
  }

  // ----- whole runs ------------------------------------------------------------------------------------------

  /** What the hooks have seen of a run that ends. */
  function Transcript(mode: Mode, forward: bool, header: seq<byte>, input: seq<byte>, output: seq<byte>,
                      footer: seq<byte>):
    seq<Hook>
  {
    [LastHeaderBlock(header), LastConfidentialBlock(Side(mode, forward, input, output)), LastFooterBlock(footer)]
  }

  /** Whether the running length, an lword, passes the limit after some chunk. */
  predicate PassesLimit(chunks: seq<seq<byte>>, total: nat, limit: nat) {
    chunks != []
    && (AddLength(total, |chunks[0]|) > limit || PassesLimit(chunks[1..], AddLength(total, |chunks[0]|), limit))
  }

  /** Below 2^64 bytes only the whole length counts. */
  lemma {:induction false} LimitOfWhole(chunks: seq<seq<byte>>, total: nat, limit: nat)
    requires total <= limit && total + |Join(chunks)| < LWORD
    ensures PassesLimit(chunks, total, limit) <==> total + |Join(chunks)| > limit
  {
    if chunks != [] {
      NoWrap(total, |chunks[0]|);
      hide AddLength;
      if total + |chunks[0]| <= limit { LimitOfWhole(chunks[1..], total + |chunks[0]|, limit); }
    }
  }

  lemma NoWrap(total: nat, length: nat)
    ensures total + length < LWORD ==> AddLength(total, length) == total + length
  {}

  /** How a run ends. Without a call of ProcessData there is no message to follow, and footer data is header data. */
  function RunOutcome(stage: Stage, mode: Mode, ivLength: int, headers: seq<seq<byte>>, messages: seq<seq<byte>>,
                      footers: seq<seq<byte>>): Outcome
  {
    if stage.Start? then BadState
    else if !ValidIVLength(mode, ivLength) then InvalidArgument
    else MessageOutcome(mode, headers, messages, footers)
  }

  function MessageOutcome(mode: Mode, headers: seq<seq<byte>>, messages: seq<seq<byte>>, footers: seq<seq<byte>>):
    Outcome
  {
    if PassesLimit(messages, 0, mode.maxMessage) then InvalidArgument
    else FinalOutcome(mode, RunHeader(headers, messages, footers), RunFooter(messages, footers))
  }

  function RunHeader(headers: seq<seq<byte>>, messages: seq<seq<byte>>, footers: seq<seq<byte>>): seq<byte> {
    if messages == [] then Join(headers) + Join(footers) else Join(headers)
  }

  function RunFooter(messages: seq<seq<byte>>, footers: seq<seq<byte>>): seq<byte> {
    if messages == [] then [] else Join(footers)
  }

  /** Data has gone to the header, or to the footer. */
  ghost predicate Grown(toHeader: bool, header: seq<byte>, footer: seq<byte>, data: seq<byte>, header': seq<byte>,
                        footer': seq<byte>) {
    header' == (if toHeader then header + data else header) && footer' == if toHeader then footer else footer + data
  }

  lemma GrownMore(toHeader: bool, header: seq<byte>, footer: seq<byte>, chunks: seq<seq<byte>>, k: nat,
                  h: seq<byte>, f: seq<byte>, h': seq<byte>, f': seq<byte>)
    requires k < |chunks| && Grown(toHeader, header, footer, Join(chunks[..k]), h, f)
    requires Grown(toHeader, h, f, chunks[k], h', f')
    ensures Grown(toHeader, header, footer, Join(chunks[..k + 1]), h', f')
  {
    hide *;
    JoinNext(chunks, k);
    GrownTwice(toHeader, header, footer, Join(chunks[..k]), chunks[k], h, f, h', f');
  }

  lemma GrownTwice(toHeader: bool, header: seq<byte>, footer: seq<byte>, d: seq<byte>, c: seq<byte>,
                   h: seq<byte>, f: seq<byte>, h': seq<byte>, f': seq<byte>)
    requires Grown(toHeader, header, footer, d, h, f) && Grown(toHeader, h, f, c, h', f')
    ensures Grown(toHeader, header, footer, d + c, h', f')
  {
    Regroup(if toHeader then header else footer, d, c);
  }

  lemma NothingGrown(toHeader: bool, header: seq<byte>, footer: seq<byte>, chunks: seq<seq<byte>>)
    ensures Grown(toHeader, header, footer, Join(chunks[..0]), header, footer) && chunks[..|chunks|] == chunks
  {}

  /** Update for every chunk. */
  method UpdateAll(c: AuthenticatedCipher, chunks: seq<seq<byte>>)
    requires c.Valid() && MessageStage(c.stage)
    modifies c`blocks, c`bufferedDataLength, c`header, c`totalHeaderLength, c`footer, c`totalFooterLength, c`ended,
      c`stage, c.buffer
    ensures c.Valid() && MessageStage(c.stage) && (c.stage.IVSet? <==> old(c.stage).IVSet?)
    ensures Grown(old(c.stage).IVSet?, old(c.header), old(c.footer), Join(chunks), c.header, c.footer)
  {
    ghost var toHeader, header, footer := c.stage.IVSet?, c.header, c.footer;
    NothingGrown(toHeader, header, footer, chunks);
    hide AuthenticatedCipher.Valid, AuthenticatedCipher.Part, AuthenticatedCipher.Message, Join;
    for k := 0 to |chunks|
      invariant c.Valid() && MessageStage(c.stage) && (c.stage.IVSet? <==> toHeader)
      invariant Grown(toHeader, header, footer, Join(chunks[..k]), c.header, c.footer)
    {
      ghost var h, f := c.header, c.footer;
      var _ := c.Update(chunks[k]);
      assert Grown(toHeader, h, f, chunks[k], c.header, c.footer);
      GrownMore(toHeader, header, footer, chunks, k, h, f, c.header, c.footer);
    }
  }

  method ProcessChunk(c: AuthenticatedCipher, m: seq<byte>) returns (r: Outcome, out: seq<byte>)
    requires c.Valid() && MessageStage(c.stage) && !c.stage.AuthFooter?
    modifies c`blocks, c`bufferedDataLength, c`input, c`output, c`position, c`ended, c`stage, c`totalMessageLength,
      c.buffer
    ensures c.Valid() && c.totalMessageLength == AddLength(old(c.totalMessageLength), |m|)
    ensures r == if c.totalMessageLength > c.mode.maxMessage then InvalidArgument else Done
    ensures r.Done? ==> c.input == old(c.input) + m && c.output == old(c.output) + out
    ensures r.Done? ==> c.stage.AuthUntransformed? || c.stage.AuthTransformed?
  {
    hide AuthenticatedCipher.Valid;
    var plain, processed := new byte[|m|](i requires 0 <= i < |m| => m[i]), new byte[|m|](_ => 0);
    assert plain[..|m|] == m;
    r := c.ProcessData(processed, plain, |m|);
    out := processed[..|m|];
  }

  /** ProcessData for every chunk, as long as it succeeds. */
  method ProcessAll(c: AuthenticatedCipher, chunks: seq<seq<byte>>) returns (r: Outcome, out: seq<byte>)
    requires c.Valid() && c.stage.IVSet? && c.output == [] && c.totalMessageLength == 0
    modifies c`blocks, c`bufferedDataLength, c`input, c`output, c`position, c`ended, c`stage, c`totalMessageLength,
      c.buffer
    ensures c.Valid()
    ensures r == if PassesLimit(chunks, 0, c.mode.maxMessage) then InvalidArgument else Done
    ensures r.Done? ==> c.input == Join(chunks) && c.output == out
    ensures r.Done? ==> if chunks == [] then c.stage.IVSet? else c.stage.AuthUntransformed? || c.stage.AuthTransformed?
  {
    r, out := Done, [];
    assert chunks[0..] == chunks && Join(chunks[..0]) == [];
    hide AuthenticatedCipher.Part, AuthenticatedCipher.Message, Join, Transform, Side, InPart;
    for k := 0 to |chunks|
      invariant r.Done? && c.Valid() && c.input == Join(chunks[..k]) && c.output == out
      invariant PassesLimit(chunks, 0, c.mode.maxMessage)
              == PassesLimit(chunks[k..], c.totalMessageLength, c.mode.maxMessage)
      invariant if k == 0 then c.stage.IVSet? else c.stage.AuthUntransformed? || c.stage.AuthTransformed?
    {
      assert chunks[k..][0] == chunks[k] && chunks[k..][1..] == chunks[k + 1..];
      JoinNext(chunks, k);
      var processed;
      r, processed := ProcessChunk(c, chunks[k]);
      if !r.Done? { return; }
      out := out + processed;
    }
    assert chunks[..|chunks|] == chunks && chunks[|chunks|..] == [];
  }

  /** A message from IV to MAC, given in chunks. */
  method Run(c: AuthenticatedCipher, stream: Stream, ivLength: int, headers: seq<seq<byte>>, messages: seq<seq<byte>>,
             footers: seq<seq<byte>>) returns (r: Outcome, out: seq<byte>)
    requires c.Valid()
    modifies c, c.buffer
    ensures c.Valid() && c.buffer == old(c.buffer)
    ensures r == RunOutcome(old(c.stage), c.mode, ivLength, headers, messages, footers)
    ensures r.Done? ==> out == Transform(stream, 0, Join(messages))
    ensures r.Done? ==>
      c.ended == Transcript(c.mode, c.forward, RunHeader(headers, messages, footers), Join(messages), out,
                            RunFooter(messages, footers))
    ensures r.Done? ==>
      var plaintext, ciphertext := if c.forward then Join(messages) else out, if c.forward then out else Join(messages);
      c.ended == [LastHeaderBlock(RunHeader(headers, messages, footers)),
                  LastConfidentialBlock(if c.mode.onPlaintext then plaintext else ciphertext),
                  LastFooterBlock(RunFooter(messages, footers))]
  {
    out := [];
    hide AuthenticatedCipher.Valid, AuthenticatedCipher.Part, Join, Transform, PassesLimit, Transcript;
    r := c.Resynchronize(stream, ivLength);
    if r.Done? { r, out := RunFromIV(c, headers, messages, footers); }
    TranscriptMeans(c.mode, c.forward, RunHeader(headers, messages, footers),
                    if c.forward then Join(messages) else out, if c.forward then out else Join(messages),
                    RunFooter(messages, footers));
  }

  /** The same once the IV is set. */
  method RunFromIV(c: AuthenticatedCipher, headers: seq<seq<byte>>, messages: seq<seq<byte>>, footers: seq<seq<byte>>)
      returns (r: Outcome, out: seq<byte>)
    requires c.Valid() && c.stage.IVSet? && c.totalMessageLength == 0 && c.header == c.output == c.footer == []
    modifies c`blocks, c`bufferedDataLength, c`header, c`totalHeaderLength, c`footer, c`totalFooterLength, c`ended,
      c`stage, c`input, c`output, c`position, c`totalMessageLength, c.buffer
    ensures c.Valid()
    ensures r == MessageOutcome(c.mode, headers, messages, footers)
    ensures r.Done? ==> out == Transform(c.stream, 0, Join(messages))
    ensures r.Done? ==>
      c.ended == Transcript(c.mode, c.forward, RunHeader(headers, messages, footers), Join(messages), out,
                            RunFooter(messages, footers))
  {
    hide AuthenticatedCipher.Valid, AuthenticatedCipher.Part, Join, Transform, PassesLimit, Transcript, FinalOutcome,
      Grown, RunHeader, RunFooter;
    UpdateAll(c, headers);
    ghost var h, f := c.header, c.footer;
    OnlyHeader(headers, h, f);
    r, out := ProcessAll(c, messages);
    if r.Done? {
      r := FooterAndMac(c, footers);
      Parted(headers, messages, footers, h, c.header, c.footer);
    }
  }

  lemma OnlyHeader(headers: seq<seq<byte>>, h: seq<byte>, f: seq<byte>)
    requires Grown(true, [], [], Join(headers), h, f)
    ensures h == Join(headers) && f == []
  {}

  lemma Parted(headers: seq<seq<byte>>, messages: seq<seq<byte>>, footers: seq<seq<byte>>, h: seq<byte>,
               h': seq<byte>, f': seq<byte>)
    requires h == Join(headers) && Grown(messages == [], h, [], Join(footers), h', f')
    ensures h' == RunHeader(headers, messages, footers) && f' == RunFooter(messages, footers)
  {
    assert [] + Join(footers) == Join(footers);
    hide Join;
  }

  /** What follows the message, or the header where there is no message. */
  method FooterAndMac(c: AuthenticatedCipher, footers: seq<seq<byte>>) returns (r: Outcome)
    requires c.Valid() && MessageStage(c.stage) && c.footer == []
    modifies c`blocks, c`bufferedDataLength, c`header, c`totalHeaderLength, c`footer, c`totalFooterLength, c`ended,
      c`stage, c.buffer
    ensures c.Valid() && c.output == Transform(c.stream, 0, c.input)
    ensures Grown(old(c.stage).IVSet?, old(c.header), [], Join(footers), c.header, c.footer)
    ensures r == FinalOutcome(c.mode, c.header, c.footer)
    ensures r.Done? ==> c.ended == Transcript(c.mode, c.forward, c.header, c.input, c.output, c.footer)
  {
    hide *;
    UpdateAll(c, footers);
    r := Finish(c);
  }

  function FinalOutcome(mode: Mode, header: seq<byte>, footer: seq<byte>): Outcome {
    if |header| % LWORD > mode.maxHeader || |footer| % LWORD > mode.maxFooter then InvalidArgument else Done
  }

  /** TruncatedFinal at the end of a message. */
  method Finish(c: AuthenticatedCipher) returns (r: Outcome)
    requires c.Valid() && MessageStage(c.stage)
    modifies c`blocks, c`bufferedDataLength, c`ended, c`stage
    ensures c.Valid() && c.output == Transform(c.stream, 0, c.input)
    ensures r == FinalOutcome(c.mode, c.header, c.footer)
    ensures r.Done? ==> c.ended == Transcript(c.mode, c.forward, c.header, c.input, c.output, c.footer)
  {
    hide Transform;
    r := c.TruncatedFinal();
  }

  /** What the decryptor makes of the ciphertext is the message, and the side that is authenticated is the same. */
  lemma BothEndsAgree(mode: Mode, enc: Stream, dec: Stream, header: seq<byte>, message: seq<byte>, footer: seq<byte>)
    requires Inverse(enc, dec, message)
    ensures var ciphertext := Transform(enc, 0, message);
      && Transform(dec, 0, ciphertext) == message
      && Transcript(mode, false, header, ciphertext, message, footer)
         == Transcript(mode, true, header, message, ciphertext, footer)
  {
    assert Transform(dec, 0, Transform(enc, 0, message)) == message;
  }

  /** An encryptor runs over a message, and a decryptor over the ciphertext, both in whatever chunks. When both get to
      the MAC, the hooks of both have seen the same bytes and the decryptor has put out the message; and below 2^64
      bytes the decryptor gets there whenever the encryptor does. */
  method EncryptAndDecrypt(e: AuthenticatedCipher, d: AuthenticatedCipher, enc: Stream, dec: Stream, ivLength: int,
                           header: seq<byte>, message: seq<byte>, footer: seq<byte>,
                           cuts: seq<seq<nat>>, cuts': seq<seq<nat>>)
      returns (re: Outcome, rd: Outcome, ciphertext: seq<byte>, plain: seq<byte>)
    requires e.Valid() && d.Valid() && e != d && e.buffer != d.buffer && |cuts| == |cuts'| == 3
    requires e.mode == d.mode && e.forward && !d.forward && !e.stage.Start? && !d.stage.Start?
    requires Inverse(enc, dec, message)
    modifies e, e.buffer, d, d.buffer
    ensures re.Done? && rd.Done? ==> e.ended == d.ended && plain == message
    ensures re.Done? ==>
      e.ended == [LastHeaderBlock(header), LastConfidentialBlock(if e.mode.onPlaintext then message else ciphertext),
                  LastFooterBlock(footer)]
    ensures rd.Done? ==>
      d.ended == [LastHeaderBlock(header), LastConfidentialBlock(if d.mode.onPlaintext then plain else ciphertext),
                  LastFooterBlock(footer)]
    ensures re.Done? ==>
      |ciphertext| == |message| && forall i :: 0 <= i < |message| ==> ciphertext[i] == enc(i, message[i])
    ensures |header| < LWORD && |message| < LWORD && |footer| < LWORD ==>
      (re.Done? <==> (ivLength < 0 || e.mode.minIV <= ivLength <= e.mode.maxIV) && |header| <= e.mode.maxHeader
                     && |message| <= e.mode.maxMessage && |footer| <= e.mode.maxFooter)
    ensures re.Done? && |message| < LWORD ==> rd.Done?
    ensures re == RunOutcome(old(e.stage), e.mode, ivLength, Cut(header, cuts[0]), Cut(message, cuts[1]),
                             Cut(footer, cuts[2]))
  {
    hide Transform, Transcript, Inverse, Cut, PassesLimit, FinalOutcome, ValidIVLength, RunHeader, RunFooter, Join,
      AuthenticatedCipher.Valid;
    BothEndsAgree(e.mode, enc, dec, header, message, footer);
    EachByte(enc, message);
    if |header| < LWORD && |message| < LWORD && |footer| < LWORD {
      OutcomeMeans(e.stage, e.mode, ivLength, header, message, footer, cuts);
    }
    re, ciphertext := Run(e, enc, ivLength, Cut(header, cuts[0]), Cut(message, cuts[1]), Cut(footer, cuts[2]));
    PartsOfCut(header, message, footer, cuts);
    TranscriptMeans(e.mode, true, header, message, ciphertext, footer);
    rd, plain := BadState, [];
    if re.Done? {
      SameOutcome(e.mode, ivLength, header, message, ciphertext, footer, cuts, cuts');
      PartsOfCut(header, ciphertext, footer, cuts');
      rd, plain := Run(d, dec, ivLength, Cut(header, cuts'[0]), Cut(ciphertext, cuts'[1]), Cut(footer, cuts'[2]));
      TranscriptMeans(d.mode, false, header, plain, ciphertext, footer);
    }
  }

  /** What a run has for header, message and footer, however they are cut. */
  lemma PartsOfCut(header: seq<byte>, message: seq<byte>, footer: seq<byte>, cuts: seq<seq<nat>>)
    requires |cuts| == 3
    ensures var h, m, f := Cut(header, cuts[0]), Cut(message, cuts[1]), Cut(footer, cuts[2]);
      RunHeader(h, m, f) == header && Join(m) == message && RunFooter(m, f) == footer
  {
    hide Cut, Join;
  }

  /** Below 2^64 bytes the limits of the mode decide. */
  lemma OutcomeMeans(stage: Stage, mode: Mode, ivLength: int, header: seq<byte>, message: seq<byte>,
                     footer: seq<byte>, cuts: seq<seq<nat>>)
    requires |cuts| == 3 && !stage.Start? && |header| < LWORD && |message| < LWORD && |footer| < LWORD
    ensures RunOutcome(stage, mode, ivLength, Cut(header, cuts[0]), Cut(message, cuts[1]), Cut(footer, cuts[2])).Done?
       <==> (ivLength < 0 || mode.minIV <= ivLength <= mode.maxIV) && |header| <= mode.maxHeader
            && |message| <= mode.maxMessage && |footer| <= mode.maxFooter
  {
    PartsOfCut(header, message, footer, cuts);
    LimitOfWhole(Cut(message, cuts[1]), 0, mode.maxMessage);
    FinalMeans(mode, header, footer);
    hide Cut, Join, PassesLimit, FinalOutcome, RunHeader, RunFooter;
  }

  lemma FinalMeans(mode: Mode, header: seq<byte>, footer: seq<byte>)
    requires |header| < LWORD && |footer| < LWORD
    ensures FinalOutcome(mode, header, footer) == if |header| <= mode.maxHeader && |footer| <= mode.maxFooter then Done
                                                 else InvalidArgument
  {}

  /** The other end fares the same, since its message is as long. */
  lemma SameOutcome(mode: Mode, ivLength: int, header: seq<byte>, message: seq<byte>, ciphertext: seq<byte>,
                    footer: seq<byte>, cuts: seq<seq<nat>>, cuts': seq<seq<nat>>)
    requires |cuts| == |cuts'| == 3 && |ciphertext| == |message|
    ensures |message| < LWORD ==>
      forall stage: Stage, stage': Stage :: !stage.Start? && !stage'.Start? ==>
        RunOutcome(stage, mode, ivLength, Cut(header, cuts[0]), Cut(message, cuts[1]), Cut(footer, cuts[2]))
        == RunOutcome(stage', mode, ivLength, Cut(header, cuts'[0]), Cut(ciphertext, cuts'[1]), Cut(footer, cuts'[2]))
  {
    PartsOfCut(header, message, footer, cuts);
    PartsOfCut(header, ciphertext, footer, cuts');
    hide Cut, Join, PassesLimit, FinalOutcome;
    if |message| < LWORD {
      LimitOfWhole(Cut(message, cuts[1]), 0, mode.maxMessage);
      LimitOfWhole(Cut(ciphertext, cuts'[1]), 0, mode.maxMessage);
    }
    hide RunHeader, RunFooter;
  }

  lemma EachByte(stream: Stream, data: seq<byte>)
    ensures var r := Transform(stream, 0, data);
      |r| == |data| && forall i :: 0 <= i < |data| ==> r[i] == stream(i, data[i])
  {}

  /** What goes to the hook for the confidential part, in terms of plaintext and ciphertext. */
  lemma TranscriptMeans(mode: Mode, forward: bool, header: seq<byte>, plaintext: seq<byte>, ciphertext: seq<byte>,
                        footer: seq<byte>)
    ensures var input, output := if forward then plaintext else ciphertext, if forward then ciphertext else plaintext;
      Transcript(mode, forward, header, input, output, footer)
      == [LastHeaderBlock(header), LastConfidentialBlock(if mode.onPlaintext then plaintext else ciphertext),
          LastFooterBlock(footer)]
  {}
}
