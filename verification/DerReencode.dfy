/** DERReencode: a BER element in, its DER out, with every indefinite length made definite. */
module DerReencoding {
  import opened BufferedBytes
  import opened BerCoding
  import opened BerStreams

  /** What is put out, and how many bytes are taken, whether it succeeds or ends in a BERDecodeErr. */
  datatype Reencoded = Ok(out: seq<byte>, used: nat) | BerDecodeError(out: seq<byte>, used: nat)

  /** More output behind what is there, more input behind what was read. */
  function Behind(out: seq<byte>, used: nat, r: Reencoded): Reencoded {
    r.(out := out + r.out, used := used + r.used)
  }

  predicate IsConstructed(tag: byte) { tag / 32 % 2 == 1 }

  predicate AtEndOfContents(s: seq<byte>) { |s| >= 2 && s[0] == 0 && s[1] == 0 }

  function DerElement(tag: byte, content: seq<byte>): seq<byte> { [tag] + DerLength(|content|) + content }

  /** Put the tag and the length in front of the contents; on an error the encoder's destructor does. */
  function Wrap(tag: byte, header: nat, r: Reencoded): Reencoded {
    r.(out := DerElement(tag, r.out), used := header + r.used)
  }

  /** On an error inside an indefinite length the decoder's destructor still reads for the end-of-contents octets. */
  function Closed(r: Reencoded, available: nat): (c: Reencoded)
    requires r.used <= available
    ensures c.Ok? == r.Ok? && c.out == r.out && r.used <= c.used <= available && (r.Ok? ==> c == r)
  {
    if r.Ok? then r else r.(used := r.used + Min(2, available - r.used))
  }

  function Reencode(s: seq<byte>): (r: Reencoded)
    ensures r.used <= |s| && (r.Ok? ==> 2 <= r.used)
    decreases |s|, 0
  {
    if s == [] then BerDecodeError([], 0)
    else match BerLength(s[1..])
      case Definite(length, used) =>
        if length > |s| - 1 - used then BerDecodeError(DerElement(s[0], s[1 + used..]), |s|)
        else Ok(DerElement(s[0], s[1 + used..1 + used + length]), 1 + used + length)
      case Indefinite(used) =>
        if IsConstructed(s[0]) then
          var inside := s[1 + used..];
          Wrap(s[0], 1 + used, Closed(Children(inside), |inside|))
        else BerDecodeError([], 1 + used)
      case l => BerDecodeError([], 1 + l.used)
  }

  /** The elements up to the end-of-contents octets, and those. */
  function Children(s: seq<byte>): (r: Reencoded)
    ensures r.used <= |s| && (r.Ok? ==> 2 <= r.used)
    decreases |s|, 1
  {
    if AtEndOfContents(s) then Ok([], 2)
    else
      var first := Reencode(s);
      if first.Ok? then Behind(first.out, first.used, Children(s[first.used..])) else first
  }

  // ----- elements --------------------------------------------------------------------------------------------

  /** An element with a one-byte tag: of definite length, its length octets in any of the forms BER allows, or
      of indefinite length. */
  datatype Element = Plain(tag: byte, lengthOctets: seq<byte>, content: seq<byte>)
                   | Nested(tag: byte, children: seq<Element>)

  function Ber(e: Element): (s: seq<byte>)
    ensures e.Nested? ==> |s| >= 4
  {
    match e
    case Plain(tag, lengthOctets, content) => [tag] + lengthOctets + content
    case Nested(tag, children) => [tag, 0x80] + BerAll(children) + [0, 0]
  }

  function BerAll(es: seq<Element>): seq<byte> {
    if es == [] then [] else Ber(es[0]) + BerAll(es[1..])
  }

  function Der(e: Element): seq<byte> {
    match e
    case Plain(tag, _, content) => DerElement(tag, content)
    case Nested(tag, children) => DerElement(tag, DerAll(children))
  }

  function DerAll(es: seq<Element>): seq<byte> {
    if es == [] then [] else Der(es[0]) + DerAll(es[1..])
  }

  predicate WellFormed(e: Element) {
    match e
    case Plain(_, lengthOctets, content) => BerLength(lengthOctets) == LengthRead.Definite(|content|, |lengthOctets|)
    case Nested(tag, children) => IsConstructed(tag) && AllWellFormed(children)
  }

  /** No child reads like the end of the contents. */
  predicate AllWellFormed(es: seq<Element>) {
    es == [] || (WellFormed(es[0]) && !AtEndOfContents(Ber(es[0])) && AllWellFormed(es[1..]))
  }

  lemma {:induction false} LengthBytesStable(s: seq<byte>, at: nat, left: nat, length: nat, rest: seq<byte>)
    requires at <= |s| && LengthBytes(s, at, left, length).Definite?
    ensures LengthBytes(s + rest, at, left, length) == LengthBytes(s, at, left, length)
    decreases left
  {
    if left > 0 { LengthBytesStable(s, at + 1, left - 1, length * 256 + s[at], rest); }
  }

  /** What follows the length octets does not matter. */
  lemma LengthStable(s: seq<byte>, rest: seq<byte>)
    requires BerLength(s).Definite?
    ensures BerLength(s + rest) == BerLength(s)
  {
    if s[0] > 0x80 { LengthBytesStable(s, 1, s[0] - 0x80, 0, rest); }
  }

  lemma {:induction false} LengthBytesFront(s: seq<byte>, at: nat, left: nat, length: nat)
    requires at <= |s| && LengthBytes(s, at, left, length).Definite?
    ensures var r := LengthBytes(s, at, left, length); LengthBytes(s[..r.used], at, left, length) == r
    decreases left
  {
    if left > 0 { LengthBytesFront(s, at + 1, left - 1, length * 256 + s[at]); }
  }

  lemma LengthFront(s: seq<byte>)
    requires BerLength(s).Definite?
    ensures BerLength(s[..BerLength(s).used]) == BerLength(s)
  {
    if s[0] > 0x80 { LengthBytesFront(s, 1, s[0] - 0x80, 0); }
  }

  /** Section 8.1.2 of X.690: bit 6 of the tag says whether an element is constructed, whatever its class and number. */
  lemma ConstructedBit(kind: nat, constructed: nat, number: nat)
    requires kind < 4 && constructed < 2 && number < 32
    ensures IsConstructed(64 * kind + 32 * constructed + number) <==> constructed == 1
  {
    var tag := 64 * kind + 32 * constructed + number;
    assert tag / 32 == 2 * kind + constructed;
  }

  /** An element that is cut off is taken to the end, and what there is of it is put out as if it were whole. */
  lemma CutOffElement(tag: byte, lengthOctets: seq<byte>, front: seq<byte>)
    requires BerLength(lengthOctets).Definite? && BerLength(lengthOctets).used == |lengthOctets|
    requires |front| < BerLength(lengthOctets).length
    ensures var s := [tag] + lengthOctets + front;
      Reencode(s) == BerDecodeError([tag] + DerLength(|front|) + front, |s|)
  {
    var s := [tag] + lengthOctets + front;
    LengthStable(lengthOctets, front);
    hide BerLength, DerLength;
    assert s[1..] == lengthOctets + front && s[1 + |lengthOctets|..] == front;
  }

  /** An error inside an indefinite length: what was put out is wrapped all the same, and up to two more bytes go. */
  lemma ErrorInside(tag: byte, inside: seq<byte>)
    requires IsConstructed(tag) && !AtEndOfContents(inside) && !Reencode(inside).Ok?
    ensures var r := Reencode(inside);
      var left := |inside| - r.used;
      Reencode([tag, 0x80] + inside)
      == BerDecodeError([tag] + DerLength(|r.out|) + r.out, 2 + r.used + if left < 2 then left else 2)
  {
    var s := [tag, 0x80] + inside;
    assert s[1..][0] == 0x80 && s[2..] == inside;
    hide Reencode, IsConstructed, AtEndOfContents, DerLength;
    ErrorUnfolds(s);
  }

  lemma ErrorUnfolds(s: seq<byte>)
    requires |s| >= 2 && s[1] == 0x80 && IsConstructed(s[0]) && !AtEndOfContents(s[2..]) && !Reencode(s[2..]).Ok?
    ensures Reencode(s) == Wrap(s[0], 2, Closed(Reencode(s[2..]), |s| - 2))
  {
    hide *;
    NestedUnfolds(s);
    FirstFails(s[2..]);
  }

  lemma NestedUnfolds(s: seq<byte>)
    requires |s| >= 2 && s[1] == 0x80 && IsConstructed(s[0])
    ensures Reencode(s) == Wrap(s[0], 2, Closed(Children(s[2..]), |s| - 2))
  {
    assert s[1..][0] == 0x80;
    hide IsConstructed, Wrap, Closed, Children;
  }

  lemma FirstFails(s: seq<byte>)
    requires !AtEndOfContents(s) && !Reencode(s).Ok?
    ensures Children(s) == Reencode(s)
  {
    hide Reencode, AtEndOfContents;
  }

  lemma PlainReencodes(tag: byte, lengthOctets: seq<byte>, content: seq<byte>, rest: seq<byte>)
    requires BerLength(lengthOctets) == LengthRead.Definite(|content|, |lengthOctets|)
    ensures var s := [tag] + lengthOctets + content;
      Reencode(s + rest) == Ok(DerElement(tag, content), |s|)
  {
    var s := [tag] + lengthOctets + content + rest;
    LengthStable(lengthOctets, content + rest);
    hide BerLength, DerElement;
    assert s[1..] == lengthOctets + (content + rest);
    assert s[1 + |lengthOctets|..1 + |lengthOctets| + |content|] == content;
  }

  lemma NestedReencodes(tag: byte, inside: seq<byte>, rest: seq<byte>)
    requires IsConstructed(tag)
    ensures Children(inside + [0, 0] + rest).Ok? ==>
      Reencode([tag, 0x80] + inside + [0, 0] + rest) == Wrap(tag, 2, Children(inside + [0, 0] + rest))
  {
    var s := [tag, 0x80] + inside + [0, 0] + rest;
    hide Children, Wrap, IsConstructed;
    assert s[1..][1..] == s[2..];
    assert s[2..] == inside + [0, 0] + rest;
  }

  /** Every well-formed element, whatever follows it, is taken exactly and put out in DER: indefinite lengths
      definite, all lengths shortest, the contents of definite elements as they were. */
  lemma {:induction false} ReencodesElement(e: Element, rest: seq<byte>)
    requires WellFormed(e)
    ensures Reencode(Ber(e) + rest) == Ok(Der(e), |Ber(e)|)
    decreases e, 0
  {
    match e
    case Plain(tag, lengthOctets, content) => PlainReencodes(tag, lengthOctets, content, rest);
    case Nested(tag, children) =>
      ReencodesChildren(children, rest);
      NestedReencodes(tag, BerAll(children), rest);
  }

  lemma {:induction false} ReencodesChildren(es: seq<Element>, rest: seq<byte>)
    requires AllWellFormed(es)
    ensures Children(BerAll(es) + [0, 0] + rest) == Ok(DerAll(es), |BerAll(es)| + 2)
    decreases es, 1
  {
    var s := BerAll(es) + [0, 0] + rest;
    if es != [] {
      var b, tail := Ber(es[0]), BerAll(es[1..]) + [0, 0] + rest;
      ReencodesElement(es[0], tail);
      ReencodesChildren(es[1..], rest);
      hide Reencode, Ber, Der, WellFormed;
      ChildThenTail(b, BerAll(es[1..]), rest);
    }
  }

  lemma ChildThenTail(b: seq<byte>, tail: seq<byte>, rest: seq<byte>)
    ensures b + tail + [0, 0] + rest == b + (tail + [0, 0] + rest)
    ensures (b + tail + [0, 0] + rest)[|b|..] == tail + [0, 0] + rest
  {}

  lemma PlainUnfolds(s: seq<byte>)
    requires Reencode(s).Ok? && BerLength(s[1..]).Definite?
    ensures var l := BerLength(s[1..]);
      && 1 + l.used + l.length <= |s|
      && Reencode(s) == Ok(DerElement(s[0], s[1 + l.used..1 + l.used + l.length]), 1 + l.used + l.length)
  {
    hide BerLength, DerElement, Children;
  }

  lemma PlainElement(s: seq<byte>) returns (e: Element)
    requires Reencode(s).Ok? && BerLength(s[1..]).Definite?
    ensures var r := Reencode(s); WellFormed(e) && Ber(e) == s[..r.used] && Der(e) == r.out
  {
    PlainUnfolds(s);
    LengthFront(s[1..]);
    var used, length := BerLength(s[1..]).used, BerLength(s[1..]).length;
    hide BerLength, DerElement, Reencode, Children, BerAll, DerAll, AllWellFormed;
    var at := 1 + used;
    e := Plain(s[0], s[1..][..used], s[at..at + length]);
    assert s[..at + length] == [s[0]] + s[1..][..used] + s[at..at + length];
  }

  lemma NestedFront(s: seq<byte>, inside: seq<byte>, n: nat)
    requires 2 <= n && 2 + n <= |s| && s[1] == 0x80 && inside + [0, 0] == s[2..][..n]
    ensures s[..2 + n] == [s[0], 0x80] + inside + [0, 0]
  {
    assert s[..2 + n] == [s[0], s[1]] + s[2..][..n];
  }

  /** Nothing else is accepted: what was read is a well-formed element, and what is put out is its DER. */
  lemma {:induction false} OnlyElements(s: seq<byte>) returns (e: Element)
    requires Reencode(s).Ok?
    ensures var r := Reencode(s); WellFormed(e) && Ber(e) == s[..r.used] && Der(e) == r.out
    decreases |s|, 0
  {
    if BerLength(s[1..]).Definite? {
      e := PlainElement(s);
    } else {
      var es := OnlyChildren(s[2..]);
      e := Nested(s[0], es);
      hide BerLength, DerElement, Children, BerAll, DerAll, AllWellFormed, IsConstructed;
      NestedFront(s, BerAll(es), Children(s[2..]).used);
    }
  }

  lemma TwoParts(s: seq<byte>, n: nat, m: nat, inside: seq<byte>)
    requires n + m <= |s| && inside + [0, 0] == s[n..][..m]
    ensures s[..n + m] == s[..n] + inside + [0, 0]
  {
    assert s[..n + m] == s[..n] + s[n..][..m];
  }

  lemma {:induction false} OnlyChildren(s: seq<byte>) returns (es: seq<Element>)
    requires Children(s).Ok?
    ensures var r := Children(s); AllWellFormed(es) && BerAll(es) + [0, 0] == s[..r.used] && DerAll(es) == r.out
    decreases |s|, 1
  {
    if AtEndOfContents(s) {
      es := [];
    } else {
      var n := Reencode(s).used;
      var e := OnlyElements(s);
      var tail := OnlyChildren(s[n..]);
      es := [e] + tail;
      assert es[1..] == tail;
      hide Reencode, Ber, Der, WellFormed;
      TwoParts(s, n, Children(s[n..]).used, BerAll(tail));
    }
  }

  /** DER goes through unchanged. */
  lemma Idempotent(s: seq<byte>, rest: seq<byte>)
    requires Reencode(s).Ok? && |Reencode(s).out| < LIMIT64
    ensures var out := Reencode(s).out; Reencode(out + rest) == Ok(out, |out|)
  {
    var e := OnlyElements(s);
    var content := if e.Plain? then e.content else DerAll(e.children);
    assert Reencode(s).out == DerElement(e.tag, content);
    LengthRoundTrip(|content|, []);
    assert DerLength(|content|) + [] == DerLength(|content|);
    PlainReencodes(e.tag, DerLength(|content|), content, rest);
    hide Reencode, DerLength, BerLength, DerAll;
  }

  // ----- the streams -----------------------------------------------------------------------------------------

  /** A tag and a length that go together. */
  predicate Opens(s: seq<byte>, asnTag: byte) {
    && s != [] && s[0] == asnTag
    && (BerLength(s[1..]).Definite? || (BerLength(s[1..]).Indefinite? && IsConstructed(asnTag)))
  }

  datatype Header = Header(used: nat, definite: bool, length: nat)

  /** The header an element starts with. */
  function Announced(s: seq<byte>): (h: Header)
    ensures h.used <= |s|
  {
    if s == [] then Header(0, false, 0)
    else
      var l := BerLength(s[1..]);
      Header(1 + l.used, l.Definite?, if l.Definite? then l.length else 0)
  }

  /** BERGeneralDecoder::Init: reads a tag and a length, and gives a decoder for what they announce. */
  method OpenDecoder(source: Buffered, asnTag: byte) returns (decoder: Buffered?, used: nat)
    requires source.Linked()
    modifies source.chain
    ensures used <= |old(source.Available())|
    ensures source.Available() == old(source.Available())[used..]
    ensures decoder != null <==> Opens(old(source.Available()), asnTag)
    ensures decoder != null ==> fresh(decoder) && decoder.Linked() && decoder.inner == source
    ensures decoder != null ==> decoder.chain == {decoder} + source.chain
    ensures decoder != null ==> Announced(old(source.Available())) == Header(used, decoder.definite, decoder.length)
    ensures old(source.Available()) != [] && old(source.Available())[0] == asnTag ==>
      used == Announced(old(source.Available())).used
  {
    ghost var s := source.Available();
    var ok, b := source.Get();
    if !ok { return null, 0; }
    if b != asnTag { return null, 1; }
    var r := BERLengthDecode(source);
    hide BerLength, IsConstructed;
    used := 1 + r.used;
    assert s[1..][r.used..] == s[used..];
    decoder := null;
    if r.Definite? {
      decoder := new Buffered.Through(source, true, r.length);
    } else if r.Indefinite? && IsConstructed(asnTag) {
      decoder := new Buffered.Through(source, false, 0);
    }
  }

  /** BERGeneralDecoder::EndReached */
  method EndReached(decoder: Buffered) returns (end: bool)
    requires decoder.Linked() && decoder.inner != null
    ensures end == if decoder.definite then decoder.length == 0 else AtEndOfContents(decoder.inner.Available())
  {
    if decoder.definite { return decoder.length == 0; }
    var i := decoder.inner.PeekBytes(2);
    end := |i| == 2 && i[0] == 0 && i[1] == 0;
  }

  /** BERGeneralDecoder::MessageEnd: an error unless all has been read; end-of-contents octets go too. */
  method MessageEnd(decoder: Buffered) returns (ok: bool)
    requires decoder.Linked() && decoder.inner != null
    modifies decoder.inner.chain
    ensures ok == if decoder.definite then decoder.length == 0 else AtEndOfContents(old(decoder.inner.Available()))
    ensures var s := old(decoder.inner.Available());
      decoder.inner.Available() == if decoder.definite then s else s[Min(2, |s|)..]
  {
    if decoder.definite { return decoder.length == 0; }
    var i := decoder.inner.Transfer(2);
    ok := |i| == 2 && i[0] == 0 && i[1] == 0;
  }

  /** DERGeneralEncoder::MessageEnd */
  method EncoderMessageEnd(encoder: Buffered, outQueue: Buffered, asnTag: byte)
    requires encoder.inner == null && outQueue.inner == null && encoder != outQueue
    modifies outQueue
    ensures outQueue.bytes == old(outQueue.bytes) + DerElement(asnTag, encoder.bytes)
  {
    hide DerLength;
    var _ := PutElement(outQueue, asnTag, encoder.bytes);
  }

  /** What a decoder finds inside. */
  function Inside(definite: bool, length: nat, s: seq<byte>): (r: Reencoded)
    ensures r.used <= |s|
  {
    if !definite then Closed(Children(s), |s|) else if length > |s| then BerDecodeError(s, |s|)
    else Ok(s[..length], length)
  }

  function ReencodeAs(h: Header, s: seq<byte>): Reencoded
    requires s != [] && h.used <= |s|
  {
    Wrap(s[0], h.used, Inside(h.definite, h.length, s[h.used..]))
  }

  lemma ReencodeOpened(s: seq<byte>)
    requires s != []
    ensures Reencode(s) == if Opens(s, s[0]) then ReencodeAs(Announced(s), s) else BerDecodeError([], Announced(s).used)
  {
    hide Children, DerElement, BerLength;
    var l := BerLength(s[1..]);
    if Opens(s, s[0]) && l.Definite? && l.length <= |s| - 1 - l.used {
      assert s[1 + l.used..][..l.length] == s[1 + l.used..1 + l.used + l.length];
    }
  }

  lemma ChildrenStep(s: seq<byte>)
    requires !AtEndOfContents(s)
    ensures var r := Reencode(s);
      Children(s) == if r.Ok? then Behind(r.out, r.used, Children(s[r.used..])) else r
  {
    hide Reencode, Behind;
  }

  /** The children with one more read. */
  function AfterOne(out: seq<byte>, at: nat, s: seq<byte>): Reencoded {
    var r := Reencode(s);
    if r.Ok? then Behind(out + r.out, at + r.used, Children(s[r.used..])) else Behind(out, at, r)
  }

  lemma OneChild(s: seq<byte>, at: nat, out: seq<byte>)
    requires !AtEndOfContents(s)
    ensures Behind(out, at, Children(s)) == AfterOne(out, at, s)
  {
    ChildrenStep(s);
    hide Reencode, Children, Behind;
    if Reencode(s).Ok? { BehindBehind(out, Reencode(s).out, at, Reencode(s).used, Children(s[Reencode(s).used..])); }
  }

  lemma BehindBehind(a: seq<byte>, b: seq<byte>, m: nat, n: nat, r: Reencoded)
    ensures Behind(a, m, Behind(b, n, r)) == Behind(a + b, m + n, r)
  {
    assert a + (b + r.out) == a + b + r.out;
  }

  /** What was read has gone from the input, and what is put out has come behind the output. */
  predicate Moved(r: Reencoded, input: seq<byte>, left: seq<byte>, output: seq<byte>, longer: seq<byte>) {
    r.used <= |input| && left == input[r.used..] && longer == output + r.out
  }

  /** DERReencode: takes one element off the source and puts its DER behind the destination. When it fails, the
      destructors have put out what was re-encoded so far, as if it were whole. */
  method DERReencode(source: Buffered, dest: Buffered) returns (ok: bool, ghost r: Reencoded)
    requires source.Linked() && dest.inner == null && dest !in source.chain
    modifies source.chain, dest
    ensures r == Reencode(old(source.Available())) && ok == r.Ok?
    ensures Moved(r, old(source.Available()), source.Available(), old(dest.bytes), dest.bytes)
    decreases |source.Available()|, 1
  {
    ghost var s := source.Available();
    r := Reencode(s);
    var tag := source.PeekBytes(1);
    assert dest.bytes + [] == dest.bytes;
    if tag == [] { return false, r; }
    ReencodeOpened(s);
    hide *;
    var decoder, used := OpenDecoder(source, tag[0]);
    if decoder == null { return false, r; }
    ghost var inside, content;
    ok, inside, content := ReencodeOpen(decoder, dest, tag[0], s[used..]);
    MovedWhole(tag[0], used, inside, s, source.Available(), content, old(dest.bytes), dest.bytes);
  }

  /** The same from the opened decoder on, with an encoder of its own. */
  method ReencodeOpen(decoder: Buffered, dest: Buffered, tag: byte, ghost s: seq<byte>)
      returns (ok: bool, ghost inside: Reencoded, ghost content: seq<byte>)
    requires decoder.Linked() && decoder.inner != null && decoder.inner.Available() == s
    requires dest.inner == null && dest !in decoder.chain
    modifies decoder.chain, dest
    ensures inside == Inside(decoder.definite, old(decoder.length), s) && ok == inside.Ok?
    ensures Moved(inside, s, decoder.inner.Available(), [], content)
    ensures dest.bytes == old(dest.bytes) + DerElement(tag, content)
    decreases |s|, 5
  {
    hide Inside, DerElement, Moved, Buffered.Available;
    var encoder := new Buffered.Queue([]);
    ok, inside := ReencodeInside(decoder, encoder, s);
    content := encoder.bytes;
    assert dest.bytes == old(dest.bytes);
    EncoderMessageEnd(encoder, dest, tag);
  }

  lemma MovedWhole(tag: byte, used: nat, inside: Reencoded, s: seq<byte>, left: seq<byte>, content: seq<byte>,
                   output: seq<byte>, longer: seq<byte>)
    requires used <= |s| && Moved(inside, s[used..], left, [], content)
    requires longer == output + DerElement(tag, content)
    ensures Moved(Wrap(tag, used, inside), s, left, output, longer) && Wrap(tag, used, inside).Ok? == inside.Ok?
  {
    hide DerElement;
    assert [] + inside.out == inside.out;
    DropDrop(s, used, inside.used);
  }

  method ReencodeInside(decoder: Buffered, encoder: Buffered, ghost s: seq<byte>) returns (ok: bool, ghost r: Reencoded)
    requires decoder.Linked() && decoder.inner != null && decoder.inner.Available() == s
    requires encoder.inner == null && encoder.bytes == [] && encoder !in decoder.chain
    modifies decoder.chain, encoder
    ensures r == Inside(decoder.definite, old(decoder.length), s) && ok == r.Ok?
    ensures Moved(r, s, decoder.inner.Available(), [], encoder.bytes)
    decreases |s|, 4
  {
    r := Inside(decoder.definite, decoder.length, s);
    hide Children;
    if decoder.definite {
      ok := CopyContents(decoder, encoder, s);
    } else {
      ok, r := ReencodeContents(decoder, encoder, s);
      ghost var contents := r;
      if !ok { var _ := MessageEnd(decoder); }
      r := Closed(contents, |s|);
      MovedOn(contents, s);
    }
  }

  /** What the destructor of a decoder takes off behind an error. */
  lemma MovedOn(r: Reencoded, s: seq<byte>)
    requires r.used <= |s|
    ensures !r.Ok? ==> s[r.used..][Min(2, |s| - r.used)..] == s[Closed(r, |s|).used..]
  {}

  /** The contents of definite length, as they are. */
  method CopyContents(decoder: Buffered, encoder: Buffered, ghost s: seq<byte>) returns (ok: bool)
    requires decoder.Linked() && decoder.inner != null && decoder.definite && decoder.inner.Available() == s
    requires encoder.inner == null && encoder.bytes == [] && encoder !in decoder.chain
    modifies decoder.chain, encoder
    ensures ok == (old(decoder.length) <= |s|)
    ensures var n := Min(old(decoder.length), |s|); encoder.bytes == s[..n] && decoder.inner.Available() == s[n..]
  {
    decoder.ChainLinked();
    var got := decoder.Transfer(decoder.length);
    assert decoder.inner.HasGiven(|got|);
    encoder.Put(got);
    ok := MessageEnd(decoder);
  }

  /** Inside an indefinite length, with at bytes of s re-encoded into the encoder's. */
  ghost predicate Between(decoder: Buffered, encoder: Buffered, s: seq<byte>, at: nat, r: Reencoded)
    requires decoder.Linked()
    reads decoder.chain, encoder
  {
    && decoder.inner != null && !decoder.definite && at <= |s| && decoder.inner.Available() == s[at..]
    && encoder.inner == null && encoder !in decoder.chain
    && Behind(encoder.bytes, at, Children(s[at..])) == r
  }

  /** The elements inside an indefinite length, one after the other. */
  method ReencodeContents(decoder: Buffered, encoder: Buffered, ghost s: seq<byte>)
      returns (ok: bool, ghost r: Reencoded)
    requires decoder.Linked() && decoder.inner != null && !decoder.definite && decoder.inner.Available() == s
    requires encoder.inner == null && encoder.bytes == [] && encoder !in decoder.chain
    modifies decoder.chain, encoder
    ensures r == Children(s) && ok == r.Ok?
    ensures Moved(r, s, decoder.inner.Available(), [], encoder.bytes)
    decreases |s|, 3
  {
    r := Children(s);
    ghost var at: nat := 0;
    BehindNothing(r);
    assert s[0..] == s;
    assert Between(decoder, encoder, s, 0, r);
    hide *;
    var end := AtEnd(decoder, encoder, s, 0, r);
    while !end
      invariant at <= |s| && Between(decoder, encoder, s, at, r) && end == AtEndOfContents(s[at..])
      decreases |s| - at
    {
      ok, at := ReencodeNext(decoder, encoder, s, at, r);
      if !ok { return; }
      end := AtEnd(decoder, encoder, s, at, r);
    }
    ok := EndContents(decoder, encoder, s, at, r);
  }

  method AtEnd(decoder: Buffered, ghost encoder: Buffered, ghost s: seq<byte>, ghost at: nat, ghost r: Reencoded)
      returns (end: bool)
    requires decoder.Linked() && Between(decoder, encoder, s, at, r)
    ensures at <= |s| && end == AtEndOfContents(s[at..])
  {
    hide AtEndOfContents, Children, Behind, Buffered.Linked, Buffered.Available;
    end := EndReached(decoder);
  }

  /** The end-of-contents octets behind them. */
  method EndContents(decoder: Buffered, encoder: Buffered, ghost s: seq<byte>, ghost at: nat, ghost r: Reencoded)
      returns (ok: bool)
    requires decoder.Linked() && Between(decoder, encoder, s, at, r) && AtEndOfContents(s[at..])
    modifies decoder.inner.chain
    ensures ok && r.Ok? && Moved(r, s, decoder.inner.Available(), [], encoder.bytes)
  {
    AtTheEnd(s[at..], at, encoder.bytes);
    hide AtEndOfContents, Behind, Children;
    ok := MessageEnd(decoder);
    DropDrop(s, at, 2);
    assert [] + encoder.bytes == encoder.bytes;
  }

  /** One element of them. */
  method ReencodeNext(decoder: Buffered, encoder: Buffered, ghost s: seq<byte>, ghost at: nat, ghost r: Reencoded)
      returns (ok: bool, ghost next: nat)
    requires decoder.Linked() && Between(decoder, encoder, s, at, r) && !AtEndOfContents(s[at..])
    modifies decoder.chain, encoder
    ensures ok ==> at < next <= |s| && Between(decoder, encoder, s, next, r)
    ensures !ok ==> !r.Ok? && Moved(r, s, decoder.inner.Available(), [], encoder.bytes)
    decreases |s| - at, 2
  {
    hide *;
    BetweenMeans(decoder, encoder, s, at, r);
    ghost var rest, out := s[at..], encoder.bytes;
    ghost var first := Reencode(rest);
    next := at + first.used;
    ok, first := DERReencode(decoder, encoder);
    OneMoved(first, s, at, decoder.Available(), out, encoder.bytes, r);
    if ok { BetweenAgain(decoder, encoder, s, next, r); } else { InnerLeft(decoder); }
  }

  lemma BetweenMeans(decoder: Buffered, encoder: Buffered, s: seq<byte>, at: nat, r: Reencoded)
    requires decoder.Linked() && Between(decoder, encoder, s, at, r)
    ensures decoder.inner != null && !decoder.definite && at <= |s| && decoder.Available() == s[at..]
    ensures encoder.inner == null && encoder !in decoder.chain && Behind(encoder.bytes, at, Children(s[at..])) == r
    ensures decoder.inner.Linked()
  {
    hide Behind, Children;
  }

  lemma InnerLeft(decoder: Buffered)
    requires decoder.Linked() && decoder.inner != null && !decoder.definite
    ensures decoder.inner.Linked() && decoder.inner.Available() == decoder.Available()
  {}

  lemma BetweenAgain(decoder: Buffered, encoder: Buffered, s: seq<byte>, at: nat, r: Reencoded)
    requires decoder.Linked() && decoder.inner != null && !decoder.definite && at <= |s|
    requires decoder.Available() == s[at..] && encoder.inner == null && encoder !in decoder.chain
    requires Behind(encoder.bytes, at, Children(s[at..])) == r
    ensures Between(decoder, encoder, s, at, r)
  {
    hide Behind, Children;
  }

  lemma OneMoved(first: Reencoded, s: seq<byte>, at: nat, left: seq<byte>, out: seq<byte>, longer: seq<byte>,
                 r: Reencoded)
    requires at <= |s| && first == Reencode(s[at..]) && !AtEndOfContents(s[at..])
    requires Moved(first, s[at..], left, out, longer) && Behind(out, at, Children(s[at..])) == r
    ensures at + first.used <= |s| && left == s[at + first.used..]
    ensures first.Ok? ==> first.used > 0
    ensures if first.Ok? then Behind(longer, at + first.used, Children(left)) == r
            else !r.Ok? && Moved(r, s, left, [], longer)
  {
    OneChild(s[at..], at, out);
    DropDrop(s, at, first.used);
    assert [] + longer == longer;
    hide Reencode, Children, AtEndOfContents;
  }

  lemma BehindNothing(r: Reencoded)
    ensures Behind([], 0, r) == r
  {}

  lemma AtTheEnd(rest: seq<byte>, at: nat, out: seq<byte>)
    requires AtEndOfContents(rest)
    ensures Behind(out, at, Children(rest)) == Ok(out, at + 2) && |rest| >= 2
  {}
}
