/** BufferedTransformation as the ASN.1 code uses it: a queue of bytes, or a BERGeneralDecoder that reads through
    another one and, when its length is definite, takes no more than that. */
module BufferedBytes {
  import Utf8

  type byte = Utf8.byte

  function Min(a: nat, b: nat): nat { if a <= b then a else b }

  /** At most n elements. */
  function Front<T>(s: seq<T>, n: nat): (t: seq<T>)
    ensures |t| == Min(n, |s|)
  {
    s[..Min(n, |s|)]
  }

  lemma FrontDrop<T>(s: seq<T>, length: nat, n: nat)
    requires n <= length && n <= |s|
    ensures Front(s, length)[n..] == Front(s[n..], length - n)
  {}

  lemma FrontFront<T>(s: seq<T>, length: nat, n: nat)
    ensures Front(Front(s, length), n) == Front(s, if n > length then length else n)
  {}

  class Buffered {
    /** What a decoder reads through; null for a queue. */
    const inner: Buffered?
    /** The bytes of a queue. */
    var bytes: seq<byte>
    /** Whether a decoder knows its length, and how much of it is left to read. */
    const definite: bool
    var length: nat
    /** This and all it reads through. */
    ghost const chain: set<Buffered>
    ghost const depth: nat

    constructor Queue(bytes: seq<byte>)
      ensures Linked() && inner == null && this.bytes == bytes && chain == {this} && Available() == bytes
    {
      inner, this.bytes, definite, length, chain, depth := null, bytes, false, 0, {this}, 0;
    }

    constructor Through(inner: Buffered, definite: bool, length: nat)
      requires inner.Linked()
      ensures Linked() && this.inner == inner && this.definite == definite && this.length == length
      ensures chain == {this} + inner.chain
    {
      this.inner, bytes, this.definite, this.length := inner, [], definite, length;
      chain, depth := {this} + inner.chain, inner.depth + 1;
      new;
      inner.ChainLinked();
    }

    ghost predicate Linked()
      decreases depth
    {
      && this in chain
      && if inner == null then chain == {this}
         else inner.depth < depth && inner.Linked() && chain == {this} + inner.chain && this !in inner.chain
    }

    lemma ChainLinked()
      requires Linked()
      ensures forall s: Buffered :: s in chain ==> s.Linked() && s.chain <= chain
      decreases depth
    {
      if inner != null { inner.ChainLinked(); }
    }

    /** The bytes that can be read here. */
    ghost function Available(): seq<byte>
      requires Linked()
      reads chain
      decreases depth
    {
      if inner == null then bytes
      else if definite then Front(inner.Available(), length)
      else inner.Available()
    }

    /** The first n bytes have gone, and no others. */
    twostate predicate HasGiven(n: nat)
      requires Linked()
      reads chain
    {
      n <= |old(Available())| && Available() == old(Available())[n..]
    }

    /** TransferTo2: reads at most n bytes, and takes them off here and everywhere below. */
    method Transfer(n: nat) returns (got: seq<byte>)
      requires Linked()
      modifies chain
      ensures got == Front(old(Available()), n) && Available() == old(Available())[|got|..]
      ensures forall s: Buffered :: s in chain ==> s.Linked() && s.HasGiven(|got|)
      ensures inner != null && definite ==> length == old(length) - |got|
      decreases depth, 1
    {
      if inner == null {
        got := Front(bytes, n);
        bytes := bytes[|got|..];
      } else {
        got := TransferBelow(n);
      }
    }

    method TransferBelow(n: nat) returns (got: seq<byte>)
      requires Linked() && inner != null
      modifies chain
      ensures got == Front(old(Available()), n) && Available() == old(Available())[|got|..]
      ensures forall s: Buffered :: s in chain ==> s.Linked() && s.HasGiven(|got|)
      ensures definite ==> length == old(length) - |got|
      decreases depth, 0
    {
      inner.ChainLinked();
      hide Front;
      ghost var below, here := inner.Available(), Available();
      assert here == if definite then Front(below, length) else below;
      FrontFront(below, length, n);
      got := inner.Transfer(if definite && n > length then length else n);
      assert got == Front(here, n);
      if definite {
        FrontDrop(below, length, |got|);
        Shorten(|got|);
      }
      assert Available() == here[|got|..];
      assert Linked() && this !in inner.chain && chain == {this} + inner.chain;
    }

    /** m_length -= delta, which nothing below sees. */
    method Shorten(delta: nat)
      requires Linked() && inner != null && delta <= length
      modifies this`length
      ensures length == old(length) - delta
      ensures forall s: Buffered :: s in inner.chain ==> s.Linked() && s.Available() == old(s.Available())
    {
      inner.ChainLinked();
      length := length - delta;
    }

    method Get() returns (ok: bool, b: byte)
      requires Linked()
      modifies chain
      ensures ok == (old(Available()) != [])
      ensures Available() == if ok then old(Available())[1..] else []
      ensures ok ==> b == old(Available())[0]
    {
      var got := Transfer(1);
      ok, b := |got| == 1, if |got| == 1 then got[0] else 0;
    }

    /** CopyRangeTo2 from the start: reads at most n bytes and leaves them. */
    method PeekBytes(n: nat) returns (got: seq<byte>)
      requires Linked()
      ensures got == Front(Available(), n)
      decreases depth
    {
      ChainLinked();
      if inner == null {
        got := Front(bytes, n);
      } else {
        got := inner.PeekBytes(if definite && n > length then length else n);
      }
    }

    method Put(data: seq<byte>)
      requires inner == null
      modifies this
      ensures bytes == old(bytes) + data
    {
      bytes := bytes + data;
    }
  }
}
