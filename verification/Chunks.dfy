/** Data that comes in chunks: joining them, one chunk more, and cutting data into
    chunks. */
module Chunks {
  function Join<T>(chunks: seq<seq<T>>): seq<T> { if chunks == [] then [] else chunks[0] + Join(chunks[1..]) }

  lemma Regroup<T>(a: seq<T>, b: seq<T>, c: seq<T>)
    ensures a + b + c == a + (b + c)
  {}

  lemma {:induction false} JoinMore<T>(chunks: seq<seq<T>>, c: seq<T>)
    ensures Join(chunks + [c]) == Join(chunks) + c
  {
    if chunks != [] {
      JoinMore(chunks[1..], c);
      assert (chunks + [c])[1..] == chunks[1..] + [c];
    }
  }

  lemma JoinNext<T>(chunks: seq<seq<T>>, k: nat)
    requires k < |chunks|
    ensures Join(chunks[..k + 1]) == Join(chunks[..k]) + chunks[k]
    ensures k + 1 == |chunks| ==> Join(chunks) == Join(chunks[..k]) + chunks[k]
  {
    hide Join;
    JoinMore(chunks[..k], chunks[k]);
    assert chunks[..k + 1] == chunks[..k] + [chunks[k]];
    if k + 1 == |chunks| { assert chunks[..k + 1] == chunks; }
  }

  /** Data cut into pieces of the given lengths, and what is left: every way to cut it. */
  function Cut<T>(data: seq<T>, lengths: seq<nat>): (chunks: seq<seq<T>>)
    ensures chunks != [] && Join(chunks) == data
  {
    if lengths == [] then [data] else
      var n := if lengths[0] <= |data| then lengths[0] else |data|;
      [data[..n]] + Cut(data[n..], lengths[1..])
  }
}
