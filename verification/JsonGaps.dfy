/** White space and comments between the parts of a text. */
module JsonGaps {
  import opened Utf8
  import opened Numbers
  import opened JsonGrammar
  import opened JsonTexts

  predicate IsBlank(c: byte) { c == 0x20 || c == 0x09 || c == 0x0A || c == 0x0D }

  /** Begins with something that is neither white space nor a comment. */
  predicate Solid(s: seq<byte>) { s == [] || (!IsBlank(s[0]) && s[0] != 0x2F) }

  lemma StaysPut(s: seq<byte>)
    requires Solid(s)
    ensures SkipSpace(s) == s
  {}

  lemma {:induction false} LineEnds(a: byte, text: seq<byte>, end: byte, rest: seq<byte>)
    requires IsFiller(Line(text, end))
    ensures LineComment([a] + (text + ([end] + rest))) == (true, [end] + rest)
    decreases |text|
  {
    var s := [a] + (text + ([end] + rest));
    if text == [] {
      assert s[1..] == [end] + rest;
    } else {
      assert s[1..] == [text[0]] + (text[1..] + ([end] + rest));
      assert text[0] in text && forall b <- text[1..] :: b in text;
      LineEnds(text[0], text[1..], end, rest);
    }
  }

  lemma BlockGoesOn(a: byte, t: seq<byte>, previous: byte)
    requires t != [] && (previous != 0x2A || t[0] != 0x2F)
    ensures BlockComment([a] + t, previous) == BlockComment(t, t[0])
  {
    assert ([a] + t)[1..] == t;
  }

  lemma BlockIsOver(rest: seq<byte>)
    ensures BlockComment([0x2A, 0x2F] + rest, 0x2A) == (true, rest)
  {
    var s := [0x2A, 0x2F] + rest;
    assert s[1..][0] == 0x2F && s[2..] == rest;
  }

  /** From the star on, or from any byte of the text. */
  lemma {:induction false} BlockEnds(a: byte, text: seq<byte>, rest: seq<byte>, first: bool)
    requires IsFiller(Block(text))
    requires !first ==> a != 0x2A || (text + [0x2A])[0] != 0x2F
    ensures BlockComment([a] + (text + ([0x2A, 0x2F] + rest)), if first then 0 else a) == (true, rest)
    decreases |text|
  {
    var end := [0x2A, 0x2F] + rest;
    hide *;
    assert (text + end)[0] == (text + [0x2A])[0];
    BlockGoesOn(a, text + end, if first then 0 else a);
    if text == [] {
      assert text + end == end;
      BlockIsOver(rest);
    } else {
      assert text + end == [text[0]] + (text[1..] + end);
      BlockTail(text);
      BlockEnds(text[0], text[1..], rest, false);
    }
  }

  lemma BlockTail(text: seq<byte>)
    requires IsFiller(Block(text)) && text != []
    ensures IsFiller(Block(text[1..])) && (text[0] == 0x2A ==> (text[1..] + [0x2A])[0] != 0x2F)
  {
    assert (text + [0x2A])[1..] == text[1..] + [0x2A];
    forall i | 0 <= i < |text[1..]| && text[1..][i] == 0x2A ensures (text[1..] + [0x2A])[i + 1] != 0x2F {
      assert text[i + 1] == 0x2A;
      assert (text + [0x2A])[i + 2] == (text[1..] + [0x2A])[i + 1];
    }
  }

  lemma SkipFiller(f: Filler, rest: seq<byte>)
    requires IsFiller(f)
    ensures SkipSpace(FillerOnto(f, rest)) == SkipSpace(rest)
  {
    var s := FillerOnto(f, rest);
    match f
    case Blank(_) => assert s[1..] == rest;
    case Line(text, end) =>
      assert s[1..] == [0x2F] + (text + ([end] + rest));
      LineEnds(0x2F, text, end, rest);
      assert ([end] + rest)[1..] == rest;
    case Block(text) =>
      assert s[1..] == [0x2A] + (text + ([0x2A, 0x2F] + rest));
      BlockEnds(0x2A, text, rest, true);
  }

  lemma {:induction false} SkipGap(gap: Gap, rest: seq<byte>)
    requires IsGap(gap)
    ensures SkipSpace(GapOnto(gap, rest)) == SkipSpace(rest)
  {
    if gap != [] {
      SkipFiller(gap[0], GapOnto(gap[1..], rest));
      hide SkipSpace, FillerOnto;
      SkipGap(gap[1..], rest);
    }
  }

  lemma GapThen(gap: Gap, rest: seq<byte>)
    requires IsGap(gap) && Solid(rest)
    ensures SkipSpace(GapOnto(gap, rest)) == rest
  {
    hide SkipSpace, GapOnto, Solid;
    SkipGap(gap, rest);
    StaysPut(rest);
  }

  /** A slash that starts no comment is stepped over, and nothing behind it is skipped. */
  lemma LoneSlash(s: seq<byte>)
    requires s == [] || (s[0] != 0x2F && s[0] != 0x2A)
    ensures SkipSpace([0x2F] + s) == s
  {
    assert ([0x2F] + s)[1..] == s;
  }

  /** A comment that does not end takes all the rest. */
  lemma {:induction false} OpenLineComment(a: byte, text: seq<byte>)
    requires forall b <- text :: b != 0x0A && b != 0x0D
    ensures LineComment([a] + text) == (false, [])
    decreases |text|
  {
    assert ([a] + text)[1..] == text;
    if text != [] {
      assert text[0] in text && forall b <- text[1..] :: b in text;
      assert text == [text[0]] + text[1..];
      OpenLineComment(text[0], text[1..]);
    }
  }

  lemma OpenCommentIsSkipped(text: seq<byte>)
    requires forall b <- text :: b != 0x0A && b != 0x0D
    ensures SkipSpace([0x2F, 0x2F] + text) == []
  {
    var s := [0x2F, 0x2F] + text;
    assert s[1..] == [0x2F] + text;
    OpenLineComment(0x2F, text);
    hide LineComment;
  }

  /** May follow a number: not part of a numeral, and then a token that ends a value. */
  predicate MayFollow(s: seq<byte>) {
    && (s == [] || (!IsDigit(s[0], 10) && s[0] !in {0x2E, 0x65, 0x45}))
    && TokenAt(SkipSpace(s)) in {ObjectEnd, ArrayEnd, Comma, EndOfInput}
  }

  lemma GapFollows(gap: Gap, rest: seq<byte>)
    requires IsGap(gap) && (rest == [] || rest[0] in {0x2C, 0x5D, 0x7D})
    ensures MayFollow(GapOnto(gap, rest))
  {
    GapThen(gap, rest);
    hide SkipSpace;
  }
}
