/** The text of a string as it is written. */
module JsonEscapes {
  import opened Utf8
  import opened JsonWriting
  import opened JsonTexts
  import opened Chunks

  /** The text of a string, character by character. */
  function PiecesOf(s: seq<byte>): (pieces: seq<Piece>) {
    if s == [] then [] else [Piece(EscapeCodePoint(Repaired(s)), Repaired(s))] + PiecesOf(s[Next(s).size..])
  }

  lemma EscapeIsPiece(c: nat)
    requires IsScalar(c)
    ensures Piece(EscapeCodePoint(c), c).Valid()
  {
    var p := Piece(EscapeCodePoint(c), c);
    if EscapeSpecial(c) == [] && c < 32 {
      U16IsPiece(c);
    } else if EscapeSpecial(c) == [] {
      hide Encode;
      assert p.IsPlain();
    } else if EscapeSpecial(c)[1] == 0x75 {
      SpecialIsUnicode(c);
    } else {
      hide Encode;
      assert p.IsShort();
    }
  }

  lemma U16IsPiece(c: nat)
    requires c < 0x10000 && IsScalar(c)
    ensures Piece(U16Escape(c), c).IsUnicode()
  {
    var t := U16Escape(c);
    assert t[..2] == [0x5C, 0x75] && t[2..] == [t[2], t[3], t[4], t[5]];
    HexIsSpelled(c / 4096);
    HexIsSpelled(c / 256 % 16);
    HexIsSpelled(c / 16 % 16);
    HexIsSpelled(c % 16);
    hide HexDigit, SpellsHex;
  }

  lemma HexIsSpelled(d: nat)
    requires d < 16
    ensures SpellsHex(HexDigit(d), d)
  {}

  lemma SpecialIsUnicode(c: nat)
    requires c == 0x3C || c == 0x2028 || c == 0x2029
    ensures Piece(EscapeSpecial(c), c).IsUnicode()
  {}

  lemma {:induction false} PiecesAreValid(s: seq<byte>)
    ensures ArePieces(PiecesOf(s))
    decreases |s|
  {
    if s != [] {
      EscapeIsPiece(Repaired(s));
      hide EscapeCodePoint, Repaired, Next, Piece.Valid;
      PiecesAreValid(s[Next(s).size..]);
    }
  }

  lemma {:induction false} EscapeIsPieces(s: seq<byte>, rest: seq<byte>)
    ensures EscapeText(s) + rest == PiecesOnto(PiecesOf(s), rest)
    decreases |s|
  {
    if s == [] {
      assert [] + rest == rest;
    } else {
      var e, more := EscapeCodePoint(Repaired(s)), s[Next(s).size..];
      hide EscapeCodePoint, Repaired, Next;
      EscapeIsPieces(more, rest);
      Regroup(e, EscapeText(more), rest);
    }
  }

  /** What the digits of a \uXXXX may be: `<`, the separators, or a control character without a letter of its own. */
  predicate IsWrittenCode(h: seq<byte>)
    requires |h| == 4
  {
    || h == [0x30, 0x30, 0x33, 0x43] || h == [0x32, 0x30, 0x32, 0x38] || h == [0x32, 0x30, 0x32, 0x39]
    || (h[0] == 0x30 && h[1] == 0x30 && h[2] == 0x30 && (0x30 <= h[3] <= 0x37 || h[3] == 0x42 || 0x45 <= h[3] <= 0x46))
    || (h[0] == 0x30 && h[1] == 0x30 && h[2] == 0x31 && (0x30 <= h[3] <= 0x39 || 0x41 <= h[3] <= 0x46))
  }

  /** Nothing a string must not hold, no `<`, and every backslash starts one of the writer's escapes. */
  predicate IsEscaped(t: seq<byte>) {
    || t == []
    || (t[0] >= 0x20 && t[0] != 0x22 && t[0] != 0x5C && t[0] != 0x3C && IsEscaped(t[1..]))
    || (|t| >= 2 && t[0] == 0x5C && t[1] in {0x22, 0x5C, 0x62, 0x66, 0x6E, 0x72, 0x74} && IsEscaped(t[2..]))
    || (|t| >= 6 && t[0] == 0x5C && t[1] == 0x75 && IsWrittenCode(t[2..6]) && IsEscaped(t[6..]))
  }

  /** U+2028 or U+2029 in UTF-8 at i. */
  predicate SeparatorAt(t: seq<byte>, i: nat) {
    i + 2 < |t| && t[i] == 0xE2 && t[i + 1] == 0x80 && (t[i + 2] == 0xA8 || t[i + 2] == 0xA9)
  }

  lemma {:induction false} HighBytesEscaped(h: seq<byte>, t: seq<byte>)
    requires (forall b <- h :: b >= 0x80) && IsEscaped(t)
    ensures IsEscaped(h + t)
  {
    if h == [] {
      assert h + t == t;
    } else {
      assert h[0] in h && forall b <- h[1..] :: b in h;
      HighBytesEscaped(h[1..], t);
      assert (h + t)[1..] == h[1..] + t;
    }
  }

  /** The escape of a control character. */
  lemma ControlCode(c: nat)
    requires c < 32 && EscapeSpecial(c) == []
    ensures U16Escape(c) == [0x5C, 0x75] + U16Escape(c)[2..6] && IsWrittenCode(U16Escape(c)[2..6])
  {
    var e := U16Escape(c);
    assert e[2..6] == [e[2], e[3], e[4], e[5]];
  }

  lemma OneEscaped(c: nat, t: seq<byte>)
    requires IsScalar(c) && IsEscaped(t)
    ensures IsEscaped(EscapeCodePoint(c) + t)
  {
    var e := EscapeCodePoint(c);
    if c >= 0x80 && EscapeSpecial(c) == [] {
      hide EscapeSpecial;
      assert forall b <- e :: b >= 0x80;
      HighBytesEscaped(e, t);
    } else if |e| == 1 {
      assert (e + t)[1..] == t;
      hide IsWrittenCode;
    } else if |e| == 2 {
      assert (e + t)[2..] == t;
      hide IsWrittenCode;
    } else {
      SixEscaped(c);
      assert (e + t)[6..] == t && (e + t)[2..6] == e[2..6];
      hide IsWrittenCode, EscapeCodePoint;
    }
  }

  lemma SixEscaped(c: nat)
    requires IsScalar(c) && (EscapeSpecial(c) == [] ==> c < 32) && |EscapeCodePoint(c)| > 2
    ensures var e := EscapeCodePoint(c); |e| == 6 && e[0] == 0x5C && e[1] == 0x75 && IsWrittenCode(e[2..6])
  {
    if EscapeSpecial(c) == [] {
      ControlCode(c);
    } else {
      var e := EscapeSpecial(c);
      assert e[2..6] == [e[2], e[3], e[4], e[5]];
    }
  }

  /** However its bytes are, a string is written with nothing in it that is left unescaped. */
  lemma {:induction false} WrittenIsEscaped(s: seq<byte>)
    ensures IsEscaped(EscapeText(s))
    decreases |s|
  {
    if s != [] {
      WrittenIsEscaped(s[Next(s).size..]);
      OneEscaped(Repaired(s), EscapeText(s[Next(s).size..]));
      hide IsEscaped, EscapeCodePoint, Repaired, Next;
    }
  }

  lemma {:induction false} EscapedBytes(t: seq<byte>)
    requires IsEscaped(t)
    ensures forall b <- t :: b >= 0x20 && b != 0x3C
    decreases |t|
  {
    if t != [] {
      var n := if t[0] != 0x5C then 1 else if t[1] == 0x75 then 6 else 2;
      EscapedBytes(t[n..]);
      assert t == t[..n] + t[n..];
      FrontBytes(t, n);
      hide IsEscaped, IsWrittenCode;
    }
  }

  lemma FrontBytes(t: seq<byte>, n: nat)
    requires t != [] && IsEscaped(t) && n == (if t[0] != 0x5C then 1 else if t[1] == 0x75 then 6 else 2) && n <= |t|
    ensures forall b <- t[..n] :: b >= 0x20 && b != 0x3C
  {
    if n == 6 {
      assert t[2..6] == [t[2], t[3], t[4], t[5]];
      assert t[..6] == [t[0], t[1], t[2], t[3], t[4], t[5]];
    } else if n == 2 {
      assert t[..2] == [t[0], t[1]];
    } else {
      assert t[..1] == [t[0]];
    }
  }

  /** The text of a string holds no `<` and no control character. */
  lemma NoBareSpecials(s: seq<byte>)
    ensures forall b <- EscapeText(s) :: b >= 0x20 && b != 0x3C
  {
    WrittenIsEscaped(s);
    EscapedBytes(EscapeText(s));
  }

  /** Neither of the two separators begins inside the escape of a character. */
  lemma NoSeparatorIn(c: nat, t: seq<byte>, i: nat)
    requires IsScalar(c) && i < |EscapeCodePoint(c)|
    ensures !SeparatorAt(EscapeCodePoint(c) + t, i)
  {
    var e := EscapeCodePoint(c);
    assert (e + t)[i] == e[i];
    if EscapeSpecial(c) == [] && c >= 0x80 && e[i] == 0xE2 {
      LeadIsFirst(c, i);
      assert i == 0 && |e| == 3 && (e + t)[1] == e[1] && (e + t)[2] == e[2];
    } else if EscapeSpecial(c) == [] && c < 32 {
      assert U16Escape(c)[i] < 0x80;
    }
  }

  lemma LeadIsFirst(c: nat, i: nat)
    requires 0x80 <= c <= 0x10FFFF && i < |Encode(c)| && Encode(c)[i] == 0xE2
    ensures i == 0 && |Encode(c)| == 3 && c / 4096 == 2
    ensures Encode(c) == [0xE2, c / 64 % 64 + 0x80, c % 64 + 0x80]
  {}

  /** The text of a string holds neither separator. */
  lemma {:induction false} NoSeparators(s: seq<byte>, i: nat)
    ensures !SeparatorAt(EscapeText(s), i)
    decreases |s|
  {
    hide EscapeText, EscapeCodePoint, Repaired, Next, SeparatorAt;
    if s == [] {
      NothingEscaped();
      ShortHasNone(i);
    } else {
      var e, rest := EscapeCodePoint(Repaired(s)), s[Next(s).size..];
      EscapeUnfolds(s);
      if i < |e| {
        NoSeparatorIn(Repaired(s), EscapeText(rest), i);
      } else {
        NoSeparators(rest, i - |e|);
        SeparatorBehind(e, EscapeText(rest), i);
      }
    }
  }

  lemma NothingEscaped()
    ensures EscapeText([]) == []
  {}

  lemma ShortHasNone(i: nat)
    ensures !SeparatorAt([], i)
  {}

  lemma EscapeUnfolds(s: seq<byte>)
    requires s != []
    ensures EscapeText(s) == EscapeCodePoint(Repaired(s)) + EscapeText(s[Next(s).size..])
  {
    hide EscapeCodePoint, Repaired, Next;
  }

  lemma SeparatorBehind(e: seq<byte>, t: seq<byte>, i: nat)
    requires |e| <= i
    ensures SeparatorAt(e + t, i) == SeparatorAt(t, i - |e|)
  {}

  /** Any other character stands there as it is. */
  lemma OthersStandAsTheyAre(c: nat, rest: seq<byte>)
    requires IsScalar(c) && c >= 0x20 && c !in {0x22, 0x3C, 0x5C, 0x2028, 0x2029}
    ensures EscapeText(Encode(c) + rest) == Encode(c) + EscapeText(rest)
  {
    NextOfEncode(c, rest);
    assert (Encode(c) + rest)[|Encode(c)|..] == rest;
    hide Encode, Next;
  }

  /** Bytes that are no UTF-8 are written as U+FFFD. */
  lemma IllFormedIsReplaced(s: seq<byte>)
    requires s != [] && Next(s).codePoint < 0
    ensures EscapeText(s) == [0xEF, 0xBF, 0xBD] + EscapeText(s[Next(s).size..])
  {
    hide *;
    EscapeUnfolds(s);
    RepairedIs(s);
    ReplacementText();
  }

  lemma RepairedIs(s: seq<byte>)
    requires s != [] && Next(s).codePoint < 0
    ensures Repaired(s) == 0xFFFD
  {
    hide Next;
  }

  lemma ReplacementText()
    ensures EscapeCodePoint(0xFFFD) == [0xEF, 0xBF, 0xBD]
  {}
}
