/** Strings, written and read back. */
module JsonStrings {
  import opened Utf8
  import opened JsonGrammar
  import opened JsonWriting
  import opened JsonTexts
  import opened JsonReading
  import opened JsonEscapes
  import opened Chunks

  /** UTF-8 made of valid characters other than U+0000. */
  predicate WellFormed(s: seq<byte>) {
    s == [] || (IsValidCharacter(Next(s).codePoint) && Next(s).codePoint != 0 && WellFormed(s[Next(s).size..]))
  }

  /** No noncharacter is left once ill-formed sequences are replaced. */
  predicate Readable(s: seq<byte>) { s == [] || (IsValidCharacter(Repaired(s)) && Readable(s[Next(s).size..])) }

  /** The text with ill-formed sequences replaced and U+0000 dropped. */
  function Normal(s: seq<byte>): seq<byte> {
    if s == [] then [] else CString(Repaired(s)) + Normal(s[Next(s).size..])
  }

  /** Normal text is well formed, whatever it was made from. */
  lemma {:induction false} NormalIsWellFormed(s: seq<byte>)
    requires Readable(s)
    ensures WellFormed(Normal(s))
    decreases |s|
  {
    if s != [] {
      var c, rest := Repaired(s), Normal(s[Next(s).size..]);
      NormalIsWellFormed(s[Next(s).size..]);
      if c == 0 {
        assert Normal(s) == rest;
      } else {
        NextOfEncode(c, rest);
        assert Normal(s)[|Encode(c)|..] == rest;
      }
    }
  }

  lemma KeepsCharacter(s: seq<byte>)
    requires s != [] && IsValidCharacter(Next(s).codePoint) && Next(s).codePoint != 0
    ensures Repaired(s) == Next(s).codePoint && s == CString(Repaired(s)) + s[Next(s).size..]
  {
    NextIsEncoded(s);
    hide Next, Encode, IsValidCharacter;
    assert s == s[..Next(s).size] + s[Next(s).size..];
  }

  lemma {:induction false} WellFormedIsNormal(s: seq<byte>)
    requires WellFormed(s)
    ensures Readable(s) && Normal(s) == s
    decreases |s|
  {
    if s != [] {
      KeepsCharacter(s);
      var n := Next(s).size;
      hide Next, CString, Repaired, IsValidCharacter;
      WellFormedIsNormal(s[n..]);
    }
  }

  /** Exactly the well-formed texts survive. */
  lemma SurvivesIffWellFormed(s: seq<byte>)
    ensures Readable(s) && Normal(s) == s <==> WellFormed(s)
  {
    if Readable(s) { NormalIsWellFormed(s); }
    if WellFormed(s) { WellFormedIsNormal(s); }
  }

  /** What the pieces of a string say: the repaired text without U+0000, unless a noncharacter is refused. */
  lemma {:induction false} SaidOfPieces(s: seq<byte>, decoded: seq<byte>)
    ensures ArePieces(PiecesOf(s))
    ensures Said(PiecesOf(s), decoded) == if Readable(s) then Got(decoded + Normal(s)) else Lost(UnsupportedEncoding)
    decreases |s|
  {
    PiecesAreValid(s);
    if s == [] {
      assert decoded + [] == decoded;
    } else {
      var c, rest := Repaired(s), s[Next(s).size..];
      KeptOrRefused(c);
      SaidOfPieces(rest, decoded + CString(c));
      Regroup(decoded, CString(c), Normal(rest));
      hide EscapeCodePoint, CString, Repaired, Next, Piece.Kept, Piece.IsPlain, Piece.Valid;
    }
  }

  lemma KeptOrRefused(c: nat)
    requires IsScalar(c)
    ensures Piece(EscapeCodePoint(c), c).Kept() == CString(c)
    ensures !IsValidCharacter(c) ==> Piece(EscapeCodePoint(c), c).IsPlain()
  {
    hide Encode;
  }

  /** What the escaper writes, the string reader decodes. */
  lemma ReadEscapedText(s: seq<byte>, t: seq<byte>, decoded: seq<byte>)
    ensures StringBody(EscapeText(s) + ([0x22] + t), decoded)
         == if Readable(s) then Ok(decoded + Normal(s), t) else Fail(UnsupportedEncoding)
  {
    EscapeIsPieces(s, [0x22] + t);
    SaidOfPieces(s, decoded);
    ReadPieces(PiecesOf(s), t, decoded);
    hide EscapeText, PiecesOnto, PiecesOf, StringBody, Readable, Normal, Said, ArePieces;
  }
}
