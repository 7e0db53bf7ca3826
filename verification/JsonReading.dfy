/** The parser's grammar reads every JSON text as what it means. */
module JsonReading {
  import opened Utf8
  import opened Numbers
  import opened JsonValues
  import opened JsonGrammar
  import opened JsonTexts
  import opened JsonGaps
  import opened JsonNumbers
  import opened JsonEnds

  // ----- strings ---------------------------------------------------------------------------------------------

  lemma HexDigitRead(b: byte, d: nat)
    requires SpellsHex(b, d)
    ensures Digit(b, 16) == d && b !in {0x2D, 0x2B, 0x58, 0x78} && !IsSpace(b)
  {}

  lemma FourNibbles(c: nat)
    ensures c == ((c / 4096 * 16 + c / 256 % 16) * 16 + c / 16 % 16) * 16 + c % 16
  {
    var x, y := c / 256, c / 16;
    assert x == x / 16 * 16 + x % 16;
    assert y == y / 16 * 16 + y % 16;
  }

  lemma FourRead(h: seq<byte>, v: nat)
    requires SpellsFour(h, v)
    ensures Convert(h, 16, INT) == Conversion(true, v)
  {
    HexDigitRead(h[0], v / 4096);
    HexDigitRead(h[1], v / 256 % 16);
    HexDigitRead(h[2], v / 16 % 16);
    HexDigitRead(h[3], v % 16);
    FourNibbles(v);
    hide Digit, Convert, IsSpace, SpellsHex;
    FourDigits(h);
  }

  lemma FourDigits(s: seq<byte>)
    requires |s| == 4 && AllDigits(s, 16) && s[0] !in {0x2D, 0x2B} && s[1] !in {0x58, 0x78} && !IsSpace(s[0])
    ensures Convert(s, 16, INT)
         == Conversion(true, ((Digit(s[0], 16) * 16 + Digit(s[1], 16)) * 16 + Digit(s[2], 16)) * 16 + Digit(s[3], 16))
  {
    assert s[..4] == s && s[..3] == s[..4][..3] && s[..2] == s[..3][..2] && s[..1] == s[..2][..1] && s[..1][..0] == [];
    RunReaches(s, 16, 4);
    AppendDigit(s, 16, 3);
    AppendDigit(s, 16, 2);
    AppendDigit(s, 16, 1);
    AppendDigit(s, 16, 0);
    assert ValueOf(s[..0], 16) == 0;
    hide Digit, ValueOf, DigitRun;
  }

  lemma TwoRead(h: seq<byte>, v: nat)
    requires |h| == 2 && v < 256 && SpellsHex(h[0], v / 16) && SpellsHex(h[1], v % 16)
    ensures Convert(h, 16, INT) == Conversion(true, v)
  {
    HexDigitRead(h[0], v / 16);
    HexDigitRead(h[1], v % 16);
    hide Digit, IsSpace, SpellsHex;
    assert h[..2] == h && h[..1] == h[..2][..1] && h[..1][..0] == [];
    RunReaches(h, 16, 2);
    AppendDigit(h, 16, 1);
    AppendDigit(h, 16, 0);
    assert ValueOf(h[..0], 16) == 0;
    hide ValueOf, DigitRun;
  }

  lemma AfterBackslash(s: seq<byte>, decoded: seq<byte>)
    requires s != [] && s[0] == 0x5C
    ensures StringBody(s, decoded)
         == var e := Escape(s[1..]); if e.Fail? then Fail(e.code) else StringBody(e.rest, decoded + e.value)
  {
    assert Next(s) == Read(0x5C, 1);
  }

  /** What the reader makes of a piece in front of t. */
  function PieceRead(p: Piece, t: seq<byte>, decoded: seq<byte>): Parsed<seq<byte>>
    requires p.c <= 0x10FFFF
  {
    if IsValidCharacter(p.c) then StringBody(t, decoded + p.Kept())
    else Fail(if p.IsPlain() then UnsupportedEncoding else InvalidEscape)
  }

  lemma ReadPlain(p: Piece, t: seq<byte>, decoded: seq<byte>)
    requires p.IsPlain()
    ensures StringBody(p.text + t, decoded) == PieceRead(p, t, decoded)
  {
    NextOfEncode(p.c, t);
    assert (p.text + t)[|p.text|..] == t;
    hide Encode, Next;
    assert p.c == 0 ==> |Encode(p.c)| == 1;
  }

  lemma ReadShort(p: Piece, t: seq<byte>, decoded: seq<byte>)
    requires p.IsShort()
    ensures StringBody(p.text + t, decoded) == PieceRead(p, t, decoded)
  {
    var s := p.text + t;
    assert s[1..] == [p.text[1]] + t && s[1..][1..] == t;
    AfterBackslash(s, decoded);
    assert Escape(s[1..]) == Ok([p.c], t);
    assert Encode(p.c) == [p.c];
    hide StringBody, Encode, Escape;
  }

  lemma ReadHex(p: Piece, t: seq<byte>, decoded: seq<byte>)
    requires p.IsHex()
    ensures StringBody(p.text + t, decoded) == PieceRead(p, t, decoded)
  {
    var s, h := p.text + t, p.text[2..];
    TwoRead(h, p.c);
    AfterBackslash(s, decoded);
    assert s[1..][0] == 0x78 && s[1..][3..] == t;
    assert Peek(s[1..], 1, 2) == h;
    hide StringBody, Encode, Convert, Peek, SpellsHex;
  }

  lemma ReadUnicode(p: Piece, t: seq<byte>, decoded: seq<byte>)
    requires p.IsUnicode()
    ensures StringBody(p.text + t, decoded) == PieceRead(p, t, decoded)
  {
    var s := p.text + t;
    FourRead(p.text[2..], p.c);
    AfterBackslash(s, decoded);
    assert p.text[..2][0] == p.text[0] && p.text[..2][1] == p.text[1];
    assert s[1..][1..][..4] == p.text[2..] && s[1..][1..][4..] == t;
    hide Convert, StringBody, Encode, SpellsFour;
    assert Escape(s[1..]) == Utf16Escape(s[1..][1..]);
    assert !p.IsPlain() by { NotPlain(p); }
  }

  lemma NotPlain(p: Piece)
    requires |p.text| > 1 && p.text[0] == 0x5C
    ensures !p.IsPlain()
  {}

  /** Two escapes spell the character whose UTF-16 they are. */
  lemma ReadPair(p: Piece, t: seq<byte>, decoded: seq<byte>)
    requires p.IsPair()
    ensures StringBody(p.text + t, decoded) == PieceRead(p, t, decoded)
  {
    var s, high, low := p.text + t, 0xD800 + (p.c - 0x10000) / 0x400, 0xDC00 + (p.c - 0x10000) % 0x400;
    FourRead(p.text[2..6], high);
    FourRead(p.text[8..], low);
    AfterBackslash(s, decoded);
    assert p.text[..2][0] == p.text[0] && p.text[..2][1] == p.text[1];
    assert p.text[6..8][0] == p.text[6] && p.text[6..8][1] == p.text[7];
    NotPlain(p);
    var e := s[1..][1..];
    hide Convert, StringBody, Encode, SpellsFour;
    assert Escape(s[1..]) == Utf16Escape(e);
    assert e[..4] == p.text[2..6] && e[4] == p.text[6] && e[5] == p.text[7] && e[10..] == t;
    assert Peek(e, 6, 4) == p.text[8..];
    assert Supplementary(high, low) == p.c;
  }

  /** Half a pair is refused. */
  lemma LoneSurrogate(h: seq<byte>, v: nat, t: seq<byte>, decoded: seq<byte>)
    requires SpellsFour(h, v) && 0xD800 <= v <= 0xDFFF && (v < 0xDC00 ==> !([0x5C, 0x75] <= t))
    ensures StringBody([0x5C, 0x75] + h + t, decoded) == Fail(InvalidEscape)
  {
    var s := [0x5C, 0x75] + h + t;
    FourRead(h, v);
    AfterBackslash(s, decoded);
    var e := s[1..][1..];
    assert e == h + t && e[..4] == h;
    assert |e| >= 6 ==> e[4] == t[0] && e[5] == t[1] && t[..2] == [t[0], t[1]];
    hide Convert, StringBody, SpellsFour;
    assert Escape(s[1..]) == Utf16Escape(e);
  }

  lemma ReadPiece(p: Piece, t: seq<byte>, decoded: seq<byte>)
    requires p.Valid()
    ensures StringBody(p.text + t, decoded) == PieceRead(p, t, decoded)
  {
    if p.IsPlain() { ReadPlain(p, t, decoded); }
    if p.IsShort() { ReadShort(p, t, decoded); }
    if p.IsUnicode() { ReadUnicode(p, t, decoded); }
    if p.IsPair() { ReadPair(p, t, decoded); }
    if p.IsHex() { ReadHex(p, t, decoded); }
    hide *;
  }

  /** A string is read as what its pieces say, up to the closing quote. */
  lemma {:induction false} ReadPieces(pieces: seq<Piece>, t: seq<byte>, decoded: seq<byte>)
    requires ArePieces(pieces)
    ensures StringBody(PiecesOnto(pieces, [0x22] + t), decoded)
         == Lift(Said(pieces, decoded), t)
  {
    if pieces == [] {
      var s := [0x22] + t;
      assert Next(s) == Read(0x22, 1) && s[1..] == t;
    } else {
      ReadPiece(pieces[0], PiecesOnto(pieces[1..], [0x22] + t), decoded);
      hide StringBody, Piece.Valid, Piece.IsPlain, Piece.Kept;
      if IsValidCharacter(pieces[0].c) { ReadPieces(pieces[1..], t, decoded + pieces[0].Kept()); }
    }
  }

  // ----- values ----------------------------------------------------------------------------------------------

  /** A value begins with neither a blank nor a comment, nor as a container ends. */
  lemma BeginsSolid(t: Text, rest: seq<byte>)
    requires IsText(t)
    ensures var s := Onto(t, rest); s != [] && Solid(s) && TokenAt(s) !in {ArrayEnd, ObjectEnd}
  {
    hide NumeralOnto, PiecesOnto, ItemsOnto, MembersOnto, GapOnto;
    if t.NumberText? { NumberBegins(t.numeral, rest); }
  }

  lemma NumberBegins(n: Numeral, rest: seq<byte>)
    requires IsNumber(n)
    ensures var s := NumeralOnto(n, rest); s != [] && (s[0] == 0x2D || 0x30 <= s[0] <= 0x39)
  {
    assert Spelled(n.whole)[0] == DigitByte(n.whole[0]);
    hide FractionOnto, ExponentOnto;
  }

  lemma ParseWord(t: Text, rest: seq<byte>, depth: nat, opt: Options)
    requires t.NullText? || t.BoolText?
    ensures ParseToken(Onto(t, rest), depth, opt) == Lift(Means(t, depth, opt), rest)
  {
    var word := if t.NullText? then NULL else if t.b then TRUE else FALSE;
    var v := if t.NullText? then Null else Bool(t.b);
    assert Onto(t, rest) == word + rest && Means(t, depth, opt) == Got(v);
    ReadLiteral(word, v, rest);
    ParseLiteral(word + rest, depth, opt);
    hide *;
    Got1(v, rest);
  }

  lemma Got1(v: Value, rest: seq<byte>)
    ensures Lift(Got(v), rest) == Ok(v, rest)
  {}

  lemma ReadLiteral(word: seq<byte>, v: Value, rest: seq<byte>)
    requires (word == NULL && v == Null) || (word == TRUE && v == Bool(true)) || (word == FALSE && v == Bool(false))
    ensures Literal(word + rest) == Ok(v, rest)
    ensures TokenAt(word + rest) in {Token.True, Token.False, NullStart}
  {
    var s := word + rest;
    assert s[0] == word[0] && s[..|word|] == word && s[|word|..] == rest;
    if TRUE <= s { assert s[0] == TRUE[0]; }
    if FALSE <= s { assert s[0] == FALSE[0]; }
  }

  lemma ParseLiteral(s: seq<byte>, depth: nat, opt: Options)
    requires TokenAt(s) in {Token.True, Token.False, NullStart}
    ensures ParseToken(s, depth, opt) == Literal(s)
  {
    hide TokenAt, Literal, Members, Items, StringBody, Number;
  }

  lemma ParseString(s: seq<byte>, depth: nat, opt: Options)
    requires s != [] && s[0] == 0x22
    ensures ParseToken(s, depth, opt)
         == var r := StringBody(s[1..], []); if r.Fail? then Fail(r.code) else Ok(Str(r.value), r.rest)
  {
    hide Literal, Members, Items, StringBody, Number, SkipSpace;
  }

  lemma ParseNumber(s: seq<byte>, depth: nat, opt: Options)
    requires TokenAt(s) == NumberStart
    ensures ParseToken(s, depth, opt) == Number(s, opt)
  {
    hide TokenAt, Literal, Members, Items, StringBody, Number;
  }

  lemma ParseContainer(s: seq<byte>, depth: nat, opt: Options)
    requires s != [] && (s[0] == 0x5B || s[0] == 0x7B)
    ensures ParseToken(s, depth, opt)
         == if depth + 1 >= 100 then Fail(TooMuchNesting)
            else if s[0] == 0x5B then Items(SkipSpace(s[1..]), depth + 1, [], opt)
            else Members(SkipSpace(s[1..]), depth + 1, [], opt)
  {
    hide Literal, Members, Items, StringBody, Number, SkipSpace;
  }

  /** The parser reads every text as what it means, and leaves the cursor behind it. */
  lemma {:induction false} ReadText(t: Text, rest: seq<byte>, depth: nat, opt: Options)
    requires IsText(t) && MayFollow(rest)
    ensures ParseToken(Onto(t, rest), depth, opt) == Lift(Means(t, depth, opt), rest)
    decreases t, 0
  {
    match t
    case NumberText(n) =>
      ReadNumber(n, rest, opt);
      ParseNumber(NumeralOnto(n, rest), depth, opt);
      hide ParseToken, NumeralOnto, NumberMeans, Number, MayFollow;
    case StringText(pieces) =>
      ReadString(pieces, rest, depth, opt);
      hide ParseToken, Onto, Means, MayFollow;
    case ArrayText(open, items, comma) =>
      if items == [] { ReadEmptyArray(open, rest, depth + 1, opt); } else {
        ReadItems(items, comma, rest, depth + 1, [], opt);
      }
      ReadArray(open, items, comma, rest, depth, opt);
      hide ParseToken, Onto, Means, MayFollow;
    case ObjectText(open, members, comma) =>
      if members == [] { ReadEmptyObject(open, rest, depth + 1, opt); } else {
        ReadMembers(members, comma, rest, depth + 1, [], opt);
      }
      ReadObject(open, members, comma, rest, depth, opt);
      hide ParseToken, Onto, Means, MayFollow;
    case _ =>
      ParseWord(t, rest, depth, opt);
      hide ParseToken, Onto, Means, MayFollow;
  }

  lemma ReadString(pieces: seq<Piece>, rest: seq<byte>, depth: nat, opt: Options)
    requires ArePieces(pieces)
    ensures ParseToken(Onto(StringText(pieces), rest), depth, opt)
         == Lift(Means(StringText(pieces), depth, opt), rest)
  {
    ReadPieces(pieces, rest, []);
    var s := Onto(StringText(pieces), rest);
    assert s[1..] == PiecesOnto(pieces, [0x22] + rest);
    ParseString(s, depth, opt);
    hide ParseToken, StringBody, PiecesOnto, Said, ArePieces;
  }

  lemma ReadEmptyArray(open: Gap, rest: seq<byte>, depth: nat, opt: Options)
    requires IsGap(open)
    ensures Items(SkipSpace(GapOnto(open, [0x5D] + rest)), depth, [], opt) == Ok(List([]), rest)
  {
    GapThen(open, [0x5D] + rest);
    assert ([0x5D] + rest)[1..] == rest;
    hide SkipSpace, GapOnto, ParseToken;
  }

  lemma ReadEmptyObject(open: Gap, rest: seq<byte>, depth: nat, opt: Options)
    requires IsGap(open)
    ensures Members(SkipSpace(GapOnto(open, [0x7D] + rest)), depth, [], opt) == Ok(Dict([]), rest)
  {
    GapThen(open, [0x7D] + rest);
    assert ([0x7D] + rest)[1..] == rest;
    hide SkipSpace, GapOnto, ParseToken;
  }

  lemma ReadArray(open: Gap, items: seq<Item>, comma: Maybe<Gap>, rest: seq<byte>, depth: nat, opt: Options)
    requires IsText(ArrayText(open, items, comma)) && forall item <- items :: IsItem(item)
    requires if items == [] then
               Items(SkipSpace(GapOnto(open, [0x5D] + rest)), depth + 1, [], opt) == Ok(List([]), rest)
             else Items(SkipSpace(ItemsOnto(items, comma, [0x5D] + rest)), depth + 1, [], opt)
                  == Lift(ItemsMean(items, comma, depth + 1, [], opt), rest)
    ensures ParseToken(Onto(ArrayText(open, items, comma), rest), depth, opt)
         == Lift(Means(ArrayText(open, items, comma), depth, opt), rest)
  {
    var s := Onto(ArrayText(open, items, comma), rest);
    assert s[1..] == if items == [] then GapOnto(open, [0x5D] + rest) else ItemsOnto(items, comma, [0x5D] + rest);
    ParseContainer(s, depth, opt);
    if items == [] { NoItemsMean(open, comma, depth, opt); }
    hide ParseToken, Items, SkipSpace, GapOnto, ItemsOnto, ItemsMean;
  }

  lemma NoItemsMean(open: Gap, comma: Maybe<Gap>, depth: nat, opt: Options)
    requires IsText(ArrayText(open, [], comma))
    ensures ItemsMean([], comma, depth + 1, [], opt) == Got(List([]))
  {}

  lemma NoMembersMean(open: Gap, comma: Maybe<Gap>, depth: nat, opt: Options)
    requires IsText(ObjectText(open, [], comma))
    ensures MembersMean([], comma, depth + 1, [], opt) == Got(Dict([]))
  {}

  lemma ReadObject(open: Gap, members: seq<Member>, comma: Maybe<Gap>, rest: seq<byte>, depth: nat, opt: Options)
    requires IsText(ObjectText(open, members, comma)) && forall m <- members :: IsMember(m)
    requires if members == [] then
               Members(SkipSpace(GapOnto(open, [0x7D] + rest)), depth + 1, [], opt) == Ok(Dict([]), rest)
             else Members(SkipSpace(MembersOnto(members, comma, [0x7D] + rest)), depth + 1, [], opt)
                  == Lift(MembersMean(members, comma, depth + 1, [], opt), rest)
    ensures ParseToken(Onto(ObjectText(open, members, comma), rest), depth, opt)
         == Lift(Means(ObjectText(open, members, comma), depth, opt), rest)
  {
    var s := Onto(ObjectText(open, members, comma), rest);
    assert s[1..]
        == if members == [] then GapOnto(open, [0x7D] + rest) else MembersOnto(members, comma, [0x7D] + rest);
    ParseContainer(s, depth, opt);
    if members == [] { NoMembersMean(open, comma, depth, opt); }
    hide ParseToken, Members, SkipSpace, GapOnto, MembersOnto, MembersMean;
  }

  // ----- items -----------------------------------------------------------------------------------------------

  /** What comes behind an item or a member: a comma or the end. */
  lemma CommaOrEnd(comma: Maybe<Gap>, rest: seq<byte>)
    requires rest != [] && rest[0] in {0x5D, 0x7D}
    ensures var s := CommaOnto(comma, rest); s != [] && s[0] in {0x2C, 0x5D, 0x7D}
  {}

  lemma {:induction false} ReadItems(items: seq<Item>, comma: Maybe<Gap>, rest: seq<byte>, depth: nat,
                                     read: seq<Value>, opt: Options)
    requires items != [] && (forall item <- items :: IsItem(item)) && (comma.Just? ==> IsGap(comma.value))
    ensures Items(SkipSpace(ItemsOnto(items, comma, [0x5D] + rest)), depth, read, opt)
         == Lift(ItemsMean(items, comma, depth, read, opt), rest)
    decreases items, 1
  {
    var item, more := items[0], items[1..];
    var tail := MoreItemsOnto(more, comma, [0x5D] + rest);
    assert item in items && forall i <- more :: i in items;
    assert IsItem(item);
    hide *;
    ItemParts(item);
    TailIsSolid(more, comma, rest);
    GapFollows(item.after, tail);
    BeginsSolid(item.text, GapOnto(item.after, tail));
    GapThen(item.before, Onto(item.text, GapOnto(item.after, tail)));
    ReadText(item.text, GapOnto(item.after, tail), depth, opt);
    SkipGap(item.after, tail);
    ItemsUnfold(items, comma, rest, depth, read, opt);
    match Means(item.text, depth, opt)
    case Lost(_) =>
    case Got(v) => ReadMoreItems(more, comma, rest, depth, read + [v], opt);
  }

  lemma TailIsSolid(more: seq<Item>, comma: Maybe<Gap>, rest: seq<byte>)
    ensures var s := MoreItemsOnto(more, comma, [0x5D] + rest); s != [] && s[0] in {0x2C, 0x5D, 0x7D}
  {
    CommaOrEnd(comma, [0x5D] + rest);
    hide ItemsOnto, CommaOnto;
  }

  lemma ItemsUnfold(items: seq<Item>, comma: Maybe<Gap>, rest: seq<byte>, depth: nat, read: seq<Value>, opt: Options)
    requires items != [] && forall item <- items :: IsItem(item)
    requires IsText(items[0].text) && forall item <- items[1..] :: IsItem(item)
    requires var item, tail := items[0], MoreItemsOnto(items[1..], comma, [0x5D] + rest);
      var s := Onto(item.text, GapOnto(item.after, tail));
      && SkipSpace(GapOnto(item.before, s)) == s && s != [] && TokenAt(s) != ArrayEnd
      && ParseToken(s, depth, opt) == Lift(Means(item.text, depth, opt), GapOnto(item.after, tail))
      && SkipSpace(GapOnto(item.after, tail)) == SkipSpace(tail)
    ensures var m, tail := Means(items[0].text, depth, opt), MoreItemsOnto(items[1..], comma, [0x5D] + rest);
      && Items(SkipSpace(ItemsOnto(items, comma, [0x5D] + rest)), depth, read, opt)
         == (if m.Lost? then Fail(m.code) else MoreItems(SkipSpace(tail), depth, read + [m.value], opt))
      && ItemsMean(items, comma, depth, read, opt)
         == if m.Lost? then Lost(m.code) else ItemsMean(items[1..], comma, depth, read + [m.value], opt)
  {
    hide Onto, GapOnto, MoreItemsOnto, SkipSpace, TokenAt, ParseToken, Means, MoreItems, IsItem, IsText;
  }

  lemma {:induction false} ReadMoreItems(items: seq<Item>, comma: Maybe<Gap>, rest: seq<byte>, depth: nat,
                                         read: seq<Value>, opt: Options)
    requires (forall item <- items :: IsItem(item)) && (comma.Just? ==> IsGap(comma.value))
    ensures MoreItems(SkipSpace(MoreItemsOnto(items, comma, [0x5D] + rest)), depth, read, opt)
         == Lift(ItemsMean(items, comma, depth, read, opt), rest)
    decreases items, 2
  {
    if items == [] {
      ReadArrayEnd(comma, rest, depth, read, opt);
      hide MoreItems, SkipSpace, CommaOnto;
    } else {
      hide *;
      ReadItems(items, comma, rest, depth, read, opt);
      NextItem(items, comma, rest, depth, read, opt);
    }
  }

  lemma NextItem(items: seq<Item>, comma: Maybe<Gap>, rest: seq<byte>, depth: nat, read: seq<Value>, opt: Options)
    requires items != [] && forall item <- items :: IsItem(item)
    ensures MoreItems(SkipSpace(MoreItemsOnto(items, comma, [0x5D] + rest)), depth, read, opt)
         == Items(SkipSpace(ItemsOnto(items, comma, [0x5D] + rest)), depth, read, opt)
  {
    hide *;
    var s, t := MoreItemsOnto(items, comma, [0x5D] + rest), ItemsOnto(items, comma, [0x5D] + rest);
    NextItemIs(items, comma, rest);
    assert items[0] in items;
    ItemBegins(items[0], MoreItemsOnto(items[1..], comma, [0x5D] + rest));
    CommaSkipped(s, t, depth, read, opt);
  }

  lemma NextItemIs(items: seq<Item>, comma: Maybe<Gap>, rest: seq<byte>)
    requires items != []
    ensures MoreItemsOnto(items, comma, [0x5D] + rest) == [0x2C] + ItemsOnto(items, comma, [0x5D] + rest)
    ensures ItemsOnto(items, comma, [0x5D] + rest)
         == ItemOnto(items[0], MoreItemsOnto(items[1..], comma, [0x5D] + rest))
  {
    hide ItemOnto;
  }

  lemma CommaSkipped(s: seq<byte>, t: seq<byte>, depth: nat, read: seq<Value>, opt: Options)
    requires s == [0x2C] + t && TokenAt(SkipSpace(t)) != ArrayEnd
    ensures MoreItems(SkipSpace(s), depth, read, opt) == Items(SkipSpace(t), depth, read, opt)
  {
    StaysPut(s);
    assert s[1..] == t;
    hide Items, SkipSpace;
  }

  lemma ItemBegins(item: Item, rest: seq<byte>)
    requires IsItem(item)
    ensures SkipSpace(ItemOnto(item, rest)) != [] && TokenAt(SkipSpace(ItemOnto(item, rest))) != ArrayEnd
  {
    var s := Onto(item.text, GapOnto(item.after, rest));
    BeginsSolid(item.text, GapOnto(item.after, rest));
    GapThen(item.before, s);
    hide Onto, GapOnto, SkipSpace, TokenAt;
  }

  lemma ReadArrayEnd(comma: Maybe<Gap>, rest: seq<byte>, depth: nat, read: seq<Value>, opt: Options)
    requires comma.Just? ==> IsGap(comma.value)
    ensures MoreItems(SkipSpace(CommaOnto(comma, [0x5D] + rest)), depth, read, opt)
         == Lift(EndMeans(comma, List(read), opt), rest)
  {
    var end := [0x5D] + rest;
    assert end[1..] == rest;
    StaysPut(end);
    if comma.Just? {
      var s := CommaOnto(comma, end);
      assert s[1..] == GapOnto(comma.value, end);
      StaysPut(s);
      GapThen(comma.value, end);
    }
    hide SkipSpace, GapOnto, ParseToken;
  }

  // ----- members ---------------------------------------------------------------------------------------------

  lemma MemberTail(more: seq<Member>, comma: Maybe<Gap>, rest: seq<byte>)
    ensures var s := MoreMembersOnto(more, comma, [0x7D] + rest); s != [] && s[0] in {0x2C, 0x5D, 0x7D}
  {
    CommaOrEnd(comma, [0x7D] + rest);
    hide MembersOnto, CommaOnto;
  }

  /** What stands behind the key of a member. */
  function BehindKey(m: Member, tail: seq<byte>): seq<byte> {
    ColonOnto(m.beforeColon, m.afterColon, Onto(m.text, GapOnto(m.after, tail)))
  }

  /** From a key to the value behind its colon. */
  lemma KeyThenValue(m: Member, tail: seq<byte>)
    requires IsMember(m) && tail != [] && tail[0] in {0x2C, 0x5D, 0x7D}
    ensures var colon := SkipSpace(BehindKey(m, tail));
      && colon != [] && TokenAt(colon) == Colon
      && SkipSpace(colon[1..]) == Onto(m.text, GapOnto(m.after, tail))
  {
    var value := Onto(m.text, GapOnto(m.after, tail));
    var colon := [0x3A] + GapOnto(m.afterColon, value);
    assert colon[1..] == GapOnto(m.afterColon, value);
    BeginsSolid(m.text, GapOnto(m.after, tail));
    GapThen(m.afterColon, value);
    GapThen(m.beforeColon, colon);
    hide Onto, GapOnto, SkipSpace;
  }

  lemma {:induction false} ReadMembers(members: seq<Member>, comma: Maybe<Gap>, rest: seq<byte>, depth: nat,
                                       read: seq<Entry>, opt: Options)
    requires members != [] && (forall m <- members :: IsMember(m)) && (comma.Just? ==> IsGap(comma.value))
    ensures Members(SkipSpace(MembersOnto(members, comma, [0x7D] + rest)), depth, read, opt)
         == Lift(MembersMean(members, comma, depth, read, opt), rest)
    decreases members, 1
  {
    var m, more := members[0], members[1..];
    var tail := MoreMembersOnto(more, comma, [0x7D] + rest);
    assert m in members && forall i <- more :: i in members;
    assert IsMember(m);
    hide *;
    MemberParts(m);
    MemberTail(more, comma, rest);
    ReadKey(m, tail);
    KeyThenValue(m, tail);
    GapFollows(m.after, tail);
    ReadText(m.text, GapOnto(m.after, tail), depth, opt);
    SkipGap(m.after, tail);
    MembersUnfold(members, comma, rest, depth, read, opt);
    match Said(m.key, [])
    case Lost(_) =>
    case Got(key) =>
      match Means(m.text, depth, opt)
      case Lost(_) =>
      case Got(v) => ReadMoreMembers(more, comma, rest, depth, Set(read, key, v), opt);
  }

  /** A member begins with the quote of its key. */
  lemma ReadKey(m: Member, tail: seq<byte>)
    requires IsMember(m)
    ensures var s := SkipSpace(MemberOnto(m, tail));
      s != [] && s[0] == 0x22 && StringBody(s[1..], []) == Lift(Said(m.key, []), BehindKey(m, tail))
  {
    var s := KeyOnto(m.key, BehindKey(m, tail));
    assert s[1..] == PiecesOnto(m.key, [0x22] + BehindKey(m, tail));
    ReadPieces(m.key, BehindKey(m, tail), []);
    GapThen(m.before, s);
    hide StringBody, PiecesOnto, SkipSpace, Said, GapOnto, ColonOnto, Onto;
  }

  lemma MembersUnfold(members: seq<Member>, comma: Maybe<Gap>, rest: seq<byte>, depth: nat, read: seq<Entry>,
                      opt: Options)
    requires members != [] && forall m <- members :: IsMember(m)
    requires forall m <- members[1..] :: IsMember(m)
    requires ArePieces(members[0].key) && IsText(members[0].text)
    requires var m, tail := members[0], MoreMembersOnto(members[1..], comma, [0x7D] + rest);
      var s, colon, after := SkipSpace(MemberOnto(m, tail)), SkipSpace(BehindKey(m, tail)), GapOnto(m.after, tail);
      && s != [] && s[0] == 0x22 && StringBody(s[1..], []) == Lift(Said(m.key, []), BehindKey(m, tail))
      && colon != [] && TokenAt(colon) == Colon && SkipSpace(colon[1..]) == Onto(m.text, after)
      && ParseToken(Onto(m.text, after), depth, opt) == Lift(Means(m.text, depth, opt), after)
      && SkipSpace(after) == SkipSpace(tail)
    ensures var k, v := Said(members[0].key, []), Means(members[0].text, depth, opt);
      var tail := MoreMembersOnto(members[1..], comma, [0x7D] + rest);
      && Members(SkipSpace(MembersOnto(members, comma, [0x7D] + rest)), depth, read, opt)
         == (if k.Lost? then Fail(k.code) else if v.Lost? then Fail(v.code)
             else MoreMembers(SkipSpace(tail), depth, Set(read, k.value, v.value), opt))
      && MembersMean(members, comma, depth, read, opt)
         == if k.Lost? then Lost(k.code) else if v.Lost? then Lost(v.code)
            else MembersMean(members[1..], comma, depth, Set(read, k.value, v.value), opt)
  {
    hide Onto, GapOnto, MoreMembersOnto, MemberOnto, BehindKey, SkipSpace, ParseToken, Means, MoreMembers, IsMember,
      IsText, StringBody, Said, Set, ArePieces;
  }

  lemma {:induction false} ReadMoreMembers(members: seq<Member>, comma: Maybe<Gap>, rest: seq<byte>, depth: nat,
                                           read: seq<Entry>, opt: Options)
    requires (forall m <- members :: IsMember(m)) && (comma.Just? ==> IsGap(comma.value))
    ensures MoreMembers(SkipSpace(MoreMembersOnto(members, comma, [0x7D] + rest)), depth, read, opt)
         == Lift(MembersMean(members, comma, depth, read, opt), rest)
    decreases members, 2
  {
    if members == [] {
      ReadObjectEnd(comma, rest, depth, read, opt);
      hide MoreMembers, SkipSpace, CommaOnto;
    } else {
      hide *;
      ReadMembers(members, comma, rest, depth, read, opt);
      NextMember(members, comma, rest, depth, read, opt);
    }
  }

  lemma NextMember(members: seq<Member>, comma: Maybe<Gap>, rest: seq<byte>, depth: nat, read: seq<Entry>,
                   opt: Options)
    requires members != [] && forall m <- members :: IsMember(m)
    ensures MoreMembers(SkipSpace(MoreMembersOnto(members, comma, [0x7D] + rest)), depth, read, opt)
         == Members(SkipSpace(MembersOnto(members, comma, [0x7D] + rest)), depth, read, opt)
  {
    hide *;
    var s, t := MoreMembersOnto(members, comma, [0x7D] + rest), MembersOnto(members, comma, [0x7D] + rest);
    NextIs(members, comma, rest);
    assert members[0] in members;
    ReadKey(members[0], MoreMembersOnto(members[1..], comma, [0x7D] + rest));
    MembersApart(members, comma, [0x7D] + rest);
    QuoteGoesOn(t);
    CommaTaken(s, t, depth, read, opt);
  }

  lemma NextIs(members: seq<Member>, comma: Maybe<Gap>, rest: seq<byte>)
    requires members != []
    ensures MoreMembersOnto(members, comma, [0x7D] + rest) == [0x2C] + MembersOnto(members, comma, [0x7D] + rest)
  {
    hide MembersOnto;
  }

  lemma CommaTaken(s: seq<byte>, t: seq<byte>, depth: nat, read: seq<Entry>, opt: Options)
    requires s == [0x2C] + t && TokenAt(SkipSpace(t)) != ObjectEnd
    ensures MoreMembers(SkipSpace(s), depth, read, opt) == Members(SkipSpace(t), depth, read, opt)
  {
    StaysPut(s);
    assert s[1..] == t;
    hide Members, SkipSpace;
  }

  lemma QuoteGoesOn(t: seq<byte>)
    requires SkipSpace(t) != [] && SkipSpace(t)[0] == 0x22
    ensures TokenAt(SkipSpace(t)) != ObjectEnd
  {
    hide SkipSpace;
  }

  lemma ReadObjectEnd(comma: Maybe<Gap>, rest: seq<byte>, depth: nat, read: seq<Entry>, opt: Options)
    requires comma.Just? ==> IsGap(comma.value)
    ensures MoreMembers(SkipSpace(CommaOnto(comma, [0x7D] + rest)), depth, read, opt)
         == Lift(EndMeans(comma, Dict(read), opt), rest)
  {
    var end := [0x7D] + rest;
    assert end[1..] == rest;
    StaysPut(end);
    if comma.Just? {
      var s := CommaOnto(comma, end);
      assert s[1..] == GapOnto(comma.value, end);
      StaysPut(s);
      GapThen(comma.value, end);
    }
    hide SkipSpace, GapOnto, ParseToken, StringBody;
  }

  // ----- documents -------------------------------------------------------------------------------------------

  /** The bytes of a document: a byte order mark or none, gaps, and the root. */
  function Document(mark: bool, front: Gap, root: Text, back: Gap): seq<byte> {
    (if mark then [0xEF, 0xBB, 0xBF] else []) + GapOnto(front, Onto(root, GapOnto(back, [])))
  }

  /** Every document is parsed as what its root means. */
  lemma ParseDocument(mark: bool, front: Gap, root: Text, back: Gap, opt: Options)
    requires IsGap(front) && IsText(root) && IsGap(back)
    ensures Parse(Document(mark, front, root, back), opt) == Lift(Means(root, 0, opt), [])
  {
    hide *;
    var rest := GapOnto(back, []);
    var s := Onto(root, rest);
    BeginsSolid(root, rest);
    GapThen(front, s);
    GapFollows(back, []);
    GapThen(back, []) by { Nothing(); }
    ReadText(root, rest, 0, opt);
    var b := TextEnds(root, rest);
    GapEnds(front, s, [b] + rest);
    WithMark(mark, front, root, back);
    ParseMarked(mark, GapOnto(front, s), s, rest, b, opt, Means(root, 0, opt));
  }

  lemma Nothing()
    ensures Solid([])
  {}

  /** No text and no gap begins like a byte order mark. */
  lemma WithMark(mark: bool, front: Gap, root: Text, back: Gap)
    requires IsGap(front) && IsText(root)
    ensures var s := GapOnto(front, Onto(root, GapOnto(back, [])));
      s != [] && s[0] != 0xEF && Document(mark, front, root, back) == (if mark then [0xEF, 0xBB, 0xBF] else []) + s
  {
    TextBegins(root, GapOnto(back, []));
    hide Onto, IsText;
    if front != [] { assert IsFiller(front[0]); }
  }

  lemma TextBegins(t: Text, rest: seq<byte>)
    requires IsText(t)
    ensures var s := Onto(t, rest); s != [] && s[0] < 0x80
  {
    if t.NumberText? { NumberBegins(t.numeral, rest); }
    hide NumeralOnto, PiecesOnto, ItemsOnto, MembersOnto, GapOnto;
  }

  lemma ParseMarked(mark: bool, w: seq<byte>, s: seq<byte>, rest: seq<byte>, b: byte, opt: Options, o: Outcome<Value>)
    requires w != [] && w[0] != 0xEF && SkipSpace(w) == s && ParseToken(s, 0, opt) == Lift(o, rest)
    requires EndsWith(w, [b] + rest) && Solid([b]) && SkipSpace(rest) == []
    ensures Parse((if mark then [0xEF, 0xBB, 0xBF] else []) + w, opt) == Lift(o, [])
  {
    hide *;
    var input := (if mark then [0xEF, 0xBB, 0xBF] else []) + w;
    MarkSkipped(mark, w);
    BehindOther(if mark then [0xEF, 0xBB, 0xBF] else [], w, [b] + rest);
    EndOfRoot(b, rest);
    LastOf(input, b, rest);
    ParseFrom(input, w, rest, opt, o);
  }

  lemma MarkSkipped(mark: bool, w: seq<byte>)
    requires w != [] && w[0] != 0xEF
    ensures var input := (if mark then [0xEF, 0xBB, 0xBF] else []) + w;
      (if BOM <= input then input[3..] else input) == w
  {
    var input := (if mark then [0xEF, 0xBB, 0xBF] else []) + w;
    if mark {
      assert input[..3] == BOM && input[3..] == w;
    } else {
      assert input == w;
      NoMark(w);
    }
  }

  lemma NoMark(w: seq<byte>)
    requires w != [] && !(BOM[0] == w[0])
    ensures !(BOM <= w)
  {}

  lemma LastOf(input: seq<byte>, b: byte, rest: seq<byte>)
    requires EndsWith(input, [b] + rest)
    ensures |input| > |rest| && input[|input| - |rest| - 1..] == [b] + rest
  {}

  lemma ParseFrom(input: seq<byte>, w: seq<byte>, rest: seq<byte>, opt: Options, o: Outcome<Value>)
    requires (if BOM <= input then input[3..] else input) == w && ParseToken(SkipSpace(w), 0, opt) == Lift(o, rest)
    requires |input| > |rest| && AtEnd(input[|input| - |rest| - 1..])
    ensures Parse(input, opt) == Lift(o, [])
  {
    hide SkipSpace, ParseToken, AtEnd;
  }

  lemma EndOfRoot(b: byte, rest: seq<byte>)
    requires Solid([b]) && SkipSpace(rest) == []
    ensures AtEnd([b] + rest)
  {
    StaysPut([b] + rest);
    assert ([b] + rest)[1..] == rest;
    hide SkipSpace;
  }
}
