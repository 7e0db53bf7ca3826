/** How texts end: the last byte of a value is neither a blank nor a slash, and what comes behind a value,
    an item or a member is found behind it in the text. The parser looks at the last byte of the root to
    see whether anything is left. */
module JsonEnds {
  import opened Utf8
  import opened JsonValues
  import opened JsonTexts
  import opened JsonGaps
  import opened JsonNumbers

  lemma ItemParts(item: Item)
    requires IsItem(item)
    ensures IsGap(item.before) && IsText(item.text) && IsGap(item.after)
  {}

  lemma MemberParts(m: Member)
    requires IsMember(m)
    ensures IsGap(m.before) && ArePieces(m.key) && IsGap(m.beforeColon) && IsGap(m.afterColon) && IsText(m.text)
    ensures IsGap(m.after)
  {}

  predicate EndsWith(s: seq<byte>, end: seq<byte>) { |end| <= |s| && s[|s| - |end|..] == end }

  lemma BehindOther(s: seq<byte>, t: seq<byte>, end: seq<byte>)
    requires EndsWith(t, end)
    ensures EndsWith(s + t, end)
  {}

  lemma {:induction false} GapEnds(gap: Gap, rest: seq<byte>, end: seq<byte>)
    requires EndsWith(rest, end)
    ensures EndsWith(GapOnto(gap, rest), end)
  {
    if gap != [] {
      GapEnds(gap[1..], rest, end);
      FillerEnds(gap[0], GapOnto(gap[1..], rest), end);
    }
  }

  lemma FillerEnds(f: Filler, rest: seq<byte>, end: seq<byte>)
    requires EndsWith(rest, end)
    ensures EndsWith(FillerOnto(f, rest), end)
  {
    hide EndsWith;
    match f
    case Blank(b) => BehindOther([b], rest, end);
    case Line(text, b) =>
      BehindOther([b], rest, end);
      BehindOther(text, [b] + rest, end);
      BehindOther([0x2F, 0x2F], text + ([b] + rest), end);
    case Block(text) =>
      BehindOther([0x2A, 0x2F], rest, end);
      BehindOther(text, [0x2A, 0x2F] + rest, end);
      BehindOther([0x2F, 0x2A], text + ([0x2A, 0x2F] + rest), end);
  }

  lemma {:induction false} PiecesEnd(pieces: seq<Piece>, rest: seq<byte>, end: seq<byte>)
    requires EndsWith(rest, end)
    ensures EndsWith(PiecesOnto(pieces, rest), end)
  {
    if pieces != [] {
      PiecesEnd(pieces[1..], rest, end);
      BehindOther(pieces[0].text, PiecesOnto(pieces[1..], rest), end);
    }
  }

  /** The last byte of a text is no blank and no slash. */
  lemma {:induction false} TextEnds(t: Text, rest: seq<byte>) returns (b: byte)
    requires IsText(t)
    ensures Solid([b]) && EndsWith(Onto(t, rest), [b] + rest)
    decreases t, 0
  {
    hide EndsWith, NumeralOnto, PiecesOnto, GapOnto, ItemsOnto, MembersOnto;
    match t
    case NullText =>
      b := 0x6C;
      BehindOther([0x6E, 0x75, 0x6C], [b] + rest, [b] + rest) by { Itself([b] + rest); }
      assert [0x6E, 0x75, 0x6C, 0x6C] + rest == [0x6E, 0x75, 0x6C] + ([b] + rest);
    case BoolText(_) =>
      b := 0x65;
      Itself([b] + rest);
      if t.b {
        BehindOther([0x74, 0x72, 0x75], [b] + rest, [b] + rest);
        assert [0x74, 0x72, 0x75, 0x65] + rest == [0x74, 0x72, 0x75] + ([b] + rest);
      } else {
        BehindOther([0x66, 0x61, 0x6C, 0x73], [b] + rest, [b] + rest);
        assert [0x66, 0x61, 0x6C, 0x73, 0x65] + rest == [0x66, 0x61, 0x6C, 0x73] + ([b] + rest);
      }
    case NumberText(n) => b := NumeralEndsIn(n, rest);
    case StringText(pieces) =>
      b := 0x22;
      StringEnds(pieces, rest);
    case ArrayText(open, items, comma) =>
      b := 0x5D;
      Itself([b] + rest);
      if items == [] {
        GapEnds(open, [b] + rest, [b] + rest);
        BehindOther([0x5B], GapOnto(open, [b] + rest), [b] + rest);
      } else {
        ItemsEnd(items, comma, [b] + rest, [b] + rest);
        BehindOther([0x5B], ItemsOnto(items, comma, [b] + rest), [b] + rest);
      }
    case ObjectText(open, members, comma) =>
      b := 0x7D;
      Itself([b] + rest);
      if members == [] {
        GapEnds(open, [b] + rest, [b] + rest);
        BehindOther([0x7B], GapOnto(open, [b] + rest), [b] + rest);
      } else {
        MembersEnd(members, comma, [b] + rest, [b] + rest);
        BehindOther([0x7B], MembersOnto(members, comma, [b] + rest), [b] + rest);
      }
  }

  lemma Itself(s: seq<byte>)
    ensures EndsWith(s, s)
  {}

  lemma StringEnds(pieces: seq<Piece>, rest: seq<byte>)
    ensures EndsWith([0x22] + PiecesOnto(pieces, [0x22] + rest), [0x22] + rest)
  {
    PiecesEnd(pieces, [0x22] + rest, [0x22] + rest);
    BehindOther([0x22], PiecesOnto(pieces, [0x22] + rest), [0x22] + rest);
  }

  lemma NumeralEndsIn(n: Numeral, rest: seq<byte>) returns (b: byte)
    requires IsNumber(n)
    ensures Solid([b]) && EndsWith(NumeralOnto(n, rest), [b] + rest)
  {
    hide *;
    NumeralApart(n, rest);
    b := LastOfNumeral(n);
    Solidly(b);
    LastApart(NumeralOnto(n, []), b, rest);
  }

  lemma Solidly(b: byte)
    requires 0x30 <= b <= 0x39
    ensures Solid([b])
  {}

  lemma LastApart(t: seq<byte>, b: byte, rest: seq<byte>)
    requires t != [] && t[|t| - 1] == b
    ensures EndsWith(t + rest, [b] + rest)
  {
    assert t + rest == t[..|t| - 1] + ([b] + rest);
  }

  lemma LastOfNumeral(n: Numeral) returns (b: byte)
    requires IsNumber(n)
    ensures var t := NumeralOnto(n, []); t != [] && t[|t| - 1] == b && 0x30 <= b <= 0x39
  {
    var d := if n.exponent.Just? then n.exponent.value.digits else if n.fraction != [] then n.fraction else n.whole;
    b := DigitByte(d[|d| - 1]);
    assert Spelled(d)[|d| - 1] == b;
    assert Spelled(d) + [] == Spelled(d);
  }

  lemma {:induction false} ItemsEnd(items: seq<Item>, comma: Maybe<Gap>, rest: seq<byte>, end: seq<byte>)
    requires items != [] && (forall item <- items :: IsItem(item)) && EndsWith(rest, end)
    ensures EndsWith(ItemsOnto(items, comma, rest), end)
    decreases items, 1
  {
    var item, more := items[0], items[1..];
    assert item in items && forall i <- more :: i in items;
    assert IsItem(item);
    var tail := MoreItemsOnto(more, comma, rest);
    if more == [] {
      CommaEnds(comma, rest, end);
    } else {
      ItemsEnd(more, comma, rest, end);
      BehindOther([0x2C], ItemsOnto(more, comma, rest), end);
    }
    hide *;
    ItemParts(item);
    GapEnds(item.after, tail, end);
    var b := TextEnds(item.text, GapOnto(item.after, tail));
    EndsEnds(Onto(item.text, GapOnto(item.after, tail)), b, GapOnto(item.after, tail), end);
    GapEnds(item.before, Onto(item.text, GapOnto(item.after, tail)), end);
    ItemsApart(items, comma, rest);
  }

  lemma ItemsApart(items: seq<Item>, comma: Maybe<Gap>, rest: seq<byte>)
    requires items != []
    ensures ItemsOnto(items, comma, rest)
         == GapOnto(items[0].before,
                    Onto(items[0].text, GapOnto(items[0].after, MoreItemsOnto(items[1..], comma, rest))))
  {
    hide GapOnto, Onto, MoreItemsOnto;
  }

  lemma EndsEnds(s: seq<byte>, b: byte, t: seq<byte>, end: seq<byte>)
    requires EndsWith(s, [b] + t) && EndsWith(t, end)
    ensures EndsWith(s, end)
  {
    assert s == s[..|s| - |t| - 1] + ([b] + t) && t == t[..|t| - |end|] + end;
  }

  lemma CommaEnds(comma: Maybe<Gap>, rest: seq<byte>, end: seq<byte>)
    requires EndsWith(rest, end)
    ensures EndsWith(CommaOnto(comma, rest), end)
  {
    if comma.Just? {
      GapEnds(comma.value, rest, end);
      BehindOther([0x2C], GapOnto(comma.value, rest), end);
    }
    hide GapOnto;
  }

  lemma {:induction false} MembersEnd(members: seq<Member>, comma: Maybe<Gap>, rest: seq<byte>, end: seq<byte>)
    requires members != [] && (forall m <- members :: IsMember(m)) && EndsWith(rest, end)
    ensures EndsWith(MembersOnto(members, comma, rest), end)
    decreases members, 1
  {
    var m, more := members[0], members[1..];
    assert m in members && forall i <- more :: i in members;
    assert IsMember(m);
    var tail := MoreMembersOnto(more, comma, rest);
    if more == [] {
      CommaEnds(comma, rest, end);
    } else {
      MembersEnd(more, comma, rest, end);
      BehindOther([0x2C], MembersOnto(more, comma, rest), end);
    }
    hide *;
    MemberParts(m);
    GapEnds(m.after, tail, end);
    var b := TextEnds(m.text, GapOnto(m.after, tail));
    EndsEnds(Onto(m.text, GapOnto(m.after, tail)), b, GapOnto(m.after, tail), end);
    KeyEnds(m, tail, end);
    MembersApart(members, comma, rest);
  }

  lemma KeyEnds(m: Member, tail: seq<byte>, end: seq<byte>)
    requires EndsWith(Onto(m.text, GapOnto(m.after, tail)), end)
    ensures EndsWith(MemberOnto(m, tail), end)
  {
    var value := Onto(m.text, GapOnto(m.after, tail));
    var colon := GapOnto(m.afterColon, value);
    GapEnds(m.afterColon, value, end);
    BehindOther([0x3A], colon, end);
    GapEnds(m.beforeColon, [0x3A] + colon, end);
    var key := GapOnto(m.beforeColon, [0x3A] + colon);
    BehindOther([0x22], key, end);
    PiecesEnd(m.key, [0x22] + key, end);
    BehindOther([0x22], PiecesOnto(m.key, [0x22] + key), end);
    GapEnds(m.before, [0x22] + PiecesOnto(m.key, [0x22] + key), end);
    hide GapOnto, Onto, PiecesOnto, EndsWith;
  }

  lemma MembersApart(members: seq<Member>, comma: Maybe<Gap>, rest: seq<byte>)
    requires members != []
    ensures MembersOnto(members, comma, rest) == MemberOnto(members[0], MoreMembersOnto(members[1..], comma, rest))
  {
    hide MemberOnto, MoreMembersOnto;
  }
}
