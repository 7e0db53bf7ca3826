/** What the writer writes for a value is a JSON text, and which one: numbers by their digits, strings
    by their escapes, and between them nothing, or in the pretty layout line endings, indentation and
    single blanks. */
module JsonOutput {
  import opened Utf8
  import opened Numbers
  import opened JsonValues
  import opened JsonWriting
  import opened JsonTexts
  import opened Chunks
  import opened JsonEscapes

  // ----- numbers ---------------------------------------------------------------------------------------------

  /** The decimal digits of n. */
  function DigitsOf(n: nat): (d: seq<digit>)
    ensures d != []
  {
    if n < 10 then [n] else DigitsOf(n / 10) + [n % 10]
  }

  function LastDigitsOf(n: nat, k: nat): (d: seq<digit>)
    ensures |d| == k
  {
    if k == 0 then [] else LastDigitsOf(n / 10, k - 1) + [n % 10]
  }

  lemma {:induction false} DecimalIsSpelled(n: nat)
    ensures Decimal(n) == Spelled(DigitsOf(n))
    ensures DigitsOf(n)[0] == 0 ==> n == 0 && |DigitsOf(n)| == 1
  {
    if n >= 10 {
      DecimalIsSpelled(n / 10);
      SpelledMore(DigitsOf(n / 10), n % 10);
    }
  }

  lemma SpelledMore(d: seq<digit>, x: digit)
    ensures Spelled(d + [x]) == Spelled(d) + [DigitByte(x)]
  {}

  lemma {:induction false} LastDigitsAreSpelled(n: nat, k: nat)
    ensures LastDigits(n, k) == Spelled(LastDigitsOf(n, k))
  {
    if k > 0 {
      LastDigitsAreSpelled(n / 10, k - 1);
      SpelledMore(LastDigitsOf(n / 10, k - 1), n % 10);
    }
  }

  function WholeNumeral(n: int): Numeral { Numeral(n < 0, DigitsOf(if n < 0 then -n else n), [], Nothing) }

  function FixedNumeral(negative: bool, millionths: nat): Numeral {
    Numeral(negative, DigitsOf(millionths / 1_000_000), LastDigitsOf(millionths, 6), Nothing)
  }

  function DoubleNumeral(negative: bool, size: magnitude, style: Style): Numeral {
    if style.AsInteger(size) then WholeNumeral(style.Cast(Signed(size.Floor, negative)))
    else FixedNumeral(negative, Millionths(size))
  }

  lemma IntIsNumeral(n: int, rest: seq<byte>)
    ensures IsNumber(WholeNumeral(n)) && IntText(n) + rest == NumeralOnto(WholeNumeral(n), rest)
  {
    DecimalIsSpelled(if n < 0 then -n else n);
    hide Decimal, DigitsOf, Spelled;
  }

  lemma FixedIsNumeral(negative: bool, m: nat, rest: seq<byte>)
    ensures IsNumber(FixedNumeral(negative, m))
    ensures FixedText(negative, m) + rest == NumeralOnto(FixedNumeral(negative, m), rest)
  {
    var w, f := Decimal(m / 1_000_000), LastDigits(m, 6);
    DecimalIsSpelled(m / 1_000_000);
    LastDigitsAreSpelled(m, 6);
    hide Decimal, DigitsOf, Spelled, LastDigits, LastDigitsOf;
    Regroup(w, [0x2E] + f, rest);
    Regroup([0x2E], f, rest);
  }

  lemma DoubleIsNumeral(negative: bool, size: magnitude, style: Style, rest: seq<byte>)
    ensures IsNumber(DoubleNumeral(negative, size, style))
    ensures DoubleText(negative, size, style) + rest == NumeralOnto(DoubleNumeral(negative, size, style), rest)
  {
    if style.AsInteger(size) {
      IntIsNumeral(style.Cast(Signed(size.Floor, negative)), rest);
    } else {
      FixedIsNumeral(negative, Millionths(size), rest);
    }
    hide WholeNumeral, FixedNumeral, NumeralOnto, IsNumber, IntText, FixedText, Millionths;
  }

  // ----- values ----------------------------------------------------------------------------------------------

  function Blanks(s: seq<byte>): Gap { seq(|s|, i requires 0 <= i < |s| => Filler.Blank(s[i])) }

  predicate AllBlank(s: seq<byte>) { forall b <- s :: b == 0x20 || b == 0x0A || b == 0x0D }

  lemma BlanksAreGap(s: seq<byte>)
    requires AllBlank(s)
    ensures IsGap(Blanks(s))
  {
    forall f | f in Blanks(s) ensures IsFiller(f) {
      var i :| 0 <= i < |s| && f == Filler.Blank(s[i]);
      assert s[i] in s;
    }
  }

  lemma {:induction false} BlanksOnto(s: seq<byte>, rest: seq<byte>)
    ensures GapOnto(Blanks(s), rest) == s + rest
  {
    if s == [] {
      assert [] + rest == rest;
    } else {
      assert Blanks(s)[1..] == Blanks(s[1..]);
      BlanksOnto(s[1..], rest);
      assert s == [s[0]] + s[1..];
      Regroup([s[0]], s[1..], rest);
    }
  }

  /** The text of a value: in the pretty layout a blank inside the brackets of a list and behind its commas, each member
      on a line of its own, indented by three blanks for each dictionary around it, and a blank behind each colon. */
  function TextOf(v: Value, depth: nat, style: Style): Text
    requires NoBinary(v)
    decreases v, 0
  {
    match v
    case Null => NullText
    case Bool(b) => BoolText(b)
    case Int(n) => NumberText(WholeNumeral(n))
    case Double(negative, size) => NumberText(DoubleNumeral(negative, size, style))
    case Str(s) => StringText(PiecesOf(s))
    case List(items) =>
      var open := if style.pretty then [Filler.Blank(0x20), Filler.Blank(0x20)] else [];
      ArrayText(open, ItemsOf(items, depth, style), Nothing)
    case Dict(entries) =>
      ObjectText(Blanks(style.Line() + NewLine(style, depth)), MembersOf(entries, depth, style), Nothing)
  }

  function OneBlank(style: Style): Gap { if style.pretty then [Filler.Blank(0x20)] else [] }

  /** A line ending and the indentation of the next line. */
  function NewLine(style: Style, depth: nat): seq<byte> {
    if style.pretty then style.lineEnding + seq(3 * depth, _ => 0x20) else []
  }

  function ItemsOf(items: seq<Value>, depth: nat, style: Style): (r: seq<Item>)
    requires forall item <- items :: NoBinary(item)
    ensures |r| == |items|
    decreases items, 1
  {
    if items == [] then []
    else
      [Item(OneBlank(style), TextOf(items[0], depth, style), if |items| == 1 then OneBlank(style) else [])]
      + ItemsOf(items[1..], depth, style)
  }

  function MembersOf(entries: seq<Entry>, depth: nat, style: Style): (r: seq<Member>)
    requires forall e <- entries :: NoBinary(e.value)
    ensures |r| == |entries|
    decreases entries, 2
  {
    if entries == [] then []
    else [MemberOf(entries[0], |entries| == 1, depth, style)] + MembersOf(entries[1..], depth, style)
  }

  function MemberOf(e: Entry, last: bool, depth: nat, style: Style): Member
    requires NoBinary(e.value)
    decreases e, 1
  {
    Member(Blanks(NewLine(style, depth + 1)), PiecesOf(e.key), [], OneBlank(style), TextOf(e.value, depth + 1, style),
           if last then Blanks(NewLine(style, depth)) else [])
  }

  lemma NewLineIsBlank(style: Style, depth: nat)
    requires style.Valid()
    ensures AllBlank(NewLine(style, depth)) && AllBlank(style.Line() + NewLine(style, depth))
    ensures NewLine(style, depth) == style.Line() + style.Indent(depth)
  {
    assert style.lineEnding + seq(3 * depth, _ => 0x20) == style.Line() + style.Indent(depth) || !style.pretty;
  }

  lemma OneBlankIsSpace(style: Style, rest: seq<byte>)
    ensures IsGap(OneBlank(style)) && GapOnto(OneBlank(style), rest) == style.Space() + rest
  {}

  /** The text is well formed. */
  lemma {:induction false} TextOfIsText(v: Value, depth: nat, style: Style)
    requires NoBinary(v) && style.Valid()
    ensures IsText(TextOf(v, depth, style))
    decreases v, 0
  {
    match v
    case Int(n) => IntIsNumeral(n, []);
    case Double(negative, size) => DoubleIsNumeral(negative, size, style, []);
    case Str(s) => PiecesAreValid(s);
    case List(items) =>
      ItemsOfAreItems(items, depth, style);
      hide ItemsOf, IsItem;
    case Dict(entries) =>
      MembersOfAreMembers(entries, depth, style);
      NewLineIsBlank(style, depth);
      BlanksAreGap(style.Line() + NewLine(style, depth));
      hide MembersOf, IsMember, IsGap, NewLine, Style.Line, Blanks;
    case _ =>
  }

  lemma {:induction false} ItemsOfAreItems(items: seq<Value>, depth: nat, style: Style)
    requires (forall item <- items :: NoBinary(item)) && style.Valid()
    ensures forall item <- ItemsOf(items, depth, style) :: IsItem(item)
    decreases items, 1
  {
    if items != [] {
      assert items[0] in items && forall item <- items[1..] :: item in items;
      TextOfIsText(items[0], depth, style);
      ItemsOfAreItems(items[1..], depth, style);
      OneBlankIsSpace(style, []);
      hide TextOf, OneBlank, IsText, NoBinary;
    }
  }

  lemma {:induction false} MembersOfAreMembers(entries: seq<Entry>, depth: nat, style: Style)
    requires (forall e <- entries :: NoBinary(e.value)) && style.Valid()
    ensures forall m <- MembersOf(entries, depth, style) :: IsMember(m)
    decreases entries, 2
  {
    if entries != [] {
      assert entries[0] in entries && forall e <- entries[1..] :: e in entries;
      MembersOfAreMembers(entries[1..], depth, style);
      MemberOfIsMember(entries[0], |entries| == 1, depth, style);
      hide MemberOf, NoBinary, IsMember;
    }
  }

  lemma {:induction false} MemberOfIsMember(e: Entry, last: bool, depth: nat, style: Style)
    requires NoBinary(e.value) && style.Valid()
    ensures IsMember(MemberOf(e, last, depth, style))
    decreases e, 1
  {
    TextOfIsText(e.value, depth + 1, style);
    PiecesAreValid(e.key);
    NewLineIsBlank(style, depth + 1);
    NewLineIsBlank(style, depth);
    BlanksAreGap(NewLine(style, depth + 1));
    BlanksAreGap(NewLine(style, depth));
    OneBlankIsSpace(style, []);
    assert IsGap([]);
    hide IsText, TextOf, IsGap, Blanks, NewLine, OneBlank, ArePieces, PiecesOf, NoBinary;
  }

  /** The writer writes exactly this text, whatever comes behind it. */
  lemma {:induction false} WritesText(v: Value, depth: nat, style: Style, rest: seq<byte>)
    requires NoBinary(v) && style.Valid()
    ensures Write(v, depth, style) + rest == Onto(TextOf(v, depth, style), rest)
    decreases v, 0
  {
    match v
    case Int(n) =>
      IntIsNumeral(n, rest);
      hide IntText, WholeNumeral, NumeralOnto;
    case Double(negative, size) =>
      DoubleIsNumeral(negative, size, style, rest);
      hide DoubleText, DoubleNumeral, NumeralOnto;
    case Str(s) =>
      QuotedIsKey(s, rest);
      hide Quoted, PiecesOnto, PiecesOf;
    case List(items) =>
      if items != [] { WritesItems(items, depth, style, [0x5D] + rest); }
      ListIsArray(items, depth, style, rest);
      hide Write, Onto, TextOf;
    case Dict(entries) =>
      if entries != [] { WritesMembers(entries, depth, style, [0x7D] + rest); }
      DictIsObject(entries, depth, style, rest);
      hide Write, Onto, TextOf;
    case _ =>
  }

  lemma QuotedIsKey(s: seq<byte>, rest: seq<byte>)
    ensures Quoted(s) + rest == KeyOnto(PiecesOf(s), rest) == [0x22] + PiecesOnto(PiecesOf(s), [0x22] + rest)
  {
    EscapeIsPieces(s, [0x22] + rest);
    var e := EscapeText(s);
    hide EscapeText, PiecesOnto, PiecesOf;
    assert [0x22] + e + [0x22] + rest == [0x22] + (e + ([0x22] + rest));
  }

  lemma ListIsArray(items: seq<Value>, depth: nat, style: Style, rest: seq<byte>)
    requires NoBinary(List(items)) && forall item <- items :: NoBinary(item)
    requires items != [] ==>
      style.Space() + (WriteItems(items, true, depth, style) + (style.Space() + ([0x5D] + rest)))
      == ItemsOnto(ItemsOf(items, depth, style), Nothing, [0x5D] + rest)
    ensures Write(List(items), depth, style) + rest == Onto(TextOf(List(items), depth, style), rest)
  {
    hide *;
    var b, w := style.Space(), WriteItems(items, true, depth, style);
    ListMeans(items, depth, style);
    ArrayUnfolds(items, depth, style, rest);
    Brackets(b, w, rest);
    if items == [] {
      TwoBlanks(style, [0x5D] + rest);
      NothingToWrite(depth, style);
      NothingBetween(b, [0x5D] + rest);
    }
  }

  lemma ArrayUnfolds(items: seq<Value>, depth: nat, style: Style, rest: seq<byte>)
    requires NoBinary(List(items)) && forall item <- items :: NoBinary(item)
    ensures Onto(TextOf(List(items), depth, style), rest)
         == [0x5B] + if items == [] then
                       GapOnto(if style.pretty then [Filler.Blank(0x20), Filler.Blank(0x20)] else [], [0x5D] + rest)
                     else ItemsOnto(ItemsOf(items, depth, style), Nothing, [0x5D] + rest)
  {
    hide ItemsOnto, ItemsOf, NoBinary, GapOnto;
  }

  lemma Brackets(b: seq<byte>, w: seq<byte>, rest: seq<byte>)
    ensures [0x5B] + b + w + b + [0x5D] + rest == [0x5B] + (b + (w + (b + ([0x5D] + rest))))
  {}

  lemma NothingBetween(b: seq<byte>, rest: seq<byte>)
    ensures b + ([] + (b + rest)) == b + b + rest
  {}

  lemma TwoBlanks(style: Style, rest: seq<byte>)
    ensures GapOnto(if style.pretty then [Filler.Blank(0x20), Filler.Blank(0x20)] else [], rest)
         == style.Space() + style.Space() + rest
  {
    if style.pretty {
      var gap := [Filler.Blank(0x20), Filler.Blank(0x20)];
      assert gap[1..] == [Filler.Blank(0x20)] && gap[1..][1..] == [];
      assert GapOnto(gap[1..], rest) == [0x20] + rest;
    }
  }

  lemma {:induction false} WritesItems(items: seq<Value>, depth: nat, style: Style, rest: seq<byte>)
    requires items != [] && (forall item <- items :: NoBinary(item)) && style.Valid()
    ensures style.Space() + (WriteItems(items, true, depth, style) + (style.Space() + rest))
         == ItemsOnto(ItemsOf(items, depth, style), Nothing, rest)
    decreases items, 1
  {
    var v, tail := items[0], items[1..];
    assert v in items && forall item <- tail :: item in items;
    var b, w, end := style.Space(), WriteItems(tail, false, depth, style), style.Space() + rest;
    hide *;
    if tail != [] { WritesItems(tail, depth, style, rest); }
    TailWritten(tail, depth, style, rest);
    WritesText(v, depth, style, w + end);
    ItemsUnfold(items, depth, style);
    Regroup(Write(v, depth, style), w, end);
    ItemsOntoUnfold(ItemsOf(items, depth, style), rest);
    FirstItem(items, depth, style, rest);
  }

  lemma ItemsUnfold(items: seq<Value>, depth: nat, style: Style)
    requires items != [] && forall item <- items :: NoBinary(item)
    ensures WriteItems(items, true, depth, style)
         == Write(items[0], depth, style) + WriteItems(items[1..], false, depth, style)
    ensures WriteItems(items, false, depth, style)
         == [0x2C] + (style.Space() + WriteItems(items, true, depth, style))
  {
    var w, m := Write(items[0], depth, style), WriteItems(items[1..], false, depth, style);
    assert items[0] in items;
    assert !style.Omits(items[0]);
    hide Write, NoBinary, Style.Space;
    SeparatorGroups(style.Space(), w, m);
  }

  lemma SeparatorGroups(gap: seq<byte>, w: seq<byte>, m: seq<byte>)
    ensures [] + w + m == w + m && [0x2C] + gap + w + m == [0x2C] + (gap + (w + m))
  {}

  lemma NothingToWrite(depth: nat, style: Style)
    ensures forall first :: WriteItems([], first, depth, style) == [] && WriteMembers([], first, depth, style) == []
    ensures ItemsOf([], depth, style) == [] && MembersOf([], depth, style) == []
  {}

  /** What is behind the first item. */
  lemma TailWritten(tail: seq<Value>, depth: nat, style: Style, rest: seq<byte>)
    requires forall item <- tail :: NoBinary(item)
    requires tail != [] ==> style.Space() + (WriteItems(tail, true, depth, style) + (style.Space() + rest))
                            == ItemsOnto(ItemsOf(tail, depth, style), Nothing, rest)
    ensures GapOnto(if tail == [] then OneBlank(style) else [],
                    MoreItemsOnto(ItemsOf(tail, depth, style), Nothing, rest))
         == WriteItems(tail, false, depth, style) + (style.Space() + rest)
  {
    hide *;
    var b, w := style.Space(), WriteItems(tail, true, depth, style);
    NothingToWrite(depth, style);
    if tail == [] {
      OneBlankIsSpace(style, rest);
      NoMore(rest);
    } else {
      ItemsUnfold(tail, depth, style);
      CommaThenItems(ItemsOf(tail, depth, style), rest);
      NoGap(MoreItemsOnto(ItemsOf(tail, depth, style), Nothing, rest));
      CommaGroups(b, w, b, rest);
    }
  }

  lemma CommaGroups(b: seq<byte>, w: seq<byte>, n: seq<byte>, rest: seq<byte>)
    ensures [0x2C] + (b + w) + (n + rest) == [0x2C] + (b + (w + (n + rest)))
  {}

  lemma NoMore(rest: seq<byte>)
    ensures MoreItemsOnto([], Nothing, rest) == rest && MoreMembersOnto([], Nothing, rest) == rest
    ensures forall t: seq<byte> :: [] + t == t
  {}

  lemma CommaThenItems(items: seq<Item>, rest: seq<byte>)
    requires items != []
    ensures MoreItemsOnto(items, Nothing, rest) == [0x2C] + ItemsOnto(items, Nothing, rest)
  {
    hide ItemsOnto;
  }

  lemma CommaThenMembers(members: seq<Member>, rest: seq<byte>)
    requires members != []
    ensures MoreMembersOnto(members, Nothing, rest) == [0x2C] + MembersOnto(members, Nothing, rest)
  {
    hide MembersOnto;
  }

  lemma ItemsOntoUnfold(items: seq<Item>, rest: seq<byte>)
    requires items != []
    ensures ItemsOnto(items, Nothing, rest)
         == GapOnto(items[0].before,
                    Onto(items[0].text, GapOnto(items[0].after, MoreItemsOnto(items[1..], Nothing, rest))))
  {
    hide GapOnto, Onto, MoreItemsOnto;
  }

  lemma FirstItem(items: seq<Value>, depth: nat, style: Style, rest: seq<byte>)
    requires items != [] && forall item <- items :: NoBinary(item)
    requires NoBinary(items[0]) && forall item <- items[1..] :: NoBinary(item)
    ensures var r := ItemsOf(items, depth, style);
      && r[0] == Item(OneBlank(style), TextOf(items[0], depth, style), if items[1..] == [] then OneBlank(style) else [])
      && r[1..] == ItemsOf(items[1..], depth, style)
    ensures forall t: seq<byte> :: GapOnto(OneBlank(style), t) == style.Space() + t
  {
    forall t: seq<byte> ensures GapOnto(OneBlank(style), t) == style.Space() + t { OneBlankIsSpace(style, t); }
    hide TextOf, OneBlank, NoBinary, Style.Space, GapOnto;
  }

  lemma DictIsObject(entries: seq<Entry>, depth: nat, style: Style, rest: seq<byte>)
    requires NoBinary(Dict(entries)) && (forall e <- entries :: NoBinary(e.value)) && style.Valid()
    requires entries != [] ==>
      style.Line() + (WriteMembers(entries, true, depth, style) + (NewLine(style, depth) + ([0x7D] + rest)))
      == MembersOnto(MembersOf(entries, depth, style), Nothing, [0x7D] + rest)
    ensures Write(Dict(entries), depth, style) + rest == Onto(TextOf(Dict(entries), depth, style), rest)
  {
    hide *;
    var l, w, n := style.Line(), WriteMembers(entries, true, depth, style), NewLine(style, depth);
    DictMeans(entries, depth, style);
    ObjectUnfolds(entries, depth, style, rest);
    NewLineIsBlank(style, depth);
    Closing(l, w, style.Indent(depth), n, rest);
    if entries == [] {
      BlanksOnto(l + n, [0x7D] + rest);
      NothingToWrite(depth, style);
      NothingInside(l, n, [0x7D] + rest);
    }
  }

  lemma ObjectUnfolds(entries: seq<Entry>, depth: nat, style: Style, rest: seq<byte>)
    requires NoBinary(Dict(entries)) && forall e <- entries :: NoBinary(e.value)
    ensures Onto(TextOf(Dict(entries), depth, style), rest)
         == [0x7B] + if entries == [] then GapOnto(Blanks(style.Line() + NewLine(style, depth)), [0x7D] + rest)
                     else MembersOnto(MembersOf(entries, depth, style), Nothing, [0x7D] + rest)
  {
    hide MembersOnto, MembersOf, NoBinary, GapOnto, Blanks, NewLine, Style.Line;
  }

  lemma NothingInside(l: seq<byte>, n: seq<byte>, rest: seq<byte>)
    ensures l + ([] + (n + rest)) == l + n + rest
  {}

  lemma Closing(l: seq<byte>, w: seq<byte>, i: seq<byte>, n: seq<byte>, rest: seq<byte>)
    requires n == l + i
    ensures [0x7B] + l + w + l + i + [0x7D] + rest == [0x7B] + (l + (w + (n + ([0x7D] + rest))))
  {}

  lemma {:induction false} WritesMembers(entries: seq<Entry>, depth: nat, style: Style, rest: seq<byte>)
    requires entries != [] && (forall e <- entries :: NoBinary(e.value)) && style.Valid()
    ensures style.Line() + (WriteMembers(entries, true, depth, style) + (NewLine(style, depth) + rest))
         == MembersOnto(MembersOf(entries, depth, style), Nothing, rest)
    decreases entries, 2
  {
    var e, tail := entries[0], entries[1..];
    assert e in entries && forall m <- tail :: m in entries;
    var w, end := WriteMembers(tail, false, depth, style), NewLine(style, depth) + rest;
    hide *;
    if tail != [] { WritesMembers(tail, depth, style, rest); }
    MembersTailWritten(tail, depth, style, rest);
    var more := MoreMembersOnto(MembersOf(tail, depth, style), Nothing, rest);
    WritesMember(e, tail == [], depth, style, more, w + end);
    MembersUnfold(entries, depth, style);
    Regroup(WriteMember(e, depth, style), w, end);
    MembersOntoUnfold(MembersOf(entries, depth, style), rest);
    FirstMember(entries, depth, style);
  }

  lemma MembersUnfold(entries: seq<Entry>, depth: nat, style: Style)
    requires entries != [] && forall e <- entries :: NoBinary(e.value)
    ensures WriteMembers(entries, true, depth, style)
         == WriteMember(entries[0], depth, style) + WriteMembers(entries[1..], false, depth, style)
    ensures WriteMembers(entries, false, depth, style)
         == [0x2C] + (style.Line() + WriteMembers(entries, true, depth, style))
  {
    var w, m := WriteMember(entries[0], depth, style), WriteMembers(entries[1..], false, depth, style);
    assert entries[0] in entries;
    assert !style.Omits(entries[0].value);
    hide WriteMember, NoBinary, Style.Line;
    SeparatorGroups(style.Line(), w, m);
  }

  /** What is behind the first member. */
  lemma MembersTailWritten(tail: seq<Entry>, depth: nat, style: Style, rest: seq<byte>)
    requires forall e <- tail :: NoBinary(e.value)
    requires tail != [] ==>
      style.Line() + (WriteMembers(tail, true, depth, style) + (NewLine(style, depth) + rest))
      == MembersOnto(MembersOf(tail, depth, style), Nothing, rest)
    ensures GapOnto(if tail == [] then Blanks(NewLine(style, depth)) else [],
                    MoreMembersOnto(MembersOf(tail, depth, style), Nothing, rest))
         == WriteMembers(tail, false, depth, style) + (NewLine(style, depth) + rest)
  {
    hide *;
    var l, w, n := style.Line(), WriteMembers(tail, true, depth, style), NewLine(style, depth);
    NothingToWrite(depth, style);
    if tail == [] {
      BlanksOnto(n, rest);
      NoMore(rest);
    } else {
      MembersUnfold(tail, depth, style);
      CommaThenMembers(MembersOf(tail, depth, style), rest);
      NoGap(MoreMembersOnto(MembersOf(tail, depth, style), Nothing, rest));
      CommaGroups(l, w, n, rest);
    }
  }

  lemma MembersOntoUnfold(members: seq<Member>, rest: seq<byte>)
    requires members != []
    ensures MembersOnto(members, Nothing, rest) == MemberOnto(members[0], MoreMembersOnto(members[1..], Nothing, rest))
  {
    hide MemberOnto, MoreMembersOnto;
  }

  lemma FirstMember(entries: seq<Entry>, depth: nat, style: Style)
    requires entries != [] && forall e <- entries :: NoBinary(e.value)
    requires NoBinary(entries[0].value) && forall e <- entries[1..] :: NoBinary(e.value)
    ensures var r := MembersOf(entries, depth, style);
      r[0] == MemberOf(entries[0], entries[1..] == [], depth, style) && r[1..] == MembersOf(entries[1..], depth, style)
  {
    hide MemberOf, NoBinary;
  }

  lemma {:induction false} WritesMember(e: Entry, last: bool, depth: nat, style: Style, more: seq<byte>, t: seq<byte>)
    requires NoBinary(e.value) && style.Valid()
    requires t == GapOnto(if last then Blanks(NewLine(style, depth)) else [], more)
    ensures style.Line() + (WriteMember(e, depth, style) + t) == MemberOnto(MemberOf(e, last, depth, style), more)
    decreases e, 1
  {
    hide *;
    WritesText(e.value, depth + 1, style, t);
    var value := Write(e.value, depth + 1, style) + t;
    OneBlankIsSpace(style, value);
    NoGap([0x3A] + (style.Space() + value));
    QuotedIsKey(e.key, [0x3A] + (style.Space() + value));
    NewLineIsBlank(style, depth + 1);
    BlanksOnto(NewLine(style, depth + 1), Quoted(e.key) + ([0x3A] + (style.Space() + value)));
    MemberUnfolds(e, last, depth, style, more, t);
    MemberGroups(style.Line(), style.Indent(depth + 1), Quoted(e.key), style.Space(),
                 Write(e.value, depth + 1, style), t);
  }

  lemma NoGap(t: seq<byte>)
    ensures GapOnto([], t) == t
  {}

  lemma MemberUnfolds(e: Entry, last: bool, depth: nat, style: Style, more: seq<byte>, t: seq<byte>)
    requires NoBinary(e.value) && t == GapOnto(if last then Blanks(NewLine(style, depth)) else [], more)
    ensures MemberOnto(MemberOf(e, last, depth, style), more)
         == GapOnto(Blanks(NewLine(style, depth + 1)),
                    KeyOnto(PiecesOf(e.key),
                            GapOnto([], [0x3A] + GapOnto(OneBlank(style), Onto(TextOf(e.value, depth + 1, style), t)))))
    ensures WriteMember(e, depth, style)
         == style.Indent(depth + 1) + Quoted(e.key) + [0x3A] + style.Space() + Write(e.value, depth + 1, style)
  {
    hide GapOnto, KeyOnto, Onto, TextOf, PiecesOf, Blanks, NewLine, OneBlank, Quoted, Write, NoBinary, Style.Indent,
      Style.Space;
  }

  lemma MemberGroups(l: seq<byte>, i: seq<byte>, q: seq<byte>, b: seq<byte>, w: seq<byte>, t: seq<byte>)
    ensures l + ((i + q + [0x3A] + b + w) + t) == (l + i) + (q + ([0x3A] + (b + (w + t))))
  {}
}
