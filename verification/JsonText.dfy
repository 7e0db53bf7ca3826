/** JSON texts as RFC 8259 builds them, and what the parser allows beyond: comments, two escapes, trailing commas. */
module JsonTexts {
  import opened Utf8
  import opened JsonValues
  import opened JsonGrammar

  // ----- white space -----------------------------------------------------------------------------------------

  /** A blank of section 2 of RFC 8259, a comment up to a line end, or one between slash-star and star-slash. */
  datatype Filler = Blank(b: byte) | Line(text: seq<byte>, end: byte) | Block(text: seq<byte>)

  type Gap = seq<Filler>

  predicate IsFiller(f: Filler) {
    match f
    case Blank(b) => b == 0x20 || b == 0x09 || b == 0x0A || b == 0x0D
    case Line(text, end) => (end == 0x0A || end == 0x0D) && forall b <- text :: b != 0x0A && b != 0x0D
    case Block(text) => forall i :: 0 <= i < |text| && text[i] == 0x2A ==> (text + [0x2A])[i + 1] != 0x2F
  }

  predicate IsGap(gap: Gap) { forall f <- gap :: IsFiller(f) }

  /** The filler and what comes behind it. */
  function FillerOnto(f: Filler, rest: seq<byte>): seq<byte> {
    match f
    case Blank(b) => [b] + rest
    case Line(text, end) => [0x2F, 0x2F] + (text + ([end] + rest))
    case Block(text) => [0x2F, 0x2A] + (text + ([0x2A, 0x2F] + rest))
  }

  function GapOnto(gap: Gap, rest: seq<byte>): seq<byte> {
    if gap == [] then rest else FillerOnto(gap[0], GapOnto(gap[1..], rest))
  }

  // ----- strings ---------------------------------------------------------------------------------------------

  /** A hexadecimal digit of either case. */
  predicate SpellsHex(b: byte, d: nat) {
    (d < 10 && b == 0x30 + d) || (10 <= d < 16 && (b == 0x41 + (d - 10) || b == 0x61 + (d - 10)))
  }

  predicate SpellsFour(h: seq<byte>, v: nat) {
    && |h| == 4 && v < 0x10000 && SpellsHex(h[0], v / 4096) && SpellsHex(h[1], v / 256 % 16)
    && SpellsHex(h[2], v / 16 % 16) && SpellsHex(h[3], v % 16)
  }

  /** One of the ways to write the character c in a string. */
  datatype Piece = Piece(text: seq<byte>, c: nat)
  {
    predicate Valid() { IsPlain() || IsShort() || IsUnicode() || IsPair() || IsHex() }

    /** Itself, in UTF-8. */
    predicate IsPlain() { IsScalar(c) && c != 0x22 && c != 0x5C && text == Encode(c) }

    /** A backslash and a letter; \v is the parser's own. */
    predicate IsShort() {
      || (text == [0x5C, 0x22] && c == 0x22) || (text == [0x5C, 0x5C] && c == 0x5C)
      || (text == [0x5C, 0x2F] && c == 0x2F) || (text == [0x5C, 0x62] && c == 0x08)
      || (text == [0x5C, 0x66] && c == 0x0C) || (text == [0x5C, 0x6E] && c == 0x0A)
      || (text == [0x5C, 0x72] && c == 0x0D) || (text == [0x5C, 0x74] && c == 0x09)
      || (text == [0x5C, 0x76] && c == 0x0B)
    }

    /** \uXXXX */
    predicate IsUnicode() { |text| == 6 && IsScalar(c) && text[..2] == [0x5C, 0x75] && SpellsFour(text[2..], c) }

    /** \uXXXX\uXXXX with the two units of section 2.1 of RFC 2781. */
    predicate IsPair() {
      && |text| == 12 && 0x10000 <= c <= 0x10FFFF && text[..2] == [0x5C, 0x75] && text[6..8] == [0x5C, 0x75]
      && SpellsFour(text[2..6], 0xD800 + (c - 0x10000) / 0x400)
      && SpellsFour(text[8..], 0xDC00 + (c - 0x10000) % 0x400)
    }

    /** \xXX, the parser's own. */
    predicate IsHex() {
      |text| == 4 && c < 256 && text[..2] == [0x5C, 0x78] && SpellsHex(text[2], c / 16) && SpellsHex(text[3], c % 16)
    }

    /** What the parser makes of it: U+0000 is lost when it is written \u0000. */
    function Kept(): seq<byte>
      requires c <= 0x10FFFF
    {
      if c == 0 && |text| == 6 then [] else Encode(c)
    }
  }

  function PiecesOnto(pieces: seq<Piece>, rest: seq<byte>): seq<byte> {
    if pieces == [] then rest else pieces[0].text + PiecesOnto(pieces[1..], rest)
  }

  predicate ArePieces(pieces: seq<Piece>) { forall p <- pieces :: p.Valid() }

  datatype Outcome<+T> = Got(value: T) | Lost(code: ErrorCode)

  function Lift<T>(o: Outcome<T>, rest: seq<byte>): Parsed<T> {
    match o case Got(v) => Ok(v, rest) case Lost(code) => Fail(code)
  }

  /** The string that pieces behind what is decoded make; a noncharacter is refused. */
  function Said(pieces: seq<Piece>, decoded: seq<byte>): Outcome<seq<byte>>
    requires ArePieces(pieces)
  {
    if pieces == [] then Got(decoded)
    else
      var p := pieces[0];
      if IsValidCharacter(p.c) then Said(pieces[1..], decoded + p.Kept())
      else Lost(if p.IsPlain() then UnsupportedEncoding else InvalidEscape)
  }

  // ----- numbers ---------------------------------------------------------------------------------------------

  type digit = d: int | 0 <= d < 10

  datatype Sign = NoSign | PlusSign | MinusSign

  datatype Exponent = Exponent(capital: bool, sign: Sign, digits: seq<digit>)

  /** A number of section 6 of RFC 8259; no fraction is an empty one. */
  datatype Numeral = Numeral(negative: bool, whole: seq<digit>, fraction: seq<digit>, exponent: Maybe<Exponent>)

  predicate IsNumber(n: Numeral) {
    && n.whole != [] && (n.whole[0] == 0 ==> |n.whole| == 1)
    && (n.exponent.Just? ==> n.exponent.value.digits != [])
  }

  function DigitByte(d: digit): byte { 0x30 + d as int }

  function Spelled(digits: seq<digit>): (s: seq<byte>)
    ensures |s| == |digits|
  {
    seq(|digits|, i requires 0 <= i < |digits| => DigitByte(digits[i]))
  }

  function ExponentOnto(e: Maybe<Exponent>, rest: seq<byte>): seq<byte> {
    if e.Nothing? then rest
    else
      [if e.value.capital then 0x45 else 0x65]
      + (SignText(e.value.sign) + (Spelled(e.value.digits) + rest))
  }

  function SignText(sign: Sign): seq<byte> {
    match sign case NoSign => [] case PlusSign => [0x2B] case MinusSign => [0x2D]
  }

  function FractionOnto(fraction: seq<digit>, rest: seq<byte>): seq<byte> {
    if fraction == [] then rest else [0x2E] + (Spelled(fraction) + rest)
  }

  function NumeralOnto(n: Numeral, rest: seq<byte>): seq<byte> {
    (if n.negative then [0x2D] else []) + (Spelled(n.whole) + FractionOnto(n.fraction, ExponentOnto(n.exponent, rest)))
  }

  /** 10^k, below one for negative k. */
  function Ten(k: int): (r: real)
    ensures r > 0.0
    decreases if k < 0 then -k else k
  {
    if k == 0 then 1.0 else if k > 0 then 10.0 * Ten(k - 1) else Ten(k + 1) / 10.0
  }

  /** What digits are worth whose first stands before 10^place. */
  function Worth(digits: seq<digit>, place: int): (r: magnitude) {
    if digits == [] then 0.0 else digits[0] as real * Ten(place) + Worth(digits[1..], place - 1)
  }

  function Power(e: Maybe<Exponent>): int {
    if e.Nothing? then 0
    else
      var p := Worth(e.value.digits, |e.value.digits| - 1).Floor;
      if e.value.sign == MinusSign then -p else p
  }

  /** The number, without its sign. */
  function Size(n: Numeral): magnitude {
    (Worth(n.whole, |n.whole| - 1) + Worth(n.fraction, -1)) * Ten(Power(n.exponent))
  }

  /** An int where the numeral is that of one, and the nearest double otherwise. */
  function NumberMeans(n: Numeral, opt: Options): Outcome<Value> {
    var whole := Worth(n.whole, |n.whole| - 1).Floor;
    var signed := if n.negative then -whole else whole;
    if n.fraction == [] && n.exponent.Nothing? && -0x8000_0000 <= signed <= 0x7FFF_FFFF then Got(Int(signed))
    else Nearest(n.negative, Size(n), opt)
  }

  function Nearest(negative: bool, size: magnitude, opt: Options): Outcome<Value> {
    match opt.nearest(size) case Nothing => Lost(NoError) case Just(x) => Got(Double(negative, x))
  }

  // ----- values ----------------------------------------------------------------------------------------------

  /** The text of a value, gaps included; open is the gap in an empty container, comma one behind a trailing comma. */
  datatype Text =
    | NullText
    | BoolText(b: bool)
    | NumberText(numeral: Numeral)
    | StringText(pieces: seq<Piece>)
    | ArrayText(open: Gap, items: seq<Item>, comma: Maybe<Gap>)
    | ObjectText(open: Gap, members: seq<Member>, comma: Maybe<Gap>)

  datatype Item = Item(before: Gap, text: Text, after: Gap)

  datatype Member = Member(before: Gap, key: seq<Piece>, beforeColon: Gap, afterColon: Gap, text: Text, after: Gap)

  predicate IsComma(comma: Maybe<Gap>, n: nat) { comma.Just? ==> n > 0 && IsGap(comma.value) }

  predicate IsText(t: Text)
    decreases t, 0
  {
    match t
    case NumberText(n) => IsNumber(n)
    case StringText(pieces) => ArePieces(pieces)
    case ArrayText(open, items, comma) =>
      IsGap(open) && IsComma(comma, |items|)
      && forall item <- items :: IsItem(item)
    case ObjectText(open, members, comma) =>
      IsGap(open) && IsComma(comma, |members|) && forall m <- members :: IsMember(m)
    case _ => true
  }

  predicate IsItem(item: Item)
    decreases item, 1
  {
    IsGap(item.before) && IsText(item.text) && IsGap(item.after)
  }

  predicate IsMember(m: Member)
    decreases m, 1
  {
    && IsGap(m.before) && ArePieces(m.key) && IsGap(m.beforeColon) && IsGap(m.afterColon) && IsText(m.text)
    && IsGap(m.after)
  }

  function CommaOnto(comma: Maybe<Gap>, rest: seq<byte>): seq<byte> {
    match comma case Nothing => rest case Just(gap) => [0x2C] + GapOnto(gap, rest)
  }

  /** The text and what comes behind it. */
  function Onto(t: Text, rest: seq<byte>): seq<byte>
    decreases t, 0
  {
    match t
    case NullText => [0x6E, 0x75, 0x6C, 0x6C] + rest
    case BoolText(b) => (if b then [0x74, 0x72, 0x75, 0x65] else [0x66, 0x61, 0x6C, 0x73, 0x65]) + rest
    case NumberText(n) => NumeralOnto(n, rest)
    case StringText(pieces) => [0x22] + PiecesOnto(pieces, [0x22] + rest)
    case ArrayText(open, items, comma) =>
      [0x5B] + if items == [] then GapOnto(open, [0x5D] + rest) else ItemsOnto(items, comma, [0x5D] + rest)
    case ObjectText(open, members, comma) =>
      [0x7B] + if members == [] then GapOnto(open, [0x7D] + rest) else MembersOnto(members, comma, [0x7D] + rest)
  }

  /** Items, without the comma before the first. */
  function ItemsOnto(items: seq<Item>, comma: Maybe<Gap>, rest: seq<byte>): seq<byte>
    requires items != []
    decreases items, 2
  {
    ItemOnto(items[0], MoreItemsOnto(items[1..], comma, rest))
  }

  function ItemOnto(item: Item, rest: seq<byte>): seq<byte>
    decreases item, 1
  {
    GapOnto(item.before, Onto(item.text, GapOnto(item.after, rest)))
  }

  function MoreItemsOnto(items: seq<Item>, comma: Maybe<Gap>, rest: seq<byte>): seq<byte>
    decreases items, 3
  {
    if items == [] then CommaOnto(comma, rest) else [0x2C] + ItemsOnto(items, comma, rest)
  }

  function MembersOnto(members: seq<Member>, comma: Maybe<Gap>, rest: seq<byte>): seq<byte>
    requires members != []
    decreases members, 2
  {
    MemberOnto(members[0], MoreMembersOnto(members[1..], comma, rest))
  }

  function MemberOnto(m: Member, rest: seq<byte>): seq<byte>
    decreases m, 1
  {
    GapOnto(m.before, KeyOnto(m.key, ColonOnto(m.beforeColon, m.afterColon, Onto(m.text, GapOnto(m.after, rest)))))
  }

  function KeyOnto(key: seq<Piece>, rest: seq<byte>): seq<byte> { [0x22] + PiecesOnto(key, [0x22] + rest) }

  function ColonOnto(before: Gap, after: Gap, rest: seq<byte>): seq<byte> {
    GapOnto(before, [0x3A] + GapOnto(after, rest))
  }

  function MoreMembersOnto(members: seq<Member>, comma: Maybe<Gap>, rest: seq<byte>): seq<byte>
    decreases members, 3
  {
    if members == [] then CommaOnto(comma, rest) else [0x2C] + MembersOnto(members, comma, rest)
  }

  /** What a text means inside depth containers: its value, or the error found first. */
  function Means(t: Text, depth: nat, opt: Options): Outcome<Value>
    requires IsText(t)
    decreases t, 0
  {
    match t
    case NullText => Got(Null)
    case BoolText(b) => Got(Bool(b))
    case NumberText(n) => NumberMeans(n, opt)
    case StringText(pieces) => (match Said(pieces, []) case Lost(code) => Lost(code) case Got(s) => Got(Str(s)))
    case ArrayText(_, items, comma) =>
      if depth + 1 >= 100 then Lost(TooMuchNesting) else ItemsMean(items, comma, depth + 1, [], opt)
    case ObjectText(_, members, comma) =>
      if depth + 1 >= 100 then Lost(TooMuchNesting) else MembersMean(members, comma, depth + 1, [], opt)
  }

  function ItemsMean(items: seq<Item>, comma: Maybe<Gap>, depth: nat, read: seq<Value>, opt: Options): Outcome<Value>
    requires forall item <- items :: IsItem(item)
    decreases items, 2
  {
    if items == [] then EndMeans(comma, List(read), opt)
    else match ItemMeans(items[0], depth, opt)
      case Lost(code) => Lost(code)
      case Got(v) => ItemsMean(items[1..], comma, depth, read + [v], opt)
  }

  function ItemMeans(item: Item, depth: nat, opt: Options): Outcome<Value>
    requires IsItem(item)
    decreases item, 1
  {
    Means(item.text, depth, opt)
  }

  function EndMeans(comma: Maybe<Gap>, v: Value, opt: Options): Outcome<Value> {
    if comma.Just? && !opt.allowTrailingCommas then Lost(TrailingComma) else Got(v)
  }

  function MembersMean(members: seq<Member>, comma: Maybe<Gap>, depth: nat, read: seq<Entry>, opt: Options):
    Outcome<Value>
    requires forall m <- members :: IsMember(m)
    decreases members, 2
  {
    if members == [] then EndMeans(comma, Dict(read), opt)
    else
      assert IsMember(members[0]);
      match Said(members[0].key, [])
      case Lost(code) => Lost(code)
      case Got(key) =>
        match MemberMeans(members[0], depth, opt)
        case Lost(code) => Lost(code)
        case Got(v) => MembersMean(members[1..], comma, depth, Set(read, key, v), opt)
  }

  function MemberMeans(m: Member, depth: nat, opt: Options): Outcome<Value>
    requires IsMember(m)
    decreases m, 1
  {
    Means(m.text, depth, opt)
  }
}
