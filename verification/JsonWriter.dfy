/** What JSONWriter writes, compact or pretty-printed, and the string escaping it uses. The functions say what the
    text of a value is; the class appends it piece by piece. */
module JsonWriting {
  import opened Utf8
  import opened Numbers
  import opened JsonValues
  import opened JsonGrammar

  const REPLACEMENT := 0xFFFD

  function HexDigit(d: nat): byte
    requires d < 16
  {
    if d < 10 then 0x30 + d else 0x37 + d
  }

  /** \u%04X */
  function U16Escape(c: nat): seq<byte>
    requires c < 0x10000
  {
    [0x5C, 0x75, HexDigit(c / 4096), HexDigit(c / 256 % 16), HexDigit(c / 16 % 16), HexDigit(c % 16)]
  }

  /** EscapeSpecialCodePoint: the characters with an escape of their own, or nothing. */
  function EscapeSpecial(c: nat): seq<byte> {
    if c == 0x08 then [0x5C, 0x62] else if c == 0x0C then [0x5C, 0x66] else if c == 0x0A then [0x5C, 0x6E]
    else if c == 0x0D then [0x5C, 0x72] else if c == 0x09 then [0x5C, 0x74] else if c == 0x5C then [0x5C, 0x5C]
    else if c == 0x22 then [0x5C, 0x22]
    else if c == 0x3C then [0x5C, 0x75, 0x30, 0x30, 0x33, 0x43]
    else if c == 0x2028 then [0x5C, 0x75, 0x32, 0x30, 0x32, 0x38]
    else if c == 0x2029 then [0x5C, 0x75, 0x32, 0x30, 0x32, 0x39]
    else []
  }

  function EscapeCodePoint(c: nat): (s: seq<byte>)
    requires c <= 0x10FFFF
    ensures s != []
  {
    if EscapeSpecial(c) != [] then EscapeSpecial(c) else if c < 32 then U16Escape(c) else Encode(c)
  }

  /** The next code point of s, U+FFFD for a sequence that is ill-formed. */
  function Repaired(s: seq<byte>): (c: nat)
    requires s != []
    ensures IsScalar(c)
  {
    if IsScalar(Next(s).codePoint) then Next(s).codePoint else REPLACEMENT
  }

  function EscapeText(s: seq<byte>): seq<byte> {
    if s == [] then [] else EscapeCodePoint(Repaired(s)) + EscapeText(s[Next(s).size..])
  }

  predicate AllScalar(s: seq<byte>) { s == [] || (IsScalar(Next(s).codePoint) && AllScalar(s[Next(s).size..])) }

  function Quoted(s: seq<byte>): seq<byte> { [0x22] + EscapeText(s) + [0x22] }

  /** Pretty-printing or not, the two other options, the line ending of the platform, and what the platform makes of
      2^63 as a 64-bit integer, which it is not. */
  datatype Style = Style(
    pretty: bool, omitBinaryValues: bool, omitDoubleTypePreservation: bool, lineEnding: seq<byte>, beyond: int)
  {
    predicate Valid() { lineEnding == [0x0A] || lineEnding == [0x0D, 0x0A] }
    function Line(): seq<byte> { if pretty then lineEnding else [] }
    function Space(): seq<byte> { if pretty then [0x20] else [] }
    function Indent(depth: nat): seq<byte> { if pretty then seq(3 * depth, _ => 0x20) else [] }
    predicate Omits(v: Value) { omitBinaryValues && v.Binary? }

    /** static_cast<int64_t> of an integral double */
    function Cast(n: int): int { if n == TWO63 then beyond else n }

    /** Without type preservation, integral doubles up to 2^63 are written as integers. */
    predicate AsInteger(size: magnitude) {
      omitDoubleTypePreservation && size.Floor as real == size && size.Floor <= TWO63
    }
  }

  const TWO63: int := 0x8000_0000_0000_0000

  /** The nearest integer, and of two the even one. */
  function HalfEven(x: magnitude): nat {
    var n, rest := x.Floor, x - x.Floor as real;
    if rest < 0.5 || (rest == 0.5 && n % 2 == 0) then n else n + 1
  }

  /** std::to_string rounds a double to six decimals. */
  function Millionths(size: magnitude): nat { HalfEven(size * 1_000_000.0) }

  /** The last k digits of n. */
  function LastDigits(n: nat, k: nat): (s: seq<byte>)
    ensures |s| == k
  {
    if k == 0 then [] else LastDigits(n / 10, k - 1) + [0x30 + n % 10]
  }

  function FixedText(negative: bool, millionths: nat): seq<byte> {
    (if negative then [0x2D] else []) + Decimal(millionths / 1_000_000) + ([0x2E] + LastDigits(millionths, 6))
  }

  function DoubleText(negative: bool, size: magnitude, style: Style): seq<byte> {
    if style.AsInteger(size) then IntText(style.Cast(Signed(size.Floor, negative)))
    else FixedText(negative, Millionths(size))
  }

  /** Binary values have no text. */
  function Write(v: Value, depth: nat, style: Style): seq<byte>
    decreases v, 0
  {
    match v
    case Null => NULL
    case Bool(b) => if b then TRUE else FALSE
    case Int(n) => IntText(n)
    case Double(negative, size) => DoubleText(negative, size, style)
    case Str(s) => Quoted(s)
    case Binary(_) => []
    case List(items) => [0x5B] + style.Space() + WriteItems(items, true, depth, style) + style.Space() + [0x5D]
    case Dict(entries) =>
      [0x7B] + style.Line() + WriteMembers(entries, true, depth, style) + style.Line() + style.Indent(depth) + [0x7D]
  }

  function Separator(first: bool, gap: seq<byte>): seq<byte> { if first then [] else [0x2C] + gap }

  function WriteItems(items: seq<Value>, first: bool, depth: nat, style: Style): seq<byte>
    decreases items, 1
  {
    if items == [] then []
    else if style.Omits(items[0]) then WriteItems(items[1..], first, depth, style)
    else Separator(first, style.Space()) + Write(items[0], depth, style) + WriteItems(items[1..], false, depth, style)
  }

  function WriteMember(e: Entry, depth: nat, style: Style): seq<byte>
    decreases e, 1
  {
    style.Indent(depth + 1) + Quoted(e.key) + [0x3A] + style.Space() + Write(e.value, depth + 1, style)
  }

  function WriteMembers(entries: seq<Entry>, first: bool, depth: nat, style: Style): seq<byte>
    decreases entries, 2
  {
    if entries == [] then []
    else if style.Omits(entries[0].value) then WriteMembers(entries[1..], first, depth, style)
    else
      Separator(first, style.Line()) + WriteMember(entries[0], depth, style)
      + WriteMembers(entries[1..], false, depth, style)
  }

  /** Whether the writer succeeds. */
  predicate Writes(v: Value, style: Style) { style.omitBinaryValues || NoBinary(v) }

  predicate TextFits(s: seq<byte>) { |s| <= INT.Max() }

  /** Whether no text that is to be written is too long for an int32: the writer stops the program at one that is. */
  predicate TextsFit(v: Value, style: Style) {
    match v
    case Str(s) => TextFits(s)
    case List(items) => forall item <- items :: TextsFit(item, style)
    case Dict(entries) => forall e <- entries :: MemberFits(e, style)
    case _ => true
  }

  predicate MemberFits(e: Entry, style: Style) {
    style.Omits(e.value) || (TextFits(e.key) && TextsFit(e.value, style))
  }

  function WriteWithOptions(v: Value, style: Style): seq<byte> { Write(v, 0, style) + style.Line() }

  // ----- the writer ------------------------------------------------------------------------------------------

  class JsonWriter {
    const style: Style
    var json: seq<byte>

    constructor (style: Style)
      ensures this.style == style && json == []
    {
      this.style, json := style, [];
    }

    method IndentLine(depth: nat)
      requires style.pretty
      modifies this
      ensures json == old(json) + style.Indent(depth)
    {
      json := json + seq(3 * depth, _ => 0x20);
    }

    /** One code point: its own escape, \uXXXX below the space, or its UTF-8. */
    method AppendEscaped(codePoint: nat)
      requires codePoint <= 0x10FFFF
      modifies this
      ensures json == old(json) + EscapeCodePoint(codePoint)
    {
      if EscapeSpecial(codePoint) != [] {
        json := json + EscapeSpecial(codePoint);
      } else if codePoint < 32 {
        json := json + U16Escape(codePoint);
      } else if codePoint <= 0x7F {
        json := json + [codePoint];
      } else {
        var buffer := new byte[4];
        var n := AppendUnsafe(buffer, 0, codePoint);
        assert buffer[..n] == Encode(codePoint);
        json := json + buffer[..n];
      }
    }

    /** EscapeJSONStringImpl with quotes; says whether nothing had to be replaced. Nothing is a stopped program. */
    method EscapeJSONString(str: seq<byte>) returns (ok: Maybe<bool>)
      modifies this
      ensures ok.Just? <==> TextFits(str)
      ensures ok.Just? ==> json == old(json) + Quoted(str) && ok.value == AllScalar(str)
    {
      hide EscapeText, EscapeCodePoint, AllScalar, Next;
      json := json + [0x22];
      if |str| > INT.Max() { return Nothing; }
      var didReplacement := false;
      ghost var done: seq<byte> := [];
      assert str[0..] == str;
      var i := 0;
      while i < |str|
        invariant 0 <= i <= |str|
        invariant json == old(json) + [0x22] + done && done + EscapeText(str[i..]) == EscapeText(str)
        invariant AllScalar(str) == (!didReplacement && AllScalar(str[i..]))
      {
        EscapeStep(str, i);
        ghost var c := Repaired(str[i..]);
        var valid, codePoint;
        valid, codePoint, i := ReadUnicodeCharacter(str, i);
        if !valid {
          codePoint := REPLACEMENT;
          didReplacement := true;
        }
        AppendEscaped(codePoint);
        Shift(old(json) + [0x22], done, EscapeCodePoint(c), EscapeText(str[i + 1..]));
        done := done + EscapeCodePoint(c);
        i := i + 1;
      }
      assert str[i..] == [];
      EscapeNothing();
      json := json + [0x22];
      ok := Just(!didReplacement);
    }

    /** A double as an integer where that is asked for, or else with six decimals. The text std::to_string makes has a
        point with a digit before it, so nothing is added to it. */
    method BuildDouble(negative: bool, size: magnitude)
      modifies this
      ensures json == old(json) + DoubleText(negative, size, style)
    {
      var value: real := if negative then -(size as real) else size;
      WholeBySize(negative, size);
      if style.omitDoubleTypePreservation && value <= TWO63 as real && value >= -(TWO63 as real)
         && value.Floor as real == value
      {
        json := json + IntText(style.Cast(value.Floor));
        return;
      }
      NothingAdded(negative, Millionths(size));
      json := json + AsReal(FixedText(negative, Millionths(size)));
    }

    method BuildJSONString(node: Value, depth: nat) returns (ok: Maybe<bool>)
      modifies this
      ensures ok.Just? <==> TextsFit(node, style)
      ensures ok.Just? ==> json == old(json) + Write(node, depth, style) && ok.value == Writes(node, style)
      decreases node, 0
    {
      ok := Just(true);
      match node
      case Null => json := json + NULL;
      case Bool(b) => json := json + if b then TRUE else FALSE;
      case Int(n) => json := json + IntText(n);
      case Double(negative, size) => BuildDouble(negative, size);
      case Str(s) =>
        var escaped := EscapeJSONString(s);
        if escaped.Nothing? { return Nothing; }
      case Binary(_) => ok := Just(style.omitBinaryValues);
      case List(items) =>
        ok := BuildList(items, depth);
      case Dict(entries) =>
        ok := BuildDictionary(entries, depth);
    }

    method BuildList(items: seq<Value>, depth: nat) returns (ok: Maybe<bool>)
      modifies this
      ensures ok.Just? <==> TextsFit(List(items), style)
      ensures ok.Just? ==>
        json == old(json) + Write(List(items), depth, style) && ok.value == Writes(List(items), style)
      decreases items, 2
    {
      ghost var start, body := json, WriteItems(items, true, depth, style);
      ListMeans(items, depth, style);
      hide WriteItems, Write, Writes, TextsFit;
      json := json + [0x5B];
      if style.pretty { json := json + [0x20]; }
      assert json == start + [0x5B] + style.Space();
      ok := BuildItems(items, depth);
      if ok.Nothing? { return; }
      if style.pretty { json := json + [0x20]; }
      assert json == start + [0x5B] + style.Space() + body + style.Space();
      json := json + [0x5D];
      assert [0x5B] + style.Space() + body + style.Space() + [] == [0x5B] + style.Space() + body + style.Space();
    }

    method BuildDictionary(entries: seq<Entry>, depth: nat) returns (ok: Maybe<bool>)
      modifies this
      ensures ok.Just? <==> TextsFit(Dict(entries), style)
      ensures ok.Just? ==>
        json == old(json) + Write(Dict(entries), depth, style) && ok.value == Writes(Dict(entries), style)
      decreases entries, 3
    {
      ghost var start, body := json, WriteMembers(entries, true, depth, style);
      DictMeans(entries, depth, style);
      hide WriteMembers, Write, Writes, TextsFit, MemberFits;
      json := json + [0x7B];
      if style.pretty { json := json + style.lineEnding; }
      assert json == start + [0x7B] + style.Line();
      ok := BuildMembers(entries, depth);
      if ok.Nothing? { return; }
      if style.pretty {
        json := json + style.lineEnding;
        IndentLine(depth);
      }
      assert json == start + [0x7B] + style.Line() + body + style.Line() + style.Indent(depth);
      json := json + [0x7D];
    }

    method BuildItems(items: seq<Value>, depth: nat) returns (ok: Maybe<bool>)
      modifies this
      ensures ok.Just? <==> forall item <- items :: TextsFit(item, style)
      ensures ok.Just? ==> json == old(json) + WriteItems(items, true, depth, style)
      ensures ok.Just? ==> ok.value == forall item <- items :: Writes(item, style)
      decreases items, 1
    {
      hide Write, WriteItems, Writes, TextsFit;
      var firstValueHasBeenOutput, result := false, true;
      ghost var done: seq<byte> := [];
      assert items[0..] == items;
      for i := 0 to |items|
        invariant json == old(json) + done
        invariant done + WriteItems(items[i..], !firstValueHasBeenOutput, depth, style)
                == WriteItems(items, true, depth, style)
        invariant result == forall j :: 0 <= j < i ==> Writes(items[j], style)
        invariant forall j :: 0 <= j < i ==> TextsFit(items[j], style)
      {
        ItemStep(items, i, !firstValueHasBeenOutput, depth, style);
        OmittedIsWritten(items[i], style);
        if style.omitBinaryValues && items[i].Binary? { continue; }
        ghost var text := Separator(!firstValueHasBeenOutput, style.Space()) + Write(items[i], depth, style);
        var built := BuildNextItem(items[i], !firstValueHasBeenOutput, depth);
        if built.Nothing? { return Nothing; }
        if !built.value { result := false; }
        Shift(old(json), done, text, WriteItems(items[i + 1..], false, depth, style));
        done := done + text;
        firstValueHasBeenOutput := true;
      }
      NoItems(items[|items|..], depth, style);
      ok := Just(result);
    }

    method BuildMembers(entries: seq<Entry>, depth: nat) returns (ok: Maybe<bool>)
      modifies this
      ensures ok.Just? <==> forall e <- entries :: MemberFits(e, style)
      ensures ok.Just? ==> json == old(json) + WriteMembers(entries, true, depth, style)
      ensures ok.Just? ==> ok.value == forall e <- entries :: Writes(e.value, style)
      decreases entries, 2
    {
      hide Write, WriteMember, WriteMembers, Writes, TextsFit;
      var firstValueHasBeenOutput, result := false, true;
      ghost var done: seq<byte> := [];
      assert entries[0..] == entries;
      for i := 0 to |entries|
        invariant json == old(json) + done
        invariant done + WriteMembers(entries[i..], !firstValueHasBeenOutput, depth, style)
                == WriteMembers(entries, true, depth, style)
        invariant result == forall j :: 0 <= j < i ==> Writes(entries[j].value, style)
        invariant forall j :: 0 <= j < i ==> MemberFits(entries[j], style)
      {
        MemberStep(entries, i, !firstValueHasBeenOutput, depth, style);
        OmittedIsWritten(entries[i].value, style);
        if style.omitBinaryValues && entries[i].value.Binary? { continue; }
        ghost var text := Separator(!firstValueHasBeenOutput, style.Line()) + WriteMember(entries[i], depth, style);
        var built := BuildNextMember(entries[i], !firstValueHasBeenOutput, depth);
        if built.Nothing? { return Nothing; }
        if !built.value { result := false; }
        Shift(old(json), done, text, WriteMembers(entries[i + 1..], false, depth, style));
        done := done + text;
        firstValueHasBeenOutput := true;
      }
      NoMembers(entries[|entries|..], depth, style);
      ok := Just(result);
    }

    /** One round of the loop over a list. */
    method BuildNextItem(item: Value, first: bool, depth: nat) returns (ok: Maybe<bool>)
      modifies this
      ensures ok.Just? <==> TextsFit(item, style)
      ensures ok.Just? ==> ok.value == Writes(item, style)
      ensures ok.Just? ==> json == old(json) + (Separator(first, style.Space()) + Write(item, depth, style))
      decreases item, 1
    {
      hide Write, Writes, TextsFit;
      if !first {
        json := json + [0x2C];
        if style.pretty { json := json + [0x20]; }
      }
      assert json == old(json) + Separator(first, style.Space());
      hide Separator;
      ok := BuildJSONString(item, depth);
    }

    /** One round of the loop over a dictionary. */
    method BuildNextMember(e: Entry, first: bool, depth: nat) returns (ok: Maybe<bool>)
      requires !style.Omits(e.value)
      modifies this
      ensures ok.Just? <==> MemberFits(e, style)
      ensures ok.Just? ==> ok.value == Writes(e.value, style)
      ensures ok.Just? ==> json == old(json) + (Separator(first, style.Line()) + WriteMember(e, depth, style))
      decreases e, 2
    {
      hide WriteMember, Writes, MemberFits;
      if !first {
        json := json + [0x2C];
        if style.pretty { json := json + style.lineEnding; }
      }
      assert json == old(json) + Separator(first, style.Line());
      hide Separator;
      ok := BuildMember(e, depth);
    }

    method BuildMember(e: Entry, depth: nat) returns (ok: Maybe<bool>)
      requires !style.Omits(e.value)
      modifies this
      ensures ok.Just? <==> MemberFits(e, style)
      ensures ok.Just? ==> json == old(json) + WriteMember(e, depth, style) && ok.value == Writes(e.value, style)
      decreases e, 1
    {
      hide Write, Quoted, Writes, TextsFit;
      if style.pretty { IndentLine(depth + 1); }
      var escaped := EscapeJSONString(e.key);
      if escaped.Nothing? { return Nothing; }
      json := json + [0x3A];
      if style.pretty { json := json + [0x20]; }
      ok := BuildJSONString(e.value, depth + 1);
    }
  }

  /** JSONWriter::WriteWithOptions */
  method WriteJson(node: Value, style: Style) returns (ok: Maybe<bool>, json: seq<byte>)
    ensures ok.Just? <==> TextsFit(node, style)
    ensures ok.Just? ==> json == WriteWithOptions(node, style) && ok.value == Writes(node, style)
  {
    var writer := new JsonWriter(style);
    ok := writer.BuildJSONString(node, 0);
    json := writer.json;
    if style.pretty { json := json + style.lineEnding; }
  }

  lemma ListMeans(items: seq<Value>, depth: nat, style: Style)
    ensures Write(List(items), depth, style)
         == [0x5B] + style.Space() + WriteItems(items, true, depth, style) + style.Space() + [0x5D]
    ensures Writes(List(items), style) <==> forall item <- items :: Writes(item, style)
    ensures TextsFit(List(items), style) <==> forall item <- items :: TextsFit(item, style)
  {
    hide WriteItems;
  }

  lemma DictMeans(entries: seq<Entry>, depth: nat, style: Style)
    ensures Write(Dict(entries), depth, style)
         == [0x7B] + style.Line() + WriteMembers(entries, true, depth, style) + style.Line() + style.Indent(depth)
            + [0x7D]
    ensures Writes(Dict(entries), style) <==> forall e <- entries :: Writes(e.value, style)
    ensures TextsFit(Dict(entries), style) <==> forall e <- entries :: MemberFits(e, style)
  {
    hide WriteMembers, MemberFits;
  }

  lemma OmittedIsWritten(v: Value, style: Style)
    ensures style.Omits(v) ==> Writes(v, style) && TextsFit(v, style)
    ensures style.Omits(v) == (style.omitBinaryValues && v.Binary?)
  {}

  /** Whether a double is integral and in the range depends on its size. */
  lemma WholeBySize(negative: bool, size: magnitude)
    ensures var value: real := if negative then -(size as real) else size;
      && (value.Floor as real == value <==> size.Floor as real == size)
      && (value.Floor as real == value ==> value.Floor == Signed(size.Floor, negative))
      && (value <= TWO63 as real && value >= -(TWO63 as real) && value.Floor as real == value
          ==> size.Floor <= TWO63)
  {}

  /** Adds a fraction where there is neither a point nor an exponent, and a digit before a leading point. */
  function AsReal(text: seq<byte>): seq<byte>
    requires text != []
  {
    var t := if 0x2E !in text && 0x65 !in text && 0x45 !in text then text + [0x2E, 0x30] else text;
    if t[0] == 0x2E then [0x30] + t
    else if |t| > 1 && t[0] == 0x2D && t[1] == 0x2E then [0x2D, 0x30] + t[1..]
    else t
  }

  lemma NothingAdded(negative: bool, millionths: nat)
    ensures var s := FixedText(negative, millionths); s != [] && AsReal(s) == s
  {
    var d, s := Decimal(millionths / 1_000_000), FixedText(negative, millionths);
    DecimalIsDigits(millionths / 1_000_000);
    assert IsDigit(d[0], 10);
    assert s[(if negative then 1 else 0) + |d|] == 0x2E;
  }

  lemma Shift(before: seq<byte>, done: seq<byte>, piece: seq<byte>, rest: seq<byte>)
    ensures before + done + piece == before + (done + piece)
    ensures done + (piece + rest) == (done + piece) + rest
  {}

  lemma EscapeNothing()
    ensures EscapeText([]) == [] && AllScalar([])
  {}

  lemma EscapeStep(str: seq<byte>, at: nat)
    requires at < |str|
    ensures var n := at + Next(str[at..]).size;
      && EscapeText(str[at..]) == EscapeCodePoint(Repaired(str[at..])) + EscapeText(str[n..])
      && AllScalar(str[at..]) == (IsScalar(Next(str[at..]).codePoint) && AllScalar(str[n..]))
  {
    assert str[at..][Next(str[at..]).size..] == str[at + Next(str[at..]).size..];
  }

  lemma ItemStep(items: seq<Value>, i: nat, first: bool, depth: nat, style: Style)
    requires i < |items|
    ensures WriteItems(items[i..], first, depth, style)
         == if style.Omits(items[i]) then WriteItems(items[i + 1..], first, depth, style)
            else (Separator(first, style.Space()) + Write(items[i], depth, style))
                 + WriteItems(items[i + 1..], false, depth, style)
  {
    assert items[i..][1..] == items[i + 1..];
  }

  lemma NoItems(items: seq<Value>, depth: nat, style: Style)
    requires items == []
    ensures forall first :: WriteItems(items, first, depth, style) == []
  {}

  lemma MemberStep(entries: seq<Entry>, i: nat, first: bool, depth: nat, style: Style)
    requires i < |entries|
    ensures WriteMembers(entries[i..], first, depth, style)
         == if style.Omits(entries[i].value) then WriteMembers(entries[i + 1..], first, depth, style)
            else (Separator(first, style.Line()) + WriteMember(entries[i], depth, style))
                 + WriteMembers(entries[i + 1..], false, depth, style)
  {
    assert entries[i..][1..] == entries[i + 1..];
  }

  lemma NoMembers(entries: seq<Entry>, depth: nat, style: Style)
    requires entries == []
    ensures forall first :: WriteMembers(entries, first, depth, style) == []
  {}
}
