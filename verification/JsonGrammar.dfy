/** What JSONParser reads: functions from the bytes at the cursor to a result and the bytes behind
    the token. */
module JsonGrammar {
  import opened Utf8
  import opened Numbers
  import opened JsonValues

  const MAX_DEPTH := 100

  datatype ErrorCode =
    | NoError | InvalidEscape | SyntaxError | UnexpectedToken | TrailingComma | TooMuchNesting
    | UnexpectedDataAfterRoot | UnsupportedEncoding | UnquotedDictionaryKey

  datatype Parsed<+T> = Ok(value: T, rest: seq<byte>) | Fail(code: ErrorCode)

  /** Trailing commas may be allowed; nearest is the double strtod takes for a number, if it reports no error and the
      double is finite. */
  datatype Options = Options(allowTrailingCommas: bool, nearest: magnitude -> Maybe<magnitude>)

  datatype Token =
    | ObjectBegin | ObjectEnd | ArrayBegin | ArrayEnd | StringStart | NumberStart | True | False | NullStart
    | Comma | Colon | EndOfInput | Invalid

  /** The byte under the cursor: past the end there is the terminator. */
  function First(s: seq<byte>): byte { if s == [] then 0 else s[0] }

  /** The n bytes from offset i on, the terminator included. */
  function Peek(s: seq<byte>, i: nat, n: nat): (t: seq<byte>)
    requires i + n <= |s| + 1
    ensures |t| == n
  {
    (s + [0])[i..i + n]
  }

  // ----- white space and comments ----------------------------------------------------------------------------

  /** To the line end, or to the end of input, which is no comment's end. */
  function LineComment(s: seq<byte>): (r: (bool, seq<byte>))
    ensures |r.1| <= |s| && (r.0 ==> |r.1| < |s|)
  {
    if s == [] then (false, s)
    else if First(s[1..]) == 0x0A || First(s[1..]) == 0x0D then (true, s[1..])
    else LineComment(s[1..])
  }

  function BlockComment(s: seq<byte>, previous: byte): (r: (bool, seq<byte>))
    ensures |r.1| <= |s| && (r.0 ==> |r.1| < |s|)
    decreases |s|
  {
    if s == [] then (false, s)
    else if previous == 0x2A && First(s[1..]) == 0x2F then (true, s[2..])
    else BlockComment(s[1..], First(s[1..]))
  }

  /** A slash that starts no comment is stepped over all the same. */
  function Comment(s: seq<byte>): (r: (bool, seq<byte>))
    requires s != []
    ensures |r.1| < |s|
  {
    if First(s[1..]) == 0x2F then LineComment(s[1..])
    else if First(s[1..]) == 0x2A then BlockComment(s[1..], 0)
    else (false, s[1..])
  }

  function SkipSpace(s: seq<byte>): (r: seq<byte>)
    ensures |r| <= |s|
    decreases |s|
  {
    if s == [] then s
    else if s[0] == 0x20 || s[0] == 0x09 || s[0] == 0x0A || s[0] == 0x0D then SkipSpace(s[1..])
    else if s[0] == 0x2F then
      var (found, r) := Comment(s);
      if found then SkipSpace(r) else r
    else s
  }

  function TokenAt(s: seq<byte>): (t: Token)
    ensures t != EndOfInput ==> s != []
  {
    if s == [] then EndOfInput
    else
      var c := s[0];
      if c == 0x7B then ObjectBegin else if c == 0x7D then ObjectEnd
      else if c == 0x5B then ArrayBegin else if c == 0x5D then ArrayEnd
      else if c == 0x22 then StringStart
      else if 0x30 <= c <= 0x39 || c == 0x2D then NumberStart
      else if c == 0x74 then True else if c == 0x66 then False else if c == 0x6E then NullStart
      else if c == 0x2C then Comma else if c == 0x3A then Colon
      else Invalid
  }

  // ----- strings ---------------------------------------------------------------------------------------------

  /** Appending the encoding of c as a C string loses U+0000. */
  function CString(c: nat): seq<byte>
    requires c <= 0x10FFFF
  {
    if c == 0 then [] else Encode(c)
  }

  /** DecodeUTF16: s begins with the first digit of \uXXXX. */
  function Utf16Escape(s: seq<byte>): (r: Parsed<seq<byte>>)
    ensures r.Fail? ==> r.code == InvalidEscape
    ensures r.Ok? ==> |r.rest| < |s|
  {
    if |s| < 4 then Fail(InvalidEscape)
    else
      var high := Convert(s[..4], 16, INT);
      if !high.ok then Fail(InvalidEscape)
      else if IsSurrogate(high.value) then
        if !IsLeadSurrogate(high.value) || |s| < 9 || s[4] != 0x5C || s[5] != 0x75 then Fail(InvalidEscape)
        else
          var low := Convert(Peek(s, 6, 4), 16, INT);
          if !low.ok || !IsTrailSurrogate(low.value) then Fail(InvalidEscape)
          else
            var c := Supplementary(high.value, low.value);
            if !IsValidCharacter(c) || |s| < 10 then Fail(InvalidEscape) else Ok(CString(c), s[10..])
      else if !IsValidCharacter(high.value) then Fail(InvalidEscape)
      else Ok(CString(high.value), s[4..])
  }

  /** \xXX, which the old parser allowed. */
  function HexEscape(s: seq<byte>): (r: Parsed<seq<byte>>)
    requires s != []
    ensures r.Fail? ==> r.code == InvalidEscape
    ensures r.Ok? ==> |r.rest| < |s|
  {
    if |s| < 2 then Fail(InvalidEscape)
    else
      var hex := Convert(Peek(s, 1, 2), 16, INT);
      if !hex.ok || !IsValidCharacter(hex.value) || |s| < 3 then Fail(InvalidEscape) else Ok(Encode(hex.value), s[3..])
  }

  /** What one letter after a backslash stands for. */
  function SimpleEscape(c: byte): (r: int)
    ensures -1 <= r < 0x80
  {
    if c == 0x22 || c == 0x5C || c == 0x2F then c
    else if c == 0x62 then 0x08 else if c == 0x66 then 0x0C else if c == 0x6E then 0x0A
    else if c == 0x72 then 0x0D else if c == 0x74 then 0x09 else if c == 0x76 then 0x0B
    else -1
  }

  /** s begins after the backslash. */
  function Escape(s: seq<byte>): (r: Parsed<seq<byte>>)
    ensures r.Fail? ==> r.code == InvalidEscape
    ensures r.Ok? ==> |r.rest| < |s|
  {
    if First(s) == 0x78 then HexEscape(s)
    else if First(s) == 0x75 then (if |s| < 5 then Fail(InvalidEscape) else Utf16Escape(s[1..]))
    else if SimpleEscape(First(s)) < 0 then Fail(InvalidEscape)
    else Ok([SimpleEscape(First(s))], s[1..])
  }

  /** s begins inside the quotes; what is left begins after the closing one. */
  function StringBody(s: seq<byte>, decoded: seq<byte>): (r: Parsed<seq<byte>>)
    ensures r.Ok? ==> |r.rest| < |s|
    decreases |s|
  {
    if s == [] then Fail(SyntaxError)
    else
      var c := Next(s);
      if c.codePoint < 0 || !IsValidCharacter(c.codePoint) then Fail(UnsupportedEncoding)
      else if c.codePoint == 0x22 then Ok(decoded, s[c.size..])
      else if c.codePoint != 0x5C then StringBody(s[c.size..], decoded + Encode(c.codePoint))
      else match Escape(s[1..])
        case Fail(code) => Fail(code)
        case Ok(bytes, rest) => StringBody(rest, decoded + bytes)
  }

  // ----- numbers and literals --------------------------------------------------------------------------------

  /** ReadInt: how many digits, or -1 if there is none or a leading zero that is not allowed. */
  function ReadInt(s: seq<byte>, allowLeadingZeros: bool): (n: int)
    ensures n <= |s| && (n == -1 || n > 0)
  {
    var n := DigitRun(s, 10);
    if n == 0 || (!allowLeadingZeros && n > 1 && s[0] == 0x30) then -1 else n
  }

  /** The length of the numeral s begins with, or -1. */
  function NumeralLength(s: seq<byte>): (n: int)
    ensures n <= |s| && (n == -1 || n > 0)
  {
    var sign := if First(s) == 0x2D then 1 else 0;
    var n := ReadInt(s[sign..], false);
    if n < 0 then -1 else
      var m := FractionLength(s[sign + n..]);
      if m < 0 then -1 else
        var k := ExponentLength(s[sign + n + m..]);
        if k < 0 then -1 else sign + n + m + k
  }

  function FractionLength(s: seq<byte>): (n: int)
    ensures -1 <= n <= |s|
  {
    if First(s) != 0x2E then 0 else
      var n := ReadInt(s[1..], true);
      if n < 0 then -1 else 1 + n
  }

  function ExponentLength(s: seq<byte>): (n: int)
    ensures -1 <= n <= |s|
  {
    if First(s) != 0x65 && First(s) != 0x45 then 0 else
      var sign := if First(s[1..]) == 0x2D || First(s[1..]) == 0x2B then 1 else 0;
      var n := ReadInt(s[1 + sign..], true);
      if n < 0 then -1 else 1 + sign + n
  }

  function Number(s: seq<byte>, opt: Options): (r: Parsed<Value>)
    ensures r.Ok? ==> |r.rest| < |s|
  {
    var n := NumeralLength(s);
    if n < 0 then Fail(SyntaxError)
    else if TokenAt(SkipSpace(s[n..])) !in {ObjectEnd, ArrayEnd, Comma, EndOfInput} then Fail(SyntaxError)
    else
      var c := Convert(s[..n], 10, INT);
      if c.ok then Ok(Int(c.value), s[n..])
      else match StringToDouble(s[..n], opt)
        case Nothing => Fail(NoError)
        case Just(x) => Ok(Double(s[0] == 0x2D, x), s[n..])
  }

  /** The digits s begins with. */
  function Digits(s: seq<byte>): (d: seq<byte>)
    ensures AllDigits(d, 10) && |d| <= |s|
  {
    s[..DigitRun(s, 10)]
  }

  /** n times ten to the power e */
  function Scaled(n: nat, e: int): magnitude {
    if e >= 0 then (n * Pow10(e)) as real else n as real / Pow10(-e) as real
  }

  /** The number a numeral stands for, without its sign. */
  function NumeralSize(s: seq<byte>): magnitude {
    var t := if First(s) == 0x2D then s[1..] else s;
    var whole := Digits(t);
    var u := t[|whole|..];
    var fraction := if First(u) == 0x2E then Digits(u[1..]) else [];
    Assembled(whole, fraction, Exponent(if First(u) == 0x2E then u[1 + |fraction|..] else u))
  }

  function Assembled(whole: seq<byte>, fraction: seq<byte>, exponent: int): magnitude
    requires AllDigits(whole, 10) && AllDigits(fraction, 10)
  {
    Scaled(ValueOf(whole, 10) * Pow10(|fraction|) + ValueOf(fraction, 10), exponent - |fraction|)
  }

  function Exponent(s: seq<byte>): int {
    if First(s) != 0x65 && First(s) != 0x45 then 0
    else if First(s[1..]) == 0x2D then -(ValueOf(Digits(s[2..]), 10) as int)
    else ValueOf(Digits(if First(s[1..]) == 0x2B then s[2..] else s[1..]), 10)
  }

  function StringToDouble(numeral: seq<byte>, opt: Options): Maybe<magnitude> { opt.nearest(NumeralSize(numeral)) }

  const TRUE: seq<byte> := [0x74, 0x72, 0x75, 0x65]
  const FALSE: seq<byte> := [0x66, 0x61, 0x6C, 0x73, 0x65]
  const NULL: seq<byte> := [0x6E, 0x75, 0x6C, 0x6C]

  function Literal(s: seq<byte>): (r: Parsed<Value>)
    ensures r.Ok? ==> |r.rest| < |s|
  {
    if TRUE <= s then Ok(Bool(true), s[4..])
    else if FALSE <= s then Ok(Bool(false), s[5..])
    else if NULL <= s then Ok(Null, s[4..])
    else Fail(SyntaxError)
  }

  // ----- values ----------------------------------------------------------------------------------------------

  /** s begins with the first byte of a token. */
  function ParseToken(s: seq<byte>, depth: nat, opt: Options): (r: Parsed<Value>)
    ensures r.Ok? ==> |r.rest| < |s|
    decreases |s|, 0
  {
    match TokenAt(s)
    case ObjectBegin =>
      if depth + 1 >= MAX_DEPTH then Fail(TooMuchNesting) else Members(SkipSpace(s[1..]), depth + 1, [], opt)
    case ArrayBegin =>
      if depth + 1 >= MAX_DEPTH then Fail(TooMuchNesting) else Items(SkipSpace(s[1..]), depth + 1, [], opt)
    case StringStart =>
      (match StringBody(s[1..], [])
       case Fail(code) => Fail(code)
       case Ok(text, rest) => Ok(Str(text), rest))
    case NumberStart => Number(s, opt)
    case True => Literal(s)
    case False => Literal(s)
    case NullStart => Literal(s)
    case _ => Fail(UnexpectedToken)
  }

  /** The rest of a list, from a token on. */
  function Items(s: seq<byte>, depth: nat, items: seq<Value>, opt: Options): (r: Parsed<Value>)
    ensures r.Ok? ==> |r.rest| < |s|
    decreases |s|, 1
  {
    if TokenAt(s) == ArrayEnd then Ok(List(items), s[1..])
    else match ParseToken(s, depth, opt)
      case Fail(code) => Fail(code)
      case Ok(item, rest) => MoreItems(SkipSpace(rest), depth, items + [item], opt)
  }

  /** After an item of a list. */
  function MoreItems(s: seq<byte>, depth: nat, items: seq<Value>, opt: Options): (r: Parsed<Value>)
    ensures r.Ok? ==> |r.rest| < |s|
    decreases |s|, 2
  {
    if TokenAt(s) == Comma then
      var next := SkipSpace(s[1..]);
      if TokenAt(next) == ArrayEnd && !opt.allowTrailingCommas then Fail(TrailingComma)
      else Items(next, depth, items, opt)
    else if TokenAt(s) == ArrayEnd then Ok(List(items), s[1..])
    else Fail(SyntaxError)
  }

  /** The rest of a dictionary, from a token on. */
  function Members(s: seq<byte>, depth: nat, entries: seq<Entry>, opt: Options): (r: Parsed<Value>)
    ensures r.Ok? ==> |r.rest| < |s|
    decreases |s|, 1
  {
    if TokenAt(s) == ObjectEnd then Ok(Dict(entries), s[1..])
    else if TokenAt(s) != StringStart then Fail(UnquotedDictionaryKey)
    else match StringBody(s[1..], [])
      case Fail(code) => Fail(code)
      case Ok(key, afterKey) =>
        var colon := SkipSpace(afterKey);
        if TokenAt(colon) != Colon then Fail(SyntaxError)
        else match ParseToken(SkipSpace(colon[1..]), depth, opt)
          case Fail(code) => Fail(code)
          case Ok(value, rest) => MoreMembers(SkipSpace(rest), depth, Set(entries, key, value), opt)
  }

  /** After an entry of a dictionary. */
  function MoreMembers(s: seq<byte>, depth: nat, entries: seq<Entry>, opt: Options): (r: Parsed<Value>)
    ensures r.Ok? ==> |r.rest| < |s|
    decreases |s|, 2
  {
    if TokenAt(s) == Comma then
      var next := SkipSpace(s[1..]);
      if TokenAt(next) == ObjectEnd && !opt.allowTrailingCommas then Fail(TrailingComma)
      else Members(next, depth, entries, opt)
    else if TokenAt(s) == ObjectEnd then Ok(Dict(entries), s[1..])
    else Fail(SyntaxError)
  }

  /** The byte-order mark. */
  const BOM: seq<byte> := [0xEF, 0xBB, 0xBF]

  /** The cursor is on the last byte of the root: nothing but white space may follow. */
  function AtEnd(last: seq<byte>): bool {
    var r := SkipSpace(last);
    r == [] || SkipSpace(r[1..]) == []
  }

  function Parse(input: seq<byte>, opt: Options): Parsed<Value> {
    var start := if BOM <= input then input[3..] else input;
    match ParseToken(SkipSpace(start), 0, opt)
    case Fail(code) => Fail(code)
    case Ok(root, rest) =>
      if AtEnd(input[|input| - |rest| - 1..]) then Ok(root, []) else Fail(UnexpectedDataAfterRoot)
  }
}
