/** JSONParser: a cursor over the input, and its counter of nested containers. Each method is proved against the
    function of the grammar for what it consumes, and leaves the cursor on the last byte of the token. */
module JsonParsing {
  import opened Utf8
  import opened Numbers
  import opened JsonValues
  import opened JsonGrammar


  /** The text of a string while it is read: a stretch of the input as long as nothing had to be decoded, and
      from then on a copy. */
  class StringBuilder {
    const source: seq<byte>
    var pos: nat
    var length: nat
    var copy: Maybe<seq<byte>>

    ghost predicate Valid()
      reads this
    {
      copy.Nothing? ==> pos + length <= |source|
    }

    /** The text, however it is kept. */
    ghost function View(): seq<byte>
      requires Valid()
      reads this
    {
      if copy.Just? then copy.value else source[pos..pos + length]
    }

    constructor (source: seq<byte>, pos: nat)
      requires pos <= |source|
      ensures Valid() && View() == [] && copy.Nothing? && this.source == source && this.pos == pos && length == 0
    {
      this.source, this.pos, length, copy := source, pos, 0, Nothing;
    }

    method Swap(other: StringBuilder)
      requires Valid() && other.Valid() && source == other.source
      modifies this, other
      ensures Valid() && other.Valid() && View() == old(other.View()) && other.View() == old(View())
    {
      copy, other.copy := other.copy, copy;
      pos, other.pos := other.pos, pos;
      length, other.length := other.length, length;
    }

    /** An ASCII character, which while nothing is copied is the next one of the input. */
    method Append(c: byte)
      requires Valid() && c < 0x80
      requires copy.Nothing? ==> pos + length < |source| && source[pos + length] == c
      modifies this`length, this`copy
      ensures Valid() && View() == old(View()) + [c]
      ensures copy.Nothing? == old(copy.Nothing?) && length == if copy.Nothing? then old(length) + 1 else old(length)
    {
      if copy.Just? { copy := Just(copy.value + [c]); } else { length := length + 1; }
    }

    method AppendString(str: seq<byte>)
      requires Valid() && copy.Just?
      modifies this`copy
      ensures Valid() && copy.Just? && View() == old(View()) + str
    {
      copy := Just(copy.value + str);
    }

    method Convert()
      requires Valid()
      modifies this`copy
      ensures Valid() && copy.Just? && View() == old(View())
    {
      if copy.Nothing? { copy := Just(source[pos..pos + length]); }
    }

    method AsString() returns (s: seq<byte>)
      requires Valid()
      modifies this`copy
      ensures Valid() && s == View() == old(View())
    {
      Convert();
      s := copy.value;
    }
  }

  lemma Tail(s: seq<byte>, i: nat)
    requires i < |s|
    ensures s[i..] != [] && s[i..][0] == s[i] && s[i..][1..] == s[i + 1..]
  {}

  lemma Tails(s: seq<byte>, i: nat, n: nat)
    requires i + n <= |s|
    ensures n <= |s[i..]| && s[i..][n..] == s[i + n..] && s[i..][..n] == s[i..i + n]
  {}

  lemma PeekAt(s: seq<byte>, i: nat, k: nat, n: nat)
    requires i <= |s| && i + k + n <= |s| + 1
    ensures k + n <= |s[i..]| + 1 && Peek(s[i..], k, n) == Peek(s, i + k, n)
  {}

  class JsonParser {
    const input: seq<byte>
    const opt: Options
    /** pos_ as an offset from start_pos_. */
    var pos: nat
    /** index_, which is the same number except inside ConsumeStringRaw. */
    var index: nat
    var stackDepth: nat
    var errorCode: ErrorCode

    constructor (input: seq<byte>, opt: Options)
      ensures this.input == input && this.opt == opt
      ensures Wound() && pos == 0 && stackDepth == 0 && errorCode == NoError
    {
      this.input, this.opt, pos, index, stackDepth, errorCode := input, opt, 0, 0, 0, NoError;
    }

    ghost predicate Wound()
      reads this
    {
      index == pos <= |input|
    }

    /** What is left from the cursor on. */
    ghost function Rest(): seq<byte>
      requires pos <= |input|
      reads this
    {
      input[pos..]
    }

    /** The byte under the cursor; at the end of the input that is the terminator. */
    function Here(): (c: byte)
      requires pos <= |input|
      reads this
      ensures c == First(Rest())
    {
      if pos < |input| then input[pos] else 0
    }

    predicate CanConsume(n: nat)
      reads this
    {
      pos + n <= |input|
    }

    /** The cursor is on the last byte of what was consumed, and rest follows it. */
    ghost predicate OnLastByte(rest: seq<byte>)
      reads this
    {
      Wound() && pos < |input| && input[pos + 1..] == rest
    }

    method NextChar() returns (c: byte)
      requires pos < |input|
      modifies this`pos, this`index
      ensures pos == old(pos) + 1 && index == old(index) + 1
      ensures c == First(Rest()) && Rest() == old(Rest())[1..]
    {
      index, pos := index + 1, pos + 1;
      c := Here();
    }

    method NextNChars(n: nat)
      requires pos + n <= |input|
      modifies this`pos, this`index
      ensures pos == old(pos) + n && index == old(index) + n
    {
      index, pos := index + n, pos + n;
    }

    method ReportError(code: ErrorCode)
      modifies this`errorCode
      ensures errorCode == code
    {
      errorCode := code;
    }

    // ----- tokens --------------------------------------------------------------------------------------------

    method EatComment() returns (found: bool)
      requires Wound() && pos < |input| && input[pos] == 0x2F
      modifies this`pos, this`index
      ensures Wound() && pos > old(pos) && (found, Rest()) == Comment(old(Rest()))
    {
      var nextChar := NextChar();
      ghost var start := Rest();
      if nextChar == 0x2F {
        while CanConsume(1)
          invariant Wound() && pos > old(pos) && LineComment(Rest()) == LineComment(start)
          decreases |input| - pos
        {
          Tail(input, pos);
          nextChar := NextChar();
          if nextChar == 0x0A || nextChar == 0x0D { return true; }
        }
      } else if nextChar == 0x2A {
        var previousChar := 0;
        while CanConsume(1)
          invariant Wound() && pos > old(pos) && 0 <= previousChar < 256
          invariant BlockComment(Rest(), previousChar) == BlockComment(start, 0)
          decreases |input| - pos
        {
          Tail(input, pos);
          ghost var before := Rest();
          nextChar := NextChar();
          if previousChar == 0x2A && nextChar == 0x2F {
            Tail(input, pos);
            assert before[2..] == before[1..][1..];
            var _ := NextChar();
            return true;
          }
          previousChar := nextChar;
        }
      }
      return false;
    }

    method EatWhitespaceAndComments()
      requires Wound()
      modifies this`pos, this`index
      ensures Wound() && pos >= old(pos) && Rest() == SkipSpace(old(Rest()))
    {
      while pos < |input|
        invariant Wound() && pos >= old(pos) && SkipSpace(Rest()) == SkipSpace(old(Rest()))
        decreases |input| - pos
      {
        Tail(input, pos);
        if Here() == 0x0D || Here() == 0x0A || Here() == 0x20 || Here() == 0x09 {
          var _ := NextChar();
        } else if Here() == 0x2F {
          var found := EatComment();
          if !found { return; }
        } else {
          return;
        }
      }
    }

    method GetNextToken() returns (token: Token)
      requires Wound()
      modifies this`pos, this`index
      ensures Wound() && pos >= old(pos) && Rest() == SkipSpace(old(Rest())) && token == TokenAt(Rest())
    {
      EatWhitespaceAndComments();
      token := if pos < |input| then TokenAt([Here()]) else EndOfInput;
    }

    // ----- strings -------------------------------------------------------------------------------------------

    /** HexStringToInt on n bytes from offset at on, which may take in the terminator. */
    method HexStringToInt(at: nat, n: nat) returns (ok: bool, value: int)
      requires at + n <= |input| + 1
      ensures Conversion(ok, value) == Numbers.Convert(Peek(input, at, n), 16, INT)
    {
      ok, value := Invoke(Peek(input, at, n), 16, INT);
    }

    /** From the first digit of \uXXXX to the last digit of the escape. */
    method DecodeUTF16() returns (ok: bool, units: seq<byte>)
      requires pos <= |input|
      modifies this`pos, this`index
      ensures ok == Utf16Escape(old(Rest())).Ok?
      ensures ok ==> units == Utf16Escape(old(Rest())).value
      ensures ok ==> pos < |input| && input[pos + 1..] == Utf16Escape(old(Rest())).rest
      ensures ok ==> pos > old(pos) && index - pos == old(index) - old(pos)
    {
      units := [];
      ghost var s, p := Rest(), pos;
      if !CanConsume(4) { return false, units; }
      Tails(input, p, 4);
      assert Peek(input, p, 4) == s[..4];
      var valid, high := HexStringToInt(pos, 4);
      if !valid { return false, units; }
      NextNChars(3);
      if IsSurrogate(high) {
        if !IsLeadSurrogate(high) { return false, units; }
        ok, units := DecodeTrail(high, p);
      } else {
        if !IsValidCharacter(high) { return false, units; }
        ok, units := true, units + CString(high);
      }
    }

    /** The second escape of a pair; the first, of the lead surrogate, began at p. */
    method DecodeTrail(high: int, ghost p: nat) returns (ok: bool, units: seq<byte>)
      requires pos == p + 3 < |input| && IsLeadSurrogate(high)
      requires Numbers.Convert(input[p..][..4], 16, INT) == Conversion(true, high)
      modifies this`pos, this`index
      ensures ok == Utf16Escape(input[p..]).Ok?
      ensures ok ==> units == Utf16Escape(input[p..]).value
      ensures ok ==> pos < |input| && input[pos + 1..] == Utf16Escape(input[p..]).rest
      ensures ok ==> pos > old(pos) && index - pos == old(index) - old(pos)
    {
      units := [];
      if !CanConsume(6) { return false, units; }
      var c := NextChar();
      if c != 0x5C { return false, units; }
      c := NextChar();
      if c != 0x75 { return false, units; }
      c := NextChar();
      PeekAt(input, p, 6, 4);
      var valid, low := HexStringToInt(pos, 4);
      if !valid { return false, units; }
      assert CanConsume(4) by { if !CanConsume(4) { TerminatorIsNoDigit(input, pos, 4); } }
      NextNChars(3);
      if !IsTrailSurrogate(low) { return false, units; }
      var codePoint := Supplementary(high, low);
      if !IsValidCharacter(codePoint) { return false, units; }
      Tails(input, p, 10);
      ok, units := true, CString(codePoint);
    }

    /** Appends a code point read from the input as it stands. */
    method AppendRead(text: StringBuilder, c: nat, ghost from: nat)
      requires c <= 0x10FFFF && text.Valid()
      requires text.copy.Nothing? && c < 0x80 ==>
        text.pos + text.length == from < |text.source| && text.source[from] == c
      modifies text`length, text`copy
      ensures text.Valid() && text.View() == old(text.View()) + Encode(c)
      ensures text.copy.Nothing? ==> c < 0x80 && old(text.copy.Nothing?) && text.length == old(text.length) + 1
    {
      if c < 0x80 {
        text.Append(c);
      } else {
        text.Convert();
        text.AppendString(Encode(c));
      }
    }

    /** CBU8_NEXT at index, which at the end of the input reads the terminator. */
    method ReadNext() returns (c: int)
      requires index <= |input|
      modifies this`index
      ensures index > old(index)
      ensures old(index) < |input| ==> index <= |input| && Read(c, index - old(index)) == Next(input[old(index)..])
      ensures old(index) == |input| ==> c == 0 && index == |input| + 1
    {
      if index < |input| { c, index := NextCodePoint(input, index); } else { c, index := 0, index + 1; }
    }

    /** From the x of \xXX to its last digit. */
    method ConsumeHexEscape(text: StringBuilder) returns (ok: bool)
      requires pos < |input| && index == pos + 1
      requires text.Valid() && text.copy.Just?
      modifies this, text`length, text`copy
      ensures stackDepth == old(stackDepth)
      ensures ok == HexEscape(old(Rest())).Ok?
      ensures ok ==> text.Valid() && text.copy.Just? && text.View() == old(text.View()) + HexEscape(old(Rest())).value
      ensures ok ==> old(pos) < pos < |input| && index == pos + 1 && input[index..] == HexEscape(old(Rest())).rest
      ensures errorCode == if ok then old(errorCode) else InvalidEscape
    {
      hide Numbers.Convert, Encode, StringBuilder.View, Peek;
      ghost var p := pos;
      if !CanConsume(2) { ReportError(InvalidEscape); return false; }
      var _ := NextChar();
      PeekAt(input, p, 1, 2);
      var valid, hexDigit := HexStringToInt(pos, 2);
      if !valid || !IsValidCharacter(hexDigit) { ReportError(InvalidEscape); return false; }
      assert CanConsume(2) by { if !CanConsume(2) { TerminatorIsNoDigit(input, pos, 2); } }
      Tails(input, p, 3);
      var _ := NextChar();
      if hexDigit < 0x80 { text.Append(hexDigit); } else { text.AppendString(Encode(hexDigit)); }
      ok := true;
    }

    /** The cursor is on the backslash and index past it; on success the cursor is on the last byte of the escape. */
    method ConsumeEscape(text: StringBuilder) returns (ok: bool)
      requires pos < |input| && index == pos + 1
      requires text.Valid() && text.copy.Just?
      modifies this, text`length, text`copy
      ensures stackDepth == old(stackDepth)
      ensures ok == Escape(old(input[index..])).Ok?
      ensures ok ==> text.Valid() && text.copy.Just?
      ensures ok ==> text.View() == old(text.View()) + Escape(old(input[index..])).value
      ensures ok ==> old(pos) < pos < |input| && index == pos + 1 && input[index..] == Escape(old(input[index..])).rest
      ensures ok ==> errorCode == old(errorCode)
      ensures !ok ==> Escape(old(input[index..])).code == errorCode == InvalidEscape
    {
      hide HexEscape, Utf16Escape, Encode, StringBuilder.View;
      Tail(input, pos);
      ghost var s, p := input[index..], pos;
      var c := NextChar();
      assert Rest() == s && pos == p + 1;
      if c == 0x78 {
        ok := ConsumeHexEscape(text);
      } else if c == 0x75 {
        Tail(input, pos);
        if !CanConsume(5) { ReportError(InvalidEscape); return false; }
        var _ := NextChar();
        var units;
        ok, units := DecodeUTF16();
        if !ok { ReportError(InvalidEscape); return false; }
        text.AppendString(units);
      } else if SimpleEscape(c) < 0 {
        ReportError(InvalidEscape);
        ok := false;
      } else {
        Tail(input, pos);
        text.Append(SimpleEscape(c));
        ok := true;
      }
    }

    /** A character that has been read and does not end the string: itself, or the escape it starts. */
    method TakeCharacter(text: StringBuilder, nextChar: nat) returns (ok: bool)
      requires pos <= |input| && pos < index && text.Valid() && text.source == input + [0]
      requires text.copy.Nothing? ==> text.pos + text.length == pos
      requires nextChar <= 0x10FFFF && (nextChar == 0x5C ==> pos < |input|)
      requires nextChar < 0x80 ==> index == pos + 1 && nextChar == text.source[pos]
      modifies this, text`length, text`copy
      ensures stackDepth == old(stackDepth)
      ensures ok ==> text.Valid() && errorCode == old(errorCode) && pos >= old(pos)
      ensures nextChar != 0x5C ==>
        ok && index == old(index) && pos == old(pos) && text.View() == old(text.View()) + Encode(nextChar)
      ensures nextChar == 0x5C ==> ok == Escape(old(input[index..])).Ok?
      ensures nextChar == 0x5C && ok ==> text.View() == old(text.View()) + Escape(old(input[index..])).value
      ensures nextChar == 0x5C && ok ==>
        pos < |input| && index == pos + 1 && input[index..] == Escape(old(input[index..])).rest
      ensures nextChar == 0x5C && ok ==> text.copy.Just?
      ensures text.copy.Nothing? && ok ==> text.pos + text.length == index
      ensures !ok ==> nextChar == 0x5C && Escape(old(input[index..])).code == errorCode == InvalidEscape
    {
      hide Escape, Encode, StringBuilder.View, StringBuilder.Valid;
      if nextChar != 0x5C {
        AppendRead(text, nextChar, pos);
        ok := true;
      } else {
        text.Convert();
        ok := ConsumeEscape(text);
      }
    }

    /** From the opening quote of a string to the closing one. */
    method ConsumeStringRaw(out: StringBuilder) returns (ok: bool)
      requires Wound() && pos < |input| && input[pos] == 0x22
      requires out.Valid() && out.source == input + [0]
      modifies this, out
      ensures stackDepth == old(stackDepth)
      ensures ok == StringBody(old(input[pos + 1..]), []).Ok?
      ensures ok ==> out.Valid() && out.View() == StringBody(old(input[pos + 1..]), []).value
      ensures ok ==>
        OnLastByte(StringBody(old(input[pos + 1..]), []).rest) && pos > old(pos) && errorCode == old(errorCode)
      ensures !ok ==> StringBody(old(input[pos + 1..]), []).code == errorCode != NoError
    {
      hide StringBody, Escape, Next, Encode, IsValidCharacter, StringBuilder.View, StringBuilder.Valid;
      Tail(input, pos);
      var _ := NextChar();
      ghost var target := StringBody(input[pos..], []);
      var text := new StringBuilder(input + [0], pos);
      while CanConsume(1)
        invariant fresh(text) && text.Valid() && text.source == input + [0]
        invariant out.Valid() && out.source == input + [0] && stackDepth == old(stackDepth)
        invariant errorCode == old(errorCode)
        invariant old(pos) < pos <= index <= |input| + 1 && pos <= |input|
        invariant text.copy.Nothing? ==> text.pos + text.length == index
        invariant index == pos || pos < |input| || index > |input|
        invariant index <= |input| ==> StringBody(input[index..], text.View()) == target
        invariant index > |input| ==> target == Fail(SyntaxError) && pos == |input|
        decreases |input| + 1 - index
      {
        pos := index;
        ghost var at := index;
        var nextChar := ReadNext();
        if at < |input| {
          Tails(input, at, index - at);
          StringStep(input[at..], text.View());
        } else {
          EmptyString(input, at, text.View());
        }
        if nextChar < 0 || !IsValidCharacter(nextChar) {
          ReportError(UnsupportedEncoding);
          return false;
        }
        if nextChar == 0x22 {
          index := index - 1;
          out.Swap(text);
          return true;
        }
        var taken := TakeCharacter(text, nextChar);
        if !taken { return false; }
      }
      if index <= |input| { EmptyString(input, index, text.View()); }
      ReportError(SyntaxError);
      return false;
    }

    // ----- numbers and literals ------------------------------------------------------------------------------

    /** Reads digits as far as they go. */
    method ReadIntDigits(allowLeadingZeros: bool) returns (ok: bool)
      requires Wound()
      modifies this`pos, this`index
      ensures Wound() && old(pos) <= pos
      ensures ok == (ReadInt(old(Rest()), allowLeadingZeros) >= 0)
      ensures ok ==> pos == old(pos) + ReadInt(old(Rest()), allowLeadingZeros)
    {
      var first := Here();
      var len := 0;
      var c := first;
      while CanConsume(1) && 0x30 <= c <= 0x39
        invariant Wound() && pos == old(pos) + len && c == First(Rest())
        invariant len + DigitRun(Rest(), 10) == DigitRun(old(Rest()), 10)
        invariant first == First(old(Rest()))
        decreases |input| - pos
      {
        Tail(input, pos);
        c := NextChar();
        len := len + 1;
      }
      ok := len != 0 && (allowLeadingZeros || len <= 1 || first != 0x30);
    }

    /** The cursor goes to just past the numeral. */
    method ReadNumeral() returns (ok: bool)
      requires Wound()
      modifies this`pos, this`index
      ensures Wound() && ok == (NumeralLength(old(Rest())) >= 0)
      ensures ok ==> pos == old(pos) + NumeralLength(old(Rest()))
    {
      hide ReadInt, FractionLength, ExponentLength;
      ghost var s, p := Rest(), pos;
      if Here() == 0x2D {
        Tail(input, pos);
        var _ := NextChar();
      }
      ghost var sign := pos - p;
      Tails(input, p, sign);
      ok := ReadIntDigits(false);
      if !ok { return; }
      ghost var n := ReadInt(s[sign..], false);
      Tails(input, p, sign + n);
      assert Rest() == s[sign + n..];
      ok := ReadFraction();
      if !ok { return; }
      ghost var m := FractionLength(s[sign + n..]);
      Tails(input, p, sign + n + m);
      assert Rest() == s[sign + n + m..];
      ok := ReadExponent();
    }

    method ReadFraction() returns (ok: bool)
      requires Wound()
      modifies this`pos, this`index
      ensures Wound() && old(pos) <= pos && ok == (FractionLength(old(Rest())) >= 0)
      ensures ok ==> pos == old(pos) + FractionLength(old(Rest()))
    {
      ok := true;
      if Here() == 0x2E {
        Tail(input, pos);
        var _ := NextChar();
        ok := ReadIntDigits(true);
      }
    }

    method ReadExponent() returns (ok: bool)
      requires Wound()
      modifies this`pos, this`index
      ensures Wound() && old(pos) <= pos && ok == (ExponentLength(old(Rest())) >= 0)
      ensures ok ==> pos == old(pos) + ExponentLength(old(Rest()))
    {
      ok := true;
      if Here() == 0x65 || Here() == 0x45 {
        Tail(input, pos);
        var _ := NextChar();
        if Here() == 0x2D || Here() == 0x2B {
          Tail(input, pos);
          Tails(input, old(pos), 2);
          var _ := NextChar();
        }
        ok := ReadIntDigits(true);
      }
    }

    /** What a method that consumes a value promises, given what the grammar says. */
    ghost predicate Delivers(r: Maybe<Value>, p: Parsed<Value>, from: nat, code: ErrorCode)
      reads this
    {
      if p.Ok? then r == Just(p.value) && OnLastByte(p.rest) && pos >= from && errorCode == code
      else r.Nothing? && errorCode == if p.code == NoError then code else p.code
    }

    method ConsumeNumber() returns (r: Maybe<Value>)
      requires Wound() && pos < |input| && TokenAt(Rest()) == NumberStart
      modifies this
      ensures stackDepth == old(stackDepth)
      ensures Delivers(r, Number(old(Rest()), opt), old(pos), old(errorCode))
    {
      hide NumeralLength, Numbers.Convert, SkipSpace, TokenAt;
      var numStart := pos;
      var ok := ReadNumeral();
      if !ok { ReportError(SyntaxError); return Nothing; }
      var end := pos;
      Tails(input, numStart, end - numStart);
      // ReadInt is greedy: the cursor has to come back to the last digit after a look at the next token
      var exitPos, exitIndex := pos - 1, index - 1;
      var next := GetNextToken();
      if next !in {ObjectEnd, ArrayEnd, Comma, EndOfInput} { ReportError(SyntaxError); return Nothing; }
      pos, index := exitPos, exitIndex;
      var numString := input[numStart..end];
      var isInt, n := Invoke(numString, 10, INT);
      if isInt { return Just(Int(n)); }
      match StringToDouble(numString, opt)
      case Nothing => return Nothing;
      case Just(x) => return Just(Double(numString[0] == 0x2D, x));
    }

    /** One literal, spelled out. */
    method Match(literal: seq<byte>) returns (ok: bool)
      requires Wound() && literal != []
      modifies this`pos, this`index
      ensures ok == (literal <= old(Rest()))
      ensures ok ==> OnLastByte(old(Rest())[|literal|..]) && pos >= old(pos)
    {
      ok := pos + |literal| <= |input| && input[pos..pos + |literal|] == literal;
      if ok {
        Tails(input, pos, |literal|);
        NextNChars(|literal| - 1);
      } else if pos + |literal| <= |input| {
        Tails(input, pos, |literal|);
      }
    }

    method ConsumeLiteral() returns (r: Maybe<Value>)
      requires Wound() && pos < |input| && TokenAt(Rest()) in {True, False, NullStart}
      modifies this
      ensures stackDepth == old(stackDepth)
      ensures Delivers(r, Literal(old(Rest())), old(pos), old(errorCode))
    {
      Tail(input, pos);
      var c := Here();
      var ok := Match(if c == 0x74 then TRUE else if c == 0x66 then FALSE else NULL);
      if !ok { ReportError(SyntaxError); return Nothing; }
      return Just(if c == 0x74 then Bool(true) else if c == 0x66 then Bool(false) else Null);
    }

    // ----- values --------------------------------------------------------------------------------------------

    method ParseNextToken() returns (r: Maybe<Value>)
      requires Wound() && stackDepth < MAX_DEPTH
      modifies this
      ensures stackDepth == old(stackDepth)
      ensures Delivers(r, ParseToken(SkipSpace(old(Rest())), old(stackDepth), opt), old(pos), old(errorCode))
      decreases |input| - pos, 2
    {
      var token := GetNextToken();
      r := ParseValue(token);
    }

    /** JSONParser::ParseToken */
    method ParseValue(token: Token) returns (r: Maybe<Value>)
      requires Wound() && stackDepth < MAX_DEPTH && token == TokenAt(Rest())
      modifies this
      ensures stackDepth == old(stackDepth)
      ensures Delivers(r, ParseToken(old(Rest()), old(stackDepth), opt), old(pos), old(errorCode))
      decreases |input| - pos, 1
    {
      hide Members, Items, StringBody, Number, Literal, SkipSpace;
      if token != EndOfInput { Tail(input, pos); }
      match token
      case ObjectBegin => r := ConsumeDictionary();
      case ArrayBegin => r := ConsumeList();
      case StringStart => r := ConsumeString();
      case NumberStart => r := ConsumeNumber();
      case True => r := ConsumeLiteral();
      case False => r := ConsumeLiteral();
      case NullStart => r := ConsumeLiteral();
      case _ =>
        ReportError(UnexpectedToken);
        r := Nothing;
    }

    method ConsumeString() returns (r: Maybe<Value>)
      requires Wound() && pos < |input| && input[pos] == 0x22
      modifies this
      ensures stackDepth == old(stackDepth)
      ensures Delivers(r, ParseToken(old(Rest()), old(stackDepth), opt), old(pos), old(errorCode))
    {
      hide StringBody;
      Tail(input, pos);
      var text := new StringBuilder(input + [0], 0);
      var ok := ConsumeStringRaw(text);
      if !ok { return Nothing; }
      var s := text.AsString();
      r := Just(Str(s));
    }

    /** Past an element: a comma and the token after it, or the end of the container. */
    method SkipSeparator(end: Token) returns (ok: bool, token: Token)
      requires Wound() && pos < |input| && end in {ArrayEnd, ObjectEnd}
      modifies this
      ensures stackDepth == old(stackDepth)
      ensures ok ==> Wound() && pos > old(pos) && token == TokenAt(Rest()) && errorCode == old(errorCode)
      ensures ghost var s := SkipSpace(old(input[pos + 1..]));
        if TokenAt(s) == Comma then
          ghost var next := SkipSpace(s[1..]);
          if TokenAt(next) == end && !opt.allowTrailingCommas then !ok && errorCode == TrailingComma
          else ok && Rest() == next
        else if TokenAt(s) == end then ok && Rest() == s
        else !ok && errorCode == SyntaxError
    {
      hide SkipSpace, TokenAt;
      Tail(input, pos);
      var _ := NextChar();
      token := GetNextToken();
      ok := true;
      if token == Comma {
        TokenIsThere(Rest());
        Tail(input, pos);
        var _ := NextChar();
        token := GetNextToken();
        if token == end && !opt.allowTrailingCommas {
          ReportError(TrailingComma);
          ok := false;
        }
      } else if token != end {
        ReportError(SyntaxError);
        ok := false;
      }
    }

    method ConsumeList() returns (r: Maybe<Value>)
      requires Wound() && pos < |input| && input[pos] == 0x5B && stackDepth < MAX_DEPTH
      modifies this
      ensures stackDepth == old(stackDepth)
      ensures Delivers(r, ParseToken(old(Rest()), old(stackDepth), opt), old(pos), old(errorCode))
      decreases |input| - pos, 0
    {
      hide Items, Members, SkipSpace, StringBody, Number, Literal;
      Tail(input, pos);
      stackDepth := stackDepth + 1;
      if stackDepth >= MAX_DEPTH {
        ReportError(TooMuchNesting);
        stackDepth := stackDepth - 1;
        return Nothing;
      }
      var _ := NextChar();
      r := ConsumeItems();
      stackDepth := stackDepth - 1;
    }

    /** The loop of ConsumeList, one container deeper. */
    method ConsumeItems() returns (r: Maybe<Value>)
      requires Wound() && pos > 0 && stackDepth < MAX_DEPTH
      modifies this
      ensures stackDepth == old(stackDepth)
      ensures Delivers(r, Items(SkipSpace(old(Rest())), stackDepth, [], opt), old(pos), old(errorCode))
      decreases |input| - pos, 3
    {
      hide ParseToken, SkipSpace, TokenAt;
      var list: seq<Value> := [];
      var token := GetNextToken();
      ghost var target := Items(Rest(), stackDepth, [], opt);
      while token != ArrayEnd
        invariant Wound() && pos >= old(pos) && token == TokenAt(Rest())
        invariant stackDepth == old(stackDepth) && errorCode == old(errorCode)
        invariant Items(Rest(), stackDepth, list, opt) == target
        decreases |input| - pos
      {
        var item := ParseValue(token);
        if item.Nothing? { return Nothing; }
        list := list + [item.value];
        var ok;
        ok, token := SkipSeparator(ArrayEnd);
        if !ok { return Nothing; }
      }
      TokenIsThere(Rest());
      Tail(input, pos);
      r := Just(List(list));
    }

    method ConsumeDictionary() returns (r: Maybe<Value>)
      requires Wound() && pos < |input| && input[pos] == 0x7B && stackDepth < MAX_DEPTH
      modifies this
      ensures stackDepth == old(stackDepth)
      ensures Delivers(r, ParseToken(old(Rest()), old(stackDepth), opt), old(pos), old(errorCode))
      decreases |input| - pos, 0
    {
      hide Items, Members, SkipSpace, StringBody, Number, Literal;
      Tail(input, pos);
      stackDepth := stackDepth + 1;
      if stackDepth >= MAX_DEPTH {
        ReportError(TooMuchNesting);
        stackDepth := stackDepth - 1;
        return Nothing;
      }
      var _ := NextChar();
      r := ConsumeMembers();
      stackDepth := stackDepth - 1;
    }

    /** A key, a colon and a value. */
    method ConsumeEntry() returns (ok: bool, e: Entry)
      requires Wound() && pos < |input| && input[pos] == 0x22 && stackDepth < MAX_DEPTH
      modifies this
      ensures stackDepth == old(stackDepth)
      ensures var p := EntryAt(old(Rest()), stackDepth, opt);
        && ok == p.Ok?
        && (ok ==> e == p.value && OnLastByte(p.rest) && pos > old(pos) && errorCode == old(errorCode))
        && (!ok ==> errorCode == if p.code == NoError then old(errorCode) else p.code)
      decreases |input| - pos, 4
    {
      hide ParseToken, SkipSpace, TokenAt, StringBody, StringBuilder.View, StringBuilder.Valid;
      e := Entry([], Null);
      Tail(input, pos);
      var text := new StringBuilder(input + [0], 0);
      ok := ConsumeStringRaw(text);
      if !ok { return; }
      var _ := NextChar();
      var token := GetNextToken();
      if token != Colon { ReportError(SyntaxError); return false, e; }
      TokenIsThere(Rest());
      Tail(input, pos);
      var _ := NextChar();
      var value := ParseNextToken();
      if value.Nothing? { return false, e; }
      var key := text.AsString();
      e := Entry(key, value.value);
    }

    /** The loop of ConsumeDictionary, one container deeper. */
    method ConsumeMembers() returns (r: Maybe<Value>)
      requires Wound() && pos > 0 && stackDepth < MAX_DEPTH
      modifies this
      ensures stackDepth == old(stackDepth)
      ensures Delivers(r, Members(SkipSpace(old(Rest())), stackDepth, [], opt), old(pos), old(errorCode))
      decreases |input| - pos, 5
    {
      hide ParseToken, SkipSpace, TokenAt, StringBody, Set, EntryAt;
      var dict: seq<Entry> := [];
      var token := GetNextToken();
      ghost var target := Members(Rest(), stackDepth, [], opt);
      while token != ObjectEnd
        invariant Wound() && pos >= old(pos) && token == TokenAt(Rest())
        invariant stackDepth == old(stackDepth) && errorCode == old(errorCode)
        invariant Members(Rest(), stackDepth, dict, opt) == target
        decreases |input| - pos
      {
        MembersStep(Rest(), stackDepth, dict, opt);
        if token != StringStart { ReportError(UnquotedDictionaryKey); return Nothing; }
        StringIsThere(Rest());
        var ok, e := ConsumeEntry();
        if !ok { return Nothing; }
        dict := Set(dict, e.key, e.value);
        ok, token := SkipSeparator(ObjectEnd);
        if !ok { return Nothing; }
      }
      MembersStep(Rest(), stackDepth, dict, opt);
      TokenIsThere(Rest());
      Tail(input, pos);
      r := Just(Dict(dict));
    }

    /** JSONParser::Parse: starts over, but counts on the depth having been restored by the run before. */
    method ParseInput() returns (root: Maybe<Value>)
      requires stackDepth == 0
      modifies this
      ensures stackDepth == 0
      ensures var p := Parse(input, opt);
        if p.Ok? then root == Just(p.value) && errorCode == NoError else root.Nothing? && errorCode == p.code
    {
      hide ParseToken, SkipSpace, TokenAt;
      pos, index, errorCode := 0, 0, NoError;
      assert input[0..] == input;
      if CanConsume(3) && input[0] == 0xEF && input[1] == 0xBB && input[2] == 0xBF { NextNChars(3); }
      root := ParseNextToken();
      if root.Nothing? { return; }
      ghost var last := Rest();
      Tail(input, pos);
      var token := GetNextToken();
      if token != EndOfInput {
        TokenIsThere(Rest());
        Tail(input, pos);
        var _ := NextChar();
        token := GetNextToken();
        EndMeansEmpty(Rest());
        if token != EndOfInput {
          ReportError(UnexpectedDataAfterRoot);
          root := Nothing;
        }
      } else {
        EndMeansEmpty(Rest());
      }
    }
  }

  lemma EndMeansEmpty(s: seq<byte>)
    ensures TokenAt(s) == EndOfInput <==> s == []
  {}

  lemma TokenIsThere(s: seq<byte>)
    ensures TokenAt(s) != EndOfInput ==> s != []
  {}

  lemma StringIsThere(s: seq<byte>)
    requires TokenAt(s) == StringStart
    ensures s != [] && s[0] == 0x22
  {}

  lemma MembersStep(s: seq<byte>, depth: nat, entries: seq<Entry>, opt: Options)
    ensures TokenAt(s) == ObjectEnd ==> Members(s, depth, entries, opt) == Ok(Dict(entries), s[1..])
    ensures TokenAt(s) !in {ObjectEnd, StringStart} ==> Members(s, depth, entries, opt) == Fail(UnquotedDictionaryKey)
    ensures TokenAt(s) == StringStart && EntryAt(s, depth, opt).Fail? ==>
      Members(s, depth, entries, opt) == Fail(EntryAt(s, depth, opt).code)
    ensures TokenAt(s) == StringStart ==> EntryAt(s, depth, opt).Ok? ==>
      Members(s, depth, entries, opt) == MoreMembers(SkipSpace(EntryAt(s, depth, opt).rest), depth,
        Set(entries, EntryAt(s, depth, opt).value.key, EntryAt(s, depth, opt).value.value), opt)
  {}

  /** One entry of a dictionary, from the opening quote of its key on. */
  ghost function EntryAt(s: seq<byte>, depth: nat, opt: Options): Parsed<Entry>
    requires s != []
  {
    var key := StringBody(s[1..], []);
    if key.Fail? then Fail(key.code)
    else if TokenAt(SkipSpace(key.rest)) != Colon then Fail(SyntaxError)
    else
      var value := ParseToken(SkipSpace(SkipSpace(key.rest)[1..]), depth, opt);
      if value.Fail? then Fail(value.code) else Ok(Entry(key.value, value.value), value.rest)
  }

  lemma EmptyString(s: seq<byte>, at: nat, decoded: seq<byte>)
    requires at == |s|
    ensures StringBody(s[at..], decoded) == Fail(SyntaxError) && IsValidCharacter(0)
  {
    assert s[at..] == [];
  }

  /** One round of StringBody. */
  lemma StringStep(s: seq<byte>, decoded: seq<byte>)
    requires s != []
    ensures var c := Next(s);
      && (c.codePoint < 0x80 ==> c.codePoint < 0 || (c.size == 1 && c.codePoint == s[0]))
      && (c.codePoint <= 0x10FFFF)
      && StringBody(s, decoded) ==
         if c.codePoint < 0 || !IsValidCharacter(c.codePoint) then Fail(UnsupportedEncoding)
         else if c.codePoint == 0x22 then Ok(decoded, s[c.size..])
         else if c.codePoint != 0x5C then StringBody(s[c.size..], decoded + Encode(c.codePoint))
         else if Escape(s[1..]).Ok? then StringBody(Escape(s[1..]).rest, decoded + Escape(s[1..]).value)
         else Fail(Escape(s[1..]).code)
  {
    if Next(s).codePoint >= 0 { NextIsEncoded(s); }
  }

  /** A hexadecimal number cannot end in the terminator of the input. */
  lemma TerminatorIsNoDigit(s: seq<byte>, at: nat, n: nat)
    requires 2 <= n && at <= |s| < at + n <= |s| + 1
    ensures !Numbers.Convert(Peek(s, at, n), 16, INT).ok
  {
    var t := Peek(s, at, n);
    assert t[n - 1] == (s + [0])[at + n - 1] == 0;
    assert !IsDigit(0, 16);
    if Numbers.Convert(t, 16, INT).ok { EndsInDigit(t, 16, INT); }
  }
}
