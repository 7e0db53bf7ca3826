/** Reading back what was written. */
module JsonRoundTrip {
  import opened Utf8
  import opened Numbers
  import opened JsonValues
  import opened JsonGrammar
  import opened JsonWriting
  import opened JsonTexts
  import opened JsonNumbers
  import opened JsonEnds
  import opened JsonReading
  import opened JsonEscapes
  import opened JsonOutput
  import opened JsonStrings
  import opened JsonParsing

  // ----- values ----------------------------------------------------------------------------------------------

  function Reread(v: Value, depth: nat, style: Style, opt: Options): Outcome<Value>
    requires NoBinary(v)
    decreases v, 0
  {
    match v
    case Double(negative, size) => RereadDouble(negative, size, style, opt)
    case Str(s) => if Readable(s) then Got(Str(Normal(s))) else Lost(UnsupportedEncoding)
    case List(items) =>
      if depth + 1 >= MAX_DEPTH then Lost(TooMuchNesting) else RereadItems(items, depth + 1, [], style, opt)
    case Dict(entries) =>
      if depth + 1 >= MAX_DEPTH then Lost(TooMuchNesting) else RereadMembers(entries, depth + 1, [], style, opt)
    case _ => Got(v)
  }

  /** A double is read back as the one nearest to what was written, and an integer of the int type as an integer. */
  function RereadDouble(negative: bool, size: magnitude, style: Style, opt: Options): Outcome<Value> {
    if style.AsInteger(size) then RereadInteger(style.Cast(Signed(size.Floor, negative)), opt)
    else Nearest(negative, Millionths(size) as real / 1_000_000.0, opt)
  }

  /** An integer of any size: beyond the int type it is read as a double. */
  function RereadInteger(n: int, opt: Options): Outcome<Value> {
    if INT.Fits(n) then Got(Int(n)) else Nearest(n < 0, (if n < 0 then -n else n) as real, opt)
  }

  function RereadItems(items: seq<Value>, depth: nat, read: seq<Value>, style: Style, opt: Options): Outcome<Value>
    requires forall item <- items :: NoBinary(item)
    decreases items, 1
  {
    if items == [] then Got(List(read))
    else match Reread(items[0], depth, style, opt)
      case Lost(code) => Lost(code)
      case Got(item) => RereadItems(items[1..], depth, read + [item], style, opt)
  }

  function RereadMembers(entries: seq<Entry>, depth: nat, read: seq<Entry>, style: Style, opt: Options): Outcome<Value>
    requires forall e <- entries :: NoBinary(e.value)
    decreases entries, 2
  {
    if entries == [] then Got(Dict(read))
    else if !Readable(entries[0].key) then Lost(UnsupportedEncoding)
    else match RereadEntry(entries[0], depth, style, opt)
      case Lost(code) => Lost(code)
      case Got(value) => RereadMembers(entries[1..], depth, Set(read, Normal(entries[0].key), value), style, opt)
  }

  function RereadEntry(e: Entry, depth: nat, style: Style, opt: Options): Outcome<Value>
    requires NoBinary(e.value)
    decreases e, 1
  {
    Reread(e.value, depth, style, opt)
  }

  // ----- what a written value means --------------------------------------------------------------------------

  lemma {:induction false} DigitsWorth(n: nat)
    ensures Worth(DigitsOf(n), |DigitsOf(n)| - 1) == n as real
  {
    assert Ten(0) == 1.0 && Ten(1) == 10.0;
    if n < 10 {
      assert Worth([n as digit][1..], -1) == 0.0;
    } else {
      var d := DigitsOf(n / 10);
      DigitsWorth(n / 10);
      WorthShifts(d, |d| - 1, 1);
      WorthOneMore(d, n % 10, |d|);
      hide Worth, Ten;
    }
  }

  lemma WholeMeans(n: int, opt: Options)
    ensures NumberMeans(WholeNumeral(n), opt) == RereadInteger(n, opt)
  {
    DigitsWorth(if n < 0 then -n else n);
    assert Ten(0) == 1.0 && Worth([], -1) == 0.0;
    hide Worth, DigitsOf, Ten, Nearest;
  }

  lemma {:induction false} LastDigitsValue(n: nat, k: nat) returns (q: nat)
    ensures AllDigits(LastDigits(n, k), 10) && ValueOf(LastDigits(n, k), 10) < Pow10(k)
    ensures n == q * Pow10(k) + ValueOf(LastDigits(n, k), 10)
  {
    if k == 0 {
      q := n;
    } else {
      q := LastDigitsValue(n / 10, k - 1);
      var s := LastDigits(n, k);
      assert s[..k - 1] == LastDigits(n / 10, k - 1);
      OneMoreDigit(n, q, Pow10(k - 1), ValueOf(s[..k - 1], 10));
    }
  }

  lemma OneMoreDigit(n: nat, q: nat, p: nat, v: nat)
    requires n / 10 == q * p + v && v < p
    ensures n == q * (10 * p) + (v * 10 + n % 10) && v * 10 + n % 10 < 10 * p
  {
    assert q * (10 * p) == 10 * (q * p);
  }

  lemma LastSix(m: nat)
    ensures var f := LastDigits(m, 6);
      AllDigits(f, 10) && m / 1_000_000 * Pow10(|f|) + ValueOf(f, 10) == m
  {
    assert Pow10(6) == 1_000_000;
    var q := LastDigitsValue(m, 6);
    hide LastDigits, ValueOf, Pow10, AllDigits;
  }

  lemma FixedWorth(m: nat)
    ensures Worth(LastDigitsOf(m, 6), -1) == (m % 1_000_000) as real / 1_000_000.0
  {
    hide *;
    var d := LastDigitsOf(m, 6);
    LastSix(m);
    LastDigitsAreSpelled(m, 6);
    ValueOfSpelled(d);
    WorthShifts(d, -1, 6);
    TenIsPow10(6);
    Million();
    InMillionths(m, ValueOf(LastDigits(m, 6), 10), Worth(d, -1));
  }

  lemma Million()
    ensures Pow10(6) == 1_000_000
  {}

  lemma InMillionths(m: nat, v: nat, w: real)
    requires m / 1_000_000 * 1_000_000 + v == m && v as real == w * 1_000_000.0
    ensures w == (m % 1_000_000) as real / 1_000_000.0
  {}

  lemma FixedMeans(negative: bool, m: nat, opt: Options)
    ensures NumberMeans(FixedNumeral(negative, m), opt) == Nearest(negative, m as real / 1_000_000.0, opt)
  {
    DigitsWorth(m / 1_000_000);
    FixedWorth(m);
    assert Ten(0) == 1.0;
    hide Worth, DigitsOf, LastDigitsOf, Ten, Nearest;
  }

  lemma DoubleMeans(negative: bool, size: magnitude, style: Style, opt: Options)
    ensures NumberMeans(DoubleNumeral(negative, size, style), opt) == RereadDouble(negative, size, style, opt)
  {
    if style.AsInteger(size) {
      WholeMeans(style.Cast(Signed(size.Floor, negative)), opt);
    } else {
      FixedMeans(negative, Millionths(size), opt);
    }
    hide NumberMeans, WholeNumeral, FixedNumeral, RereadInteger, Nearest, Millionths;
  }

  /** The text that is written for a value means what Reread says. */
  lemma {:induction false} MeansReread(v: Value, indent: nat, style: Style, depth: nat, opt: Options)
    requires NoBinary(v) && IsText(TextOf(v, indent, style))
    ensures Means(TextOf(v, indent, style), depth, opt) == Reread(v, depth, style, opt)
    decreases v, 0
  {
    match v
    case Int(n) =>
      WholeMeans(n, opt);
      hide NumberMeans, WholeNumeral, Nearest;
    case Double(negative, size) =>
      DoubleMeans(negative, size, style, opt);
      hide NumberMeans, DoubleNumeral, RereadDouble;
    case Str(s) =>
      SaidOfPieces(s, []);
      assert [] + Normal(s) == Normal(s);
      hide Said, PiecesOf, Readable, Normal;
    case List(items) =>
      ItemsMeanReread(items, indent, style, depth + 1, [], opt);
      hide ItemsOf, ItemsMean, RereadItems;
    case Dict(entries) =>
      MembersMeanReread(entries, indent, style, depth + 1, [], opt);
      hide MembersOf, MembersMean, RereadMembers;
    case _ =>
  }

  lemma {:induction false} ItemsMeanReread(items: seq<Value>, indent: nat, style: Style, depth: nat, read: seq<Value>,
                                           opt: Options)
    requires forall item <- items :: NoBinary(item)
    requires forall item <- ItemsOf(items, indent, style) :: IsItem(item)
    ensures ItemsMean(ItemsOf(items, indent, style), Nothing, depth, read, opt)
         == RereadItems(items, depth, read, style, opt)
    decreases items, 1
  {
    if items != [] {
      var t := ItemsOf(items, indent, style);
      assert items[0] in items && forall item <- items[1..] :: item in items;
      FirstItem(items, indent, style, []);
      assert t[0] in t && forall item <- t[1..] :: item in t;
      assert IsItem(t[0]);
      MeansReread(items[0], indent, style, depth, opt);
      hide ItemsOf, IsItem, NoBinary, TextOf, Means, Reread;
      match Reread(items[0], depth, style, opt)
      case Lost(_) =>
      case Got(v) => ItemsMeanReread(items[1..], indent, style, depth, read + [v], opt);
    }
  }

  lemma {:induction false} MembersMeanReread(entries: seq<Entry>, indent: nat, style: Style, depth: nat,
                                             read: seq<Entry>, opt: Options)
    requires forall e <- entries :: NoBinary(e.value)
    requires forall m <- MembersOf(entries, indent, style) :: IsMember(m)
    ensures MembersMean(MembersOf(entries, indent, style), Nothing, depth, read, opt)
         == RereadMembers(entries, depth, read, style, opt)
    decreases entries, 2
  {
    if entries != [] {
      var t, e := MembersOf(entries, indent, style), entries[0];
      assert e in entries && forall other <- entries[1..] :: other in entries;
      FirstMember(entries, indent, style);
      assert t[0] in t && forall m <- t[1..] :: m in t;
      assert IsMember(t[0]);
      hide *;
      MemberMeansReread(e, |entries| == 1, indent, style, depth, opt);
      BothUnfold(entries, t, depth, read, style, opt);
      if Readable(e.key) {
        match Reread(e.value, depth, style, opt)
        case Lost(_) =>
        case Got(v) => MembersMeanReread(entries[1..], indent, style, depth, Set(read, Normal(e.key), v), opt);
      }
    }
  }

  lemma {:induction false} MemberMeansReread(e: Entry, last: bool, indent: nat, style: Style, depth: nat, opt: Options)
    requires NoBinary(e.value) && IsMember(MemberOf(e, last, indent, style))
    ensures var m := MemberOf(e, last, indent, style);
      && ArePieces(m.key) && IsText(m.text) && Means(m.text, depth, opt) == Reread(e.value, depth, style, opt)
      && Said(m.key, []) == if Readable(e.key) then Got(Normal(e.key)) else Lost(UnsupportedEncoding)
    decreases e, 1
  {
    MemberParts(MemberOf(e, last, indent, style));
    assert [] + Normal(e.key) == Normal(e.key);
    MeansReread(e.value, indent + 1, style, depth, opt);
    SaidOfPieces(e.key, []);
    hide TextOf, Means, Reread, Said, PiecesOf, Readable, Normal, IsMember, IsText, ArePieces, Blanks, NewLine;
  }

  lemma BothUnfold(entries: seq<Entry>, t: seq<Member>, depth: nat, read: seq<Entry>, style: Style, opt: Options)
    requires entries != [] && t != [] && forall e <- entries :: NoBinary(e.value)
    requires NoBinary(entries[0].value) && forall e <- entries[1..] :: NoBinary(e.value)
    requires (forall m <- t :: IsMember(m)) && forall m <- t[1..] :: IsMember(m)
    requires ArePieces(t[0].key) && IsText(t[0].text)
    requires Means(t[0].text, depth, opt) == Reread(entries[0].value, depth, style, opt)
    requires Said(t[0].key, []) == if Readable(entries[0].key) then Got(Normal(entries[0].key))
                                   else Lost(UnsupportedEncoding)
    ensures !Readable(entries[0].key) ==>
      MembersMean(t, Nothing, depth, read, opt) == RereadMembers(entries, depth, read, style, opt)
    ensures Readable(entries[0].key) ==>
      var r := Reread(entries[0].value, depth, style, opt);
      if r.Lost? then MembersMean(t, Nothing, depth, read, opt) == RereadMembers(entries, depth, read, style, opt)
      else
        var read' := Set(read, Normal(entries[0].key), r.value);
        && MembersMean(t, Nothing, depth, read, opt) == MembersMean(t[1..], Nothing, depth, read', opt)
        && RereadMembers(entries, depth, read, style, opt) == RereadMembers(entries[1..], depth, read', style, opt)
  {
    hide Means, Reread, Said, Readable, Normal, Set, IsMember, IsText, ArePieces, NoBinary;
  }

  // ----- whole documents -------------------------------------------------------------------------------------

  lemma WritesDocument(v: Value, style: Style)
    requires NoBinary(v) && style.Valid()
    ensures IsText(TextOf(v, 0, style)) && IsGap(Blanks(style.Line()))
    ensures WriteWithOptions(v, style) == Document(false, [], TextOf(v, 0, style), Blanks(style.Line()))
  {
    var line := style.Line();
    TextOfIsText(v, 0, style);
    BlanksAreGap(line);
    BlanksOnto(line, []);
    WritesText(v, 0, style, line);
    hide Write, Onto, TextOf, Blanks, IsText, IsGap, Style.Line;
    assert line + [] == line;
    assert [] + Onto(TextOf(v, 0, style), line) == Onto(TextOf(v, 0, style), line);
  }

  /** Reading a written document gives what Reread says. */
  lemma ParseWritten(v: Value, style: Style, opt: Options)
    requires NoBinary(v) && style.Valid()
    ensures Parse(WriteWithOptions(v, style), opt) == Lift(Reread(v, 0, style, opt), [])
  {
    assert IsGap([]);
    hide *;
    WritesDocument(v, style);
    ParseDocument(false, [], TextOf(v, 0, style), Blanks(style.Line()), opt);
    MeansReread(v, 0, style, 0, opt);
  }

  /** All text, keys included, is well-formed UTF-8 without noncharacters and without U+0000. */
  predicate CleanText(v: Value) {
    match v
    case Str(s) => WellFormed(s)
    case List(items) => forall item <- items :: CleanText(item)
    case Dict(entries) => forall e <- entries :: WellFormed(e.key) && CleanText(e.value)
    case _ => true
  }

  /** No more than n containers inside one another. */
  predicate NestsAtMost(v: Value, n: nat) {
    match v
    case List(items) => n > 0 && forall item <- items :: NestsAtMost(item, n - 1)
    case Dict(entries) => n > 0 && forall e <- entries :: NestsAtMost(e.value, n - 1)
    case _ => true
  }

  /** Dictionaries are in the order std::map keeps. */
  ghost predicate Ordered(v: Value) {
    match v
    case List(items) => forall item <- items :: Ordered(item)
    case Dict(entries) => Sorted(entries) && forall e <- entries :: Ordered(e.value)
    case _ => true
  }

  ghost predicate Intact(v: Value, room: nat) { CleanText(v) && NestsAtMost(v, room) }

  /** A double comes back when six decimals are enough for it; but written as an integer it comes back as one unless
      that is beyond the int type. */
  predicate DoubleSurvives(negative: bool, size: magnitude, style: Style, opt: Options) {
    if style.AsInteger(size) then
      var n := style.Cast(Signed(size.Floor, negative));
      && !INT.Fits(n) && (n < 0 <==> negative)
      && opt.nearest((if n < 0 then -n else n) as real) == Just(size)
    else opt.nearest(Millionths(size) as real / 1_000_000.0) == Just(size)
  }

  predicate DoublesSurvive(v: Value, style: Style, opt: Options) {
    match v
    case Double(negative, size) => DoubleSurvives(negative, size, style, opt)
    case List(items) => forall item <- items :: DoublesSurvive(item, style, opt)
    case Dict(entries) => forall e <- entries :: DoublesSurvive(e.value, style, opt)
    case _ => true
  }

  lemma DoubleKept(negative: bool, size: magnitude, style: Style, opt: Options)
    ensures RereadDouble(negative, size, style, opt) == Got(Double(negative, size))
       <==> DoubleSurvives(negative, size, style, opt)
  {
    hide Millionths;
  }

  /** What can come back: clean, at most room containers deep, in order and without binary values. */
  ghost predicate Sound(v: Value, room: nat) { Intact(v, room) && Ordered(v) && NoBinary(v) }

  ghost predicate SoundEntries(entries: seq<Entry>, room: nat) {
    forall e <- entries :: WellFormed(e.key) && Sound(e.value, room)
  }

  lemma SoundInside(v: Value, room: nat)
    requires Sound(v, room)
    ensures v.List? ==> room > 0 && forall item <- v.items :: Sound(item, room - 1)
    ensures v.Dict? ==> room > 0 && Sorted(v.entries) && SoundEntries(v.entries, room - 1)
    ensures v.List? || v.Dict? ==> room > 0
    ensures v.List? ==> forall item <- v.items :: NoBinary(item)
    ensures v.Dict? ==> forall e <- v.entries :: NoBinary(e.value)
  {
    hide WellFormed;
  }

  /** What is sound is read back as it was just when its doubles are. */
  lemma {:induction false} SoundIsKept(v: Value, depth: nat, style: Style, opt: Options)
    requires depth < MAX_DEPTH && Sound(v, MAX_DEPTH - 1 - depth) && NoBinary(v)
    ensures Reread(v, depth, style, opt) == Got(v) <==> DoublesSurvive(v, style, opt)
    decreases v, 0
  {
    hide *;
    SoundInside(v, MAX_DEPTH - 1 - depth);
    match v
    case List(items) =>
      SoundItemsAreKept(items, depth + 1, [], style, opt);
      ListKept(items, depth, style, opt);
    case Dict(entries) =>
      assert [] + entries == entries;
      SoundMembersAreKept(entries, depth + 1, [], style, opt);
      DictKept(entries, depth, style, opt);
    case _ =>
      LeafKept(v, MAX_DEPTH - 1 - depth, depth, style, opt);
  }

  lemma LeafKept(v: Value, room: nat, depth: nat, style: Style, opt: Options)
    requires !v.List? && !v.Dict? && Sound(v, room) && NoBinary(v)
    ensures Reread(v, depth, style, opt) == Got(v) <==> DoublesSurvive(v, style, opt)
  {
    if v.Str? { TextIsKept(v.s, room); }
    if v.Double? { DoubleKept(v.negative, v.size, style, opt); }
    hide Readable, Normal, Sound, RereadDouble, DoubleSurvives;
  }

  lemma ListKept(items: seq<Value>, depth: nat, style: Style, opt: Options)
    requires depth + 1 < MAX_DEPTH && NoBinary(List(items)) && forall item <- items :: NoBinary(item)
    requires RereadItems(items, depth + 1, [], style, opt) == Got(List([] + items))
        <==> forall item <- items :: DoublesSurvive(item, style, opt)
    ensures Reread(List(items), depth, style, opt) == Got(List(items)) <==> DoublesSurvive(List(items), style, opt)
  {
    hide RereadItems, NoBinary;
    assert [] + items == items;
  }

  lemma DictKept(entries: seq<Entry>, depth: nat, style: Style, opt: Options)
    requires depth + 1 < MAX_DEPTH && NoBinary(Dict(entries)) && forall e <- entries :: NoBinary(e.value)
    requires RereadMembers(entries, depth + 1, [], style, opt) == Got(Dict([] + entries))
        <==> forall e <- entries :: DoublesSurvive(e.value, style, opt)
    ensures Reread(Dict(entries), depth, style, opt) == Got(Dict(entries))
       <==> DoublesSurvive(Dict(entries), style, opt)
  {
    hide RereadMembers, NoBinary;
    assert [] + entries == entries;
  }

  lemma TextIsKept(s: seq<byte>, room: nat)
    requires Sound(Str(s), room)
    ensures Readable(s) && Normal(s) == s
  {
    SurvivesIffWellFormed(s);
  }

  lemma InTail<T>(s: seq<T>)
    requires s != []
    ensures s[0] in s && forall x <- s[1..] :: x in s
    ensures forall x <- s :: x == s[0] || x in s[1..]
  {
    assert s == [s[0]] + s[1..];
  }

  lemma {:induction false} SoundItemsAreKept(items: seq<Value>, depth: nat, read: seq<Value>, style: Style,
                                             opt: Options)
    requires depth < MAX_DEPTH && forall item <- items :: Sound(item, MAX_DEPTH - 1 - depth) && NoBinary(item)
    ensures RereadItems(items, depth, read, style, opt) == Got(List(read + items))
       <==> forall item <- items :: DoublesSurvive(item, style, opt)
    decreases items, 1
  {
    if items == [] {
      assert read + items == read;
    } else {
      InTail(items);
      SoundIsKept(items[0], depth, style, opt);
      hide Sound, Reread, NoBinary, DoublesSurvive;
      match Reread(items[0], depth, style, opt)
      case Lost(_) =>
      case Got(item) =>
        SoundItemsAreKept(items[1..], depth, read + [item], style, opt);
        ItemsExtend(items[1..], depth, read + [item], style, opt);
        assert read + [items[0]] + items[1..] == read + items;
        assert (read + [item])[|read|] == item && (read + items)[|read|] == items[0];
    }
  }

  /** What has been read stays in front. */
  lemma {:induction false} ItemsExtend(items: seq<Value>, depth: nat, read: seq<Value>, style: Style, opt: Options)
    requires forall item <- items :: NoBinary(item)
    ensures RereadItems(items, depth, read, style, opt).Got? ==>
      var w := RereadItems(items, depth, read, style, opt).value; w.List? && read <= w.items
  {
    if items != [] && Reread(items[0], depth, style, opt).Got? {
      ItemsExtend(items[1..], depth, read + [Reread(items[0], depth, style, opt).value], style, opt);
    }
  }

  lemma {:induction false} SoundMembersAreKept(entries: seq<Entry>, depth: nat, read: seq<Entry>, style: Style,
                                               opt: Options)
    requires depth < MAX_DEPTH && Sorted(read + entries)
    requires SoundEntries(entries, MAX_DEPTH - 1 - depth) && forall e <- entries :: NoBinary(e.value)
    ensures RereadMembers(entries, depth, read, style, opt) == Got(Dict(read + entries))
       <==> forall e <- entries :: DoublesSurvive(e.value, style, opt)
    decreases entries, 1
  {
    if entries == [] {
      assert read + entries == read;
    } else {
      hide *;
      var e, rest := entries[0], entries[1..];
      InTail(entries);
      SoundTail(entries, MAX_DEPTH - 1 - depth);
      SoundIsKept(e.value, depth, style, opt);
      RereadFirst(entries, depth, read, style, opt);
      match Reread(e.value, depth, style, opt)
      case Lost(_) =>
      case Got(value) =>
        var read' := read + [Entry(e.key, value)];
        SoundMembersAreKept(rest, depth, read', style, opt);
        MembersExtend(rest, depth, read', style, opt);
        SameWith(read, entries, value);
    }
  }

  lemma SameWith(read: seq<Entry>, entries: seq<Entry>, value: Value)
    requires entries != []
    ensures var read' := read + [Entry(entries[0].key, value)];
      && (read' <= read + entries <==> value == entries[0].value)
      && (value == entries[0].value ==> read' + entries[1..] == read + entries)
  {
    var e, all := entries[0], read + entries;
    assert all[|read|] == e && (read + [Entry(e.key, value)])[|read|] == Entry(e.key, value);
    if value == e.value { assert read + [e] == all[..|read| + 1]; }
  }

  lemma SoundTail(entries: seq<Entry>, room: nat)
    requires SoundEntries(entries, room) && entries != []
    ensures WellFormed(entries[0].key) && Sound(entries[0].value, room)
    ensures SoundEntries(entries[1..], room) && forall e <- entries[1..] :: WellFormed(e.key)
  {
    hide Sound, WellFormed;
  }

  /** The first of the sorted entries is read and goes to the end. */
  lemma RereadFirst(entries: seq<Entry>, depth: nat, read: seq<Entry>, style: Style, opt: Options)
    requires entries != [] && Sorted(read + entries) && WellFormed(entries[0].key)
    requires forall e <- entries :: NoBinary(e.value)
    ensures var r := Reread(entries[0].value, depth, style, opt);
      var read' := read + [Entry(entries[0].key, if r.Got? then r.value else Null)];
      Sorted(read' + entries[1..])
      && RereadMembers(entries, depth, read, style, opt)
         == match r case Lost(code) => Lost(code) case Got(_) => RereadMembers(entries[1..], depth, read', style, opt)
  {
    var r := Reread(entries[0].value, depth, style, opt);
    SurvivesIffWellFormed(entries[0].key);
    NextInOrder(read, entries, if r.Got? then r.value else Null);
    hide Set, Sorted, Readable, Normal, WellFormed, Reread, NoBinary;
  }

  lemma {:induction false} MembersExtend(entries: seq<Entry>, depth: nat, read: seq<Entry>, style: Style, opt: Options)
    requires Sorted(read + entries) && forall e <- entries :: WellFormed(e.key)
    requires forall e <- entries :: NoBinary(e.value)
    ensures RereadMembers(entries, depth, read, style, opt).Got? ==>
      var w := RereadMembers(entries, depth, read, style, opt).value; w.Dict? && read <= w.entries
  {
    if entries != [] {
      RereadFirst(entries, depth, read, style, opt);
      InTail(entries);
      hide Sorted, WellFormed, Reread, NoBinary, RereadMembers;
      match Reread(entries[0].value, depth, style, opt)
      case Lost(_) =>
      case Got(value) => MembersExtend(entries[1..], depth, read + [Entry(entries[0].key, value)], style, opt);
    }
  }

  /** The key of the next of the sorted entries goes behind those read. */
  lemma NextInOrder(read: seq<Entry>, entries: seq<Entry>, value: Value)
    requires entries != [] && Sorted(read + entries)
    ensures var read' := read + [Entry(entries[0].key, value)];
      Set(read, entries[0].key, value) == read' && Sorted(read' + entries[1..])
  {
    var all, e := read + entries, entries[0];
    assert all[|read|] == e;
    forall i | 0 <= i < |read| ensures Less(read[i].key, e.key) {
      assert all[i] == read[i];
    }
    var all' := read + [Entry(e.key, value)] + entries[1..];
    assert forall i :: 0 <= i < |all| ==> all'[i].key == all[i].key;
    hide Less;
    SetAppends(read, e.key, value);
  }

  /** Whatever is read back is clean and not too deep. */
  lemma {:induction false} ReadIsIntact(v: Value, depth: nat, style: Style, opt: Options)
    requires depth < MAX_DEPTH && NoBinary(v) && Reread(v, depth, style, opt).Got?
    ensures Intact(Reread(v, depth, style, opt).value, MAX_DEPTH - 1 - depth)
    decreases v, 0
  {
    match v
    case Str(s) => NormalIsWellFormed(s);
    case List(items) => ReadItemsAreIntact(items, depth + 1, [], style, opt);
    case Dict(entries) => ReadMembersAreIntact(entries, depth + 1, [], style, opt);
    case _ =>
  }

  lemma {:induction false} ReadItemsAreIntact(items: seq<Value>, depth: nat, read: seq<Value>, style: Style,
                                              opt: Options)
    requires depth < MAX_DEPTH && forall item <- items :: NoBinary(item)
    requires RereadItems(items, depth, read, style, opt).Got?
    requires forall item <- read :: Intact(item, MAX_DEPTH - 1 - depth)
    ensures var w := RereadItems(items, depth, read, style, opt).value;
      w.List? && forall item <- w.items :: Intact(item, MAX_DEPTH - 1 - depth)
    decreases items, 1
  {
    if items != [] {
      ReadIsIntact(items[0], depth, style, opt);
      hide Intact, NoBinary, Reread;
      ReadItemsAreIntact(items[1..], depth, read + [Reread(items[0], depth, style, opt).value], style, opt);
    }
  }

  lemma {:induction false} ReadMembersAreIntact(entries: seq<Entry>, depth: nat, read: seq<Entry>, style: Style,
                                                opt: Options)
    requires depth < MAX_DEPTH && Sorted(read) && forall e <- entries :: NoBinary(e.value)
    requires RereadMembers(entries, depth, read, style, opt).Got?
    requires forall e <- read :: WellFormed(e.key) && Intact(e.value, MAX_DEPTH - 1 - depth)
    ensures var w := RereadMembers(entries, depth, read, style, opt).value;
      && w.Dict? && Sorted(w.entries)
      && forall e <- w.entries :: WellFormed(e.key) && Intact(e.value, MAX_DEPTH - 1 - depth)
    decreases entries, 2
  {
    if entries != [] {
      var key, value := Normal(entries[0].key), Reread(entries[0].value, depth, style, opt).value;
      NormalIsWellFormed(entries[0].key);
      ReadIsIntact(entries[0].value, depth, style, opt);
      SetKeepsOrder(read, key, value);
      hide Intact, NoBinary, Reread, Sorted, Set, Normal, WellFormed, Readable;
      ReadMembersAreIntact(entries[1..], depth, Set(read, key, value), style, opt);
    }
  }

  /** All that is asked of a value to be read back as it was. */
  predicate Survives(v: Value, style: Style, opt: Options) {
    NoBinary(v) && CleanText(v) && NestsAtMost(v, 99) && DoublesSurvive(v, style, opt)
  }

  lemma KeptIffSurvives(v: Value, style: Style, opt: Options)
    requires Ordered(v) && NoBinary(v)
    ensures Reread(v, 0, style, opt) == Got(v) <==> Survives(v, style, opt)
  {
    hide Reread, CleanText, NestsAtMost, Ordered, NoBinary, DoublesSurvive;
    if Intact(v, 99) { SoundIsKept(v, 0, style, opt); }
    if Reread(v, 0, style, opt) == Got(v) { ReadIsIntact(v, 0, style, opt); }
  }

  // ----- the parser makes no binary values, and its dictionaries are in order --------------------------------

  ghost predicate Proper(v: Value) { NoBinary(v) && Ordered(v) }

  ghost predicate ProperIfRead(r: Parsed<Value>) { r.Ok? ==> Proper(r.value) }

  lemma {:induction false} ParsesProper(s: seq<byte>, depth: nat, opt: Options)
    ensures ProperIfRead(ParseToken(s, depth, opt))
    decreases |s|, 0
  {
    hide Number, Literal, StringBody, SkipSpace, Items, Members;
    match TokenAt(s)
    case ObjectBegin =>
      if depth + 1 < MAX_DEPTH { MembersProper(SkipSpace(s[1..]), depth + 1, [], opt); }
    case ArrayBegin =>
      if depth + 1 < MAX_DEPTH { ItemsProper(SkipSpace(s[1..]), depth + 1, [], opt); }
    case _ =>
      ScalarsProper(s, opt);
  }

  lemma ScalarsProper(s: seq<byte>, opt: Options)
    ensures ProperIfRead(Number(s, opt)) && ProperIfRead(Literal(s))
    ensures forall text :: Proper(Str(text))
  {}

  lemma {:induction false} ItemsProper(s: seq<byte>, depth: nat, items: seq<Value>, opt: Options)
    requires forall item <- items :: Proper(item)
    ensures ProperIfRead(Items(s, depth, items, opt))
    decreases |s|, 1
  {
    hide ParseToken, SkipSpace;
    if TokenAt(s) != ArrayEnd {
      ParsesProper(s, depth, opt);
      match ParseToken(s, depth, opt)
      case Fail(_) =>
      case Ok(item, rest) =>
        hide Proper;
        MoreItemsProper(SkipSpace(rest), depth, items + [item], opt);
    }
  }

  lemma {:induction false} MoreItemsProper(s: seq<byte>, depth: nat, items: seq<Value>, opt: Options)
    requires forall item <- items :: Proper(item)
    ensures ProperIfRead(MoreItems(s, depth, items, opt))
    decreases |s|, 2
  {
    hide SkipSpace, Items;
    if TokenAt(s) == Comma { ItemsProper(SkipSpace(s[1..]), depth, items, opt); }
  }

  ghost predicate ProperEntries(entries: seq<Entry>) { Sorted(entries) && forall e <- entries :: Proper(e.value) }

  lemma {:induction false} MembersProper(s: seq<byte>, depth: nat, entries: seq<Entry>, opt: Options)
    requires ProperEntries(entries)
    ensures ProperIfRead(Members(s, depth, entries, opt))
    decreases |s|, 1
  {
    hide ParseToken, SkipSpace, StringBody, Set, MoreMembers;
    if TokenAt(s) == StringStart && StringBody(s[1..], []).Ok? {
      var key, afterKey := StringBody(s[1..], []).value, StringBody(s[1..], []).rest;
      var colon := SkipSpace(afterKey);
      if TokenAt(colon) == Colon {
        var start := SkipSpace(colon[1..]);
        ParsesProper(start, depth, opt);
        var r := ParseToken(start, depth, opt);
        if r.Ok? {
          SetKeepsOrder(entries, key, r.value);
          MoreMembersProper(SkipSpace(r.rest), depth, Set(entries, key, r.value), opt);
        }
      }
    }
  }

  lemma {:induction false} MoreMembersProper(s: seq<byte>, depth: nat, entries: seq<Entry>, opt: Options)
    requires ProperEntries(entries)
    ensures ProperIfRead(MoreMembers(s, depth, entries, opt))
    decreases |s|, 2
  {
    hide SkipSpace, Members;
    if TokenAt(s) == Comma { MembersProper(SkipSpace(s[1..]), depth, entries, opt); }
  }

  /** Whatever is parsed has no binary values and keeps its dictionaries in order. */
  lemma ParsedIsProper(input: seq<byte>, opt: Options)
    ensures ProperIfRead(Parse(input, opt))
  {
    var start := if BOM <= input then input[3..] else input;
    ParsesProper(SkipSpace(start), 0, opt);
    hide ParseToken, SkipSpace, Proper;
  }

  // ----- main results ----------------------------------------------------------------------------------------

  /** Parsing what was written gives the value back just when it has no binary values, its text is clean, at most 99
      containers nest and its doubles survive. */
  lemma RoundTrip(v: Value, style: Style, opt: Options)
    requires Ordered(v) && style.Valid()
    ensures Parse(WriteWithOptions(v, style), opt) == Ok(v, []) <==> Survives(v, style, opt)
  {
    ParsedIsProper(WriteWithOptions(v, style), opt);
    hide Parse, WriteWithOptions, Reread, CleanText, NestsAtMost, Ordered, NoBinary, DoublesSurvive;
    if NoBinary(v) {
      ParseWritten(v, style, opt);
      KeptIffSurvives(v, style, opt);
    }
  }

  /** A string holding U+0000 is written as \u0000 and read back empty. */
  lemma NulIsLost(style: Style, opt: Options)
    requires style.Valid()
    ensures Parse(WriteWithOptions(Str([0]), style), opt) == Ok(Str([]), [])
  {
    assert Next([0]) == Read(0, 1) && Repaired([0]) == 0;
    assert Normal([0]) == [];
    assert Readable([0]);
    ParseWritten(Str([0]), style, opt);
  }

  /** std::to_string takes the nearest number of millionths, and of two the even one. */
  lemma RoundsToNearest(size: magnitude)
    ensures var m, x := Millionths(size), size * 1_000_000.0;
      && m as real - 0.5 <= x <= m as real + 0.5
      && (x == m as real - 0.5 || x == m as real + 0.5 ==> m % 2 == 0)
  {
    hide Millionths;
    NearestInteger(size * 1_000_000.0);
    assert Millionths(size) == HalfEven(size * 1_000_000.0) by { MillionthsOf(size); }
  }

  lemma MillionthsOf(size: magnitude)
    ensures Millionths(size) == HalfEven(size * 1_000_000.0)
  {}

  lemma NearestInteger(x: magnitude)
    ensures var m := HalfEven(x);
      && m as real - 0.5 <= x <= m as real + 0.5
      && (x == m as real - 0.5 || x == m as real + 0.5 ==> m % 2 == 0)
  {}

  /** Six decimals are all there is of size. */
  predicate SixDecimals(size: magnitude) { (size * 1_000_000.0).Floor as real == size * 1_000_000.0 }

  lemma SixDecimalsKept(size: magnitude)
    requires SixDecimals(size)
    ensures Millionths(size) as real / 1_000_000.0 == size
  {}

  /** A double with at most six decimals survives, unless it is written as an integer. */
  lemma ShortDoubleSurvives(negative: bool, size: magnitude, style: Style, opt: Options)
    requires SixDecimals(size) && opt.nearest(size) == Just(size) && style.Valid() && !style.AsInteger(size)
    ensures Parse(WriteWithOptions(Double(negative, size), style), opt) == Ok(Double(negative, size), [])
  {
    SixDecimalsKept(size);
    hide Parse, WriteWithOptions, SixDecimals, Millionths;
    RoundTrip(Double(negative, size), style, opt);
  }

  /** One below half a millionth is read back as zero. */
  lemma SmallIsLost(negative: bool, size: magnitude, style: Style, opt: Options)
    requires 0.0 < size <= 0.0000005 && opt.nearest(0.0) == Just(0.0) && style.Valid()
    ensures Parse(WriteWithOptions(Double(negative, size), style), opt) == Ok(Double(negative, 0.0), [])
  {
    SmallIsZero(size);
    assert NoBinary(Double(negative, size));
    hide *;
    ZeroIsRead(negative, size, style, opt);
    ParseWritten(Double(negative, size), style, opt);
    LiftGot(Double(negative, 0.0));
  }

  lemma LiftGot(v: Value)
    ensures Lift(Got(v), []) == Ok(v, [])
  {}

  lemma ZeroIsRead(negative: bool, size: magnitude, style: Style, opt: Options)
    requires Millionths(size) == 0 && size.Floor as real != size && opt.nearest(0.0) == Just(0.0)
    ensures Reread(Double(negative, size), 0, style, opt) == Got(Double(negative, 0.0))
  {
    assert !style.AsInteger(size);
    hide Millionths, Style.AsInteger;
  }

  lemma SmallIsZero(size: magnitude)
    requires 0.0 < size <= 0.0000005
    ensures Millionths(size) == 0 && size.Floor as real != size
  {
    assert 0.0 < size * 1_000_000.0 <= 0.5;
  }

  /** Without type preservation an integral double of the int type's range is read back as an integer. */
  lemma TypeIsLost(negative: bool, size: magnitude, style: Style, opt: Options)
    requires style.omitDoubleTypePreservation && size.Floor as real == size && style.Valid()
    requires INT.Fits(Signed(size.Floor, negative))
    ensures Parse(WriteWithOptions(Double(negative, size), style), opt) == Ok(Int(Signed(size.Floor, negative)), [])
  {
    hide Parse, WriteWithOptions;
    ParseWritten(Double(negative, size), style, opt);
  }

  /** Without binary values, where the writer may leave them out. */
  function WithoutBinary(v: Value): Value
    decreases v, 0
  {
    match v
    case List(items) => List(ItemsWithout(items))
    case Dict(entries) => Dict(EntriesWithout(entries))
    case _ => v
  }

  function ItemsWithout(items: seq<Value>): seq<Value>
    decreases items, 1
  {
    if items == [] then [] else (if items[0].Binary? then [] else [WithoutBinary(items[0])]) + ItemsWithout(items[1..])
  }

  function EntriesWithout(entries: seq<Entry>): seq<Entry>
    decreases entries, 2
  {
    if entries == [] then []
    else (if entries[0].value.Binary? then [] else [EntryWithout(entries[0])]) + EntriesWithout(entries[1..])
  }

  function EntryWithout(e: Entry): Entry
    decreases e, 1
  {
    Entry(e.key, WithoutBinary(e.value))
  }

  lemma {:induction false} WriteWithout(v: Value, depth: nat, style: Style)
    requires style.omitBinaryValues
    ensures Write(v, depth, style) == Write(WithoutBinary(v), depth, style)
    decreases v, 0
  {
    match v
    case List(items) => ItemsWriteWithout(items, true, depth, style);
    case Dict(entries) => MembersWriteWithout(entries, true, depth, style);
    case _ =>
  }

  lemma {:induction false} ItemsWriteWithout(items: seq<Value>, first: bool, depth: nat, style: Style)
    requires style.omitBinaryValues
    ensures WriteItems(items, first, depth, style) == WriteItems(ItemsWithout(items), first, depth, style)
    decreases items, 1
  {
    if items != [] {
      var w := WithoutBinary(items[0]);
      if items[0].Binary? {
        ItemsWriteWithout(items[1..], first, depth, style);
        assert [] + ItemsWithout(items[1..]) == ItemsWithout(items[1..]);
      } else {
        WriteWithout(items[0], depth, style);
        ItemsWriteWithout(items[1..], false, depth, style);
        assert ([w] + ItemsWithout(items[1..]))[1..] == ItemsWithout(items[1..]);
      }
      hide Write;
    }
  }

  lemma {:induction false} MembersWriteWithout(entries: seq<Entry>, first: bool, depth: nat, style: Style)
    requires style.omitBinaryValues
    ensures WriteMembers(entries, first, depth, style) == WriteMembers(EntriesWithout(entries), first, depth, style)
    decreases entries, 2
  {
    if entries != [] {
      var w := EntryWithout(entries[0]);
      if entries[0].value.Binary? {
        MembersWriteWithout(entries[1..], first, depth, style);
        assert [] + EntriesWithout(entries[1..]) == EntriesWithout(entries[1..]);
      } else {
        WriteWithout(entries[0].value, depth + 1, style);
        MembersWriteWithout(entries[1..], false, depth, style);
        assert ([w] + EntriesWithout(entries[1..]))[1..] == EntriesWithout(entries[1..]);
      }
      hide Write;
    }
  }

  lemma {:induction false} WithoutIsProper(v: Value)
    requires Ordered(v) && !v.Binary?
    ensures Proper(WithoutBinary(v)) && !WithoutBinary(v).Binary?
    decreases v, 0
  {
    match v
    case List(items) => ItemsWithoutAreProper(items);
    case Dict(entries) => EntriesWithoutAreProper(entries);
    case _ =>
  }

  lemma {:induction false} ItemsWithoutAreProper(items: seq<Value>)
    requires forall item <- items :: Ordered(item)
    ensures forall item <- ItemsWithout(items) :: Proper(item)
    decreases items, 1
  {
    if items != [] {
      if !items[0].Binary? { WithoutIsProper(items[0]); }
      hide Proper, Ordered, WithoutBinary;
      ItemsWithoutAreProper(items[1..]);
    }
  }

  lemma {:induction false} EntriesWithoutAreProper(entries: seq<Entry>)
    requires Sorted(entries) && forall e <- entries :: Ordered(e.value)
    ensures ProperEntries(EntriesWithout(entries)) && KeysAmong(EntriesWithout(entries), entries)
    decreases entries, 1
  {
    if entries != [] {
      var e, w := entries[0], EntriesWithout(entries[1..]);
      if !e.value.Binary? { WithoutIsProper(e.value); }
      SortedRest(entries);
      hide Proper, Ordered, WithoutBinary, Less, ProperEntries, KeysAmong, Sorted;
      EntriesWithoutAreProper(entries[1..]);
      KeepInOrder(entries, EntryWithout(e), w);
      assert [] + w == w;
    }
  }

  /** The keys of w are keys of entries. */
  ghost predicate KeysAmong(w: seq<Entry>, entries: seq<Entry>) {
    forall j :: 0 <= j < |w| ==> exists i :: 0 <= i < |entries| && entries[i].key == w[j].key
  }

  lemma SortedRest(entries: seq<Entry>)
    requires Sorted(entries) && entries != []
    ensures Sorted(entries[1..])
  {
    hide Less;
  }

  /** With or without the first of the sorted entries. */
  lemma KeepInOrder(entries: seq<Entry>, e: Entry, w: seq<Entry>)
    requires Sorted(entries) && entries != [] && e.key == entries[0].key
    requires ProperEntries(w) && KeysAmong(w, entries[1..])
    ensures KeysAmong(w, entries) && KeysAmong([e] + w, entries)
    ensures Proper(e.value) ==> ProperEntries([e] + w)
  {
    hide Proper, Less;
    forall j | 0 <= j < |w|
      ensures Less(e.key, w[j].key) && exists i :: 0 <= i < |entries| && entries[i].key == w[j].key
    {
      var i :| 0 <= i < |entries[1..]| && entries[1..][i].key == w[j].key;
      assert entries[i + 1].key == w[j].key;
    }
    assert entries[0].key == ([e] + w)[0].key;
  }

  /** Where binary values are omitted, the value without them is what counts. */
  lemma OmittedRoundTrip(v: Value, style: Style, opt: Options)
    requires Ordered(v) && !v.Binary? && style.Valid() && style.omitBinaryValues
    ensures Parse(WriteWithOptions(v, style), opt) == Ok(WithoutBinary(v), [])
       <==> Survives(WithoutBinary(v), style, opt)
  {
    WriteWithout(v, 0, style);
    WithoutIsProper(v);
    hide Parse, Write, WithoutBinary, Survives, Ordered, NoBinary;
    RoundTrip(WithoutBinary(v), style, opt);
  }

  /** The writer and the parser, one after the other, unless the writer stops the program. */
  method WriteAndParse(v: Value, style: Style, opt: Options) returns (ok: Maybe<bool>, root: Maybe<Value>)
    requires Ordered(v) && style.Valid()
    ensures ok == if TextsFit(v, style) then Just(Writes(v, style)) else Nothing
    ensures root == Just(v) <==> TextsFit(v, style) && Survives(v, style, opt)
  {
    RoundTrip(v, style, opt);
    hide Parse, WriteWithOptions, Survives, Ordered, Writes, TextsFit;
    var json;
    ok, json := WriteJson(v, style);
    if ok.Nothing? { return Nothing, Nothing; }
    var parser := new JsonParser(json, opt);
    root := parser.ParseInput();
  }
}
