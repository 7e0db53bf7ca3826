/** JSON values. A dictionary is what std::map keeps: entries in strictly increasing order of
    their keys. */
module JsonValues {
  import opened Utf8

  datatype Entry = Entry(key: seq<byte>, value: Value)

  type int32 = n: int | -0x8000_0000 <= n <= 0x7FFF_FFFF

  type magnitude = x: real | x >= 0.0

  /** A double has a sign, zero included, and is finite: FundamentalValue takes no other. */
  datatype Value =
    | Null
    | Bool(b: bool)
    | Int(n: int32)
    | Double(negative: bool, size: magnitude)
    | Str(s: seq<byte>)
    | Binary(bytes: seq<byte>)
    | List(items: seq<Value>)
    | Dict(entries: seq<Entry>)

  datatype Maybe<+T> = Nothing | Just(value: T)

  predicate NoBinary(v: Value) {
    match v
    case Binary(_) => false
    case List(items) => forall item <- items :: NoBinary(item)
    case Dict(entries) => forall e <- entries :: NoBinary(e.value)
    case _ => true
  }

  lemma {:induction false} LessIsStrict(a: seq<byte>)
    ensures !Less(a, a)
  {
    if a != [] { LessIsStrict(a[1..]); }
  }

  lemma {:induction false} LessIsTransitive(a: seq<byte>, b: seq<byte>, c: seq<byte>)
    requires Less(a, b) && Less(b, c)
    ensures Less(a, c)
  {
    if a != [] && a[0] == b[0] == c[0] { LessIsTransitive(a[1..], b[1..], c[1..]); }
  }

  lemma {:induction false} LessIsTotal(a: seq<byte>, b: seq<byte>)
    ensures Less(a, b) || a == b || Less(b, a)
  {
    if a != [] && b != [] && a[0] == b[0] {
      LessIsTotal(a[1..], b[1..]);
      if a[1..] == b[1..] { assert a == [a[0]] + a[1..] && b == [b[0]] + b[1..]; }
    }
  }

  ghost predicate Sorted(m: seq<Entry>) { forall i, j :: 0 <= i < j < |m| ==> Less(m[i].key, m[j].key) }

  /** SetWithoutPathExpansion: dictionary_[key] = value. */
  function Set(m: seq<Entry>, key: seq<byte>, value: Value): seq<Entry> {
    if m == [] then [Entry(key, value)]
    else if key == m[0].key then [Entry(key, value)] + m[1..]
    else if Less(key, m[0].key) then [Entry(key, value)] + m
    else [m[0]] + Set(m[1..], key, value)
  }

  lemma {:induction false} SetKeepsOrder(m: seq<Entry>, key: seq<byte>, value: Value)
    requires Sorted(m)
    ensures Sorted(Set(m, key, value))
    ensures forall e :: e in Set(m, key, value) <==> e == Entry(key, value) || (e in m && e.key != key)
  {
    if m == [] {
    } else if key == m[0].key {
      forall i | 1 <= i < |m| ensures m[i].key != key {
        LessIsStrict(key);
      }
      assert m == [m[0]] + m[1..];
    } else if Less(key, m[0].key) {
      forall i | 0 <= i < |m| ensures Less(key, m[i].key) && m[i].key != key {
        if i > 0 { LessIsTransitive(key, m[0].key, m[i].key); }
        LessIsStrict(key);
      }
    } else {
      LessIsTotal(key, m[0].key);
      var t := Set(m[1..], key, value);
      SetKeepsOrder(m[1..], key, value);
      assert m == [m[0]] + m[1..];
      forall i | 0 <= i < |t| ensures Less(m[0].key, t[i].key) {
        assert t[i] in t;
      }
    }
  }

  /** A key past all others goes to the end. */
  lemma {:induction false} SetAppends(m: seq<Entry>, key: seq<byte>, value: Value)
    requires forall i :: 0 <= i < |m| ==> Less(m[i].key, key)
    ensures Set(m, key, value) == m + [Entry(key, value)]
  {
    if m != [] {
      LessIsStrict(key);
      if Less(key, m[0].key) { LessIsTransitive(key, m[0].key, key); }
      SetAppends(m[1..], key, value);
      assert m == [m[0]] + m[1..];
    }
  }
}
