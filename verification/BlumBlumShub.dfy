/** The Blum-Blum-Shub generator and its random access: seeking reduces an exponent instead of squaring. */
module BlumBlumShubGenerator {
  import opened Bits
  import opened Integers
  import opened NumberTheory

  function Square(n: nat, x: nat): (r: nat)
    requires n > 0
    ensures r < n
  {
    (x * x) % n
  }

  /** x squared j times modulo n. */
  function Squarings(n: nat, x: nat, j: nat): nat
    requires n > 0
  {
    if j == 0 then x else Square(n, Squarings(n, x, j - 1))
  }

  /** Bit i of the output: each block of width bits comes from the top down out of one more squaring of x0. */
  function StreamBit(n: nat, width: nat, x0: nat, i: nat): (b: nat)
    requires n > 0 && width > 0
    ensures b < 2
  {
    GetBit(Squarings(n, x0, i / width + 1), width - 1 - i % width)
  }

  /** The byte made of bits i, i + 1, ..., i + count - 1, the first one highest. */
  function StreamByte(n: nat, width: nat, x0: nat, i: nat, count: nat): (b: nat)
    requires n > 0 && width > 0
    ensures b < Pow2(count)
  {
    if count == 0 then 0 else 2 * StreamByte(n, width, x0, i, count - 1) + StreamBit(n, width, x0, i + count - 1)
  }

  /** The first count bits of block j are the top count bits of width. */
  lemma {:induction false} BlockFront(n: nat, width: nat, x0: nat, j: nat, count: nat)
    requires n > 0 && width > 0 && count <= width
    ensures StreamByte(n, width, x0, j * width, count) == Low(Squarings(n, x0, j + 1), width) / Pow2(width - count)
  {
    var x := Squarings(n, x0, j + 1);
    if count == 0 {
      DivUnique(Low(x, width), Pow2(width), 0, Low(x, width));
    } else {
      BlockFront(n, width, x0, j, count - 1);
      InBlockJ(j, width, count - 1);
      BitOfLow(x, width, width - count);
      hide Squarings;
      OneBitMore(Low(x, width), width - count);
    }
  }

  lemma InBlockJ(j: nat, width: nat, k: nat)
    requires k < width
    ensures (j * width + k) / width == j && (j * width + k) % width == k
  {
    DivUnique(j * width + k, width, j, k);
  }

  /** A bit below width is a bit of the low part. */
  lemma BitOfLow(x: nat, width: nat, t: nat)
    requires t < width
    ensures GetBit(x, t) == GetBit(Low(x, width), t)
  {
    LowBit(x, width, t);
  }

  lemma {:induction false} LowBit(x: nat, width: nat, t: nat)
    requires t < width
    ensures GetBit(x, t) == GetBit(Low(x, width), t)
  {
    assert Low(x, width) % 2 == x % 2 && Low(x, width) / 2 == Low(x / 2, width - 1);
    if t > 0 { LowBit(x / 2, width - 1, t - 1); }
  }

  lemma OneBitMore(x: nat, t: nat)
    ensures x / Pow2(t) == 2 * (x / Pow2(t + 1)) + GetBit(x, t)
  {
    SplitIsDivMod(x, t);
    SplitIsDivMod(x, t + 1);
    ShiftStep(x, t);
    hide Shr, GetBit;
  }

  /** The bits of block j, the first highest, spell the low width bits of the state: x0 squared j + 1 times. */
  lemma BlockIsLowBits(n: nat, width: nat, x0: nat, j: nat)
    requires n > 0 && width > 0
    ensures StreamByte(n, width, x0, j * width, width) == Squarings(n, x0, j + 1) % Pow2(width)
  {
    BlockFront(n, width, x0, j, width);
    SplitIsDivMod(Squarings(n, x0, j + 1), width);
    assert Pow2(0) == 1;
    hide Low, Squarings, StreamByte;
  }

  /** A byte is its eight bits, the first worth 128 and the last worth one. */
  lemma ByteIsSumOfBits(n: nat, width: nat, x0: nat, i: nat)
    requires n > 0 && width > 0
    ensures StreamByte(n, width, x0, i, 8)
         == 128 * StreamBit(n, width, x0, i) + 64 * StreamBit(n, width, x0, i + 1)
            + 32 * StreamBit(n, width, x0, i + 2) + 16 * StreamBit(n, width, x0, i + 3)
            + 8 * StreamBit(n, width, x0, i + 4) + 4 * StreamBit(n, width, x0, i + 5)
            + 2 * StreamBit(n, width, x0, i + 6) + StreamBit(n, width, x0, i + 7)
  {
    hide StreamBit;
    assert StreamByte(n, width, x0, i, 2) == 2 * StreamByte(n, width, x0, i, 1) + StreamBit(n, width, x0, i + 1);
    assert StreamByte(n, width, x0, i, 4)
        == 4 * StreamByte(n, width, x0, i, 2) + 2 * StreamBit(n, width, x0, i + 2) + StreamBit(n, width, x0, i + 3);
    assert StreamByte(n, width, x0, i, 6)
        == 4 * StreamByte(n, width, x0, i, 4) + 2 * StreamBit(n, width, x0, i + 4) + StreamBit(n, width, x0, i + 5);
  }

  /** Bit by bit: bit i is that of weight 2^(width - 1 - i % width) in seed^(2^(i / width + 2)) modulo n. */
  lemma BitOfPower(n: nat, width: nat, seed: nat, i: nat)
    requires n > 1 && width > 0
    ensures StreamBit(n, width, Square(n, seed), i)
         == Pow(seed, Pow2(i / width + 2)) % n / Pow2(width - 1 - i % width) % 2
  {
    var j, t := i / width + 1, width - 1 - i % width;
    FromSeed(n, seed, j);
    SplitIsDivMod(Squarings(n, Square(n, seed), j), t);
    hide Squarings, Pow, Pow2;
  }

  /** Squarings of the squared seed are powers of the seed. */
  lemma {:induction false} FromSeed(n: nat, seed: nat, j: nat)
    requires n > 1
    ensures Squarings(n, Square(n, seed), j) == Pow(seed, Pow2(j + 1)) % n
  {
    if j == 0 {
      assert Pow2(1) == 2;
      PowTwo(seed);
    } else {
      var s, p := Squarings(n, Square(n, seed), j - 1), Pow(seed, Pow2(j));
      FromSeed(n, seed, j - 1);
      CongMod(p, n);
      CongMul(s, p, s, p, n);
      PowAdd(seed, Pow2(j), Pow2(j));
      SameRemainder(s * s, p * p, n);
    }
  }

  lemma PowTwo(x: nat)
    ensures Pow(x, 2) == x * x
  {
    assert Pow(x, 1) == x;
  }

  lemma {:induction false} SquaringsArePowers(n: nat, x: nat, j: nat)
    requires n > 0 && x < n
    ensures Squarings(n, x, j) == Pow(x, Pow2(j)) % n
  {
    if j == 0 {
      assert Pow(x, 1) == x;
      DivUnique(x, n, 0, x);
    } else {
      var s, p := Squarings(n, x, j - 1), Pow(x, Pow2(j - 1));
      SquaringsArePowers(n, x, j - 1);
      CongMod(p, n);
      CongMul(s, p, s, p, n);
      PowAdd(x, Pow2(j - 1), Pow2(j - 1));
      SameRemainder(s * s, p * p, n);
    }
  }

  // ----- the exponent of Seek is never reduced to zero -------------------------------------------------------

  lemma {:induction false} OddDivisorOfPowerOfTwo(d: nat, t: nat)
    requires d % 2 == 1 && Divides(d, Pow2(t))
    ensures d == 1
  {
    var k := Factor(d, Pow2(t));
    if t == 0 {
    } else {
      EvenFactor(k, d, Pow2(t - 1));
      DividesBy(d, Pow2(t - 1), k / 2);
      OddDivisorOfPowerOfTwo(d, t - 1);
    }
  }

  lemma EvenFactor(k: int, d: nat, h: nat)
    requires d % 2 == 1 && k * d == 2 * h
    ensures h == (k / 2) * d
  {
    var c, r := k / 2, k % 2;
    assert k == 2 * c + r;
    Distribute(2 * c, r, d);
    MulAssoc(2, c, d);
  }

  ghost predicate BlumPrimes(p: nat, q: nat) { Prime(p) && Prime(q) && p != q && p % 4 == 3 && q % 4 == 3 }

  /** (p - 1)(q - 1) has an odd factor above one, so it divides no power of two. */
  lemma NeverReducedToZero(p: nat, q: nat, t: nat)
    requires BlumPrimes(p, q)
    ensures (p - 1) * (q - 1) > 0 && Pow2(t) % ((p - 1) * (q - 1)) > 0
  {
    BlumHalf(p);
    BlumHalf(q);
    MulMono(1, p - 1, q - 1);
    var phi := (p - 1) * (q - 1);
    if Pow2(t) % phi == 0 {
      OddFactors(Pow2(t) / phi, (p - 1) / 2, (q - 1) / 2, t);
    }
  }

  lemma BlumHalf(p: nat)
    requires p % 4 == 3
    ensures p >= 3 && p - 1 == 2 * ((p - 1) / 2) && ((p - 1) / 2) % 2 == 1
  {}

  lemma FourFold(k: int, a: int, b: int)
    ensures k * ((2 * a) * (2 * b)) == (k * 4 * b) * a == (k * 4 * a) * b
  {}

  lemma OddFactors(k: nat, a: nat, b: nat, t: nat)
    requires a % 2 == 1 && b % 2 == 1 && Pow2(t) == k * ((2 * a) * (2 * b))
    ensures a == 1 && b == 1
  {
    FourFold(k, a, b);
    DividesBy(a, Pow2(t), k * 4 * b);
    DividesBy(b, Pow2(t), k * 4 * a);
    OddDivisorOfPowerOfTwo(a, t);
    OddDivisorOfPowerOfTwo(b, t);
  }

  /** The power Seek computes is the block the sequential generator reaches after t squarings. */
  lemma SeekReachesBlock(p: nat, q: nat, x0: nat, t: nat)
    requires BlumPrimes(p, q) && p * q > 0 && x0 < p * q
    ensures (p - 1) * (q - 1) > 0
    ensures Pow(x0, Pow2(t) % ((p - 1) * (q - 1))) % (p * q) == Squarings(p * q, x0, t)
  {
    NeverReducedToZero(p, q, t);
    ReducedPower(p, q, x0, Pow2(t));
    SquaringsArePowers(p * q, x0, t);
  }

  lemma ReducedPower(p: nat, q: nat, a: nat, f: nat)
    requires Prime(p) && Prime(q) && p != q && p * q > 0 && (p - 1) * (q - 1) > 0 && f % ((p - 1) * (q - 1)) > 0
    ensures Pow(a, f % ((p - 1) * (q - 1))) % (p * q) == Pow(a, f) % (p * q)
  {
    hide Prime, Pow, Cong;
    var phi, n := (p - 1) * (q - 1), p * q;
    var e, k := f % phi, f / phi;
    assert Cong(Pow(a, f), Pow(a, e), n) by { ReduceExponent(p, q, a, e, k, f); }
    SameRemainder(Pow(a, f), Pow(a, e), n);
  }

  class PublicBlumBlumShub {
    const n: nat
    const seedSquare: nat
    var current: nat
    const maxBits: nat
    var bitsLeft: nat

    /** The generator is about to deliver bit i of the stream. At a block boundary it may have squared already or
        not. */
    ghost predicate At(i: nat)
      reads this
    {
      && n > 1 && maxBits > 0 && bitsLeft <= maxBits
      && exists blocks: nat :: InBlock(i, blocks)
    }

    ghost predicate InBlock(i: nat, blocks: nat)
      requires n > 0
      reads this
    {
      blocks * maxBits == i + bitsLeft && current == Squarings(n, seedSquare, blocks)
    }

    constructor (modulus: nat, seed: nat)
      requires modulus > 1
      ensures n == modulus && seedSquare == Square(modulus, seed) && maxBits == BitCount(BitCount(modulus)) - 1
      ensures At(0)
    {
      n := modulus;
      seedSquare := Square(modulus, seed);
      current := Square(modulus, Square(modulus, seed));
      maxBits := BitCount(BitCount(modulus)) - 1;
      bitsLeft := BitCount(BitCount(modulus)) - 1;
      new;
      assert modulus / 2 > 0;
      assert BitCount(modulus) >= 2;
      assert BitCount(BitCount(modulus)) >= 2;
      assert Squarings(n, seedSquare, 0) == seedSquare;
      assert InBlock(0, 1);
    }

    method GenerateBit(ghost i: nat) returns (b: nat)
      requires At(i)
      modifies this`current, this`bitsLeft
      ensures At(i + 1)
      ensures b == StreamBit(n, maxBits, seedSquare, i)
      ensures b == Squarings(n, seedSquare, i / maxBits + 1) / Pow2(maxBits - 1 - i % maxBits) % 2
    {
      ghost var blocks: nat :| InBlock(i, blocks);
      if bitsLeft == 0 {
        current := Square(n, current);
        bitsLeft := maxBits;
        blocks := blocks + 1;
        Distribute(blocks - 1, 1, maxBits);
      }
      BlockOf(i, maxBits, blocks, bitsLeft);
      bitsLeft := bitsLeft - 1;
      b := GetBit(current, bitsLeft);
      SplitIsDivMod(current, bitsLeft);
      assert InBlock(i + 1, blocks);
    }

    method GenerateByte(ghost i: nat) returns (b: nat)
      requires At(i)
      modifies this`current, this`bitsLeft
      ensures At(i + 8)
      ensures b == StreamByte(n, maxBits, seedSquare, i, 8)
    {
      b := 0;
      for k := 0 to 8
        invariant At(i + k)
        invariant b == StreamByte(n, maxBits, seedSquare, i, k)
      {
        var bit := GenerateBit(i + k);
        b := 2 * b + bit;
      }
    }

    method GenerateBlock(size: nat, ghost i: nat) returns (output: seq<nat>)
      requires At(i)
      modifies this`current, this`bitsLeft
      ensures At(i + 8 * size)
      ensures |output| == size
      ensures forall k :: 0 <= k < size ==> output[k] == StreamByte(n, maxBits, seedSquare, i + 8 * k, 8)
    {
      output := [];
      while |output| < size
        invariant |output| <= size && At(i + 8 * |output|)
        invariant forall k :: 0 <= k < |output| ==> output[k] == StreamByte(n, maxBits, seedSquare, i + 8 * k, 8)
      {
        var b := GenerateByte(i + 8 * |output|);
        output := output + [b];
      }
    }

    /** BlumBlumShub::Seek, which knows the factors of the modulus. */
    method Seek(p: nat, q: nat, index: nat)
      requires BlumPrimes(p, q) && n == p * q > 1 && maxBits > 0 && seedSquare < n
      modifies this`current, this`bitsLeft
      ensures At(8 * index)
    {
      var i := 8 * index;
      SeekReachesBlock(p, q, seedSquare, i / maxBits + 1);
      var e := Pow2(i / maxBits + 1) % ((p - 1) * (q - 1));
      current := Pow(seedSquare, e) % n;
      SeekPosition(i, maxBits);
      hide Pow, Squarings, Pow2, BlumPrimes;
      bitsLeft := maxBits - i % maxBits;
      assert InBlock(i, i / maxBits + 1);
    }
  }

  /** Bit b of byte k, counted from the top, is the next bit of the powers of the seed: bit i = 8 k + b is that of
      weight 2^(width - 1 - i % width) in seed^(2^(i / width + 2)) modulo n. */
  ghost predicate IsPowerBit(n: nat, width: nat, seed: nat, k: nat, b: nat, v: nat)
    requires n > 1 && width > 0 && b < 8
  {
    var i := 8 * k + b;
    v / Pow2(7 - b) % 2 == Pow(seed, Pow2(i / width + 2)) % n / Pow2(width - 1 - i % width) % 2
  }

  ghost predicate ArePowerBits(n: nat, width: nat, seed: nat, k: nat, v: nat)
    requires n > 1 && width > 0
  {
    forall b :: 0 <= b < 8 ==> IsPowerBit(n, width, seed, k, b, v)
  }

  /** A new generator, and its first bytes: bit by bit powers of the seed. */
  method Generate(modulus: nat, seed: nat, size: nat) returns (output: seq<nat>, ghost width: nat)
    requires modulus > 1
    ensures |output| == size && width == BitCount(BitCount(modulus)) - 1 && width > 0
    ensures forall k :: 0 <= k < size ==> output[k] < 256 && ArePowerBits(modulus, width, seed, k, output[k])
  {
    var g := new PublicBlumBlumShub(modulus, seed);
    output := g.GenerateBlock(size, 0);
    width := g.maxBits;
    WidthIsPositive(modulus);
    assert Pow2(8) == 256;
    forall k | 0 <= k < size ensures output[k] < 256 && ArePowerBits(modulus, width, seed, k, output[k]) {
      ByteOfPowers(modulus, width, seed, k);
      hide *;
    }
  }

  lemma ByteOfPowers(n: nat, width: nat, seed: nat, k: nat)
    requires n > 1 && width > 0
    ensures ArePowerBits(n, width, seed, k, StreamByte(n, width, Square(n, seed), 8 * k, 8))
  {
    var v := StreamByte(n, width, Square(n, seed), 8 * k, 8);
    forall b | 0 <= b < 8 ensures IsPowerBit(n, width, seed, k, b, v) {
      hide *;
      BitOfByte(n, width, Square(n, seed), 8 * k, b);
      BitOfPower(n, width, seed, 8 * k + b);
      IsPower(n, width, seed, k, b, v);
    }
    hide IsPowerBit;
  }

  lemma WidthIsPositive(n: nat)
    requires n > 1
    ensures BitCount(BitCount(n)) > 1
  {
    assert n / 2 > 0;
    assert BitCount(n) >= 2;
  }

  lemma IsPower(n: nat, width: nat, seed: nat, k: nat, b: nat, v: nat)
    requires n > 1 && width > 0 && b < 8
    requires var i := 8 * k + b;
      v / Pow2(7 - b) % 2 == Pow(seed, Pow2(i / width + 2)) % n / Pow2(width - 1 - i % width) % 2
    ensures IsPowerBit(n, width, seed, k, b, v)
  {}

  /** Bit b of a byte, counted from the top. */
  lemma BitOfByte(n: nat, width: nat, x0: nat, i: nat, b: nat)
    requires n > 0 && width > 0 && b < 8
    ensures StreamByte(n, width, x0, i, 8) / Pow2(7 - b) % 2 == StreamBit(n, width, x0, i + b)
  {
    FrontOfByte(n, width, x0, i, 8, 7 - b);
    var y := StreamByte(n, width, x0, i, b);
    assert StreamByte(n, width, x0, i, b + 1) == 2 * y + StreamBit(n, width, x0, i + b);
    var bit := StreamBit(n, width, x0, i + b);
    hide *;
    LastBit(y, bit);
  }

  lemma LastBit(y: nat, bit: nat)
    requires bit < 2
    ensures (2 * y + bit) % 2 == bit && (2 * y + bit) / 2 == y
  {}

  lemma {:induction false} FrontOfByte(n: nat, width: nat, x0: nat, i: nat, count: nat, t: nat)
    requires n > 0 && width > 0 && t <= count
    ensures StreamByte(n, width, x0, i, count) / Pow2(t) == StreamByte(n, width, x0, i, count - t)
  {
    if t > 0 {
      var x, y := StreamByte(n, width, x0, i, count), StreamByte(n, width, x0, i, count - 1);
      var bit := StreamBit(n, width, x0, i + count - 1);
      assert x == 2 * y + bit;
      hide *;
      LastBit(y, bit);
      FrontOfByte(n, width, x0, i, count - 1, t - 1);
      HalfFirst(x, y, t);
    } else {
      assert Pow2(0) == 1;
    }
  }

  lemma HalfFirst(x: nat, y: nat, t: nat)
    requires t > 0 && x / 2 == y
    ensures x / Pow2(t) == y / Pow2(t - 1)
  {
    SplitIsDivMod(x, t);
    SplitIsDivMod(y, t - 1);
  }

  lemma SeekPosition(i: nat, width: nat)
    requires width > 0
    ensures (i / width + 1) * width == i + (width - i % width) && 0 <= i % width < width
  {
    Distribute(i / width, 1, width);
  }

  /** Where bit i lies when left bits of the current block are still to come. */
  lemma BlockOf(i: nat, width: nat, blocks: nat, left: nat)
    requires 0 < left <= width && blocks * width == i + left
    ensures blocks == i / width + 1 && left - 1 == width - 1 - i % width
  {
    Distribute(blocks - 1, 1, width);
    DivUnique(i, width, blocks - 1, width - left);
  }

  /** Seeking to byte k and generating is the same as generating from the start and dropping k bytes. */
  method SeekMatchesSequential(p: nat, q: nat, seed: nat, k: nat, size: nat)
      returns (sought: seq<nat>, sequential: seq<nat>)
    requires BlumPrimes(p, q) && p * q > 1
    ensures |sequential| == k + size
    ensures sought == sequential[k..]
  {
    hide *;
    var n := p * q;
    assert Square(n, seed) < n;
    var a := new PublicBlumBlumShub(n, seed);
    var b := new PublicBlumBlumShub(n, seed);
    a.Seek(p, q, k);
    sought := a.GenerateBlock(size, 8 * k);
    sequential := b.GenerateBlock(k + size, 0);
    forall j | 0 <= j < size ensures sought[j] == sequential[k + j] {
      assert 8 * k + 8 * j == 0 + 8 * (k + j);
    }
  }
}
