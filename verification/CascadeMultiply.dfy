/** e1 x + e2 y, both exponents read together, through a table of p1 x + p2 y in which p1 or p2 is odd. */
module CascadeMultiplication {
  import opened Bits
  import opened Groups

  /** tableSize << w */
  function TableLength(tableSize: nat): nat { tableSize * tableSize }

  function Index(tableSize: nat, p1: nat, p2: nat): (i: nat)
    ensures p1 < tableSize && p2 < tableSize ==> i < TableLength(tableSize)
  {
    if p1 < tableSize && p2 < tableSize then
      assert p2 * tableSize + p1 < TableLength(tableSize) by {
        MulMono(p2 + 1, tableSize, tableSize);
        Distribute(p2, 1, tableSize);
      }
      p2 * tableSize + p1
    else p2 * tableSize + p1
  }

  lemma IndexInjective(tableSize: nat, p1: nat, p2: nat, q1: nat, q2: nat)
    requires p1 < tableSize && q1 < tableSize
    requires Index(tableSize, p1, p2) == Index(tableSize, q1, q2)
    ensures p1 == q1 && p2 == q2
  {
    DivUnique(Index(tableSize, p1, p2), tableSize, p2, p1);
    DivUnique(Index(tableSize, p1, p2), tableSize, q2, q1);
  }

  lemma FirstRow(tableSize: nat, p1: nat, p2: nat)
    ensures Index(tableSize, p1, 0) == p1
    ensures Index(tableSize, p1, p2) == Index(tableSize, 0, p2) + p1
    ensures Index(tableSize, 0, 1) == tableSize && Index(tableSize, 0, 2) == 2 * tableSize
    ensures Index(tableSize, 0, 3) == 3 * tableSize
  {}

  /** A row is left by adding tableSize, and the table ends where the rows do. */
  lemma NextRow(tableSize: nat, p1: nat, p2: nat)
    requires p1 < tableSize
    ensures Index(tableSize, p1, p2 + 1) == Index(tableSize, p1, p2) + tableSize
    ensures Index(tableSize, p1, p2) < TableLength(tableSize) <==> p2 < tableSize
  {
    Distribute(p2, 1, tableSize);
    if p2 >= tableSize { MulMono(tableSize, p2, tableSize); }
  }

  /** The cells the table has been given: cell (p1, p2) holds p1 x + p2 y. */
  ghost predicate Filled<T(!new)>(g: Group<T>, x: T, y: T, tableSize: nat, table: seq<T>, cells: set<(nat, nat)>) {
    && |table| == TableLength(tableSize)
    && forall c <- cells ::
         c.0 < tableSize && c.1 < tableSize && table[Index(tableSize, c.0, c.1)] == Lin(g, c.0, x, c.1, y)
  }

  lemma FillCell<T(!new)>(g: Group<T>, x: T, y: T, tableSize: nat, table: seq<T>, cells: set<(nat, nat)>, p1: nat,
                          p2: nat, v: T)
    requires Filled(g, x, y, tableSize, table, cells)
    requires p1 < tableSize && p2 < tableSize && v == Lin(g, p1, x, p2, y)
    ensures Filled(g, x, y, tableSize, table[Index(tableSize, p1, p2) := v], cells + {(p1, p2)})
  {
    var table' := table[Index(tableSize, p1, p2) := v];
    forall c <- cells + {(p1, p2)}
      ensures c.0 < tableSize && c.1 < tableSize && table'[Index(tableSize, c.0, c.1)] == Lin(g, c.0, x, c.1, y)
    {
      if Index(tableSize, c.0, c.1) == Index(tableSize, p1, p2) { IndexInjective(tableSize, c.0, c.1, p1, p2); }
    }
  }

  predicate HasOdd(p1: nat, p2: nat) { p1 % 2 == 1 || p2 % 2 == 1 }

  /** Every cell with an odd coordinate is filled. */
  ghost predicate IsPowerTable<T(!new)>(g: Group<T>, x: T, y: T, tableSize: nat, table: seq<T>) {
    && |table| == TableLength(tableSize)
    && forall p1: nat, p2: nat | p1 < tableSize && p2 < tableSize && HasOdd(p1, p2) ::
         table[Index(tableSize, p1, p2)] == Lin(g, p1, x, p2, y)
  }

  /** Stores the combination (p1, p2), computed as the sum of two combinations already known. */
  method Store<T(!new)>(g: Group<T>, x: T, y: T, tableSize: nat, table: seq<T>, ghost cells: set<(nat, nat)>,
                        i: nat, a: T, b: T, ghost a1: nat, ghost a2: nat, ghost b1: nat, ghost b2: nat)
      returns (table': seq<T>, ghost cells': set<(nat, nat)>)
    requires IsAbelian(g) && Filled(g, x, y, tableSize, table, cells)
    requires a1 + b1 < tableSize && a2 + b2 < tableSize && i == Index(tableSize, a1 + b1, a2 + b2)
    requires a == Lin(g, a1, x, a2, y) && b == Lin(g, b1, x, b2, y)
    ensures Filled(g, x, y, tableSize, table', cells') && cells' == cells + {(a1 + b1, a2 + b2)}
  {
    LinAdd(g, a1, a2, b1, b2, x, y);
    FillCell(g, x, y, tableSize, table, cells, a1 + b1, a2 + b2, g.add(a, b));
    table' := table[i := g.add(a, b)];
    cells' := cells + {(a1 + b1, a2 + b2)};
  }

  lemma ReadCell<T(!new)>(g: Group<T>, x: T, y: T, tableSize: nat, table: seq<T>, cells: set<(nat, nat)>, p1: nat,
                          p2: nat)
    requires Filled(g, x, y, tableSize, table, cells) && (p1, p2) in cells
    ensures p1 < tableSize && p2 < tableSize && Index(tableSize, p1, p2) < |table|
    ensures table[Index(tableSize, p1, p2)] == Lin(g, p1, x, p2, y)
  {
    assert (p1, p2).0 == p1 && (p1, p2).1 == p2;
  }

  method BuildPowerTable<T(!new)>(g: Group<T>, x: T, y: T, w: nat, unset: T) returns (table: seq<T>)
    requires IsAbelian(g) && w > 0
    ensures IsPowerTable(g, x, y, Pow2(w), table)
  {
    var ts := Pow2(w);
    assert ts == 2 * Pow2(w - 1) && (w > 1 ==> ts == 4 * Pow2(w - 2));
    ghost var cells;
    table, cells := StartTable(g, x, y, ts, unset);
    NextRow(ts, 0, 0);
    NextRow(ts, 0, 1);
    NextRow(ts, 1, 0);
    hide IsAbelian, Lin, Filled, IsPowerTable, Pow2;
    if w == 1 {
      table, cells := Store(g, x, y, ts, table, cells, 3, x, y, 1, 0, 0, 1);
    } else {
      table, cells := Store(g, x, y, ts, table, cells, 2, x, x, 1, 0, 1, 0);
      table, cells := Store(g, x, y, ts, table, cells, 2 * ts, y, y, 0, 1, 0, 1);
      table, cells := FillOddColumns(g, x, y, ts, table, cells);
      table, cells := FillFirstColumn(g, x, y, ts, table, cells);
      table, cells := FillEvenColumns(g, x, y, ts, table, cells);
    }
    OddCells(g, x, y, ts, table, cells);
  }

  /** x and y, in a table where nothing else is set. */
  method StartTable<T(!new)>(g: Group<T>, x: T, y: T, ts: nat, unset: T)
      returns (table: seq<T>, ghost cells: set<(nat, nat)>)
    requires IsAbelian(g) && ts >= 2
    ensures Filled(g, x, y, ts, table, cells) && cells == {(1, 0), (0, 1)} && |table| == TableLength(ts)
    ensures ts + 1 < |table| && table[1] == x && table[ts] == y
  {
    table := seq(TableLength(ts), _ => unset);
    cells := {};
    LinBasis(g, x, y);
    NextRow(ts, 0, 0);
    NextRow(ts, 0, 1);
    assert Index(ts, 1, 0) == 1;
    FillCell(g, x, y, ts, table, cells, 1, 0, x);
    table, cells := table[1 := x], cells + {(1, 0)};
    FillCell(g, x, y, ts, table, cells, 0, 1, y);
    table, cells := table[ts := y], cells + {(0, 1)};
  }

  lemma OddCells<T(!new)>(g: Group<T>, x: T, y: T, ts: nat, table: seq<T>, cells: set<(nat, nat)>)
    requires Filled(g, x, y, ts, table, cells)
    requires forall p1: nat, p2: nat | p1 < ts && p2 < ts && HasOdd(p1, p2) :: (p1, p2) in cells
    ensures IsPowerTable(g, x, y, ts, table)
  {
    forall p1: nat, p2: nat | p1 < ts && p2 < ts && HasOdd(p1, p2)
      ensures table[Index(ts, p1, p2)] == Lin(g, p1, x, p2, y)
    {
      ReadCell(g, x, y, ts, table, cells, p1, p2);
    }
  }

  /** Odd multiples of x, and every multiple of y added to each. */
  method FillOddColumns<T(!new)>(g: Group<T>, x: T, y: T, ts: nat, tableIn: seq<T>, ghost cellsIn: set<(nat, nat)>)
      returns (table: seq<T>, ghost cells: set<(nat, nat)>)
    requires IsAbelian(g) && Filled(g, x, y, ts, tableIn, cellsIn) && ts >= 4 && ts % 2 == 0
    requires {(1, 0), (2, 0), (0, 1)} <= cellsIn
    ensures Filled(g, x, y, ts, table, cells) && cellsIn <= cells
    ensures forall p1: nat, p2: nat | p1 < ts && p2 < ts && p1 % 2 == 1 :: (p1, p2) in cells
  {
    hide Filled, Index, TableLength, Lin, Mul, IsAbelian;
    table, cells := tableIn, cellsIn;
    var i := 3;
    while i < ts
      invariant 3 <= i <= ts + 1 && i % 2 == 1
      invariant Filled(g, x, y, ts, table, cells) && cellsIn <= cells
      invariant forall p1: nat | p1 < i && p1 < ts && p1 % 2 == 1 :: (p1, 0) in cells
    {
      FirstRow(ts, i - 2, 0);
      FirstRow(ts, 2, 0);
      FirstRow(ts, i, 0);
      ReadCell(g, x, y, ts, table, cells, i - 2, 0);
      ReadCell(g, x, y, ts, table, cells, 2, 0);
      table, cells := Store(g, x, y, ts, table, cells, i, table[i - 2], table[2], i - 2, 0, 2, 0);
      i := i + 2;
    }
    i := 1;
    while i < ts
      invariant 1 <= i <= ts + 1 && i % 2 == 1
      invariant Filled(g, x, y, ts, table, cells) && cellsIn <= cells
      invariant forall p1: nat | p1 < ts && p1 % 2 == 1 :: (p1, 0) in cells
      invariant forall p1: nat, p2: nat | p1 < i && p1 < ts && p2 < ts && p1 % 2 == 1 :: (p1, p2) in cells
    {
      table, cells := FillColumn(g, x, y, ts, table, cells, i);
      i := i + 2;
    }
  }

  /** Every multiple of y added to i x. */
  method FillColumn<T(!new)>(g: Group<T>, x: T, y: T, ts: nat, tableIn: seq<T>, ghost cellsIn: set<(nat, nat)>, i: nat)
      returns (table: seq<T>, ghost cells: set<(nat, nat)>)
    requires IsAbelian(g) && Filled(g, x, y, ts, tableIn, cellsIn) && i < ts
    requires (i, 0) in cellsIn
    ensures Filled(g, x, y, ts, table, cells) && cellsIn <= cells
    ensures forall p2: nat | p2 < ts :: (i, p2) in cells
  {
    hide Filled, Index, TableLength, Lin, Mul, IsAbelian;
    table, cells := tableIn, cellsIn;
    LinBasis(g, x, y);
    NextRow(ts, i, 0);
    FirstRow(ts, i, 0);
    var j := i + ts;
    ghost var q := 1;
    while j < TableLength(ts)
      invariant 1 <= q <= ts && j == Index(ts, i, q)
      invariant Filled(g, x, y, ts, table, cells) && cellsIn <= cells
      invariant forall p2: nat | p2 < q :: (i, p2) in cells
      decreases ts - q
    {
      NextRow(ts, i, q);
      NextRow(ts, i, q - 1);
      ReadCell(g, x, y, ts, table, cells, i, q - 1);
      table, cells := Store(g, x, y, ts, table, cells, j, table[j - ts], y, i, q - 1, 0, 1);
      j, q := j + ts, q + 1;
    }
    NextRow(ts, i, q);
  }

  /** Odd multiples of y. */
  method FillFirstColumn<T(!new)>(g: Group<T>, x: T, y: T, ts: nat, tableIn: seq<T>, ghost cellsIn: set<(nat, nat)>)
      returns (table: seq<T>, ghost cells: set<(nat, nat)>)
    requires IsAbelian(g) && Filled(g, x, y, ts, tableIn, cellsIn) && ts >= 4 && ts % 2 == 0
    requires {(0, 1), (0, 2)} <= cellsIn
    ensures Filled(g, x, y, ts, table, cells) && cellsIn <= cells
    ensures forall p2: nat | p2 < ts && p2 % 2 == 1 :: (0, p2) in cells
  {
    hide Filled, Index, TableLength, Lin, Mul, IsAbelian;
    table, cells := tableIn, cellsIn;
    var i := 3 * ts;
    ghost var q := 3;
    FirstRow(ts, 0, 0);
    while i < TableLength(ts)
      invariant 3 <= q <= ts + 1 && q % 2 == 1 && i == Index(ts, 0, q)
      invariant Filled(g, x, y, ts, table, cells) && cellsIn <= cells
      invariant forall p2: nat | p2 < q && p2 < ts && p2 % 2 == 1 :: (0, p2) in cells
      decreases ts + 1 - q
    {
      NextRow(ts, 0, q);
      NextRow(ts, 0, q + 1);
      NextRow(ts, 0, q - 1);
      NextRow(ts, 0, q - 2);
      ReadCell(g, x, y, ts, table, cells, 0, q - 2);
      ReadCell(g, x, y, ts, table, cells, 0, 2);
      table, cells := Store(g, x, y, ts, table, cells, i, table[i - 2 * ts], table[2 * ts], 0, q - 2, 0, 2);
      i, q := i + 2 * ts, q + 2;
    }
    NextRow(ts, 0, q);
  }

  /** Even multiples of x added to odd multiples of y, from the odd column on their left. */
  method FillEvenColumns<T(!new)>(g: Group<T>, x: T, y: T, ts: nat, tableIn: seq<T>, ghost cellsIn: set<(nat, nat)>)
      returns (table: seq<T>, ghost cells: set<(nat, nat)>)
    requires IsAbelian(g) && Filled(g, x, y, ts, tableIn, cellsIn) && ts >= 4 && ts % 2 == 0
    requires forall p1: nat, p2: nat | p1 < ts && p2 < ts && p1 % 2 == 1 :: (p1, p2) in cellsIn
    requires forall p2: nat | p2 < ts && p2 % 2 == 1 :: (0, p2) in cellsIn
    ensures Filled(g, x, y, ts, table, cells) && cellsIn <= cells
    ensures forall p1: nat, p2: nat | p1 < ts && p2 < ts && p2 % 2 == 1 :: (p1, p2) in cells
  {
    hide Filled, Index, TableLength, Lin, Mul, IsAbelian;
    table, cells := tableIn, cellsIn;
    LinBasis(g, x, y);
    var i := ts;
    ghost var q := 1;
    FirstRow(ts, 0, 0);
    while i < TableLength(ts)
      invariant 1 <= q <= ts + 1 && q % 2 == 1 && i == Index(ts, 0, q)
      invariant Filled(g, x, y, ts, table, cells) && cellsIn <= cells
      invariant forall p1: nat, p2: nat | p1 < ts && p2 < q && p2 < ts && p2 % 2 == 1 :: (p1, p2) in cells
      decreases ts + 1 - q
    {
      NextRow(ts, 0, q);
      table, cells := FillRow(g, x, y, ts, table, cells, i, q);
      NextRow(ts, 0, q + 1);
      i, q := i + 2 * ts, q + 2;
    }
    NextRow(ts, 0, q);
  }

  /** The even columns of row q, which begins at i. */
  method FillRow<T(!new)>(g: Group<T>, x: T, y: T, ts: nat, tableIn: seq<T>, ghost cellsIn: set<(nat, nat)>, i: nat,
                          ghost q: nat)
      returns (table: seq<T>, ghost cells: set<(nat, nat)>)
    requires IsAbelian(g) && Filled(g, x, y, ts, tableIn, cellsIn) && ts % 2 == 0 && q < ts && i == Index(ts, 0, q)
    requires forall p1: nat | p1 < ts && p1 % 2 == 1 :: (p1, q) in cellsIn
    requires (0, q) in cellsIn
    ensures Filled(g, x, y, ts, table, cells) && cellsIn <= cells
    ensures forall p1: nat | p1 < ts :: (p1, q) in cells
  {
    hide Filled, Index, TableLength, Lin, Mul, IsAbelian;
    table, cells := tableIn, cellsIn;
    LinBasis(g, x, y);
    var j := i + 2;
    ghost var p := 2;
    while j < i + ts
      invariant 2 <= p && p % 2 == 0 && j == i + p && (p <= ts || ts == 0)
      invariant Filled(g, x, y, ts, table, cells) && cellsIn <= cells
      invariant forall p1: nat | p1 < p && p1 < ts :: (p1, q) in cells
    {
      FirstRow(ts, p, q);
      FirstRow(ts, p - 1, q);
      ReadCell(g, x, y, ts, table, cells, p - 1, q);
      table, cells := Store(g, x, y, ts, table, cells, j, table[j - 1], x, p - 1, q, 1, 0);
      j, p := j + 2, p + 2;
    }
  }

  /** n doublings in a row. */
  method Doublings<T(!new)>(g: Group<T>, r: T, n: nat, ghost x: T, ghost y: T, ghost a: nat, ghost b: nat)
      returns (r': T)
    requires IsAbelian(g) && r == Lin(g, a, x, b, y)
    ensures r' == Lin(g, Shl(a, n), x, Shl(b, n), y)
  {
    assert Shl(a, 0) == a && Shl(b, 0) == b;
    hide Lin, Mul, IsAbelian, Shl;
    r' := r;
    var k := 0;
    while k < n
      invariant k <= n && r' == Lin(g, Shl(a, k), x, Shl(b, k), y)
    {
      LinAdd(g, Shl(a, k), Shl(b, k), Shl(a, k), Shl(b, k), x, y);
      ShlStep(a, k);
      ShlStep(b, k);
      r' := g.Double(r');
      k := k + 1;
    }
  }

  lemma ShlZero(k: nat)
    ensures Shl(0, k) == 0
  {}

  lemma ShlStep(a: nat, k: nat)
    ensures Shl(a, k + 1) == Shl(a, k) + Shl(a, k)
  {
    MulAssoc(a, 2, Pow2(k));
  }

  lemma {:induction false} Pow2Order(a: nat, b: nat)
    requires Pow2(a) < Pow2(b)
    ensures a < b
  {
    if a > 0 && b > 0 { Pow2Order(a - 1, b - 1); }
  }

  /** Common zeros below a non-zero even power are fewer than the bits it was read from, less one. */
  lemma HalveStep(power: nat, zeros: nat, read: nat, bits: nat)
    requires Shl(power, zeros) == read < Pow2(bits) && power % 2 == 0
    ensures Shl(power / 2, zeros + 1) == read
    ensures power > 0 ==> zeros + 1 < bits
  {
    MulAssoc(power / 2, 2, Pow2(zeros));
    if power > 0 {
      MulMono(2, power, Pow2(zeros));
      Pow2Order(zeros + 1, bits);
    }
  }

  lemma JoinBits(a: nat, before: nat, power: nat, after: nat, read: nat)
    requires Shl(power, after) == read
    ensures Shl(Shl(a, before) + power, after) == Shl(a, before + after) + read
  {
    Distribute(a * Pow2(before), power, Pow2(after));
    Pow2Add(before, after);
    MulAssoc(a, Pow2(before), Pow2(after));
  }

  method LookUp<T(!new)>(g: Group<T>, ghost x: T, ghost y: T, tableSize: nat, table: seq<T>, power1: nat, power2: nat)
      returns (v: T)
    requires IsPowerTable(g, x, y, tableSize, table)
    requires power1 < tableSize && power2 < tableSize && HasOdd(power1, power2)
    ensures v == Lin(g, power1, x, power2, y)
  {
    v := table[Index(tableSize, power1, power2)];
  }

  /** Divides out the common zeros: they are doublings left for after the addition. */
  method Strip(read1: nat, read2: nat, squares: nat, ghost bits: nat)
      returns (power1: nat, power2: nat, squaresBefore: nat, squaresAfter: nat)
    requires read1 < Pow2(bits) && read2 < Pow2(bits)
    requires bits == squares || (bits == squares + 1 && (read1 > 0 || read2 > 0))
    ensures squaresBefore + squaresAfter == squares
    ensures Shl(power1, squaresAfter) == read1 && Shl(power2, squaresAfter) == read2
    ensures power1 <= read1 && power2 <= read2
    ensures HasOdd(power1, power2) || read1 == read2 == power1 == power2 == 0
    ensures read1 > 0 || read2 > 0 ==> HasOdd(power1, power2)
  {
    assert Shl(read1, 0) == read1 && Shl(read2, 0) == read2;
    hide Shl, Pow2;
    power1, power2, squaresBefore, squaresAfter := read1, read2, squares, 0;
    while (power1 > 0 || power2 > 0) && power1 % 2 == 0 && power2 % 2 == 0
      invariant squaresBefore + squaresAfter == squares
      invariant power1 <= read1 && power2 <= read2
      invariant Shl(power1, squaresAfter) == read1 && Shl(power2, squaresAfter) == read2
      invariant read1 > 0 || read2 > 0 ==> power1 > 0 || power2 > 0
      decreases power1 + power2
    {
      HalveStep(power1, squaresAfter, read1, bits);
      HalveStep(power2, squaresAfter, read2, bits);
      power1, power2 := power1 / 2, power2 / 2;
      squaresBefore, squaresAfter := squaresBefore - 1, squaresAfter + 1;
    }
  }

  /** Takes the bits read since the last flush into the result: the doublings they call for are split around one
      addition, so that what is looked up has an odd coordinate. a1 and a2 are what the result already stands for. */
  method Flush<T(!new)>(g: Group<T>, ghost x: T, ghost y: T, w: nat, table: seq<T>, resultIn: T, firstTime: bool,
                        read1: nat, read2: nat, squares: nat, ghost a1: nat, ghost a2: nat, ghost bits: nat)
      returns (result: T)
    requires IsAbelian(g) && w > 0 && IsPowerTable(g, x, y, Pow2(w), table)
    requires read1 < Pow2(w) && read2 < Pow2(w) && read1 < Pow2(bits) && read2 < Pow2(bits)
    requires if firstTime then a1 == a2 == 0 && bits == squares + 1 && (read1 > 0 || read2 > 0)
             else bits == squares && resultIn == Lin(g, a1, x, a2, y)
    ensures result == Lin(g, Shl(a1, bits) + read1, x, Shl(a2, bits) + read2, y)
  {
    hide IsAbelian, Lin, Mul, Index, Shl, Pow2, IsPowerTable, HasOdd;
    var power1, power2, squaresBefore, squaresAfter := Strip(read1, read2, squares, bits);
    JoinBits(a1, squaresBefore, power1, squaresAfter, read1);
    JoinBits(a2, squaresBefore, power2, squaresAfter, read2);
    ghost var b1, b2 := Shl(a1, squaresBefore), Shl(a2, squaresBefore);
    if firstTime {
      ShlZero(squaresBefore);
      ShlZero(bits);
      ShlZero(squares);
      result := LookUp(g, x, y, Pow2(w), table, power1, power2);
    } else {
      result := Doublings(g, resultIn, squaresBefore, x, y, a1, a2);
      if power1 > 0 || power2 > 0 {
        var v := LookUp(g, x, y, Pow2(w), table, power1, power2);
        LinAdd(g, b1, b2, power1, power2, x, y);
        result := g.add(result, v);
      }
    }
    result := Doublings(g, result, squaresAfter, x, y, b1 + power1, b2 + power2);
  }

  lemma {:induction false} TopBit(e: nat)
    requires e > 0
    ensures Shr(e, BitCount(e) - 1) == 1
  {
    if e > 1 {
      assert BitCount(e) == 1 + BitCount(e / 2);
      TopBit(e / 2);
    }
  }

  /** power is what bits i, i + 1, ..., from - 1 of e spell. */
  ghost predicate Reads(e: nat, from: nat, i: nat, power: nat) {
    i <= from && Shr(e, i) == Shl(Shr(e, from), from - i) + power && power < Pow2(from - i)
  }

  lemma ReadNothing(e: nat, from: nat)
    ensures Reads(e, from, from, 0)
  {}

  /** Reading one more bit of e below position from. */
  lemma ReadBit(e: nat, from: nat, i: nat, power: nat)
    requires i < from && Reads(e, from, i + 1, power)
    ensures Reads(e, from, i, WithBit(power, e, i))
  {
    ShiftStep(e, i);
    ShlStep(Shr(e, from), from - (i + 1));
    hide Shr, Shl, GetBit;
  }

  lemma WholeTop(e: nat, expLen: nat)
    requires BitCount(e) <= expLen
    ensures Shr(e, expLen) == 0
    ensures e > 0 && BitCount(e) == expLen ==> Shr(e, expLen - 1) == 1
    ensures Shr(e, 0) == e
  {
    ShiftOut(e, expLen);
    if e > 0 { TopBit(e); }
  }

  function Max(a: nat, b: nat): nat { if a > b then a else b }

  method CascadeScalarMultiply<T(!new)>(g: Group<T>, x: T, e1: nat, y: T, e2: nat, unset: T) returns (r: T)
    requires IsAbelian(g)
    ensures r == Lin(g, e1, x, e2, y)
  {
    var expLen := Max(BitCount(e1), BitCount(e2));
    if expLen == 0 {
      assert UnitAt(g, g.zero);
      return g.zero;
    }
    var w := if expLen <= 46 then 1 else if expLen <= 260 then 2 else 3;
    var powerTable := BuildPowerTable(g, x, y, w, unset);
    r := ReadBits(g, x, e1, y, e2, unset, expLen, w, powerTable);
    assert Shr(e1, 0) == e1 && Shr(e2, 0) == e2;
    hide Lin;
  }

  /** Flush, said in terms of the bits of e1 and e2 from position from down to i. */
  method FlushAt<T(!new)>(g: Group<T>, ghost x: T, ghost y: T, w: nat, table: seq<T>, resultIn: T, firstTime: bool,
                          power1: nat, power2: nat, squares: nat, ghost e1: nat, ghost e2: nat, ghost from: nat,
                          ghost i: nat)
      returns (result: T)
    requires IsAbelian(g) && w > 0 && IsPowerTable(g, x, y, Pow2(w), table)
    requires power1 < Pow2(w) && power2 < Pow2(w) && i <= from
    requires Reads(e1, from, i, power1) && Reads(e2, from, i, power2)
    requires if firstTime then Shr(e1, from) == Shr(e2, from) == 0 && from - i == squares + 1
             && (power1 > 0 || power2 > 0)
             else from - i == squares && resultIn == Lin(g, Shr(e1, from), x, Shr(e2, from), y)
    ensures result == Lin(g, Shr(e1, i), x, Shr(e2, i), y)
  {
    ReadsMeans(e1, from, i, power1);
    ReadsMeans(e2, from, i, power2);
    hide *;
    result := Flush(g, x, y, w, table, resultIn, firstTime, power1, power2, squares, Shr(e1, from), Shr(e2, from),
                    from - i);
  }

  /** Bits read from position from down to i, with room for one more in each table index. */
  ghost predicate Ready(e1: nat, e2: nat, w: nat, from: nat, i: nat, power1: nat, power2: nat, firstTime: bool) {
    && Reads(e1, from, i, power1) && Reads(e2, from, i, power2) && HalfFull(w, power1) && HalfFull(w, power2)
    && (firstTime && i < from ==> power1 > 0 || power2 > 0)
  }

  /** The same with at least one bit read, and perhaps no more room. */
  ghost predicate Loaded(e1: nat, e2: nat, w: nat, from: nat, i: nat, power1: nat, power2: nat, firstTime: bool) {
    && Reads(e1, from, i, power1) && Reads(e2, from, i, power2) && power1 < Pow2(w) && power2 < Pow2(w)
    && (firstTime ==> power1 > 0 || power2 > 0)
  }

  /** The bits read so far and the next. */
  function WithBit(power: nat, e: nat, i: nat): nat { 2 * power + GetBit(e, i) }

  lemma Load(e1: nat, e2: nat, w: nat, expLen: nat, from: nat, i: nat, power1: nat, power2: nat, firstTime: bool)
    requires w > 0 && TopSet(e1, e2, expLen) && i < from && (firstTime ==> from == expLen)
    requires Ready(e1, e2, w, from, i + 1, power1, power2, firstTime)
    ensures Loaded(e1, e2, w, from, i, WithBit(power1, e1, i), WithBit(power2, e2, i), firstTime)
  {
    var next1, next2 := WithBit(power1, e1, i), WithBit(power2, e2, i);
    hide Reads, GetBit, Pow2, HalfFull, TopSet, WithBit;
    ReadBit(e1, from, i, power1);
    ReadBit(e2, from, i, power2);
    BitFits(w, power1, e1, i);
    BitFits(w, power2, e2, i);
    if firstTime { FirstRead(e1, e2, expLen, i, next1, next2); }
  }

  lemma BitFits(w: nat, power: nat, e: nat, i: nat)
    requires w > 0 && HalfFull(w, power)
    ensures power <= WithBit(power, e, i) < Pow2(w)
  {
    assert Pow2(w) == 2 * Pow2(w - 1);
    hide Pow2, GetBit;
  }

  lemma KeepLoading(e1: nat, e2: nat, w: nat, from: nat, i: nat, power1: nat, power2: nat, firstTime: bool)
    requires Loaded(e1, e2, w, from, i, power1, power2, firstTime) && 2 * power1 < Pow2(w) && 2 * power2 < Pow2(w)
    ensures Ready(e1, e2, w, from, i, power1, power2, firstTime)
  {
    hide Reads;
  }

  lemma StartLoading(e1: nat, e2: nat, w: nat, from: nat, firstTime: bool)
    ensures Ready(e1, e2, w, from, from, 0, 0, firstTime)
  {
    ReadNothing(e1, from);
    ReadNothing(e2, from);
    hide Reads;
  }

  /** What the result holds: nothing before the first flush, then both exponents down to position from. */
  ghost predicate Flushed<T(!new)>(g: Group<T>, x: T, e1: nat, y: T, e2: nat, expLen: nat, firstTime: bool, from: nat,
                                   prevPosition: nat, result: T) {
    if firstTime then from == expLen && prevPosition + 1 == expLen
    else from == prevPosition && result == Lin(g, Shr(e1, from), x, Shr(e2, from), y)
  }

  method FlushHere<T(!new)>(g: Group<T>, ghost x: T, ghost e1: nat, ghost y: T, ghost e2: nat, ghost expLen: nat,
                            w: nat, table: seq<T>, resultIn: T, firstTime: bool, power1: nat, power2: nat,
                            prevPosition: nat, ghost from: nat, i: nat)
      returns (result: T)
    requires IsAbelian(g) && w > 0 && IsPowerTable(g, x, y, Pow2(w), table) && TopSet(e1, e2, expLen)
    requires Loaded(e1, e2, w, from, i, power1, power2, firstTime) && i < from
    requires Flushed(g, x, e1, y, e2, expLen, firstTime, from, prevPosition, resultIn)
    ensures Flushed(g, x, e1, y, e2, expLen, false, i, i, result)
  {
    hide IsAbelian, Lin, Mul, IsPowerTable, Pow2, Shl, Shr, Reads;
    result := FlushAt(g, x, y, w, table, resultIn, firstTime, power1, power2, prevPosition - i, e1, e2, from, i);
  }

  /** The main loop: the bits of both exponents, from the top, flushed as soon as a table index is full. */
  method ReadBits<T(!new)>(g: Group<T>, ghost x: T, e1: nat, ghost y: T, e2: nat, unset: T,
                           expLen: nat, w: nat, powerTable: seq<T>) returns (result: T)
    requires IsAbelian(g) && w > 0 && IsPowerTable(g, x, y, Pow2(w), powerTable)
    requires expLen == Max(BitCount(e1), BitCount(e2)) && expLen > 0
    ensures Flushed(g, x, e1, y, e2, expLen, false, 0, 0, result)
  {
    var tableSize := Pow2(w);
    TopIsSet(e1, e2, expLen);
    StartLoading(e1, e2, w, expLen, true);
    result := unset;
    var power1: nat, power2: nat, prevPosition: nat, firstTime := 0, 0, expLen - 1, true;
    ghost var from: nat := expLen;
    hide IsAbelian, IsPowerTable, Pow2, GetBit, TopSet, Max, Ready, Loaded, WithBit, BitCount;
    assert Flushed(g, x, e1, y, e2, expLen, firstTime, from, prevPosition, result);
    hide Flushed;
    for i := expLen downto 0
      invariant i <= from <= expLen && (firstTime ==> from == expLen)
      invariant Ready(e1, e2, w, from, i, power1, power2, firstTime)
      invariant Flushed(g, x, e1, y, e2, expLen, firstTime, from, prevPosition, result)
      invariant i == 0 ==> !firstTime && from == prevPosition == 0
    {
      Load(e1, e2, w, expLen, from, i, power1, power2, firstTime);
      power1 := WithBit(power1, e1, i);
      power2 := WithBit(power2, e2, i);
      if i == 0 || 2 * power1 >= tableSize || 2 * power2 >= tableSize {
        result := FlushHere(g, x, e1, y, e2, expLen, w, powerTable, result, firstTime, power1, power2, prevPosition,
                            from, i);
        prevPosition, firstTime := i, false;
        power1, power2, from := 0, 0, i;
        StartLoading(e1, e2, w, i, false);
      } else {
        KeepLoading(e1, e2, w, from, i, power1, power2, firstTime);
      }
    }
  }

  /** There is room in a table index for one more bit. */
  predicate HalfFull(w: nat, power: nat) { 2 * power < Pow2(w) }

  lemma ReadsMeans(e: nat, from: nat, i: nat, power: nat)
    requires Reads(e, from, i, power)
    ensures i <= from && Shr(e, i) == Shl(Shr(e, from), from - i) + power && power < Pow2(from - i)
  {}

  /** expLen bits hold both exponents and are all needed. */
  ghost predicate TopSet(e1: nat, e2: nat, expLen: nat) {
    expLen > 0 && Shr(e1, expLen) == Shr(e2, expLen) == 0 && (Shr(e1, expLen - 1) > 0 || Shr(e2, expLen - 1) > 0)
  }

  lemma TopIsSet(e1: nat, e2: nat, expLen: nat)
    requires expLen == Max(BitCount(e1), BitCount(e2)) && expLen > 0
    ensures TopSet(e1, e2, expLen)
  {
    WholeTop(e1, expLen);
    WholeTop(e2, expLen);
  }

  /** The first bit read is the top bit of one of the exponents. */
  lemma FirstRead(e1: nat, e2: nat, expLen: nat, i: nat, power1: nat, power2: nat)
    requires TopSet(e1, e2, expLen) && i < expLen
    requires Reads(e1, expLen, i, power1) && Reads(e2, expLen, i, power2)
    ensures Shr(e1, expLen) == Shr(e2, expLen) == 0
    ensures i + 1 == expLen ==> power1 > 0 || power2 > 0
  {}
}
