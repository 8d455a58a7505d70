/** The grid as a value, and the rules stated over it: addressing, counting,
    the line scan's meaning and the status decision. The class `Field` keeps
    one of these as the abstract view of its array. */
module Boards {
  import opened Cells

  /** Rows of cells. Row 0 is the top printed row, the one with y = size. */
  type Board = seq<seq<CellType>>

  /** Every row has at least `m` cells. */
  ghost predicate Wide(g: Board, m: int)
  {
    forall r :: 0 <= r < |g| ==> |g[r]| >= m
  }

  /** Every row has exactly `m` cells. */
  ghost predicate RowsOfLength(g: Board, m: int)
  {
    forall r :: 0 <= r < |g| ==> |g[r]| == m
  }

  /** A size-by-size grid. */
  ghost predicate IsSquare(g: Board)
  {
    RowsOfLength(g, |g|)
  }

  /** The 1-based coordinates (x, y) address a cell of a grid of side n. */
  predicate InBounds(n: int, x: int, y: int)
  {
    1 <= x <= n && 1 <= y <= n
  }

  /** The cell at column x and row y, counted from 1; row y = n is the top row. */
  ghost function At(g: Board, x: int, y: int): CellType
    requires IsSquare(g) && InBounds(|g|, x, y)
  {
    g[|g| - y][x - 1]
  }

  /** The grid with the cell at (x, y) overwritten by t. */
  ghost function Put(g: Board, x: int, y: int, t: CellType): (h: Board)
    requires IsSquare(g) && InBounds(|g|, x, y)
    ensures IsSquare(h) && |h| == |g|
    ensures At(h, x, y) == t
    ensures forall x', y' :: InBounds(|g|, x', y') && (x' != x || y' != y) ==> At(h, x', y') == At(g, x', y')
  {
    g[|g| - y := g[|g| - y][x - 1 := t]]
  }

  /** A fully empty grid of side n. */
  ghost function EmptyBoard(n: nat): (g: Board)
    ensures IsSquare(g) && |g| == n
    ensures forall x, y :: InBounds(n, x, y) ==> At(g, x, y) == EMPTY
  {
    seq(n, r => seq(n, c => EMPTY))
  }

  /** Two grids of the same side that agree on every cell are equal. */
  lemma SameCells(g: Board, h: Board)
    requires IsSquare(g) && IsSquare(h) && |g| == |h|
    requires forall x, y :: InBounds(|g|, x, y) ==> At(g, x, y) == At(h, x, y)
    ensures g == h
  {
    var n := |g|;
    forall r | 0 <= r < n
      ensures g[r] == h[r]
    {
      forall c | 0 <= c < n
        ensures g[r][c] == h[r][c]
      {
        assert At(g, c + 1, n - r) == At(h, c + 1, n - r);
      }
    }
  }

  // ---------------------------------------------------------------------
  // Counting

  /** How many elements of s equal t. */
  ghost function Occurrences(s: seq<CellType>, t: CellType): nat
  {
    if s == [] then 0
    else Occurrences(s[..|s| - 1], t) + (if s[|s| - 1] == t then 1 else 0)
  }

  /** All cells of the grid, row after row: the order the grid is printed in
      and the order a cells string is read in. */
  ghost function Flatten(g: Board): seq<CellType>
  {
    if g == [] then [] else Flatten(g[..|g| - 1]) + g[|g| - 1]
  }

  /** The number of cells of the grid that hold t. */
  ghost function Count(g: Board, t: CellType): nat
  {
    Occurrences(Flatten(g), t)
  }

  /** Appending one element adds one occurrence when it is t. */
  lemma OccurrencesSnoc(s: seq<CellType>, e: CellType, t: CellType)
    ensures Occurrences(s + [e], t) == Occurrences(s, t) + (if e == t then 1 else 0)
  {
    assert (s + [e])[..|s|] == s;
  }

  /** Occurrences add up over a concatenation. */
  lemma {:induction false} OccurrencesAppend(a: seq<CellType>, b: seq<CellType>, t: CellType)
    ensures Occurrences(a + b, t) == Occurrences(a, t) + Occurrences(b, t)
  {
    if b == [] {
      assert a + b == a;
    } else {
      var b0 := b[..|b| - 1];
      OccurrencesAppend(a, b0, t);
      assert (a + b)[..|a + b| - 1] == a + b0;
    }
  }

  /** The count agrees with the multiplicity of t in the multiset of s. */
  lemma {:induction false} OccurrencesIsMultiplicity(s: seq<CellType>, t: CellType)
    ensures Occurrences(s, t) == multiset(s)[t]
  {
    if s != [] {
      var s0, e := s[..|s| - 1], s[|s| - 1];
      OccurrencesIsMultiplicity(s0, t);
      assert s == s0 + [e];
      assert multiset(s) == multiset(s0) + multiset{e};
    }
  }

  /** Every cell type in a sequence is one of the three, so their numbers add up. */
  lemma {:induction false} OccurrencesPartition(s: seq<CellType>)
    ensures Occurrences(s, EMPTY) + Occurrences(s, X) + Occurrences(s, O) == |s|
  {
    if s != [] {
      var s0, e := s[..|s| - 1], s[|s| - 1];
      OccurrencesPartition(s0);
    }
  }

  /** A prefix or a suffix holds no more occurrences than the whole sequence. */
  lemma OccurrencesOfSlices(s: seq<CellType>, k: int, t: CellType)
    requires 0 <= k <= |s|
    ensures Occurrences(s[..k], t) <= Occurrences(s, t)
    ensures Occurrences(s[k..], t) <= Occurrences(s, t)
  {
    assert s == s[..k] + s[k..];
    OccurrencesAppend(s[..k], s[k..], t);
  }

  /** Occurrences of t among s[..k], counted the way a left-to-right scan
      counts them. */
  ghost function OccurrencesBefore(s: seq<CellType>, k: int, t: CellType): nat
    requires 0 <= k <= |s|
  {
    if k == 0 then 0 else OccurrencesBefore(s, k - 1, t) + (if s[k - 1] == t then 1 else 0)
  }

  /** Occurrences of t among s[k..], counted the way a right-to-left scan
      counts them. */
  ghost function OccurrencesFrom(s: seq<CellType>, k: int, t: CellType): nat
    requires 0 <= k <= |s|
    decreases |s| - k
  {
    if k == |s| then 0 else (if s[k] == t then 1 else 0) + OccurrencesFrom(s, k + 1, t)
  }

  lemma {:induction false} OccurrencesBeforeIsPrefix(s: seq<CellType>, k: int, t: CellType)
    requires 0 <= k <= |s|
    ensures OccurrencesBefore(s, k, t) == Occurrences(s[..k], t)
  {
    if k > 0 {
      OccurrencesBeforeIsPrefix(s, k - 1, t);
      assert s[..k][..k - 1] == s[..k - 1];
    }
  }

  lemma {:induction false} OccurrencesFromIsSuffix(s: seq<CellType>, k: int, t: CellType)
    requires 0 <= k <= |s|
    ensures OccurrencesFrom(s, k, t) == Occurrences(s[k..], t)
    decreases |s| - k
  {
    if k < |s| {
      OccurrencesFromIsSuffix(s, k + 1, t);
      assert s[k..] == [s[k]] + s[k + 1..];
      OccurrencesAppend([s[k]], s[k + 1..], t);
      assert [s[k]][..0] == [];
    }
  }

  /** The prefix and suffix counts split the whole count at any index. */
  lemma OccurrencesSplit(s: seq<CellType>, k: int, t: CellType)
    requires 0 <= k <= |s|
    ensures OccurrencesBefore(s, k, t) + OccurrencesFrom(s, k, t) == Occurrences(s, t)
  {
    OccurrencesBeforeIsPrefix(s, k, t);
    OccurrencesFromIsSuffix(s, k, t);
    assert s == s[..k] + s[k..];
    OccurrencesAppend(s[..k], s[k..], t);
  }

  /** Overwriting one element moves one occurrence from the old value to the new. */
  lemma OccurrencesUpdate(s: seq<CellType>, i: int, v: CellType, t: CellType)
    requires 0 <= i < |s|
    ensures Occurrences(s[i := v], t) == Occurrences(s, t) - (if s[i] == t then 1 else 0) + (if v == t then 1 else 0)
  {
    assert s == s[..i] + [s[i]] + s[i + 1..];
    assert s[i := v] == s[..i] + [v] + s[i + 1..];
    OccurrencesAppend(s[..i] + [s[i]], s[i + 1..], t);
    OccurrencesAppend(s[..i] + [v], s[i + 1..], t);
    OccurrencesSnoc(s[..i], s[i], t);
    OccurrencesSnoc(s[..i], v, t);
  }

  /** Every element of s is t. */
  ghost predicate Uniform(s: seq<CellType>, t: CellType)
  {
    forall i :: 0 <= i < |s| ==> s[i] == t
  }

  /** A sequence holds t at least |s| times exactly when every element is t. */
  lemma {:induction false} OccurrencesFull(s: seq<CellType>, t: CellType)
    ensures Occurrences(s, t) <= |s|
    ensures Occurrences(s, t) >= |s| <==> Uniform(s, t)
  {
    if s != [] {
      var s0, e := s[..|s| - 1], s[|s| - 1];
      OccurrencesFull(s0, t);
      if Occurrences(s, t) >= |s| {
        forall i | 0 <= i < |s| ensures s[i] == t {
          if i < |s0| { assert s[i] == s0[i]; }
        }
      }
      if Uniform(s, t) {
        assert Uniform(s0, t) by {
          forall i | 0 <= i < |s0| ensures s0[i] == t { assert s0[i] == s[i]; }
        }
      }
    }
  }

  /** Sequences that agree wherever either holds t hold t equally often. */
  lemma {:induction false} OccurrencesAgree(a: seq<CellType>, b: seq<CellType>, t: CellType)
    requires |a| == |b|
    requires forall i :: 0 <= i < |a| ==> a[i] == b[i] || (a[i] != t && b[i] != t)
    ensures Occurrences(a, t) == Occurrences(b, t)
  {
    if a != [] {
      var k := |a| - 1;
      OccurrencesAgree(a[..k], b[..k], t);
    }
  }

  /** A flattened grid of `|g|` rows of `m` cells has `|g| * m` cells. */
  lemma {:induction false} FlattenLength(g: Board, m: nat)
    requires RowsOfLength(g, m)
    ensures |Flatten(g)| == |g| * m
  {
    if g != [] {
      FlattenLength(g[..|g| - 1], m);
      assert |g| * m == (|g| - 1) * m + m;
    }
  }

  /** Row-major addressing: cell (r, c) sits at index r * m + c of the flattened grid. */
  lemma {:induction false} FlattenAt(g: Board, m: nat, r: int, c: int)
    requires RowsOfLength(g, m)
    requires 0 <= r < |g| && 0 <= c < m
    ensures r * m + c < |Flatten(g)| && Flatten(g)[r * m + c] == g[r][c]
  {
    var g0 := g[..|g| - 1];
    if r == |g| - 1 {
      FlattenLength(g0, m);
      assert |Flatten(g0)| == r * m;
    } else {
      FlattenAt(g0, m, r, c);
    }
  }

  /** Every element of the flattened grid is a cell of the grid. */
  lemma {:induction false} InFlatten(g: Board, t: CellType)
    requires t in Flatten(g)
    ensures exists r, c :: 0 <= r < |g| && 0 <= c < |g[r]| && g[r][c] == t
  {
    var g0 := g[..|g| - 1];
    var last := g[|g| - 1];
    if t in Flatten(g0) {
      InFlatten(g0, t);
      var r, c :| 0 <= r < |g0| && 0 <= c < |g0[r]| && g0[r][c] == t;
      assert g[r][c] == t;
    } else {
      assert t in last;
      var c :| 0 <= c < |last| && last[c] == t;
      assert g[|g| - 1][c] == t;
    }
  }

  /** A grid that is empty everywhere flattens to empty cells only. */
  lemma {:induction false} FlattenEmpty(g: Board)
    requires forall r, c :: 0 <= r < |g| && 0 <= c < |g[r]| ==> g[r][c] == EMPTY
    ensures X !in Flatten(g) && O !in Flatten(g)
  {
    if g != [] {
      FlattenEmpty(g[..|g| - 1]);
      var last := g[|g| - 1];
      assert forall c :: 0 <= c < |last| ==> last[c] == g[|g| - 1][c];
    }
  }

  /** A value that is not in s occurs in it zero times. */
  lemma Absent(s: seq<CellType>, t: CellType)
    requires t !in s
    ensures Occurrences(s, t) == 0
  {
    OccurrencesIsMultiplicity(s, t);
  }

  /** Replacing one row changes the count by what the row held and now holds. */
  lemma {:induction false} FlattenReplaceRow(g: Board, r: int, w: seq<CellType>, t: CellType)
    requires 0 <= r < |g|
    ensures Occurrences(Flatten(g[r := w]), t) == Occurrences(Flatten(g), t) - Occurrences(g[r], t) + Occurrences(w, t)
  {
    var k := |g| - 1;
    var h := g[r := w];
    assert h[..k] == if r == k then g[..k] else g[..k][r := w];
    OccurrencesAppend(Flatten(g[..k]), g[k], t);
    OccurrencesAppend(Flatten(h[..k]), h[k], t);
    if r < k {
      FlattenReplaceRow(g[..k], r, w, t);
      assert g[..k][r] == g[r];
    }
  }

  /** The number of cells holding t is at most the number of cells. */
  lemma CountBound(g: Board, t: CellType)
    requires IsSquare(g)
    ensures Count(g, t) <= |g| * |g|
    ensures Count(g, EMPTY) + Count(g, X) + Count(g, O) == |g| * |g|
  {
    FlattenLength(g, |g|);
    OccurrencesPartition(Flatten(g));
  }

  /** On a fresh grid every cell is empty and neither mark appears. */
  lemma EmptyBoardCounts(n: nat)
    ensures Count(EmptyBoard(n), EMPTY) == n * n
    ensures Count(EmptyBoard(n), X) == 0 && Count(EmptyBoard(n), O) == 0
  {
    var g := EmptyBoard(n);
    FlattenEmpty(g);
    Absent(Flatten(g), X);
    Absent(Flatten(g), O);
    CountBound(g, EMPTY);
  }

  /** Writing t' over the cell at (x, y) moves one unit of count from the old
      value to t'. */
  lemma CountAfterPut(g: Board, x: int, y: int, t': CellType, t: CellType)
    requires IsSquare(g) && InBounds(|g|, x, y)
    ensures Count(Put(g, x, y, t'), t) ==
            Count(g, t) - (if At(g, x, y) == t then 1 else 0) + (if t' == t then 1 else 0)
  {
    var r, c := |g| - y, x - 1;
    FlattenReplaceRow(g, r, g[r][c := t'], t);
    OccurrencesUpdate(g[r], c, t', t);
  }

  /** Some cell is empty whenever the count of empty cells is positive. */
  lemma SomeCellEmpty(g: Board)
    requires IsSquare(g) && Count(g, EMPTY) > 0
    ensures exists x, y :: InBounds(|g|, x, y) && At(g, x, y) == EMPTY
  {
    OccurrencesIsMultiplicity(Flatten(g), EMPTY);
    InFlatten(g, EMPTY);
    var r, c :| 0 <= r < |g| && 0 <= c < |g[r]| && g[r][c] == EMPTY;
    assert At(g, c + 1, |g| - r) == EMPTY;
  }

  /** The first m cells of every row. */
  ghost function Truncate(g: Board, m: nat): (h: Board)
    requires Wide(g, m)
    ensures |h| == |g| && RowsOfLength(h, m)
  {
    seq(|g|, r requires 0 <= r < |g| => g[r][..m])
  }

  /** The cells of the grid in array column c, top to bottom. */
  ghost function ColumnCells(g: Board, c: nat): (s: seq<CellType>)
    requires Wide(g, c + 1)
    ensures |s| == |g|
  {
    seq(|g|, r requires 0 <= r < |g| => g[r][c])
  }

  /** The truncated grid's count splits off its last row. */
  lemma TruncateLast(g: Board, m: nat, t: CellType)
    requires Wide(g, m) && g != []
    ensures Occurrences(Flatten(Truncate(g, m)), t) ==
            Occurrences(Flatten(Truncate(g[..|g| - 1], m)), t) + Occurrences(g[|g| - 1][..m], t)
  {
    var k := |g| - 1;
    assert Truncate(g, m)[..k] == Truncate(g[..k], m);
    OccurrencesAppend(Flatten(Truncate(g[..k], m)), g[k][..m], t);
  }

  /** A column's count splits off its cell in the last row. */
  lemma ColumnCellsLast(g: Board, c: nat, t: CellType)
    requires Wide(g, c + 1) && g != []
    ensures Occurrences(ColumnCells(g, c), t) ==
            Occurrences(ColumnCells(g[..|g| - 1], c), t) + (if g[|g| - 1][c] == t then 1 else 0)
  {
    var k := |g| - 1;
    assert ColumnCells(g, c) == ColumnCells(g[..k], c) + [g[k][c]];
    OccurrencesSnoc(ColumnCells(g[..k], c), g[k][c], t);
  }

  /** A prefix one longer counts one more element. */
  lemma PrefixSnoc(s: seq<CellType>, c: int, t: CellType)
    requires 0 <= c < |s|
    ensures Occurrences(s[..c + 1], t) == Occurrences(s[..c], t) + (if s[c] == t then 1 else 0)
  {
    assert s[..c + 1][..c] == s[..c];
  }

  /** Widening the truncation by one column adds exactly that column's cells:
      the column-by-column count and the row-by-row count agree. */
  lemma {:induction false} TruncateStep(g: Board, c: nat, t: CellType)
    requires Wide(g, c + 1)
    ensures Occurrences(Flatten(Truncate(g, c + 1)), t) ==
            Occurrences(Flatten(Truncate(g, c)), t) + Occurrences(ColumnCells(g, c), t)
  {
    if g != [] {
      var k := |g| - 1;
      TruncateStep(g[..k], c, t);
      TruncateLast(g, c + 1, t);
      TruncateLast(g, c, t);
      ColumnCellsLast(g, c, t);
      PrefixSnoc(g[k], c, t);
    }
  }

  /** Truncating a square grid at its full width changes nothing. */
  lemma TruncateAll(g: Board)
    requires IsSquare(g)
    ensures Truncate(g, |g|) == g
  {
    forall r | 0 <= r < |g| ensures Truncate(g, |g|)[r] == g[r] {
      assert g[r][..|g|] == g[r];
    }
  }

  /** Truncating at width 0 leaves no cells. */
  lemma {:induction false} TruncateNone(g: Board)
    ensures Flatten(Truncate(g, 0)) == []
  {
    if g != [] {
      TruncateNone(g[..|g| - 1]);
      assert Truncate(g, 0)[..|g| - 1] == Truncate(g[..|g| - 1], 0);
    }
  }

  // ---------------------------------------------------------------------
  // Lines

  /** Column x, top to bottom: the cells (x, y) for y = n down to 1. */
  ghost function Column(g: Board, x: int): (s: seq<CellType>)
    requires IsSquare(g) && 1 <= x <= |g|
    ensures |s| == |g|
  {
    ColumnCells(g, x - 1)
  }

  /** Row y, left to right: the cells (x, y) for x = 1 to n. */
  ghost function Row(g: Board, y: int): (s: seq<CellType>)
    requires IsSquare(g) && 1 <= y <= |g|
    ensures |s| == |g|
  {
    g[|g| - y]
  }

  /** The diagonal of cells (i, i), top to bottom (from (n, n) to (1, 1)). */
  ghost function Diagonal(g: Board): (s: seq<CellType>)
    requires IsSquare(g)
    ensures |s| == |g|
  {
    seq(|g|, r requires 0 <= r < |g| => g[r][|g| - 1 - r])
  }

  /** The anti-diagonal of cells (i, n + 1 - i), top to bottom (from (1, n) to (n, 1)). */
  ghost function AntiDiagonal(g: Board): (s: seq<CellType>)
    requires IsSquare(g)
    ensures |s| == |g|
  {
    seq(|g|, r requires 0 <= r < |g| => g[r][r])
  }

  /** Some column, row, the diagonal or the anti-diagonal holds at least
      `number` cells equal to t, wherever in the line they stand; a threshold
      below 1 is never met. */
  ghost predicate HasLine(g: Board, number: int, t: CellType)
    requires IsSquare(g)
  {
    number >= 1 &&
    ((exists x :: 1 <= x <= |g| && Occurrences(Column(g, x), t) >= number) ||
     (exists y :: 1 <= y <= |g| && Occurrences(Row(g, y), t) >= number) ||
     Occurrences(Diagonal(g), t) >= number ||
     Occurrences(AntiDiagonal(g), t) >= number)
  }

  /** With the threshold equal to the side of the grid, as in the shipped
      configuration, the occurrence count means a line made entirely of t. */
  lemma FullLineAtSize(g: Board, t: CellType)
    requires IsSquare(g) && |g| >= 1
    ensures HasLine(g, |g|, t) <==>
              (exists x :: 1 <= x <= |g| && Uniform(Column(g, x), t)) ||
              (exists y :: 1 <= y <= |g| && Uniform(Row(g, y), t)) ||
              Uniform(Diagonal(g), t) || Uniform(AntiDiagonal(g), t)
  {
    forall x | 1 <= x <= |g|
      ensures Occurrences(Column(g, x), t) >= |g| <==> Uniform(Column(g, x), t)
    {
      OccurrencesFull(Column(g, x), t);
    }
    forall y | 1 <= y <= |g|
      ensures Occurrences(Row(g, y), t) >= |g| <==> Uniform(Row(g, y), t)
    {
      OccurrencesFull(Row(g, y), t);
    }
    OccurrencesFull(Diagonal(g), t);
    OccurrencesFull(AntiDiagonal(g), t);
  }

  /** One cell from every row: the cell in array column cols[r] of row r. */
  ghost function Picked(g: Board, cols: seq<int>): (s: seq<CellType>)
    requires |cols| == |g|
    requires forall r :: 0 <= r < |g| ==> 0 <= cols[r] < |g[r]|
    ensures |s| == |g|
  {
    seq(|g|, r requires 0 <= r < |g| => g[r][cols[r]])
  }

  /** The picked cells' count splits off the cell picked in the last row. */
  lemma PickedLast(g: Board, cols: seq<int>, t: CellType)
    requires |cols| == |g| && g != []
    requires forall r :: 0 <= r < |g| ==> 0 <= cols[r] < |g[r]|
    ensures Occurrences(Picked(g, cols), t) ==
            Occurrences(Picked(g[..|g| - 1], cols[..|g| - 1]), t) + (if g[|g| - 1][cols[|g| - 1]] == t then 1 else 0)
  {
    var k := |g| - 1;
    assert Picked(g, cols) == Picked(g[..k], cols[..k]) + [g[k][cols[k]]];
    OccurrencesSnoc(Picked(g[..k], cols[..k]), g[k][cols[k]], t);
  }

  /** A single element never holds more t's than its whole sequence. */
  lemma ElementWithin(s: seq<CellType>, c: int, t: CellType)
    requires 0 <= c < |s|
    ensures (if s[c] == t then 1 else 0) <= Occurrences(s, t)
  {
    PrefixSnoc(s, c, t);
    OccurrencesOfSlices(s, c + 1, t);
  }

  /** Cells picked one per row never hold more t's than the whole grid. */
  lemma {:induction false} PickedCellsWithinGrid(g: Board, cols: seq<int>, t: CellType)
    requires |cols| == |g|
    requires forall r :: 0 <= r < |g| ==> 0 <= cols[r] < |g[r]|
    ensures Occurrences(Picked(g, cols), t) <= Count(g, t)
  {
    if g != [] {
      var k := |g| - 1;
      PickedCellsWithinGrid(g[..k], cols[..k], t);
      PickedLast(g, cols, t);
      ElementWithin(g[k], cols[k], t);
      OccurrencesAppend(Flatten(g[..k]), g[k], t);
    }
  }

  /** A whole row never holds more t's than the whole grid. */
  lemma {:induction false} RowWithinGrid(g: Board, r: int, t: CellType)
    requires 0 <= r < |g|
    ensures Occurrences(g[r], t) <= Count(g, t)
  {
    OccurrencesAppend(Flatten(g[..|g| - 1]), g[|g| - 1], t);
    if r < |g| - 1 {
      RowWithinGrid(g[..|g| - 1], r, t);
    }
  }

  /** A column never holds more t's than the whole grid. */
  lemma ColumnWithinGrid(g: Board, x: int, t: CellType)
    requires IsSquare(g) && 1 <= x <= |g|
    ensures Occurrences(Column(g, x), t) <= Count(g, t)
  {
    var n := |g|;
    var cols := seq(n, r => x - 1);
    PickedCellsWithinGrid(g, cols, t);
    assert Column(g, x) == Picked(g, cols);
  }

  /** Neither diagonal holds more t's than the whole grid. */
  lemma DiagonalsWithinGrid(g: Board, t: CellType)
    requires IsSquare(g)
    ensures Occurrences(Diagonal(g), t) <= Count(g, t)
    ensures Occurrences(AntiDiagonal(g), t) <= Count(g, t)
  {
    var n := |g|;
    var down := seq(n, r => n - 1 - r);
    PickedCellsWithinGrid(g, down, t);
    assert Diagonal(g) == Picked(g, down);
    var across := seq(n, r => r);
    PickedCellsWithinGrid(g, across, t);
    assert AntiDiagonal(g) == Picked(g, across);
  }

  /** A line meeting the threshold implies the grid-wide count meets it, so
      the count test in front of the line scan never changes the outcome. */
  lemma LineImpliesCount(g: Board, number: int, t: CellType)
    requires IsSquare(g) && HasLine(g, number, t)
    ensures Count(g, t) >= number
  {
    var n := |g|;
    if exists x :: 1 <= x <= n && Occurrences(Column(g, x), t) >= number {
      var x :| 1 <= x <= n && Occurrences(Column(g, x), t) >= number;
      ColumnWithinGrid(g, x, t);
    } else if exists y :: 1 <= y <= n && Occurrences(Row(g, y), t) >= number {
      var y :| 1 <= y <= n && Occurrences(Row(g, y), t) >= number;
      RowWithinGrid(g, n - y, t);
    } else {
      DiagonalsWithinGrid(g, t);
    }
  }

  /** Two adjacent t's somewhere in the line. */
  ghost predicate AdjacentPair(s: seq<CellType>, t: CellType)
  {
    exists i :: 0 <= i < |s| - 1 && s[i] == t && s[i + 1] == t
  }

  /** The line scan counts occurrences, not runs: with threshold 2, the top
      row X O X qualifies although its two X's are not adjacent. */
  lemma NonAdjacentCellsCount()
    ensures var g := [[X, O, X], [EMPTY, EMPTY, EMPTY], [EMPTY, EMPTY, EMPTY]];
            IsSquare(g) && HasLine(g, 2, X) && !AdjacentPair(Row(g, 3), X)
  {
    var g := [[X, O, X], [EMPTY, EMPTY, EMPTY], [EMPTY, EMPTY, EMPTY]];
    assert Row(g, 3) == [X, O, X];
    assert [X, O, X][..2] == [X, O] && [X, O][..1] == [X] && [X][..0] == [];
    assert Occurrences(Row(g, 3), X) == 2;
  }

  /** Two grids of the same side whose cells differ only where neither holds t. */
  ghost predicate AgreeOn(g: Board, h: Board, t: CellType)
  {
    IsSquare(g) && IsSquare(h) && |g| == |h| &&
    forall r, c :: 0 <= r < |g| && 0 <= c < |g| ==> h[r][c] == g[r][c] || (h[r][c] != t && g[r][c] != t)
  }

  /** Grids that agree on t have the same lines of t. */
  lemma AgreeingLines(g: Board, h: Board, number: int, t: CellType)
    requires AgreeOn(g, h, t)
    ensures HasLine(h, number, t) == HasLine(g, number, t)
  {
    var n := |g|;
    forall x' | 1 <= x' <= n
      ensures Occurrences(Column(h, x'), t) == Occurrences(Column(g, x'), t)
    {
      OccurrencesAgree(Column(h, x'), Column(g, x'), t);
    }
    forall y' | 1 <= y' <= n
      ensures Occurrences(Row(h, y'), t) == Occurrences(Row(g, y'), t)
    {
      OccurrencesAgree(Row(h, y'), Row(g, y'), t);
    }
    OccurrencesAgree(Diagonal(h), Diagonal(g), t);
    OccurrencesAgree(AntiDiagonal(h), AntiDiagonal(g), t);
  }

  /** Putting the mark m on an empty cell leaves every line's count of any
      other mark unchanged. */
  lemma PutKeepsOtherLines(g: Board, x: int, y: int, m: CellType, t: CellType, number: int)
    requires IsSquare(g) && InBounds(|g|, x, y) && At(g, x, y) == EMPTY
    requires t != m && t != EMPTY
    ensures HasLine(Put(g, x, y, m), number, t) == HasLine(g, number, t)
  {
    var h := Put(g, x, y, m);
    var n := |g|;
    forall r, c | 0 <= r < n && 0 <= c < n
      ensures h[r][c] == g[r][c] || (h[r][c] != t && g[r][c] != t)
    {
      assert h[r][c] == At(h, c + 1, n - r) && g[r][c] == At(g, c + 1, n - r);
    }
    AgreeingLines(g, h, number, t);
  }

  // ---------------------------------------------------------------------
  // Scans: the counts the field's loops keep, cell by cell in (x, y) terms

  /** How many of the cells (x, 1) to (x, j) of column x hold t. */
  ghost function ColumnScan(g: Board, x: int, j: int, t: CellType): nat
    requires IsSquare(g) && 1 <= x <= |g| && 0 <= j <= |g|
  {
    if j == 0 then 0 else ColumnScan(g, x, j - 1, t) + (if At(g, x, j) == t then 1 else 0)
  }

  /** How many of the cells (1, y) to (j, y) of row y hold t. */
  ghost function RowScan(g: Board, y: int, j: int, t: CellType): nat
    requires IsSquare(g) && 1 <= y <= |g| && 0 <= j <= |g|
  {
    if j == 0 then 0 else RowScan(g, y, j - 1, t) + (if At(g, j, y) == t then 1 else 0)
  }

  /** How many of the cells (1, 1) to (j, j) hold t. */
  ghost function DiagonalScan(g: Board, j: int, t: CellType): nat
    requires IsSquare(g) && 0 <= j <= |g|
  {
    if j == 0 then 0 else DiagonalScan(g, j - 1, t) + (if At(g, j, j) == t then 1 else 0)
  }

  /** How many of the cells (1, n) to (j, n + 1 - j) hold t. */
  ghost function AntiDiagonalScan(g: Board, j: int, t: CellType): nat
    requires IsSquare(g) && 0 <= j <= |g|
  {
    if j == 0 then 0 else AntiDiagonalScan(g, j - 1, t) + (if At(g, j, |g| + 1 - j) == t then 1 else 0)
  }

  /** The scan up column x covers the bottom of the top-to-bottom column. */
  lemma {:induction false} ColumnScanIsSuffix(g: Board, x: int, j: int, t: CellType)
    requires IsSquare(g) && 1 <= x <= |g| && 0 <= j <= |g|
    ensures ColumnScan(g, x, j, t) == OccurrencesFrom(Column(g, x), |g| - j, t)
  {
    if j > 0 {
      ColumnScanIsSuffix(g, x, j - 1, t);
      assert Column(g, x)[|g| - j] == At(g, x, j);
    }
  }

  /** The scan along row y covers the start of the row. */
  lemma {:induction false} RowScanIsPrefix(g: Board, y: int, j: int, t: CellType)
    requires IsSquare(g) && 1 <= y <= |g| && 0 <= j <= |g|
    ensures RowScan(g, y, j, t) == OccurrencesBefore(Row(g, y), j, t)
  {
    if j > 0 {
      RowScanIsPrefix(g, y, j - 1, t);
    }
  }

  /** The diagonal scan covers the bottom of the top-to-bottom diagonal. */
  lemma {:induction false} DiagonalScanIsSuffix(g: Board, j: int, t: CellType)
    requires IsSquare(g) && 0 <= j <= |g|
    ensures DiagonalScan(g, j, t) == OccurrencesFrom(Diagonal(g), |g| - j, t)
  {
    if j > 0 {
      DiagonalScanIsSuffix(g, j - 1, t);
      assert Diagonal(g)[|g| - j] == At(g, j, j);
    }
  }

  /** The anti-diagonal scan covers the start of the top-to-bottom anti-diagonal. */
  lemma {:induction false} AntiDiagonalScanIsPrefix(g: Board, j: int, t: CellType)
    requires IsSquare(g) && 0 <= j <= |g|
    ensures AntiDiagonalScan(g, j, t) == OccurrencesBefore(AntiDiagonal(g), j, t)
  {
    if j > 0 {
      AntiDiagonalScanIsPrefix(g, j - 1, t);
      assert AntiDiagonal(g)[j - 1] == At(g, j, |g| + 1 - j);
    }
  }

  // Each scan counts its line: a part of it on the way, all of it at the end.

  lemma ColumnScanCounts(g: Board, x: int, j: int, t: CellType)
    requires IsSquare(g) && 1 <= x <= |g| && 0 <= j <= |g|
    ensures ColumnScan(g, x, j, t) <= Occurrences(Column(g, x), t)
    ensures j == |g| ==> ColumnScan(g, x, j, t) == Occurrences(Column(g, x), t)
  {
    ColumnScanIsSuffix(g, x, j, t);
    OccurrencesSplit(Column(g, x), |g| - j, t);
  }

  lemma RowScanCounts(g: Board, y: int, j: int, t: CellType)
    requires IsSquare(g) && 1 <= y <= |g| && 0 <= j <= |g|
    ensures RowScan(g, y, j, t) <= Occurrences(Row(g, y), t)
    ensures j == |g| ==> RowScan(g, y, j, t) == Occurrences(Row(g, y), t)
  {
    RowScanIsPrefix(g, y, j, t);
    OccurrencesSplit(Row(g, y), j, t);
  }

  lemma DiagonalScanCounts(g: Board, j: int, t: CellType)
    requires IsSquare(g) && 0 <= j <= |g|
    ensures DiagonalScan(g, j, t) <= Occurrences(Diagonal(g), t)
    ensures j == |g| ==> DiagonalScan(g, j, t) == Occurrences(Diagonal(g), t)
  {
    DiagonalScanIsSuffix(g, j, t);
    OccurrencesSplit(Diagonal(g), |g| - j, t);
  }

  lemma AntiDiagonalScanCounts(g: Board, j: int, t: CellType)
    requires IsSquare(g) && 0 <= j <= |g|
    ensures AntiDiagonalScan(g, j, t) <= Occurrences(AntiDiagonal(g), t)
    ensures j == |g| ==> AntiDiagonalScan(g, j, t) == Occurrences(AntiDiagonal(g), t)
  {
    AntiDiagonalScanIsPrefix(g, j, t);
    OccurrencesSplit(AntiDiagonal(g), j, t);
  }

  /** Column i or row i holding `number` cells of t is a qualifying line. */
  lemma ColumnOrRowLine(g: Board, i: int, number: int, t: CellType)
    requires IsSquare(g) && 1 <= i <= |g| && number >= 1
    requires ColumnScan(g, i, |g|, t) >= number || RowScan(g, i, |g|, t) >= number
    ensures HasLine(g, number, t)
  {
    ColumnScanCounts(g, i, |g|, t);
    RowScanCounts(g, i, |g|, t);
  }

  /** A positive count on either diagonal is a line at that threshold. */
  lemma DiagonalScanFound(g: Board, j: int, t: CellType)
    requires IsSquare(g) && 1 <= j <= |g|
    ensures DiagonalScan(g, j, t) >= 1 ==> HasLine(g, DiagonalScan(g, j, t), t)
    ensures AntiDiagonalScan(g, j, t) >= 1 ==> HasLine(g, AntiDiagonalScan(g, j, t), t)
  {
    DiagonalScanCounts(g, j, t);
    AntiDiagonalScanCounts(g, j, t);
  }

  /** No column x and no row y with x, y < i holds `number` cells equal to t. */
  ghost predicate NoLineBefore(g: Board, i: int, number: int, t: CellType)
    requires IsSquare(g) && 1 <= i <= |g| + 1
  {
    forall x :: 1 <= x < i ==> ColumnScan(g, x, |g|, t) < number && RowScan(g, x, |g|, t) < number
  }

  /** Every line below the threshold, or a threshold below 1: no line qualifies. */
  lemma NoLineFound(g: Board, number: int, t: CellType)
    requires IsSquare(g)
    requires number >= 1 ==>
               NoLineBefore(g, |g| + 1, number, t) &&
               DiagonalScan(g, |g|, t) < number && AntiDiagonalScan(g, |g|, t) < number
    ensures !HasLine(g, number, t)
  {
    if number >= 1 && |g| >= 1 {
      forall x | 1 <= x <= |g|
        ensures Occurrences(Column(g, x), t) < number && Occurrences(Row(g, x), t) < number
      {
        ColumnScanCounts(g, x, |g|, t);
        RowScanCounts(g, x, |g|, t);
      }
      DiagonalScanCounts(g, |g|, t);
      AntiDiagonalScanCounts(g, |g|, t);
    }
  }

  /** Occurrences of t in the columns x = 1 to m, counted column by column. */
  ghost function ColumnsCount(g: Board, m: int, t: CellType): nat
    requires IsSquare(g) && 0 <= m <= |g|
  {
    if m == 0 then 0 else ColumnsCount(g, m - 1, t) + ColumnScan(g, m, |g|, t)
  }

  /** The first m columns' count is the count of the grid cut to its first m
      cells per row. */
  lemma {:induction false} ColumnsCountIsTruncated(g: Board, m: int, t: CellType)
    requires IsSquare(g) && 0 <= m <= |g|
    ensures ColumnsCount(g, m, t) == Occurrences(Flatten(Truncate(g, m)), t)
  {
    if m == 0 {
      TruncateNone(g);
    } else {
      ColumnsCountIsTruncated(g, m - 1, t);
      TruncateStep(g, m - 1, t);
      ColumnScanCounts(g, m, |g|, t);
    }
  }

  /** Counting column by column gives the row-by-row count. */
  lemma ColumnsCountIsCount(g: Board, t: CellType)
    requires IsSquare(g)
    ensures ColumnsCount(g, |g|, t) == Count(g, t)
  {
    ColumnsCountIsTruncated(g, |g|, t);
    TruncateAll(g);
  }

  // ---------------------------------------------------------------------
  // Status

  /** The mark t has at least k cells on the grid and a line qualifying at
      threshold k. */
  ghost predicate CanWin(g: Board, k: int, t: CellType)
    requires IsSquare(g)
  {
    Count(g, t) >= k && HasLine(g, k, t)
  }

  /** The outcome of a grid at win threshold k, checked in this order: a mark
      gap above one, two winners, one winner, no empty cell left, otherwise
      still in play. */
  ghost function Status(g: Board, k: int): GameStatus
    requires IsSquare(g)
  {
    var nx, no := Count(g, X), Count(g, O);
    if nx - no > 1 || no - nx > 1 then IMPOSSIBLE
    else if CanWin(g, k, X) && CanWin(g, k, O) then IMPOSSIBLE
    else if CanWin(g, k, X) then X_WINS
    else if CanWin(g, k, O) then O_WINS
    else if Count(g, EMPTY) == 0 then DRAW
    else NOT_FINISHED
  }

  /** The count test is redundant: a mark can win exactly when it has a
      qualifying line. */
  lemma CanWinIffLine(g: Board, k: int, t: CellType)
    requires IsSquare(g)
    ensures CanWin(g, k, t) <==> HasLine(g, k, t)
  {
    if HasLine(g, k, t) {
      LineImpliesCount(g, k, t);
    }
  }

  /** Some cell is empty exactly when the count of empty cells is positive. */
  lemma EmptyCellExists(g: Board)
    requires IsSquare(g)
    ensures Count(g, EMPTY) > 0 <==> exists x, y :: InBounds(|g|, x, y) && At(g, x, y) == EMPTY
  {
    if Count(g, EMPTY) > 0 {
      SomeCellEmpty(g);
    } else {
      OccurrencesIsMultiplicity(Flatten(g), EMPTY);
      forall x, y | InBounds(|g|, x, y) ensures At(g, x, y) != EMPTY {
        FlattenAt(g, |g|, |g| - y, x - 1);
      }
    }
  }

  /** What each status means, stated without the redundant count test: a mark
      gap above one or two lines is impossible; otherwise the mark with a line
      wins; otherwise the grid is drawn exactly when no cell is empty. */
  lemma StatusCases(g: Board, k: int)
    requires IsSquare(g)
    ensures var gapOk := -1 <= Count(g, X) - Count(g, O) <= 1;
            var lineX, lineO := HasLine(g, k, X), HasLine(g, k, O);
            var someEmpty := exists x, y :: InBounds(|g|, x, y) && At(g, x, y) == EMPTY;
            && (Status(g, k) == IMPOSSIBLE <==> !gapOk || (lineX && lineO))
            && (Status(g, k) == X_WINS <==> gapOk && lineX && !lineO)
            && (Status(g, k) == O_WINS <==> gapOk && lineO && !lineX)
            && (Status(g, k) == DRAW <==> gapOk && !lineX && !lineO && !someEmpty)
            && (Status(g, k) == NOT_FINISHED <==> gapOk && !lineX && !lineO && someEmpty)
  {
    CanWinIffLine(g, k, X);
    CanWinIffLine(g, k, O);
    EmptyCellExists(g);
  }

  /** A fresh grid of side at least 1 is in play whatever the threshold. */
  lemma EmptyBoardNotFinished(n: nat, k: int)
    requires n >= 1
    ensures Status(EmptyBoard(n), k) == NOT_FINISHED
  {
    var g := EmptyBoard(n);
    EmptyBoardCounts(n);
    CanWinIffLine(g, k, X);
    CanWinIffLine(g, k, O);
    assert n * n >= 1 by {
      assert n * n >= n * 1;
    }
  }

  /** The mark gap of alternating play starting with X: equal counts when X is
      to move, one more X when O is to move. */
  ghost predicate Alternating(g: Board, m: CellType)
    requires IsSquare(g)
  {
    (m == X && Count(g, X) == Count(g, O)) || (m == O && Count(g, X) == Count(g, O) + 1)
  }

  /** The player after m: X becomes O, anything else becomes X. */
  function NextPlayer(m: CellType): (next: CellType)
    ensures next != EMPTY && next != m
  {
    if m == X then O else X
  }

  /** Moving the player to move onto an empty cell keeps the mark gap of
      alternating play. */
  lemma TurnKeepsAlternation(g: Board, x: int, y: int, m: CellType)
    requires IsSquare(g) && InBounds(|g|, x, y) && At(g, x, y) == EMPTY
    requires Alternating(g, m)
    ensures Alternating(Put(g, x, y, m), NextPlayer(m))
  {
    CountAfterPut(g, x, y, m, X);
    CountAfterPut(g, x, y, m, O);
  }

  /** From a grid in play, a legal move by the player to move cannot produce an
      impossible grid: the gap stays at most one and the opponent cannot have
      gained a line. */
  lemma TurnNeverImpossible(g: Board, k: int, x: int, y: int, m: CellType)
    requires IsSquare(g) && InBounds(|g|, x, y) && At(g, x, y) == EMPTY
    requires Alternating(g, m) && Status(g, k) == NOT_FINISHED
    ensures Status(Put(g, x, y, m), k) != IMPOSSIBLE
  {
    var h := Put(g, x, y, m);
    TurnKeepsAlternation(g, x, y, m);
    var other := NextPlayer(m);
    CanWinIffLine(g, k, other);
    CanWinIffLine(h, k, other);
    PutKeepsOtherLines(g, x, y, m, other, k);
  }
}
