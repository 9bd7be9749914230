/**
 * The fixed geometry of the 9x9 board: rows, columns, 3x3 boxes and the
 * neighbour list of a cell. A position is the row-major index `9 * row + col`
 * of a cell in the board's grid; a unit or neighbour list is a sequence of
 * positions (the source's lists of `Entry` references).
 */
module Geometry {
  import opened Entries

  /** The corners of the nine boxes, in the order the board lists its boxes. */
  const BoxStarts: seq<(int, int)> :=
    [(0, 0), (0, 3), (0, 6), (3, 0), (3, 3), (3, 6), (6, 0), (6, 3), (6, 6)]

  predicate InBoard(ps: seq<int>)
  {
    forall t :: 0 <= t < |ps| ==> 0 <= ps[t] < 81
  }

  /** `FindRow(i, j)`: the cells of row `i`. */
  function FindRow(i: int, j: int): (r: seq<int>)
    requires 0 <= i < 9
    ensures |r| == 9 && InBoard(r)
  {
    seq(9, y => 9 * i + y)
  }

  /** `FindColumn(i, j)`: the cells of column `j`. */
  function FindColumn(i: int, j: int): (r: seq<int>)
    requires 0 <= j < 9
    ensures |r| == 9 && InBoard(r)
  {
    seq(9, x => 9 * x + j)
  }

  /** The nine cells of the box whose top-left corner is row `r0`, column `c0`, row by row. */
  function BoxFrom(r0: int, c0: int): (r: seq<int>)
    requires 0 <= r0 <= 6 && 0 <= c0 <= 6
    ensures |r| == 9 && InBoard(r)
  {
    seq(9, t => 9 * (r0 + t / 3) + (c0 + t % 3))
  }

  /** Index in `BoxStarts` of the box that holds row `i`, column `j`. */
  function BoxIndex(i: int, j: int): int
  {
    3 * (i / 3) + j / 3
  }

  /** The search of `FindBox`: the first box start, from `b` on, whose box holds (`i`, `j`). */
  function FindBoxFrom(i: int, j: int, b: nat): (r: seq<int>)
    requires 0 <= i < 9 && 0 <= j < 9 && b <= BoxIndex(i, j)
    ensures |r| == 9 && InBoard(r)
    decreases 9 - b
  {
    var start := BoxStarts[b];
    if start.0 <= i <= start.0 + 2 && start.1 <= j <= start.1 + 2 then
      BoxFrom(start.0, start.1)
    else
      FindBoxFrom(i, j, b + 1)
  }

  /** `FindBox(i, j)`: the cells of the box that holds row `i`, column `j`. */
  function FindBox(i: int, j: int): (r: seq<int>)
    requires 0 <= i < 9 && 0 <= j < 9
    ensures |r| == 9 && InBoard(r)
  {
    FindBoxFrom(i, j, 0)
  }

  /**
   * `FindNeighbours(entry)`: row, then column, then box of the cell, as 27
   * positions with duplicates, the cell itself included (three times). The
   * row is read from `entry.j` and the column from `entry.i`.
   */
  function FindNeighbours(e: Entry): (r: seq<int>)
    requires 0 <= e.i < 9 && 0 <= e.j < 9
    ensures |r| == 27 && InBoard(r)
  {
    FindRow(e.j, e.i) + FindColumn(e.j, e.i) + FindBox(e.j, e.i)
  }

  /** `Rows()`, `Columns()` and `Boxes()` of the board, in that order: the 27 units. */
  function Units(): (us: seq<seq<int>>)
    ensures |us| == 27 && forall u :: 0 <= u < 27 ==> |us[u]| == 9 && InBoard(us[u])
  {
    seq(9, r requires 0 <= r < 9 => FindRow(r, 0)) +
    seq(9, c requires 0 <= c < 9 => FindColumn(0, c)) +
    seq(9, b requires 0 <= b < 9 => BoxFrom(BoxStarts[b].0, BoxStarts[b].1))
  }

  /** Two positions share a row, a column or a box. */
  predicate SameUnit(p: int, k: int)
  {
    p / 9 == k / 9 || p % 9 == k % 9 || (p / 9 / 3 == k / 9 / 3 && p % 9 / 3 == k % 9 / 3)
  }

  // ---------------------------------------------------------------------
  // Properties of the geometry

  /** `FindBox` finds the box whose corner is the cell's row and column rounded down to a multiple of 3. */
  lemma {:induction false} FindBoxIsBoxOf(i: int, j: int, b: nat)
    requires 0 <= i < 9 && 0 <= j < 9 && b <= BoxIndex(i, j)
    ensures FindBoxFrom(i, j, b) == BoxFrom(i - i % 3, j - j % 3)
    decreases 9 - b
  {
    var start := BoxStarts[b];
    if start.0 <= i <= start.0 + 2 && start.1 <= j <= start.1 + 2 {
      assert start == (i - i % 3, j - j % 3);
    } else {
      FindBoxIsBoxOf(i, j, b + 1);
    }
  }

  /** Row and column of the position `9 * r + c`. */
  lemma RowCol(r: int, c: int)
    requires 0 <= r < 9 && 0 <= c < 9
    ensures (9 * r + c) / 9 == r && (9 * r + c) % 9 == c
  {
  }

  /** Every position on the board is `9 * row + col`. */
  lemma Position(k: int)
    requires 0 <= k < 81
    ensures 0 <= k / 9 < 9 && 0 <= k % 9 < 9 && k == 9 * (k / 9) + k % 9
  {
  }

  lemma BoxHas(r0: int, c0: int, k: int)
    requires r0 in {0, 3, 6} && c0 in {0, 3, 6}
    requires 0 <= k < 81 && k / 9 / 3 == r0 / 3 && k % 9 / 3 == c0 / 3
    ensures k in BoxFrom(r0, c0)
  {
    Position(k);
    var t := 3 * (k / 9 - r0) + (k % 9 - c0);
    assert t / 3 == k / 9 - r0 && t % 3 == k % 9 - c0;
    assert 0 <= t < 9 && BoxFrom(r0, c0)[t] == k;
  }

  lemma BoxHolds(r0: int, c0: int, t: int)
    requires r0 in {0, 3, 6} && c0 in {0, 3, 6} && 0 <= t < 9
    ensures var k := BoxFrom(r0, c0)[t]; 0 <= k < 81 && k / 9 / 3 == r0 / 3 && k % 9 / 3 == c0 / 3
  {
    assert 0 <= t / 3 < 3 && 0 <= t % 3 < 3;
    RowCol(r0 + t / 3, c0 + t % 3);
  }

  lemma BoxMembers(r0: int, c0: int, k: int)
    requires r0 in {0, 3, 6} && c0 in {0, 3, 6}
    ensures k in BoxFrom(r0, c0) <==> 0 <= k < 81 && k / 9 / 3 == r0 / 3 && k % 9 / 3 == c0 / 3
  {
    if 0 <= k < 81 && k / 9 / 3 == r0 / 3 && k % 9 / 3 == c0 / 3 {
      BoxHas(r0, c0, k);
    }
    if k in BoxFrom(r0, c0) {
      var t :| 0 <= t < 9 && BoxFrom(r0, c0)[t] == k;
      BoxHolds(r0, c0, t);
    }
  }

  lemma RowMembers(i: int, j: int, k: int)
    requires 0 <= i < 9
    ensures k in FindRow(i, j) <==> 0 <= k < 81 && k / 9 == i
  {
    if 0 <= k < 81 && k / 9 == i {
      Position(k);
      assert FindRow(i, j)[k % 9] == k;
    }
    if k in FindRow(i, j) {
      var t :| 0 <= t < 9 && FindRow(i, j)[t] == k;
      RowCol(i, t);
    }
  }

  lemma ColumnMembers(i: int, j: int, k: int)
    requires 0 <= j < 9
    ensures k in FindColumn(i, j) <==> 0 <= k < 81 && k % 9 == j
  {
    if 0 <= k < 81 && k % 9 == j {
      Position(k);
      assert FindColumn(i, j)[k / 9] == k;
    }
    if k in FindColumn(i, j) {
      var t :| 0 <= t < 9 && FindColumn(i, j)[t] == k;
      RowCol(t, j);
    }
  }

  lemma BoxOfMembers(i: int, j: int, k: int)
    requires 0 <= i < 9 && 0 <= j < 9
    ensures k in FindBox(i, j) <==> 0 <= k < 81 && k / 9 / 3 == i / 3 && k % 9 / 3 == j / 3
  {
    FindBoxIsBoxOf(i, j, 0);
    var r0, c0 := i - i % 3, j - j % 3;
    assert r0 in {0, 3, 6} && r0 / 3 == i / 3;
    assert c0 in {0, 3, 6} && c0 / 3 == j / 3;
    BoxMembers(r0, c0, k);
  }

  /**
   * A position is among the neighbours of a cell exactly when it shares the
   * cell's row (`e.j`), column (`e.i`) or box; in particular the cell is its
   * own neighbour.
   */
  lemma NeighbourMembers(e: Entry, k: int)
    requires 0 <= e.i < 9 && 0 <= e.j < 9
    ensures k in FindNeighbours(e) <==> 0 <= k < 81 && SameUnit(9 * e.j + e.i, k)
  {
    RowCol(e.j, e.i);
    RowMembers(e.j, e.i, k);
    ColumnMembers(e.j, e.i, k);
    BoxOfMembers(e.j, e.i, k);
    assert k in FindNeighbours(e) <==> k in FindRow(e.j, e.i) || k in FindColumn(e.j, e.i) || k in FindBox(e.j, e.i);
  }

  /** Every cell lies in its row, which is unit `k / 9` of `Units()`, at index `k % 9`. */
  lemma CellInItsRow(k: int)
    requires 0 <= k < 81
    ensures Units()[k / 9][k % 9] == k
  {
  }

  /** Two cells of the same row, column or box of `Units()` share a unit, and different indexes are different cells. */
  lemma UnitCells(u: int, a: int, b: int)
    requires 0 <= u < 27 && 0 <= a < 9 && 0 <= b < 9
    ensures SameUnit(Units()[u][a], Units()[u][b])
    ensures a != b ==> Units()[u][a] != Units()[u][b]
  {
    if u < 9 {
      assert Units()[u] == FindRow(u, 0);
      LineCells(FindRow(u, 0), a, b);
    } else if u < 18 {
      assert Units()[u] == FindColumn(0, u - 9);
      LineCells(FindColumn(0, u - 9), a, b);
    } else {
      var r0, c0 := BoxStarts[u - 18].0, BoxStarts[u - 18].1;
      assert Units()[u] == BoxFrom(r0, c0);
      BoxCells(r0, c0, a, b);
    }
  }

  lemma LineCells(line: seq<int>, a: int, b: int)
    requires 0 <= a < 9 && 0 <= b < 9
    requires (exists r :: 0 <= r < 9 && line == FindRow(r, 0)) || (exists c :: 0 <= c < 9 && line == FindColumn(0, c))
    ensures SameUnit(line[a], line[b])
    ensures a != b ==> line[a] != line[b]
  {
    if exists r :: 0 <= r < 9 && line == FindRow(r, 0) {
      var r :| 0 <= r < 9 && line == FindRow(r, 0);
      RowCol(r, a);
      RowCol(r, b);
    } else {
      var c :| 0 <= c < 9 && line == FindColumn(0, c);
      RowCol(a, c);
      RowCol(b, c);
    }
  }

  lemma BoxCells(r0: int, c0: int, a: int, b: int)
    requires r0 in {0, 3, 6} && c0 in {0, 3, 6} && 0 <= a < 9 && 0 <= b < 9
    ensures SameUnit(BoxFrom(r0, c0)[a], BoxFrom(r0, c0)[b])
    ensures a != b ==> BoxFrom(r0, c0)[a] != BoxFrom(r0, c0)[b]
  {
    BoxHolds(r0, c0, a);
    BoxHolds(r0, c0, b);
    if a != b {
      BoxCellsDiffer(r0, c0, a, b);
    }
  }

  lemma BoxCellsDiffer(r0: int, c0: int, a: int, b: int)
    requires r0 in {0, 3, 6} && c0 in {0, 3, 6} && 0 <= a < 9 && 0 <= b < 9 && a != b
    ensures BoxFrom(r0, c0)[a] != BoxFrom(r0, c0)[b]
  {
    var ra, ca, rb, cb := a / 3, a % 3, b / 3, b % 3;
    assert a == 3 * ra + ca && b == 3 * rb + cb;
    assert 0 <= ra < 3 && 0 <= ca < 3 && 0 <= rb < 3 && 0 <= cb < 3;
    assert BoxFrom(r0, c0)[a] == 9 * (r0 + ra) + (c0 + ca);
    assert BoxFrom(r0, c0)[b] == 9 * (r0 + rb) + (c0 + cb);
    RowCol(r0 + ra, c0 + ca);
    RowCol(r0 + rb, c0 + cb);
  }

}
