/**
 * The board's 81 cells as a value: the source's `spaces`, a list of nine
 * rows of `Entry` objects, flattened row by row so that `spaces[r][c]` is
 * the cell at position `9 * r + c`.
 */
module Grids {
  import opened Entries
  import opened Geometry

  type Grid = seq<Entry>

  /** Every cell sits where its coordinates say: row `j`, column `i`. */
  predicate Placed(g: Grid)
  {
    |g| == 81 && forall k :: 0 <= k < 81 ==> g[k].j == k / 9 && g[k].i == k % 9
  }

  /** The board invariant: cells in place, and every cell satisfies the cell invariant. */
  predicate WellFormed(g: Grid)
  {
    Placed(g) && forall k :: 0 <= k < 81 ==> Valid(g[k])
  }

  /** An assigned cell offers no candidates. */
  predicate Settled(g: Grid)
    requires |g| == 81
  {
    forall k :: 0 <= k < 81 && g[k].value != 0 ==> g[k].possibilities == []
  }

  /** The position `spaces[entry.j][entry.i]` of a cell. */
  function PositionOf(e: Entry): int
  {
    9 * e.j + e.i
  }

  /** `[s.value for s in unit]` */
  function Values(g: Grid, unit: seq<int>): seq<int>
    requires |g| == 81 && InBoard(unit)
  {
    seq(|unit|, t requires 0 <= t < |unit| => g[unit[t]].value)
  }

  /** A cell of a placed grid has in-range coordinates that lead back to it. */
  lemma PlacedCell(g: Grid, k: int)
    requires Placed(g) && 0 <= k < 81
    ensures 0 <= g[k].i < 9 && 0 <= g[k].j < 9 && PositionOf(g[k]) == k
  {
    Position(k);
  }

  /** On a placed grid, `__eq__` (equal coordinates) holds exactly between a cell and itself. */
  lemma SameIsSamePosition(g: Grid, a: int, b: int)
    requires Placed(g) && 0 <= a < 81 && 0 <= b < 81
    ensures Same(g[a], g[b]) <==> a == b
  {
    PlacedCell(g, a);
    PlacedCell(g, b);
  }

  /** Replacing one cell by a cell with the same coordinates keeps the grid placed. */
  lemma PlacedSet(g: Grid, p: int, e: Entry)
    requires Placed(g) && 0 <= p < 81 && e.i == g[p].i && e.j == g[p].j
    ensures Placed(g[p := e])
  {
  }

  /** Replacing one cell by a valid cell with the same coordinates keeps the grid well formed. */
  lemma WellFormedSet(g: Grid, p: int, e: Entry)
    requires WellFormed(g) && 0 <= p < 81 && e.i == g[p].i && e.j == g[p].j && Valid(e)
    ensures WellFormed(g[p := e])
  {
  }
}
