/**
 * The board object: the source's `Board`, whose methods update the cells
 * of `spaces` in place, plus `ValidRBC` and `ConstructBoard`.
 *
 * `spaces` holds the 81 cells row by row (the source's list of nine rows),
 * so the cell in row `r`, column `c` sits at `9 * r + c`. The source's
 * `Entry` objects are values here: changing a cell writes its new state
 * into its slot. Every method is proved to compute the matching function
 * of `Propagation` or `Heuristics`, where its properties are proved.
 */
module SudokuBoard {
  import opened Entries
  import opened Geometry
  import opened Grids
  import opened Consistency
  import opened Propagation
  import opened Heuristics

  /** `ValidRBC(l)`: no non-zero value occurs twice in `l`. */
  method ValidRBC(l: seq<int>) returns (ok: bool)
    ensures ok <==> NoNonzeroRepeat(l)
  {
    ValidFromIff(l, []);
    var found: seq<int> := [];
    var t := 0;
    while t < |l|
      invariant 0 <= t <= |l|
      invariant ValidFrom(l[t..], found) == ValidFrom(l, [])
    {
      var number := l[t];
      assert l[t..] == [number] + l[t + 1..];
      if number != 0 && number in found {
        return false;
      } else if number != 0 && number !in found {
        found := found + [number];
      }
      t := t + 1;
    }
    assert l[t..] == [];
    return true;
  }

  /** `g` is `g0` with some candidates of the cell at `pos` dropped, and nothing else changed. */
  ghost predicate CandidatesPruned(g0: Grid, g: Grid, pos: int)
    requires |g0| == 81 && 0 <= pos < 81
  {
    |g| == 81 && g[pos] == g0[pos].(possibilities := g[pos].possibilities) &&
    (forall k :: 0 <= k < 81 && k != pos ==> g[k] == g0[k]) &&
    forall x :: x in g[pos].possibilities ==> x in g0[pos].possibilities
  }

  class Board {
    /** The source's `spaces`, flattened row by row. */
    const spaces: array<Entry>

    ghost predicate Valid()
      reads this, spaces
    {
      spaces.Length == 81 && WellFormed(spaces[..])
    }

    /** `Board()`: 81 unassigned cells, each offering every digit. */
    constructor ()
      ensures Valid() && fresh(spaces) && spaces[..] == InitialGrid()
    {
      spaces := new Entry[81](k requires 0 <= k < 81 => Blank(k % 9, k / 9));
    }

    /** `copy.deepcopy(board)`: a board with cells of its own, equal to those of `other`. */
    constructor Copy(other: Board)
      requires other.Valid()
      ensures Valid() && fresh(spaces) && spaces[..] == other.spaces[..]
    {
      var g := other.spaces[..];
      spaces := new Entry[81](k requires 0 <= k < 81 => g[k]);
    }

    /** `Board.Remove(i, j, value)`: drop `value` from the candidates of the cell in row `i`, column `j`. */
    method Remove(i: int, j: int, value: int)
      requires Valid() && 0 <= i < 9 && 0 <= j < 9
      modifies spaces
      ensures Valid()
      ensures spaces[..] == old(spaces[..])[9 * i + j := Entries.Remove(old(spaces[9 * i + j]), value)]
    {
      var p := 9 * i + j;
      WellFormedSet(spaces[..], p, Entries.Remove(spaces[p], value));
      spaces[p] := Entries.Remove(spaces[p], value);
    }

    /** `Board.Update(i, j, value)`. */
    method Update(i: int, j: int, value: int)
      requires Valid() && 0 <= i < 9 && 0 <= j < 9
      modifies spaces
      ensures Valid() && spaces[..] == UpdateGrid(old(spaces[..]), i, j, value)
    {
      var p := 9 * i + j;
      WellFormedSet(spaces[..], p, Entries.Update(spaces[p], value));
      spaces[p] := Entries.Update(spaces[p], value);
      PropogateConstraints(p);
    }

    /** `Board.PropogateConstraints(entry)` for the cell at `p`. */
    method PropogateConstraints(p: int)
      requires Valid() && 0 <= p < 81
      modifies spaces
      ensures Valid() && spaces[..] == Propagate(old(spaces[..]), p)
    {
      PlacedCell(spaces[..], p);
      var constraints := FindNeighbours(spaces[p]);
      ghost var target := Propagate(spaces[..], p);
      ghost var v := spaces[p].value;
      var t := 0;
      while t < |constraints|
        invariant 0 <= t <= |constraints| && Valid()
        invariant spaces[p].value == v
        invariant RemoveFrom(spaces[..], constraints, t, v) == target
      {
        var e := constraints[t];
        WellFormedSet(spaces[..], e, Entries.Remove(spaces[e], spaces[p].value));
        spaces[e] := Entries.Remove(spaces[e], spaces[p].value);
        t := t + 1;
      }
    }

    /** `Board.Restore(entry)`. */
    method Restore(p: int)
      requires Valid() && 0 <= p < 81 && 1 <= spaces[p].value <= 9
      modifies spaces
      ensures Valid() && spaces[..] == RestoreGrid(old(spaces[..]), p)
    {
      RestoreConstraints(p);
    }

    /** The inner loop of `RestoreConstraints`: does a listed neighbour of `square`, other than `p`, hold `v`? */
    method InNeighbour(square: int, p: int, v: int) returns (inNeighbour: bool)
      requires Valid() && 0 <= square < 81
      ensures inNeighbour == HeldNearby(spaces[..], square, p, v)
    {
      PlacedCell(spaces[..], square);
      var nconstraints := FindNeighbours(spaces[square]);
      inNeighbour := false;
      var s := 0;
      while s < |nconstraints|
        invariant 0 <= s <= |nconstraints|
        invariant inNeighbour <==> exists s' :: 0 <= s' < s && nconstraints[s'] != p && spaces[nconstraints[s']].value == v
      {
        var c := nconstraints[s];
        if c != p && spaces[c].value == v {
          inNeighbour := true;
        }
        s := s + 1;
      }
    }

    /** One pass of the loop of `RestoreConstraints` (entry at `p`, value `v`) on the neighbour at `square`. */
    method RestoreNeighbour(p: int, v: int, square: int, possibilities: seq<int>) returns (ps: seq<int>)
      requires Valid() && 0 <= p < 81 && 0 <= square < 81 && 1 <= v <= 9
      requires AllDigits(possibilities) && Ascending(possibilities)
      modifies spaces
      ensures Valid() && AllDigits(ps) && Ascending(ps)
      ensures (spaces[..], ps) == RestoreStep(old(spaces[..]), possibilities, p, v, square)
    {
      ps := possibilities;
      if square != p {
        if spaces[square].value != 0 && spaces[square].value in ps {
          ListRemoveAscending(ps, spaces[square].value);
          ps := ListRemove(ps, spaces[square].value);
        } else if spaces[square].value == 0 && v !in spaces[square].possibilities && v !in spaces[square].tried {
          var inNeighbour := InNeighbour(square, p, v);
          if !inNeighbour {
            WellFormedSet(spaces[..], square, AddPossibility(spaces[square], v));
            spaces[square] := AddPossibility(spaces[square], v);
          }
        }
      }
    }

    /** `Board.RestoreConstraints(entry)` for the assigned cell at `p`. */
    method RestoreConstraints(p: int)
      requires Valid() && 0 <= p < 81 && 1 <= spaces[p].value <= 9
      modifies spaces
      ensures Valid() && spaces[..] == RestoreGrid(old(spaces[..]), p)
    {
      ghost var g0 := spaces[..];
      var v := spaces[p].value;
      DigitsAscending();
      ListRemoveAscending(Digits, v);
      var possibilities := ListRemove(Digits, v);
      assert possibilities == ResetStart(v);
      PlacedCell(g0, p);
      var constraints := FindNeighbours(spaces[p]);
      ghost var final := RestoreFrom(g0, possibilities, p, v, constraints, 0);
      var t := 0;
      while t < |constraints|
        invariant 0 <= t <= |constraints| && Valid()
        invariant AllDigits(possibilities) && Ascending(possibilities)
        invariant spaces[p] == g0[p]
        invariant RestoreFrom(spaces[..], possibilities, p, v, constraints, t) == final
      {
        possibilities := RestoreNeighbour(p, v, constraints[t], possibilities);
        t := t + 1;
      }
      WellFormedSet(spaces[..], p, Entries.Restore(spaces[p], possibilities));
      spaces[p] := Entries.Restore(spaces[p], possibilities);
    }

    /** `Board.Reset(entry)` for the cell at `p`. */
    method Reset(p: int)
      requires Valid() && 0 <= p < 81
      modifies spaces
      ensures Valid() && spaces[..] == ResetGrid(old(spaces[..]), p)
    {
      ghost var g0 := spaces[..];
      PlacedCell(g0, p);
      var constraints := FindNeighbours(spaces[p]);
      DigitsAscending();
      var possibilities := Digits;
      if spaces[p].value in possibilities {
        ListRemoveAscending(possibilities, spaces[p].value);
        possibilities := ListRemove(possibilities, spaces[p].value);
      }
      assert possibilities == ResetStart(g0[p].value);
      ghost var final := ResetFrom(g0, p, constraints, 0, possibilities);
      var t := 0;
      while t < |constraints|
        invariant 0 <= t <= |constraints| && spaces[..] == g0
        invariant AllDigits(possibilities) && Ascending(possibilities)
        invariant ResetFrom(g0, p, constraints, t, possibilities) == final
      {
        var c := constraints[t];
        if spaces[c].value != 0 && c != p && spaces[c].value in possibilities {
          ListRemoveAscending(possibilities, spaces[c].value);
          possibilities := ListRemove(possibilities, spaces[c].value);
        }
        t := t + 1;
      }
      assert ResetGrid(g0, p) == g0[p := Entries.Reset(g0[p], final)];
      WellFormedSet(g0, p, Entries.Reset(g0[p], possibilities));
      spaces[p] := Entries.Reset(spaces[p], possibilities);
    }

    /** `Board.IsComplete()`: rows, then columns, then boxes, each checked with `AllDiff`. */
    method IsComplete() returns (complete: bool)
      requires Valid()
      ensures complete == Consistency.IsComplete(spaces[..])
    {
      var u := 0;
      while u < 27
        invariant 0 <= u <= 27
        invariant forall u' :: 0 <= u' < u ==> AllDiff(Values(spaces[..], Units()[u']))
      {
        var l := Values(spaces[..], Units()[u]);
        if !AllDiff(l) {
          return false;
        }
        u := u + 1;
      }
      return true;
    }

    /** `Board.IsValid()`: rows, then columns, then boxes, each checked with `ValidRBC` and for starved cells. */
    method IsValid() returns (valid: bool)
      requires Valid()
      ensures valid == Consistency.IsValid(spaces[..])
    {
      var u := 0;
      while u < 27
        invariant 0 <= u <= 27
        invariant forall u' :: 0 <= u' < u ==> UnitValid(spaces[..], Units()[u'])
      {
        var unit := Units()[u];
        var rbc := ValidRBC(Values(spaces[..], unit));
        if !rbc {
          return false;
        }
        var t := 0;
        while t < |unit|
          invariant 0 <= t <= |unit|
          invariant forall t' :: 0 <= t' < t ==> !Starved(spaces[unit[t']])
        {
          var s := spaces[unit[t]];
          if s.value == 0 && |s.possibilities| == 0 {
            assert !UnitValid(spaces[..], unit);
            return false;
          }
          t := t + 1;
        }
        u := u + 1;
      }
      return true;
    }

    /** `Board.ForwardCheck(entry, value)`: try the value on a deep copy of the board. */
    method ForwardCheck(p: int, value: int) returns (ok: bool)
      requires Valid() && 0 <= p < 81
      ensures ok == Heuristics.ForwardCheck(spaces[..], p, value)
    {
      var testBoard := new Board.Copy(this);
      var testEntry := spaces[p];
      PlacedCell(spaces[..], p);
      testBoard.Update(testEntry.j, testEntry.i, value);
      ok := testBoard.IsValid();
    }

    /** The count of `LeastConstrainingValue`: listed cells other than `pos` that offer `p`. */
    method CountOffering(constraints: seq<int>, pos: int, p: int) returns (total: int)
      requires Valid() && InBoard(constraints)
      ensures total == CountHolding(spaces[..], constraints, pos, p, |constraints|)
    {
      total := 0;
      var t := 0;
      while t < |constraints|
        invariant 0 <= t <= |constraints|
        invariant total == CountHolding(spaces[..], constraints, pos, p, t)
      {
        var c := constraints[t];
        if p in spaces[c].possibilities && c != pos {
          total := total + 1;
        }
        t := t + 1;
      }
    }

    /** Keep `p` as the best candidate so far when fewer listed cells offer it than offer the best one. */
    method Weigh(constraints: seq<int>, pos: int, p: int, maxTotal: int, maxValue: Option<int>)
      returns (maxTotal': int, maxValue': Option<int>)
      requires Valid() && InBoard(constraints)
      ensures var total := CountHolding(spaces[..], constraints, pos, p, |constraints|);
              if total < maxTotal then maxTotal' == total && maxValue' == Some(p)
              else maxTotal' == maxTotal && maxValue' == maxValue
    {
      var total := CountOffering(constraints, pos, p);
      if total < maxTotal {
        maxTotal', maxValue' := total, Some(p);
      } else {
        maxTotal', maxValue' := maxTotal, maxValue;
      }
    }

    /** The forward check of `LeastConstrainingValue` on its candidate `p`, which is dropped if it fails. */
    method FilterCandidate(ghost g0: Grid, pos: int, p: int) returns (passes: bool)
      requires Valid() && 0 <= pos < 81 && Placed(g0)
      requires CandidatesPruned(g0, spaces[..], pos) && p in spaces[pos].possibilities
      modifies spaces
      ensures Valid() && CandidatesPruned(g0, spaces[..], pos)
      ensures passes == Heuristics.ForwardCheck(g0, pos, p)
      ensures spaces[pos].possibilities ==
                if passes then old(spaces[pos].possibilities) else ListRemove(old(spaces[pos].possibilities), p)
    {
      ghost var poss := spaces[pos].possibilities;
      assert Entries.Valid(spaces[..][pos]);
      ForwardCheckIgnoresOwnCandidates(g0, spaces[..], pos, p);
      passes := ForwardCheck(pos, p);
      if !passes {
        ListRemoveAscending(poss, p);
        WellFormedSet(spaces[..], pos, Entries.Remove(spaces[pos], p));
        spaces[pos] := Entries.Remove(spaces[pos], p);
      }
    }

    /**
     * One pass of the loop of `LeastConstrainingValue` on the candidate at
     * `idx`: drop it if it fails forward checking, else weigh it against the
     * best candidate so far. `g0` is the board the loop started from.
     */
    method LCVPass(ghost g0: Grid, constraints: seq<int>, pos: int, ghost accepted: set<int>,
                   idx: nat, maxTotal: int, maxValue: Option<int>) returns (maxTotal': int, maxValue': Option<int>)
      requires Valid() && 0 <= pos < 81 && Placed(g0) && InBoard(constraints)
      requires accepted == Accepted(g0, pos)
      requires CandidatesPruned(g0, spaces[..], pos)
      requires idx < |spaces[pos].possibilities|
      modifies spaces
      ensures Valid()
      ensures CandidatesPruned(g0, spaces[..], pos)
      ensures |old(spaces[pos].possibilities)| - 1 <= |spaces[pos].possibilities| <= |old(spaces[pos].possibilities)|
      ensures LCVFrom(g0, constraints, pos, accepted, spaces[pos].possibilities, idx + 1, maxTotal', maxValue') ==
              LCVFrom(g0, constraints, pos, accepted, old(spaces[pos].possibilities), idx, maxTotal, maxValue)
    {
      ghost var poss := spaces[pos].possibilities;
      var p := spaces[pos].possibilities[idx];
      assert p in poss && p in g0[pos].possibilities;
      var passes := FilterCandidate(g0, pos, p);
      assert passes <==> p in accepted;
      if !passes {
        maxTotal', maxValue' := maxTotal, maxValue;
        assert LCVFrom(g0, constraints, pos, accepted, poss, idx, maxTotal, maxValue) ==
               LCVFrom(g0, constraints, pos, accepted, ListRemove(poss, p), idx + 1, maxTotal, maxValue);
      } else {
        CountHoldingIgnoresOwn(g0, spaces[..], constraints, pos, p, |constraints|);
        maxTotal', maxValue' := Weigh(constraints, pos, p, maxTotal, maxValue);
        assert LCVFrom(g0, constraints, pos, accepted, poss, idx, maxTotal, maxValue) ==
               LCVFrom(g0, constraints, pos, accepted, poss, idx + 1, maxTotal', maxValue');
      }
    }

    /** `Board.LeastConstrainingValue(entry)` for the cell at `pos`. */
    method LeastConstrainingValue(pos: int) returns (r: Option<int>)
      requires Valid() && 0 <= pos < 81
      modifies spaces
      ensures Valid() && (spaces[..], r) == LCV(old(spaces[..]), pos)
    {
      ghost var g0 := spaces[..];
      PlacedCell(g0, pos);
      var constraints := FindNeighbours(spaces[pos]);
      ghost var accepted := Accepted(g0, pos);
      ghost var final := LCVFrom(g0, constraints, pos, accepted, g0[pos].possibilities, 0, 100, None);
      var maxTotal := 100;
      var maxValue: Option<int> := None;
      var idx := 0;
      while idx < |spaces[pos].possibilities|
        invariant Valid()
        invariant CandidatesPruned(g0, spaces[..], pos)
        invariant idx <= |spaces[pos].possibilities| + 1
        invariant LCVFrom(g0, constraints, pos, accepted, spaces[pos].possibilities, idx, maxTotal, maxValue) == final
        decreases |spaces[pos].possibilities| + 1 - idx
      {
        maxTotal, maxValue := LCVPass(g0, constraints, pos, accepted, idx, maxTotal, maxValue);
        idx := idx + 1;
      }
      assert spaces[..] == LCV(g0, pos).0;
      r := maxValue;
    }

    /** The tie-break count of `MostConstrainedEntry` for the cell at `e`. */
    method CountUnassigned(e: int) returns (n: nat)
      requires Valid() && 0 <= e < 81
      ensures n == UnassignedNeighbours(spaces[..], e)
    {
      PlacedCell(spaces[..], e);
      var constraints := FindNeighbours(spaces[e]);
      n := 0;
      var t := 0;
      while t < |constraints|
        invariant 0 <= t <= |constraints|
        invariant n == UnassignedCount(spaces[..], constraints, e, t)
      {
        var c := constraints[t];
        if c != e && spaces[c].value == 0 {
          n := n + 1;
        }
        t := t + 1;
      }
    }

    /** `Board.MostConstrainedEntry()`: the position of the cell to work on next. */
    method MostConstrainedEntry() returns (r: int)
      requires Valid()
      ensures r == MostConstrained(spaces[..])
    {
      ghost var g := spaces[..];
      var most := 0;
      var k := 0;
      while k < 81
        invariant 0 <= k <= 81 && 0 <= most < 81
        invariant ScanFrom(g, k, most) == ScanFrom(g, 0, 0)
      {
        var entry := spaces[k];
        if entry.possibilities == [] && entry.value == 0 {
          return k;
        }
        if spaces[most].possibilities == [] ||
           (|entry.possibilities| > 0 && |entry.possibilities| < |spaces[most].possibilities|) {
          most := k;
        }
        k := k + 1;
      }
      var mostConstrained := [most];
      k := 0;
      while k < 81
        invariant 0 <= k <= 81 && InBoard(mostConstrained)
        invariant TiesFrom(g, most, k, mostConstrained) == TiesFrom(g, most, 0, [most])
      {
        var entry := spaces[k];
        if k !in mostConstrained && |entry.possibilities| > 0 && |entry.possibilities| == |spaces[most].possibilities| {
          mostConstrained := mostConstrained + [k];
        }
        k := k + 1;
      }
      if |mostConstrained| > 1 {
        var best := mostConstrained[0];
        var leastNeighbours := 0;
        ghost var scores := Scores(g, mostConstrained);
        ScoresAt(g, mostConstrained);
        var t := 0;
        while t < |mostConstrained|
          invariant 0 <= t <= |mostConstrained| && 0 <= best < 81
          invariant TieBreakFrom(mostConstrained, scores, t, best, leastNeighbours) ==
                    TieBreakFrom(mostConstrained, scores, 0, mostConstrained[0], 0)
        {
          var e := mostConstrained[t];
          var unassignedNeighbours := CountUnassigned(e);
          if unassignedNeighbours >= leastNeighbours {
            leastNeighbours := unassignedNeighbours;
            best := e;
          }
          t := t + 1;
        }
        return best;
      } else {
        return most;
      }
    }
  }

  /** One row of `ConstructBoard`: update the cells of row `i` with their numbers, left to right. */
  method ConstructRow(board: Board, values: seq<int>, i: int)
    requires |values| == 81 && 0 <= i < 9
    requires board.Valid() && board.spaces[..] == ConstructTo(values, 9 * i)
    modifies board.spaces
    ensures board.Valid() && board.spaces[..] == ConstructTo(values, 9 * i + 9)
  {
    var j := 0;
    while j < 9
      invariant 0 <= j <= 9
      invariant board.Valid() && board.spaces[..] == ConstructTo(values, 9 * i + j)
    {
      RowCol(i, j);
      board.Update(i, j, values[9 * i + j]);
      j := j + 1;
    }
  }

  /** `ConstructBoard`: a fresh board updated, row by row, with the 81 numbers of a puzzle (0 for an empty cell). */
  method ConstructBoard(values: seq<int>) returns (board: Board)
    requires |values| == 81
    ensures fresh(board) && fresh(board.spaces)
    ensures board.Valid() && board.spaces[..] == Construct(values)
  {
    board := new Board();
    var i := 0;
    while i < 9
      invariant 0 <= i <= 9 && fresh(board.spaces)
      invariant board.Valid() && board.spaces[..] == ConstructTo(values, 9 * i)
    {
      ConstructRow(board, values, i);
      i := i + 1;
    }
  }
}
