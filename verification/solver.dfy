/**
 * The solver loop `Solve(board)`: pick the most constrained cell, try its
 * least constraining value, and undo the latest assignment when stuck, for
 * at most 10000 assignments.
 *
 * One pass of the loop is the function `Step` on a `State` (grid, stack of
 * moves, assignment count); `Run` repeats it until the loop ends, and the
 * method `Solve` on a `Board` is proved to end exactly as `Run` does.
 * A move on the stack is the position of the cell it assigned.
 */
module SudokuSolver {
  import opened Entries
  import opened Geometry
  import opened Grids
  import opened Consistency
  import opened Propagation
  import opened Heuristics
  import opened SudokuBoard

  /** The cap on the number of assignments. */
  const Limit := 10000

  /**
   * How `Solve` ends: it returns its assignment count, or it calls
   * `moves.pop()` on an empty stack, which raises an error.
   */
  datatype Outcome = Returned(assignments: int) | EmptyPop

  /** The solver's variables at the head of its loop: the board, `moves` and `assignments`. */
  datatype State = State(grid: Grid, moves: seq<int>, assignments: int)

  /** One pass of the loop either leaves the loop (with what the board holds then) or goes round again. */
  datatype StepResult = Stop(outcome: Outcome, grid: Grid) | Continue(next: State)

  /** Every cell on the stack holds the digit the solver assigned to it. */
  predicate MovesAssigned(g: Grid, moves: seq<int>)
    requires |g| == 81
  {
    forall t :: 0 <= t < |moves| ==> 0 <= moves[t] < 81 && 1 <= g[moves[t]].value <= 9
  }

  /**
   * What holds at the head of every pass: the board is well formed and
   * settled, the stack holds distinct assigned cells and is no longer than
   * the number of assignments made, which is within the cap.
   */
  predicate SolverInv(s: State)
  {
    WellFormed(s.grid) && Settled(s.grid) && 0 <= |s.moves| <= s.assignments <= Limit &&
    MovesAssigned(s.grid, s.moves) && Distinct(s.moves)
  }

  /**
   * The backtrack branch: pop the latest move and restore its cell; if the
   * cell `entry` chosen this pass still has no candidates, reset the popped
   * cell as well. On an empty stack the pop fails.
   */
  function Backtrack(g: Grid, moves: seq<int>, assignments: int, entry: int): (r: StepResult)
    requires WellFormed(g) && 0 <= entry < 81 && MovesAssigned(g, moves)
    ensures r.Stop? <==> moves == []
    ensures r.Stop? ==> r.outcome == EmptyPop && r.grid == g
    ensures r.Continue? ==> r.next.assignments == assignments && r.next.moves == moves[..|moves| - 1]
  {
    if moves == [] then Stop(EmptyPop, g)
    else
      var bad := moves[|moves| - 1];
      var h := RestoreGrid(g, bad);
      Continue(State(if |h[entry].possibilities| == 0 then ResetGrid(h, bad) else h, moves[..|moves| - 1], assignments))
  }

  /** One pass of the loop of `Solve`. */
  function Step(s: State): (r: StepResult)
    requires SolverInv(s) && s.assignments < Limit
    ensures r.Stop? ==> WellFormed(r.grid)
  {
    var g := s.grid;
    if IsComplete(g) then Stop(Returned(s.assignments), g)
    else
      var entry := MostConstrained(g);
      if s.moves == [] && s.assignments > 0 && |g[entry].possibilities| == 0 then Stop(Returned(Limit), g)
      else if |g[entry].possibilities| == 0 && g[entry].value == 0 then Backtrack(g, s.moves, s.assignments, entry)
      else
        LCVEffect(g, entry);
        var (h, x) := LCV(g, entry);
        if x.None? || x.value == 0 then Backtrack(h, s.moves, s.assignments, entry)
        else Continue(Assign(h, s.moves, s.assignments, entry, x.value))
  }

  /** The assignment branch: `board.Update(entry.j, entry.i, value)`, then push the cell and count one more assignment. */
  function Assign(g: Grid, moves: seq<int>, assignments: int, entry: int, x: int): (r: State)
    requires WellFormed(g) && 0 <= entry < 81
  {
    PlacedCell(g, entry);
    State(UpdateGrid(g, g[entry].j, g[entry].i, x), moves + [entry], assignments + 1)
  }

  /** The loop of `Solve` from state `s` on: how it ends, and the board it leaves. */
  function Run(s: State): (r: (Outcome, Grid))
    requires SolverInv(s)
    ensures WellFormed(r.1)
    decreases 2 * (Limit - s.assignments) + |s.moves|
  {
    if s.assignments >= Limit then (Returned(s.assignments), s.grid)
    else
      StepInv(s);
      match Step(s)
      case Stop(outcome, g) => (outcome, g)
      case Continue(next) => Run(next)
  }

  // ---------------------------------------------------------------------
  // One pass keeps the invariant and makes progress

  /** Restoring the latest move and possibly resetting it keeps the invariant, and pops exactly that move. */
  lemma BacktrackInv(g: Grid, moves: seq<int>, assignments: int, entry: int)
    requires SolverInv(State(g, moves, assignments)) && 0 <= entry < 81
    ensures var r := Backtrack(g, moves, assignments, entry);
      r.Continue? ==> SolverInv(r.next) && r.next.assignments == assignments && r.next.moves == moves[..|moves| - 1]
  {
    if moves != [] {
      var bad := moves[|moves| - 1];
      var rest := moves[..|moves| - 1];
      PopGrid(g, bad, entry);
      var h := RestoreGrid(g, bad);
      var h' := if |h[entry].possibilities| == 0 then ResetGrid(h, bad) else h;
      assert Backtrack(g, moves, assignments, entry) == Continue(State(h', rest, assignments));
      forall t | 0 <= t < |rest| ensures 0 <= rest[t] < 81 && 1 <= h'[rest[t]].value <= 9 {
        assert rest[t] == moves[t] && moves[t] != bad;
      }
      assert Distinct(rest);
    }
  }

  /** The grid after the pop: the popped cell is unassigned, the other cells keep their values, and assigned ones are untouched. */
  lemma PopGrid(g: Grid, bad: int, entry: int)
    requires WellFormed(g) && Settled(g) && 0 <= bad < 81 && 1 <= g[bad].value <= 9 && 0 <= entry < 81
    ensures var h := RestoreGrid(g, bad);
      var h' := if |h[entry].possibilities| == 0 then ResetGrid(h, bad) else h;
      WellFormed(h') && Settled(h') && h'[bad].value == 0 &&
      forall k :: 0 <= k < 81 && k != bad ==> h'[k].value == g[k].value && (g[k].value != 0 ==> h'[k] == g[k])
  {
    var h := RestoreGrid(g, bad);
    RestoreOwnCell(g, bad);
    RestoreOthers(g, bad);
    ResetEffect(h, bad);
    var h' := if |h[entry].possibilities| == 0 then ResetGrid(h, bad) else h;
    assert h'[bad].value == 0;
    forall k | 0 <= k < 81 && k != bad
      ensures h'[k].value == g[k].value && (g[k].value != 0 ==> h'[k] == g[k])
    {
      assert h'[k] == h[k];
      if g[k].value != 0 {
        assert !Reoffered(g, bad, g[bad].value, k);
      }
    }
  }

  /** Pruning the candidates of the chosen cell keeps the invariant. */
  lemma LCVInv(g: Grid, moves: seq<int>, assignments: int, entry: int)
    requires SolverInv(State(g, moves, assignments)) && 0 <= entry < 81
    ensures SolverInv(State(LCV(g, entry).0, moves, assignments))
  {
    LCVEffect(g, entry);
  }

  /** Assigning the chosen value keeps the invariant and pushes the chosen cell. */
  lemma AssignInv(s: State, entry: int, h: Grid, x: int)
    requires SolverInv(s) && s.assignments < Limit && 0 <= entry < 81
    requires SolverInv(State(h, s.moves, s.assignments)) && x in h[entry].possibilities
    ensures SolverInv(Assign(h, s.moves, s.assignments, entry, x))
  {
    PlacedCell(h, entry);
    var i, j := h[entry].j, h[entry].i;
    assert 9 * i + j == entry;
    var n := UpdateGrid(h, i, j, x);
    assert 1 <= x <= 9;
    UpdateEffect(h, i, j, x);
    assert h[entry].value == 0;
    var moves := s.moves + [entry];
    forall t | 0 <= t < |moves| ensures 0 <= moves[t] < 81 && 1 <= n[moves[t]].value <= 9 {
      if t < |s.moves| {
        assert moves[t] == s.moves[t] && moves[t] != entry;
      }
    }
    forall a, b | 0 <= a < b < |moves| ensures moves[a] != moves[b] {
      if b == |s.moves| {
        assert moves[a] == s.moves[a];
      }
    }
  }

  /**
   * A pass that goes round again keeps the invariant, and either pushes
   * one move and counts one more assignment, or pops one move.
   */
  lemma StepInv(s: State)
    requires SolverInv(s) && s.assignments < Limit
    ensures var r := Step(s);
      r.Continue? ==>
        SolverInv(r.next) &&
        ((r.next.assignments == s.assignments + 1 && |r.next.moves| == |s.moves| + 1) ||
         (r.next.assignments == s.assignments && |r.next.moves| == |s.moves| - 1))
  {
    var g := s.grid;
    if !IsComplete(g) {
      var entry := MostConstrained(g);
      if !(s.moves == [] && s.assignments > 0 && |g[entry].possibilities| == 0) {
        if |g[entry].possibilities| == 0 && g[entry].value == 0 {
          BacktrackInv(g, s.moves, s.assignments, entry);
        } else {
          LCVEffect(g, entry);
          LCVInv(g, s.moves, s.assignments, entry);
          var (h, x) := LCV(g, entry);
          if x.None? || x.value == 0 {
            BacktrackInv(h, s.moves, s.assignments, entry);
          } else {
            AssignInv(s, entry, h, x.value);
          }
        }
      }
    }
  }

  // ---------------------------------------------------------------------
  // What the solver promises

  /** The count returned is at least the count so far and never above the cap. */
  lemma {:induction false} RunBounds(s: State)
    requires SolverInv(s)
    ensures Run(s).0.Returned? ==> s.assignments <= Run(s).0.assignments <= Limit
    decreases 2 * (Limit - s.assignments) + |s.moves|
  {
    if s.assignments < Limit {
      StepInv(s);
      if Step(s).Continue? {
        RunBounds(Step(s).next);
      }
    }
  }

  /**
   * When the solver returns fewer than 10000 assignments, the board it
   * leaves is complete: every row, column and box holds 1..9 exactly once,
   * so it is also valid. The give-up branch and the cap both return 10000.
   */
  lemma {:induction false} RunSolves(s: State)
    requires SolverInv(s)
    ensures Run(s).0.Returned? && Run(s).0.assignments < Limit ==> IsComplete(Run(s).1) && IsValid(Run(s).1)
    decreases 2 * (Limit - s.assignments) + |s.moves|
  {
    if s.assignments < Limit {
      StepInv(s);
      StepReturns(s);
      match Step(s)
      case Stop(outcome, g) =>
        if outcome.Returned? && outcome.assignments < Limit {
          CompleteIsValid(g);
        }
      case Continue(next) =>
        RunSolves(next);
    }
  }

  /** A pass returns a count below the cap only when the board is complete, and then returns the count so far. */
  lemma StepReturns(s: State)
    requires SolverInv(s) && s.assignments < Limit
    ensures var r := Step(s);
      r.Stop? && r.outcome.Returned? ==>
        (r.outcome.assignments == s.assignments && IsComplete(r.grid)) || r.outcome.assignments == Limit
  {
    var g := s.grid;
    if !IsComplete(g) {
      var entry := MostConstrained(g);
      if !(s.moves == [] && s.assignments > 0 && |g[entry].possibilities| == 0) {
        if |g[entry].possibilities| == 0 && g[entry].value == 0 {
          assert Step(s) == Backtrack(g, s.moves, s.assignments, entry);
        } else {
          LCVEffect(g, entry);
          var (h, x) := LCV(g, entry);
          if x.None? || x.value == 0 {
            assert Step(s) == Backtrack(h, s.moves, s.assignments, entry);
          }
        }
      }
    }
  }

  /** A board that is already complete is returned untouched, with no assignment made. */
  lemma RunComplete(g: Grid)
    requires WellFormed(g) && Settled(g) && IsComplete(g)
    ensures Run(State(g, [], 0)) == (Returned(0), g)
  {
  }

  /** Cells that are assigned and not on the stack keep their value from one pass to the next. */
  lemma StepKeepsGivens(s: State, k: int)
    requires SolverInv(s) && s.assignments < Limit && 0 <= k < 81 && s.grid[k].value != 0 && k !in s.moves
    ensures var r := Step(s);
      (r.Stop? ==> r.grid[k].value == s.grid[k].value) &&
      (r.Continue? ==> |r.next.grid| == 81 && r.next.grid[k].value == s.grid[k].value && k !in r.next.moves)
  {
    var g := s.grid;
    if !IsComplete(g) {
      var entry := MostConstrained(g);
      if !(s.moves == [] && s.assignments > 0 && |g[entry].possibilities| == 0) {
        if |g[entry].possibilities| == 0 && g[entry].value == 0 {
          assert Step(s) == Backtrack(g, s.moves, s.assignments, entry);
          BacktrackKeeps(g, s.moves, s.assignments, entry, k);
        } else {
          LCVEffect(g, entry);
          LCVInv(g, s.moves, s.assignments, entry);
          var (h, x) := LCV(g, entry);
          assert h[k].value == g[k].value;
          if x.None? || x.value == 0 {
            assert Step(s) == Backtrack(h, s.moves, s.assignments, entry);
            BacktrackKeeps(h, s.moves, s.assignments, entry, k);
          } else {
            assert Step(s) == Continue(Assign(h, s.moves, s.assignments, entry, x.value));
            AssignKeeps(h, s.moves, s.assignments, entry, x.value, k);
          }
        }
      }
    }
  }

  lemma AssignKeeps(h: Grid, moves: seq<int>, assignments: int, entry: int, x: int, k: int)
    requires WellFormed(h) && Settled(h) && 0 <= entry < 81 && x in h[entry].possibilities
    requires 0 <= k < 81 && h[k].value != 0 && k !in moves
    ensures var n := Assign(h, moves, assignments, entry, x);
      |n.grid| == 81 && n.grid[k].value == h[k].value && k !in n.moves
  {
    PlacedCell(h, entry);
    var i, j := h[entry].j, h[entry].i;
    assert 9 * i + j == entry;
    assert h[entry].value == 0;
    UpdateEffect(h, i, j, x);
  }

  lemma BacktrackKeeps(g: Grid, moves: seq<int>, assignments: int, entry: int, k: int)
    requires WellFormed(g) && Settled(g) && 0 <= entry < 81 && MovesAssigned(g, moves)
    requires 0 <= k < 81 && g[k].value != 0 && k !in moves
    ensures var r := Backtrack(g, moves, assignments, entry);
      r.Continue? ==> |r.next.grid| == 81 && r.next.grid[k].value == g[k].value && k !in r.next.moves
  {
    if moves != [] {
      var bad := moves[|moves| - 1];
      var rest := moves[..|moves| - 1];
      PopGrid(g, bad, entry);
      var h := RestoreGrid(g, bad);
      var h' := if |h[entry].possibilities| == 0 then ResetGrid(h, bad) else h;
      assert Backtrack(g, moves, assignments, entry) == Continue(State(h', rest, assignments));
      assert k != bad;
      assert forall t :: 0 <= t < |rest| ==> rest[t] == moves[t];
    }
  }

  /** The givens, and every other cell the solver did not assign, keep their value to the end. */
  lemma {:induction false} RunKeepsGivens(s: State, k: int)
    requires SolverInv(s) && 0 <= k < 81 && s.grid[k].value != 0 && k !in s.moves
    ensures |Run(s).1| == 81 && Run(s).1[k].value == s.grid[k].value
    decreases 2 * (Limit - s.assignments) + |s.moves|
  {
    if s.assignments < Limit {
      StepInv(s);
      StepKeepsGivens(s, k);
      if Step(s).Continue? {
        RunKeepsGivens(Step(s).next, k);
      }
    }
  }

  /**
   * After a pass that assigns a value, the board is valid: the value passed
   * the forward check on a copy that differs only in the cell's candidates.
   */
  lemma AssignValid(s: State)
    requires SolverInv(s) && s.assignments < Limit
    ensures var r := Step(s);
      r.Continue? && r.next.assignments == s.assignments + 1 ==> IsValid(r.next.grid)
  {
    var g := s.grid;
    if !IsComplete(g) {
      var entry := MostConstrained(g);
      if !(s.moves == [] && s.assignments > 0 && |g[entry].possibilities| == 0) &&
         !(|g[entry].possibilities| == 0 && g[entry].value == 0) {
        LCVEffect(g, entry);
        var (h, x) := LCV(g, entry);
        if x.Some? && x.value != 0 {
          assert Step(s) == Continue(Assign(h, s.moves, s.assignments, entry, x.value));
          AssignPassed(g, h, s.moves, s.assignments, entry, x.value);
        }
      }
    }
  }

  /** Assigning a value that passed the forward check on `g`, to a copy `h` differing only in the cell's candidates, leaves a valid board. */
  lemma AssignPassed(g: Grid, h: Grid, moves: seq<int>, assignments: int, entry: int, x: int)
    requires WellFormed(g) && WellFormed(h) && 0 <= entry < 81 && x != 0
    requires forall k :: 0 <= k < 81 && k != entry ==> h[k] == g[k]
    requires h[entry] == g[entry].(possibilities := h[entry].possibilities)
    requires ForwardCheck(g, entry, x)
    ensures IsValid(Assign(h, moves, assignments, entry, x).grid)
  {
    PlacedCell(g, entry);
    assert 9 * g[entry].j + g[entry].i == entry;
    UpdateIgnoresOwnCandidates(g, h, g[entry].j, g[entry].i, x);
  }

  /**
   * A pass that goes back pops the latest move: that cell loses its value,
   * every other cell keeps its value, and only the popped cell and cells
   * sharing a unit with it change.
   */
  lemma BacktrackLIFO(g: Grid, moves: seq<int>, assignments: int, entry: int)
    requires SolverInv(State(g, moves, assignments)) && 0 <= entry < 81 && moves != []
    ensures var bad := moves[|moves| - 1];
      var r := Backtrack(g, moves, assignments, entry);
      r.Continue? && r.next.moves == moves[..|moves| - 1] && r.next.grid[bad].value == 0 &&
      (forall k :: 0 <= k < 81 && k != bad ==> r.next.grid[k].value == g[k].value) &&
      (forall k :: 0 <= k < 81 && k != bad && !SameUnit(bad, k) ==> r.next.grid[k] == g[k])
  {
    var bad := moves[|moves| - 1];
    PopGrid(g, bad, entry);
    var h := RestoreGrid(g, bad);
    RestoreOthers(g, bad);
    ResetEffect(h, bad);
  }

  /**
   * What the popped cell offers after the pass: when the chosen cell still
   * has no candidates once the popped cell is restored, the popped cell is
   * reset (every digit no peer holds, and nothing remembered as tried);
   * otherwise it is restored (every digit no peer holds, other than its old
   * value and the values tried there).
   */
  lemma BacktrackCandidates(g: Grid, moves: seq<int>, assignments: int, entry: int)
    requires SolverInv(State(g, moves, assignments)) && 0 <= entry < 81 && moves != []
    ensures var bad := moves[|moves| - 1];
      var r := Backtrack(g, moves, assignments, entry);
      var reset := |RestoreGrid(g, bad)[entry].possibilities| == 0;
      r.Continue? &&
      (reset ==>
         r.next.grid[bad].tried == [] &&
         forall x :: x in r.next.grid[bad].possibilities <==> 1 <= x <= 9 && !PeerHolds(g, bad, bad, x)) &&
      (!reset ==>
         r.next.grid[bad].tried == g[bad].tried &&
         forall x :: x in r.next.grid[bad].possibilities <==>
           1 <= x <= 9 && x != g[bad].value && x !in g[bad].tried && !PeerHolds(g, bad, bad, x))
  {
    var bad := moves[|moves| - 1];
    var h := RestoreGrid(g, bad);
    PopGrid(g, bad, entry);
    RestoreOwnCell(g, bad);
    ResetEffect(h, bad);
    forall x ensures PeerHolds(h, bad, bad, x) == PeerHolds(g, bad, bad, x) {
      PeerHoldsOnValues(g, h, bad, x);
    }
  }

  /** Whether a peer other than the cell itself holds a value depends only on the values of the other cells. */
  lemma PeerHoldsOnValues(g: Grid, h: Grid, p: int, x: int)
    requires |g| == 81 && |h| == 81
    requires forall k :: 0 <= k < 81 && k != p ==> h[k].value == g[k].value
    ensures PeerHolds(h, p, p, x) == PeerHolds(g, p, p, x)
  {
    if PeerHolds(g, p, p, x) {
      var c :| 0 <= c < 81 && c != p && SameUnit(p, c) && g[c].value == x;
      assert h[c].value == x;
    }
    if PeerHolds(h, p, p, x) {
      var c :| 0 <= c < 81 && c != p && SameUnit(p, c) && h[c].value == x;
      assert g[c].value == x;
    }
  }

  /**
   * A given repeated in a row, column or box makes the first pass fail on
   * `moves.pop()`: the board is not complete, no value can pass the forward
   * check, and the stack is still empty.
   */
  lemma RepeatedGivenCrashes(g: Grid, u: int, a: int, b: int)
    requires WellFormed(g) && Settled(g) && 0 <= u < 27
    requires var l := Values(g, Units()[u]); 0 <= a < b < |l| && l[a] != 0 && l[a] == l[b]
    ensures Step(State(g, [], 0)).Stop? && Run(State(g, [], 0)).0 == EmptyPop
  {
    IsCompleteIff(g);
    assert !IsComplete(g);
    var entry := MostConstrained(g);
    if g[entry].value == 0 {
      forall v | v != 0 ensures !ForwardCheck(g, entry, v) {
        RepeatBlocksForwardCheck(g, u, a, b, entry, v);
      }
    }
    LCVEffect(g, entry);
  }

  /** With a non-zero value repeated in a unit, no value placed in an unassigned cell passes the forward check. */
  lemma RepeatBlocksForwardCheck(g: Grid, u: int, a: int, b: int, entry: int, v: int)
    requires WellFormed(g) && 0 <= u < 27 && 0 <= entry < 81 && g[entry].value == 0 && v != 0
    requires var l := Values(g, Units()[u]); 0 <= a < b < |l| && l[a] != 0 && l[a] == l[b]
    ensures !ForwardCheck(g, entry, v)
  {
    var unit := Units()[u];
    var l := Values(g, unit);
    PlacedCell(g, entry);
    var i, j := g[entry].j, g[entry].i;
    assert 9 * i + j == entry;
    var n := UpdateGrid(g, i, j, v);
    UpdateEffect(g, i, j, v);
    assert unit[a] != entry && unit[b] != entry;
    assert Values(n, unit)[a] == l[a] && Values(n, unit)[b] == l[b];
    IsValidIff(n);
  }

  // ---------------------------------------------------------------------
  // A puzzle with one empty cell

  /**
   * The 81 numbers of a puzzle whose only empty cell is `k`: every other
   * number is a digit, no two cells sharing a row, column or box hold the
   * same digit, and `d` is a digit no cell sharing a unit with `k` holds.
   */
  predicate OneBlank(values: seq<int>, k: int, d: int)
  {
    |values| == 81 && 0 <= k < 81 && values[k] == 0 && 1 <= d <= 9 &&
    (forall c :: 0 <= c < 81 && c != k ==> 1 <= values[c] <= 9) &&
    (forall a, b :: 0 <= a < 81 && 0 <= b < 81 && a != b && SameUnit(a, b) && values[a] != 0 ==> values[a] != values[b]) &&
    (forall c :: 0 <= c < 81 && SameUnit(k, c) ==> values[c] != d)
  }

  /** A board whose cells all hold digits, no two in a row, column or box alike, is complete. */
  lemma FilledComplete(g: Grid)
    requires |g| == 81 && forall c :: 0 <= c < 81 ==> 1 <= g[c].value <= 9
    requires forall a, b :: 0 <= a < 81 && 0 <= b < 81 && a != b && SameUnit(a, b) ==> g[a].value != g[b].value
    ensures IsComplete(g)
  {
    IsCompleteIff(g);
    forall u | 0 <= u < 27
      ensures Distinct(Values(g, Units()[u])) && forall x :: x in Values(g, Units()[u]) <==> 1 <= x <= 9
    {
      var l := Values(g, Units()[u]);
      forall a, b | 0 <= a < b < 9 ensures l[a] != l[b] {
        UnitCells(u, a, b);
      }
      DigitsCovered(l);
    }
  }

  /** Assigning `d` to the empty cell of such a puzzle's board gives a complete board holding the puzzle's numbers and `d`. */
  lemma OneBlankFilled(values: seq<int>, k: int, d: int)
    requires OneBlank(values, k, d)
    ensures var g := Construct(values);
      var n := (Position(k); UpdateGrid(g, k / 9, k % 9, d));
      IsComplete(n) && WellFormed(n) && (forall c :: 0 <= c < 81 ==> n[c].value == values[k := d][c])
  {
    ConstructGivens(values);
    var g := Construct(values);
    Position(k);
    var n := UpdateGrid(g, k / 9, k % 9, d);
    UpdateEffect(g, k / 9, k % 9, d);
    forall c | 0 <= c < 81 ensures n[c].value == values[k := d][c] {
      if c != k {
        assert n[c].value == g[c].value;
      }
    }
    FilledComplete(n);
  }

  /**
   * The board built from such a puzzle: `d` is the only candidate of the
   * empty cell, every other cell is assigned without candidates, so the
   * board is not complete and `MostConstrainedEntry` picks the empty cell.
   */
  lemma OneBlankBoard(values: seq<int>, k: int, d: int)
    requires OneBlank(values, k, d)
    ensures var g := Construct(values);
      WellFormed(g) && Settled(g) && g[k].value == 0 && (forall x :: x in g[k].possibilities <==> x == d) &&
      !IsComplete(g) && MostConstrained(g) == k
  {
    ConstructGivens(values);
    var g := Construct(values);
    OneBlankCandidates(values, k, d);
    assert d in g[k].possibilities;
    OnlyCellWithCandidates(g, k);
    BlankNotComplete(g, k);
  }

  /** When the cell at `k` is the only one with candidates and every other cell is assigned, `MostConstrainedEntry` picks `k`. */
  lemma OnlyCellWithCandidates(g: Grid, k: int)
    requires Placed(g) && 0 <= k < 81 && |g[k].possibilities| > 0
    requires forall c :: 0 <= c < 81 && c != k ==> g[c].value != 0 && g[c].possibilities == []
    ensures MostConstrained(g) == k
  {
    MostConstrainedSmallest(g);
  }

  /** A board with an unassigned cell is not complete. */
  lemma BlankNotComplete(g: Grid, k: int)
    requires |g| == 81 && 0 <= k < 81 && g[k].value == 0
    ensures !IsComplete(g)
  {
    var l := Values(g, Units()[k / 9]);
    CellInItsRow(k);
    assert l[k % 9] == 0;
    assert 0 in l;
    AllDiffIff(l);
  }

  lemma OneBlankCandidates(values: seq<int>, k: int, d: int)
    requires OneBlank(values, k, d)
    ensures forall x :: x in Construct(values)[k].possibilities <==> x == d
  {
    ConstructGivens(values);
    var g := Construct(values);
    OneBlankFilled(values, k, d);
    Position(k);
    var n := UpdateGrid(g, k / 9, k % 9, d);
    forall x | 1 <= x <= 9 && x != d ensures x !in g[k].possibilities {
      RowHolds(n, k, x);
      var c :| 0 <= c < 81 && c / 9 == k / 9 && n[c].value == x;
      assert values[c] == x && SameUnit(k, c);
    }
  }

  /** Every digit is held somewhere in each row of a complete board. */
  lemma RowHolds(g: Grid, k: int, x: int)
    requires |g| == 81 && IsComplete(g) && 0 <= k < 81 && 1 <= x <= 9
    ensures exists c :: 0 <= c < 81 && c / 9 == k / 9 && g[c].value == x
  {
    var row := Values(g, Units()[k / 9]);
    assert AllDiff(row);
    AllDiffIff(row);
    var t :| 0 <= t < 9 && row[t] == x;
    assert Units()[k / 9] == FindRow(k / 9, 0);
    RowCol(k / 9, t);
    assert g[9 * (k / 9) + t].value == x;
  }

  /** `Solve` on the board `ConstructBoard` builds from the 81 numbers of a puzzle: how it ends, and the board it leaves. */
  function SolvePuzzle(values: seq<int>): (Outcome, Grid)
    requires |values| == 81
  {
    ConstructGivens(values);
    Run(State(Construct(values), [], 0))
  }

  /**
   * On a puzzle whose only empty cell is `k` and whose other numbers
   * repeat nothing, `Solve` assigns the one digit `d` that fits `k` and
   * returns 1 on the next pass, leaving a complete board that holds the
   * puzzle's numbers and `d`.
   */
  lemma OneBlankSolves(values: seq<int>, k: int, d: int)
    requires OneBlank(values, k, d)
    ensures SolvePuzzle(values).0 == Returned(1)
    ensures IsComplete(SolvePuzzle(values).1)
    ensures forall c :: 0 <= c < 81 ==> SolvePuzzle(values).1[c].value == values[k := d][c]
  {
    var g := Construct(values);
    OneBlankBoard(values, k, d);
    OneBlankFilled(values, k, d);
    var n := UpdateGrid(g, k / 9, k % 9, d);
    var s := State(g, [], 0);
    AssignOnlyCandidate(g, k, d);
    AssignAt(g, k, d);
    StepInv(s);
    var s' := State(n, [k], 1);
    assert Step(s') == Stop(Returned(1), n);
    assert SolvePuzzle(values) == Run(s) == Run(s');
  }

  /**
   * The first pass on a board that is not complete, from an empty stack,
   * where the chosen cell `k` is unassigned and offers only `d`, and
   * assigning `d` there completes the board: it assigns `d` to `k`.
   */
  lemma AssignOnlyCandidate(g: Grid, k: int, d: int)
    requires WellFormed(g) && Settled(g) && 0 <= k < 81 && g[k].value == 0 && d != 0
    requires !IsComplete(g) && MostConstrained(g) == k && forall x :: x in g[k].possibilities <==> x == d
    requires IsComplete(UpdateGrid(g, k / 9, k % 9, d))
    ensures Step(State(g, [], 0)) == Continue(Assign(g, [], 0, k, d))
  {
    PlacedCell(g, k);
    CompleteIsValid(UpdateGrid(g, k / 9, k % 9, d));
    LCVOnlyCandidate(g, k, d);
    var s := State(g, [], 0);
    assert Step(s) == Continue(Assign(g, [], 0, k, d));
  }

  /** `Assign` from an empty stack and no assignment: the cell's row is `k / 9` and its column `k % 9`. */
  lemma AssignAt(g: Grid, k: int, d: int)
    requires WellFormed(g) && 0 <= k < 81
    ensures Assign(g, [], 0, k, d) == State(UpdateGrid(g, k / 9, k % 9, d), [k], 1)
  {
    PlacedCell(g, k);
    assert [] + [k] == [k];
  }

  /** A cell whose only candidate passes forward checking: `LeastConstrainingValue` prunes nothing and returns it. */
  lemma LCVOnlyCandidate(g: Grid, k: int, d: int)
    requires WellFormed(g) && 0 <= k < 81 && (forall x :: x in g[k].possibilities <==> x == d) && ForwardCheck(g, k, d)
    ensures LCV(g, k) == (g, Some(d))
  {
    assert d in g[k].possibilities;
    LCVAllPass(g, k);
    assert LCV(g, k).1.value in g[k].possibilities;
  }

  // ---------------------------------------------------------------------
  // The solver on a board

  /** The backtrack branch on the board: pop the latest move, restore it, and reset it when `entry` has no candidates. */
  method Backup(board: Board, moves: seq<int>, entry: int, ghost assignments: int) returns (popped: bool, rest: seq<int>)
    requires board.Valid() && 0 <= entry < 81 && MovesAssigned(board.spaces[..], moves)
    modifies board.spaces
    ensures board.Valid()
    ensures var r := Backtrack(old(board.spaces[..]), moves, assignments, entry);
      if popped then r == Continue(State(board.spaces[..], rest, assignments))
      else r == Stop(EmptyPop, board.spaces[..])
  {
    if moves == [] {
      return false, moves;
    }
    var badMove := moves[|moves| - 1];
    rest := moves[..|moves| - 1];
    board.Restore(badMove);
    if |board.spaces[entry].possibilities| == 0 {
      board.Reset(badMove);
    }
    popped := true;
  }

  /**
   * One pass of the loop of `Solve` on the board: either the loop ends
   * (`stop`, with `outcome`), or `moves'` and `assignments'` are the
   * variables for the next pass.
   */
  method Pass(board: Board, moves: seq<int>, assignments: int)
    returns (stop: bool, outcome: Outcome, moves': seq<int>, assignments': int)
    requires board.Valid() && SolverInv(State(board.spaces[..], moves, assignments)) && assignments < Limit
    modifies board.spaces
    ensures board.Valid()
    ensures var r := Step(State(old(board.spaces[..]), moves, assignments));
      if stop then r == Stop(outcome, board.spaces[..]) else r == Continue(State(board.spaces[..], moves', assignments'))
  {
    ghost var s := State(board.spaces[..], moves, assignments);
    ghost var g := board.spaces[..];
    var complete := board.IsComplete();
    if complete {
      return true, Returned(assignments), moves, assignments;
    }
    var entry := board.MostConstrainedEntry();
    if moves == [] && assignments > 0 && |board.spaces[entry].possibilities| == 0 {
      return true, Returned(Limit), moves, Limit;
    }
    if |board.spaces[entry].possibilities| == 0 && board.spaces[entry].value == 0 {
      assert Step(s) == Backtrack(g, moves, assignments, entry);
      var popped;
      popped, moves' := Backup(board, moves, entry, assignments);
      return !popped, EmptyPop, moves', assignments;
    }
    stop, outcome, moves', assignments' := TryValue(board, moves, assignments, entry);
  }

  /**
   * The rest of a pass once `MostConstrainedEntry` has chosen `entry` on a
   * board that is not complete and the pass neither gives up nor backs up
   * at once: try the least constraining value of `entry`, or back up when
   * it has none.
   */
  method TryValue(board: Board, moves: seq<int>, assignments: int, entry: int)
    returns (stop: bool, outcome: Outcome, moves': seq<int>, assignments': int)
    requires board.Valid() && SolverInv(State(board.spaces[..], moves, assignments)) && assignments < Limit
    requires !IsComplete(board.spaces[..]) && entry == MostConstrained(board.spaces[..])
    requires !(moves == [] && assignments > 0 && |board.spaces[entry].possibilities| == 0)
    requires !(|board.spaces[entry].possibilities| == 0 && board.spaces[entry].value == 0)
    modifies board.spaces
    ensures board.Valid()
    ensures var r := Step(State(old(board.spaces[..]), moves, assignments));
      if stop then r == Stop(outcome, board.spaces[..]) else r == Continue(State(board.spaces[..], moves', assignments'))
  {
    ghost var s := State(board.spaces[..], moves, assignments);
    ghost var g := board.spaces[..];
    LCVEffect(g, entry);
    LCVInv(g, moves, assignments, entry);
    var leastConstrainingValue := board.LeastConstrainingValue(entry);
    ghost var h := board.spaces[..];
    if leastConstrainingValue.None? || leastConstrainingValue.value == 0 {
      assert Step(s) == Backtrack(h, moves, assignments, entry);
      var popped;
      popped, moves' := Backup(board, moves, entry, assignments);
      return !popped, EmptyPop, moves', assignments;
    }
    assert Step(s) == Continue(Assign(h, moves, assignments, entry, leastConstrainingValue.value));
    PlacedCell(h, entry);
    board.Update(board.spaces[entry].j, board.spaces[entry].i, leastConstrainingValue.value);
    return false, Returned(assignments), moves + [entry], assignments + 1;
  }

  /**
   * `Solve(board)`: runs the loop on the board in place and ends as `Run`
   * does from an empty stack and no assignment.
   */
  method Solve(board: Board) returns (outcome: Outcome)
    requires board.Valid() && Settled(board.spaces[..])
    modifies board.spaces
    ensures board.Valid()
    ensures (outcome, board.spaces[..]) == Run(State(old(board.spaces[..]), [], 0))
  {
    ghost var start := State(board.spaces[..], [], 0);
    var assignments := 0;
    var moves: seq<int> := [];
    while assignments < Limit
      invariant board.Valid()
      invariant SolverInv(State(board.spaces[..], moves, assignments))
      invariant Run(State(board.spaces[..], moves, assignments)) == Run(start)
      decreases 2 * (Limit - assignments) + |moves|
    {
      ghost var s := State(board.spaces[..], moves, assignments);
      StepInv(s);
      var stop;
      stop, outcome, moves, assignments := Pass(board, moves, assignments);
      if stop {
        return;
      }
    }
    outcome := Returned(assignments);
  }
}
