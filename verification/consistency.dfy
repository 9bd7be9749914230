/**
 * The unit checks of the board: `AllDiff`, `ValidRBC`, `Board.IsComplete`
 * and `Board.IsValid`, with their meaning in terms of the grid.
 */
module Consistency {
  import opened Entries
  import opened Geometry
  import opened Grids

  predicate Distinct(l: seq<int>)
  {
    forall a, b :: 0 <= a < b < |l| ==> l[a] != l[b]
  }

  /** No non-zero value appears twice. */
  predicate NoNonzeroRepeat(l: seq<int>)
  {
    forall a, b :: 0 <= a < b < |l| && l[a] != 0 ==> l[a] != l[b]
  }

  /** An unassigned cell that has run out of candidates. */
  predicate Starved(e: Entry)
  {
    e.value == 0 && |e.possibilities| == 0
  }

  /** `not any(i in found or found.add(i) for i in l)`, continuing with the set `found`. */
  function NoRepeat(l: seq<int>, found: set<int>): bool
  {
    l == [] || (l[0] !in found && NoRepeat(l[1..], found + {l[0]}))
  }

  /** `AllDiff(l)`: no repeated value, and the values are exactly 1..9. */
  predicate AllDiff(l: seq<int>)
  {
    NoRepeat(l, {}) && (set x | x in l) == {1, 2, 3, 4, 5, 6, 7, 8, 9}
  }

  /** What the loop of `ValidRBC` answers for the rest `l` of the list, having collected `found`. */
  function ValidFrom(l: seq<int>, found: seq<int>): bool
  {
    if l == [] then true
    else if l[0] != 0 && l[0] in found then false
    else if l[0] != 0 then ValidFrom(l[1..], found + [l[0]])
    else ValidFrom(l[1..], found)
  }

  /** `Board.IsComplete`: every row, column and box passes `AllDiff`. */
  predicate IsComplete(g: Grid)
    requires |g| == 81
  {
    forall u :: 0 <= u < 27 ==> AllDiff(Values(g, Units()[u]))
  }

  /**
   * The body of `Board.IsValid` for one unit: `ValidRBC` of its values
   * (which holds exactly when no non-zero value repeats, see
   * `SudokuBoard.ValidRBC`), and no starved cell.
   */
  predicate UnitValid(g: Grid, unit: seq<int>)
    requires |g| == 81 && InBoard(unit)
  {
    NoNonzeroRepeat(Values(g, unit)) && forall t :: 0 <= t < |unit| ==> !Starved(g[unit[t]])
  }

  /** `Board.IsValid`: every row, column and box passes `ValidRBC` and holds no starved cell. */
  predicate IsValid(g: Grid)
    requires |g| == 81
  {
    forall u :: 0 <= u < 27 ==> UnitValid(g, Units()[u])
  }

  // ---------------------------------------------------------------------
  // What the checks mean

  lemma {:induction false} NoRepeatIff(l: seq<int>, found: set<int>)
    ensures NoRepeat(l, found) <==> Distinct(l) && forall x :: x in l ==> x !in found
  {
    if l != [] {
      NoRepeatIff(l[1..], found + {l[0]});
      assert l == [l[0]] + l[1..];
      if Distinct(l) {
        assert Distinct(l[1..]);
        assert forall x :: x in l[1..] ==> x != l[0];
      }
      if Distinct(l[1..]) && l[0] !in l[1..] {
        forall a, b | 0 <= a < b < |l| ensures l[a] != l[b] {
          if a > 0 {
            assert l[a] == l[1..][a - 1] && l[b] == l[1..][b - 1];
          } else {
            assert l[b] == l[1..][b - 1];
          }
        }
      }
    }
  }

  /** `AllDiff(l)` holds exactly when `l` repeats nothing and holds precisely the digits 1..9. */
  lemma AllDiffIff(l: seq<int>)
    ensures AllDiff(l) <==> Distinct(l) && forall x :: x in l <==> 1 <= x <= 9
  {
    NoRepeatIff(l, {});
    var s := set x | x in l;
    if forall x :: x in l <==> 1 <= x <= 9 {
      assert s == {1, 2, 3, 4, 5, 6, 7, 8, 9};
    }
    if s == {1, 2, 3, 4, 5, 6, 7, 8, 9} {
      forall x ensures x in l <==> 1 <= x <= 9 {
        assert x in l <==> x in s;
      }
    }
  }

  lemma {:induction false} ValidFromIff(l: seq<int>, found: seq<int>)
    ensures ValidFrom(l, found) <==> NoNonzeroRepeat(l) && forall x :: x in l && x != 0 ==> x !in found
  {
    if l != [] {
      assert l == [l[0]] + l[1..];
      var found' := if l[0] != 0 then found + [l[0]] else found;
      ValidFromIff(l[1..], found');
      if NoNonzeroRepeat(l) {
        assert NoNonzeroRepeat(l[1..]) by {
          forall a, b | 0 <= a < b < |l[1..]| && l[1..][a] != 0 ensures l[1..][a] != l[1..][b] {
            assert l[1..][a] == l[a + 1] && l[1..][b] == l[b + 1];
          }
        }
        assert l[0] != 0 ==> forall x :: x in l[1..] ==> x != l[0];
      }
      if NoNonzeroRepeat(l[1..]) && (l[0] != 0 ==> l[0] !in l[1..]) {
        forall a, b | 0 <= a < b < |l| && l[a] != 0 ensures l[a] != l[b] {
          assert l[b] == l[1..][b - 1];
          if a > 0 {
            assert l[a] == l[1..][a - 1];
          }
        }
      }
    }
  }

  /** `IsComplete` holds exactly when every row, column and box holds each digit 1..9 once. */
  lemma IsCompleteIff(g: Grid)
    requires |g| == 81
    ensures IsComplete(g) <==>
      forall u :: 0 <= u < 27 ==>
        Distinct(Values(g, Units()[u])) && forall x :: x in Values(g, Units()[u]) <==> 1 <= x <= 9
  {
    forall u | 0 <= u < 27 {
      AllDiffIff(Values(g, Units()[u]));
    }
  }

  /**
   * `IsValid` holds exactly when no row, column or box repeats a non-zero
   * value and no cell of the board is unassigned without candidates.
   */
  lemma IsValidIff(g: Grid)
    requires |g| == 81
    ensures IsValid(g) <==>
      (forall u :: 0 <= u < 27 ==> NoNonzeroRepeat(Values(g, Units()[u]))) &&
      (forall k :: 0 <= k < 81 ==> !Starved(g[k]))
  {
    if IsValid(g) {
      forall k | 0 <= k < 81 ensures !Starved(g[k]) {
        CellInItsRow(k);
        Position(k);
        assert UnitValid(g, Units()[k / 9]);
      }
    }
  }

  /** A complete board is valid. */
  lemma CompleteIsValid(g: Grid)
    requires |g| == 81 && IsComplete(g)
    ensures IsValid(g)
  {
    IsCompleteIff(g);
    forall u | 0 <= u < 27 ensures UnitValid(g, Units()[u]) {
      var unit := Units()[u];
      var l := Values(g, unit);
      forall t | 0 <= t < |unit| ensures !Starved(g[unit[t]]) {
        assert l[t] in l;
      }
    }
  }

  // ---------------------------------------------------------------------
  // Nine distinct digits are all the digits

  /** A list without repeats has as many distinct members as entries. */
  lemma {:induction false} DistinctSetSize(l: seq<int>)
    requires Distinct(l)
    ensures |set x | x in l| == |l|
  {
    if l != [] {
      assert Distinct(l[1..]) by {
        forall a, b | 0 <= a < b < |l| - 1 ensures l[1..][a] != l[1..][b] {
          assert l[1..][a] == l[a + 1] && l[1..][b] == l[b + 1];
        }
      }
      DistinctSetSize(l[1..]);
      assert (set x | x in l) == (set x | x in l[1..]) + {l[0]};
      assert l[0] !in (set x | x in l[1..]) by {
        forall t | 0 <= t < |l| - 1 ensures l[1..][t] != l[0] {
          assert l[1..][t] == l[t + 1];
        }
      }
    }
  }

  /** A set of integers drawn from `lo..hi - 1` has at most `hi - lo` members. */
  lemma {:induction false} RangeSize(s: set<int>, lo: int, hi: int)
    requires lo <= hi && forall x :: x in s ==> lo <= x < hi
    ensures |s| <= hi - lo
    decreases hi - lo
  {
    if lo < hi {
      RangeSize(s - {hi - 1}, lo, hi - 1);
    } else {
      assert s == {};
    }
  }

  /** Nine digits 1..9 that repeat nothing hold every digit. */
  lemma DigitsCovered(l: seq<int>)
    requires |l| == 9 && Distinct(l) && forall t :: 0 <= t < 9 ==> 1 <= l[t] <= 9
    ensures forall x :: 1 <= x <= 9 ==> x in l
  {
    forall x | 1 <= x <= 9 ensures x in l {
      if x !in l {
        var s := set y | y in l;
        DistinctSetSize(l);
        RangeSize(s + {x}, 1, 10);
        assert false;
      }
    }
  }

}
