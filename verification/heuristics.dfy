/**
 * The solver's heuristics as functions of the grid: `Board.ForwardCheck`,
 * `Board.LeastConstrainingValue` (which also prunes the cell's candidates)
 * and `Board.MostConstrainedEntry` with its tie-break. Cells are named by
 * their position in the grid.
 */
module Heuristics {
  import opened Entries
  import opened Geometry
  import opened Grids
  import opened Consistency
  import opened Propagation

  datatype Option<T> = None | Some(value: T)

  // ---------------------------------------------------------------------
  // ForwardCheck

  /** `Board.ForwardCheck(entry, value)`: the board stays valid once `value` is assigned to the cell at `pos`. */
  predicate ForwardCheck(g: Grid, pos: int, v: int)
    requires Placed(g) && 0 <= pos < 81
  {
    PlacedCell(g, pos);
    IsValid(UpdateGrid(g, g[pos].j, g[pos].i, v))
  }

  /** Two grids with the same values give the same unit values. */
  lemma ValuesOnValues(g: Grid, h: Grid, unit: seq<int>)
    requires |g| == 81 && |h| == 81 && InBoard(unit)
    requires forall k :: 0 <= k < 81 ==> g[k].value == h[k].value
    ensures Values(g, unit) == Values(h, unit)
  {
  }

  /**
   * Forward checking accepts a non-zero value exactly when, with the value
   * placed, no row, column or box repeats a non-zero value, and no other
   * unassigned cell is left without candidates: a cell is left without
   * candidates when it shares a unit with `pos` and offers nothing but `v`,
   * or offers nothing at all.
   */
  lemma ForwardCheckMeaning(g: Grid, pos: int, v: int)
    requires WellFormed(g) && 0 <= pos < 81 && v != 0
    ensures ForwardCheck(g, pos, v) <==>
      (forall u :: 0 <= u < 27 ==> NoNonzeroRepeat(Values(g[pos := Update(g[pos], v)], Units()[u]))) &&
      (forall k :: 0 <= k < 81 && k != pos ==>
         !(g[k].value == 0 && forall x :: x in g[k].possibilities ==> SameUnit(pos, k) && x == v))
  {
    PlacedCell(g, pos);
    var i, j := g[pos].j, g[pos].i;
    assert 9 * i + j == pos;
    var h := g[pos := Update(g[pos], v)];
    var r := UpdateGrid(g, i, j, v);
    UpdateEffect(g, i, j, v);
    IsValidIff(r);
    forall u | 0 <= u < 27 ensures Values(r, Units()[u]) == Values(h, Units()[u]) {
      ValuesOnValues(r, h, Units()[u]);
    }
    forall k | 0 <= k < 81 && k != pos
      ensures Starved(r[k]) <==> g[k].value == 0 && forall x :: x in g[k].possibilities ==> SameUnit(pos, k) && x == v
    {
      if SameUnit(pos, k) {
        WithoutMembers(g[k].possibilities, v);
        var w := r[k].possibilities;
        if |w| > 0 {
          assert w[0] in w;
        }
      } else if |g[k].possibilities| > 0 {
        assert g[k].possibilities[0] in g[k].possibilities;
      }
    }
  }

  // ---------------------------------------------------------------------
  // LeastConstrainingValue

  /** The inner count of `LeastConstrainingValue` over `ns[..t]`: listed cells other than `pos` that offer `x`. */
  function CountHolding(g: Grid, ns: seq<int>, pos: int, x: int, t: nat): (n: nat)
    requires |g| == 81 && InBoard(ns) && t <= |ns|
    ensures n <= t
  {
    if t == 0 then 0
    else CountHolding(g, ns, pos, x, t - 1) + if x in g[ns[t - 1]].possibilities && ns[t - 1] != pos then 1 else 0
  }

  /** The candidates of the cell at `pos` that pass forward checking. */
  function Accepted(g: Grid, pos: int): set<int>
    requires Placed(g) && 0 <= pos < 81
  {
    set x | x in g[pos].possibilities && ForwardCheck(g, pos, x)
  }

  /** The count does not look at the candidates of the cell at `pos`. */
  lemma {:induction false} CountHoldingIgnoresOwn(g: Grid, h: Grid, ns: seq<int>, pos: int, x: int, t: nat)
    requires |g| == 81 && |h| == 81 && InBoard(ns) && t <= |ns|
    requires forall k :: 0 <= k < 81 && k != pos ==> h[k] == g[k]
    ensures CountHolding(h, ns, pos, x, t) == CountHolding(g, ns, pos, x, t)
  {
    if t > 0 {
      CountHoldingIgnoresOwn(g, h, ns, pos, x, t - 1);
    }
  }

  /**
   * The loop of `LeastConstrainingValue` over the live candidate list
   * `poss` of the cell at `pos`, from iteration index `idx` on; `accepted`
   * holds the candidates that pass forward checking. A candidate that
   * fails is removed from the list while the index still advances, as
   * Python's list iterator does. The other cells do not change in the loop.
   */
  function LCVFrom(g: Grid, ns: seq<int>, pos: int, accepted: set<int>, poss: seq<int>, idx: nat,
                   maxTotal: int, maxValue: Option<int>): (r: (seq<int>, Option<int>))
    requires |g| == 81 && InBoard(ns) && Ascending(poss) && idx <= |poss| + 1
    ensures Ascending(r.0)
    ensures forall x :: x in r.0 ==> x in poss
    decreases |poss| + 1 - idx
  {
    if idx >= |poss| then (poss, maxValue)
    else
      var x := poss[idx];
      if x !in accepted then
        ListRemoveAscending(poss, x);
        LCVFrom(g, ns, pos, accepted, ListRemove(poss, x), idx + 1, maxTotal, maxValue)
      else
        var total := CountHolding(g, ns, pos, x, |ns|);
        if total < maxTotal then LCVFrom(g, ns, pos, accepted, poss, idx + 1, total, Some(x))
        else LCVFrom(g, ns, pos, accepted, poss, idx + 1, maxTotal, maxValue)
  }

  /** `Board.LeastConstrainingValue(entry)` for the cell at `pos`: the pruned grid and the chosen value. */
  function LCV(g: Grid, pos: int): (r: (Grid, Option<int>))
    requires WellFormed(g) && 0 <= pos < 81
    ensures WellFormed(r.0)
  {
    PlacedCell(g, pos);
    var e := g[pos];
    var l := LCVFrom(g, FindNeighbours(e), pos, Accepted(g, pos), e.possibilities, 0, 100, None);
    WellFormedSet(g, pos, e.(possibilities := l.0));
    (g[pos := e.(possibilities := l.0)], l.1)
  }

  /** Changing only the candidates of the cell at `pos` does not change forward checks at `pos`. */
  lemma ForwardCheckIgnoresOwnCandidates(g: Grid, h: Grid, pos: int, v: int)
    requires Placed(g) && Placed(h) && 0 <= pos < 81 && v != 0
    requires forall k :: 0 <= k < 81 && k != pos ==> h[k] == g[k]
    requires h[pos].tried == g[pos].tried
    ensures ForwardCheck(h, pos, v) == ForwardCheck(g, pos, v)
  {
    PlacedCell(g, pos);
    PlacedCell(h, pos);
    UpdateIgnoresOwnCandidates(g, h, g[pos].j, g[pos].i, v);
  }

  /** Removing the candidate at `idx` leaves the ones before it in place and shifts the rest down by one. */
  lemma RemoveAt(s: seq<int>, idx: nat)
    requires Ascending(s) && idx < |s|
    ensures ListRemove(s, s[idx]) == s[..idx] + s[idx + 1..]
  {
  }

  /** The loop drops only candidates outside `accepted`. */
  lemma {:induction false} LCVFromDrops(g: Grid, ns: seq<int>, pos: int, accepted: set<int>, poss: seq<int>, idx: nat,
                                        maxTotal: int, maxValue: Option<int>)
    requires |g| == 81 && InBoard(ns) && Ascending(poss) && idx <= |poss|
    ensures forall x :: x in poss && x !in LCVFrom(g, ns, pos, accepted, poss, idx, maxTotal, maxValue).0 ==> x !in accepted
    decreases |poss| + 1 - idx, 1
  {
    if idx < |poss| {
      var x := poss[idx];
      if x !in accepted {
        LCVFromDropsDropped(g, ns, pos, accepted, poss, idx, maxTotal, maxValue);
      } else {
        var total := CountHolding(g, ns, pos, x, |ns|);
        var m := if total < maxTotal then total else maxTotal;
        var mv := if total < maxTotal then Some(x) else maxValue;
        assert LCVFrom(g, ns, pos, accepted, poss, idx, maxTotal, maxValue) == LCVFrom(g, ns, pos, accepted, poss, idx + 1, m, mv);
        LCVFromDrops(g, ns, pos, accepted, poss, idx + 1, m, mv);
      }
    }
  }

  lemma {:induction false} LCVFromDropsDropped(g: Grid, ns: seq<int>, pos: int, accepted: set<int>, poss: seq<int>, idx: nat,
                                               maxTotal: int, maxValue: Option<int>)
    requires |g| == 81 && InBoard(ns) && Ascending(poss) && idx < |poss| && poss[idx] !in accepted
    ensures forall x :: x in poss && x !in LCVFrom(g, ns, pos, accepted, poss, idx, maxTotal, maxValue).0 ==> x !in accepted
    decreases |poss| + 1 - idx, 0
  {
    var x := poss[idx];
    ListRemoveAscending(poss, x);
    var rest := ListRemove(poss, x);
    var r := LCVFrom(g, ns, pos, accepted, rest, idx + 1, maxTotal, maxValue).0;
    assert LCVFrom(g, ns, pos, accepted, poss, idx, maxTotal, maxValue).0 == r;
    if idx + 1 <= |rest| {
      LCVFromDrops(g, ns, pos, accepted, rest, idx + 1, maxTotal, maxValue);
    } else {
      assert r == rest;
    }
    forall y | y in poss && y !in r ensures y !in accepted {
      assert y in rest || y == x;
    }
  }

  /** The loop keeps the candidates before the iteration index where they are. */
  lemma {:induction false} LCVFromPrefix(g: Grid, ns: seq<int>, pos: int, accepted: set<int>, poss: seq<int>, idx: nat,
                                         maxTotal: int, maxValue: Option<int>)
    requires |g| == 81 && InBoard(ns) && Ascending(poss) && idx <= |poss|
    ensures var r := LCVFrom(g, ns, pos, accepted, poss, idx, maxTotal, maxValue).0;
      idx <= |r| && forall t :: 0 <= t < idx ==> r[t] == poss[t]
    decreases |poss| + 1 - idx, 1
  {
    if idx < |poss| {
      var x := poss[idx];
      if x !in accepted {
        LCVFromPrefixDropped(g, ns, pos, accepted, poss, idx, maxTotal, maxValue);
      } else {
        var total := CountHolding(g, ns, pos, x, |ns|);
        var m := if total < maxTotal then total else maxTotal;
        var mv := if total < maxTotal then Some(x) else maxValue;
        assert LCVFrom(g, ns, pos, accepted, poss, idx, maxTotal, maxValue) == LCVFrom(g, ns, pos, accepted, poss, idx + 1, m, mv);
        LCVFromPrefix(g, ns, pos, accepted, poss, idx + 1, m, mv);
      }
    }
  }

  lemma {:induction false} LCVFromPrefixDropped(g: Grid, ns: seq<int>, pos: int, accepted: set<int>, poss: seq<int>, idx: nat,
                                                maxTotal: int, maxValue: Option<int>)
    requires |g| == 81 && InBoard(ns) && Ascending(poss) && idx < |poss| && poss[idx] !in accepted
    ensures var r := LCVFrom(g, ns, pos, accepted, poss, idx, maxTotal, maxValue).0;
      idx <= |r| && forall t :: 0 <= t < idx ==> r[t] == poss[t]
    decreases |poss| + 1 - idx, 0
  {
    var x := poss[idx];
    ListRemoveAscending(poss, x);
    RemoveAt(poss, idx);
    var rest := ListRemove(poss, x);
    assert forall t :: 0 <= t < idx ==> rest[t] == poss[t];
    var r := LCVFrom(g, ns, pos, accepted, rest, idx + 1, maxTotal, maxValue).0;
    assert LCVFrom(g, ns, pos, accepted, poss, idx, maxTotal, maxValue).0 == r;
    if idx + 1 <= |rest| {
      LCVFromPrefix(g, ns, pos, accepted, rest, idx + 1, maxTotal, maxValue);
    } else {
      assert r == rest;
    }
  }

  /** The loop ends with `maxValue` or with an accepted candidate from `poss[idx..]`. */
  lemma {:induction false} LCVFromResult(g: Grid, ns: seq<int>, pos: int, accepted: set<int>, poss: seq<int>, idx: nat,
                                         maxTotal: int, maxValue: Option<int>)
    requires |g| == 81 && InBoard(ns) && Ascending(poss) && idx <= |poss|
    ensures var r := LCVFrom(g, ns, pos, accepted, poss, idx, maxTotal, maxValue).1;
      r == maxValue || (r.Some? && r.value in poss[idx..] && r.value in accepted)
    decreases |poss| + 1 - idx, 1
  {
    if idx < |poss| {
      if poss[idx] !in accepted {
        LCVFromResultDropped(g, ns, pos, accepted, poss, idx, maxTotal, maxValue);
      } else {
        LCVFromResultWeighed(g, ns, pos, accepted, poss, idx, maxTotal, maxValue);
      }
    }
  }

  lemma {:induction false} LCVFromResultDropped(g: Grid, ns: seq<int>, pos: int, accepted: set<int>, poss: seq<int>, idx: nat,
                                                maxTotal: int, maxValue: Option<int>)
    requires |g| == 81 && InBoard(ns) && Ascending(poss) && idx < |poss| && poss[idx] !in accepted
    ensures var r := LCVFrom(g, ns, pos, accepted, poss, idx, maxTotal, maxValue).1;
      r == maxValue || (r.Some? && r.value in poss[idx..] && r.value in accepted)
    decreases |poss| + 1 - idx, 0
  {
    var x := poss[idx];
    ListRemoveAscending(poss, x);
    RemoveAt(poss, idx);
    var rest := ListRemove(poss, x);
    if idx + 1 <= |rest| {
      LCVFromResult(g, ns, pos, accepted, rest, idx + 1, maxTotal, maxValue);
      assert rest[idx + 1..] == poss[idx + 2..];
      assert forall y :: y in poss[idx + 2..] ==> y in poss[idx..];
    }
  }

  lemma {:induction false} LCVFromResultWeighed(g: Grid, ns: seq<int>, pos: int, accepted: set<int>, poss: seq<int>, idx: nat,
                                                maxTotal: int, maxValue: Option<int>)
    requires |g| == 81 && InBoard(ns) && Ascending(poss) && idx < |poss| && poss[idx] in accepted
    ensures var r := LCVFrom(g, ns, pos, accepted, poss, idx, maxTotal, maxValue).1;
      r == maxValue || (r.Some? && r.value in poss[idx..] && r.value in accepted)
    decreases |poss| + 1 - idx, 0
  {
    var x := poss[idx];
    var total := CountHolding(g, ns, pos, x, |ns|);
    var m := if total < maxTotal then total else maxTotal;
    var mv := if total < maxTotal then Some(x) else maxValue;
    LCVFromResult(g, ns, pos, accepted, poss, idx + 1, m, mv);
    assert forall y :: y in poss[idx + 1..] ==> y in poss[idx..];
    assert poss[idx] in poss[idx..];
  }

  /**
   * `LeastConstrainingValue` changes only the candidate list of its cell,
   * and only by dropping candidates that fail forward checking; when it
   * returns a value, that value was a candidate that passes forward
   * checking and it stays a candidate.
   */
  lemma LCVEffect(g: Grid, pos: int)
    requires WellFormed(g) && 0 <= pos < 81
    ensures forall k :: 0 <= k < 81 && k != pos ==> LCV(g, pos).0[k] == g[k]
    ensures LCV(g, pos).0[pos] == g[pos].(possibilities := LCV(g, pos).0[pos].possibilities)
    ensures forall x :: x in LCV(g, pos).0[pos].possibilities ==> x in g[pos].possibilities
    ensures forall x :: x in g[pos].possibilities && x !in LCV(g, pos).0[pos].possibilities ==> !ForwardCheck(g, pos, x)
    ensures LCV(g, pos).1.Some? ==>
              LCV(g, pos).1.value in LCV(g, pos).0[pos].possibilities && ForwardCheck(g, pos, LCV(g, pos).1.value)
  {
    PlacedCell(g, pos);
    var e := g[pos];
    var ok := Accepted(g, pos);
    LCVFromDrops(g, FindNeighbours(e), pos, ok, e.possibilities, 0, 100, None);
    LCVFromResult(g, FindNeighbours(e), pos, ok, e.possibilities, 0, 100, None);
    assert e.possibilities[0..] == e.possibilities;
  }

  /**
   * When the first candidate fails forward checking, the second one is
   * skipped: the iteration index moves past it as the list shrinks, so it
   * stays a candidate but is never returned, even if it would pass.
   */
  lemma LCVSkipsSecond(g: Grid, pos: int)
    requires WellFormed(g) && 0 <= pos < 81 && |g[pos].possibilities| >= 2
    requires !ForwardCheck(g, pos, g[pos].possibilities[0])
    ensures g[pos].possibilities[1] in LCV(g, pos).0[pos].possibilities
    ensures LCV(g, pos).1 != Some(g[pos].possibilities[1])
  {
    PlacedCell(g, pos);
    var e := g[pos];
    var ns := FindNeighbours(e);
    var ok := Accepted(g, pos);
    var poss := e.possibilities;
    ListRemoveAscending(poss, poss[0]);
    RemoveAt(poss, 0);
    var rest := ListRemove(poss, poss[0]);
    assert rest == poss[1..];
    var r := LCVFrom(g, ns, pos, ok, rest, 1, 100, None);
    assert LCVFrom(g, ns, pos, ok, poss, 0, 100, None) == r;
    LCVFromPrefix(g, ns, pos, ok, rest, 1, 100, None);
    LCVFromResult(g, ns, pos, ok, rest, 1, 100, None);
    assert r.0[0] == poss[1];
    if r.1 == Some(poss[1]) {
      assert false;
    }
  }

  /** The index of the first candidate with the least count among `poss[..n]`. */
  function FirstLeast(g: Grid, ns: seq<int>, pos: int, poss: seq<int>, n: nat): (m: nat)
    requires |g| == 81 && InBoard(ns) && 0 < n <= |poss|
    ensures m < n
    ensures forall t :: 0 <= t < n ==>
              CountHolding(g, ns, pos, poss[m], |ns|) <= CountHolding(g, ns, pos, poss[t], |ns|)
    ensures forall t :: 0 <= t < m ==>
              CountHolding(g, ns, pos, poss[m], |ns|) < CountHolding(g, ns, pos, poss[t], |ns|)
  {
    if n == 1 then 0
    else
      var m := FirstLeast(g, ns, pos, poss, n - 1);
      if CountHolding(g, ns, pos, poss[n - 1], |ns|) < CountHolding(g, ns, pos, poss[m], |ns|) then n - 1 else m
  }

  /** Every candidate accepted: the loop keeps them all and ends with the first of least count. */
  lemma {:induction false} LCVAllPassFrom(g: Grid, ns: seq<int>, pos: int, accepted: set<int>, poss: seq<int>, idx: nat,
                                          maxTotal: int, maxValue: Option<int>)
    requires |g| == 81 && InBoard(ns) && Ascending(poss) && idx <= |poss| && |ns| < 100
    requires forall x :: x in poss ==> x in accepted
    requires idx == 0 ==> maxTotal == 100 && maxValue == None
    requires idx > 0 ==>
      maxValue == Some(poss[FirstLeast(g, ns, pos, poss, idx)]) && maxTotal == CountHolding(g, ns, pos, maxValue.value, |ns|)
    ensures LCVFrom(g, ns, pos, accepted, poss, idx, maxTotal, maxValue) ==
              (poss, if |poss| == 0 then None else Some(poss[FirstLeast(g, ns, pos, poss, |poss|)]))
    decreases |poss| + 1 - idx, 1
  {
    if idx < |poss| {
      var total := CountHolding(g, ns, pos, poss[idx], |ns|);
      if total < maxTotal {
        LCVAllPassTaken(g, ns, pos, accepted, poss, idx, maxTotal, maxValue);
      } else {
        LCVAllPassPassed(g, ns, pos, accepted, poss, idx, maxTotal, maxValue);
      }
    }
  }

  lemma {:induction false} LCVAllPassTaken(g: Grid, ns: seq<int>, pos: int, accepted: set<int>, poss: seq<int>, idx: nat,
                                           maxTotal: int, maxValue: Option<int>)
    requires |g| == 81 && InBoard(ns) && Ascending(poss) && idx < |poss| && |ns| < 100
    requires forall x :: x in poss ==> x in accepted
    requires idx == 0 ==> maxTotal == 100 && maxValue == None
    requires idx > 0 ==>
      maxValue == Some(poss[FirstLeast(g, ns, pos, poss, idx)]) && maxTotal == CountHolding(g, ns, pos, maxValue.value, |ns|)
    requires CountHolding(g, ns, pos, poss[idx], |ns|) < maxTotal
    ensures LCVFrom(g, ns, pos, accepted, poss, idx, maxTotal, maxValue) ==
              (poss, if |poss| == 0 then None else Some(poss[FirstLeast(g, ns, pos, poss, |poss|)]))
    decreases |poss| + 1 - idx, 0
  {
    var x := poss[idx];
    assert x in poss;
    var total := CountHolding(g, ns, pos, x, |ns|);
    assert FirstLeast(g, ns, pos, poss, idx + 1) == idx;
    LCVAllPassFrom(g, ns, pos, accepted, poss, idx + 1, total, Some(x));
  }

  lemma {:induction false} LCVAllPassPassed(g: Grid, ns: seq<int>, pos: int, accepted: set<int>, poss: seq<int>, idx: nat,
                                            maxTotal: int, maxValue: Option<int>)
    requires |g| == 81 && InBoard(ns) && Ascending(poss) && idx < |poss| && |ns| < 100
    requires forall x :: x in poss ==> x in accepted
    requires idx == 0 ==> maxTotal == 100 && maxValue == None
    requires idx > 0 ==>
      maxValue == Some(poss[FirstLeast(g, ns, pos, poss, idx)]) && maxTotal == CountHolding(g, ns, pos, maxValue.value, |ns|)
    requires CountHolding(g, ns, pos, poss[idx], |ns|) >= maxTotal
    ensures LCVFrom(g, ns, pos, accepted, poss, idx, maxTotal, maxValue) ==
              (poss, if |poss| == 0 then None else Some(poss[FirstLeast(g, ns, pos, poss, |poss|)]))
    decreases |poss| + 1 - idx, 0
  {
    var x := poss[idx];
    assert x in poss;
    assert idx > 0;
    assert FirstLeast(g, ns, pos, poss, idx + 1) == FirstLeast(g, ns, pos, poss, idx);
    LCVAllPassFrom(g, ns, pos, accepted, poss, idx + 1, maxTotal, maxValue);
  }

  /**
   * When every candidate passes forward checking, `LeastConstrainingValue`
   * prunes nothing and returns the first candidate offered by the fewest
   * other cells of its row, column and box (counted once per listing);
   * it returns nothing only when the cell has no candidates.
   */
  lemma LCVAllPass(g: Grid, pos: int)
    requires WellFormed(g) && 0 <= pos < 81
    requires forall x :: x in g[pos].possibilities ==> ForwardCheck(g, pos, x)
    ensures LCV(g, pos).0 == g
    ensures |g[pos].possibilities| == 0 ==> LCV(g, pos).1 == None
    ensures |g[pos].possibilities| > 0 ==>
              var ns := (PlacedCell(g, pos); FindNeighbours(g[pos]));
              LCV(g, pos).1 == Some(g[pos].possibilities[FirstLeast(g, ns, pos, g[pos].possibilities, |g[pos].possibilities|)])
  {
    PlacedCell(g, pos);
    var e := g[pos];
    var ns := FindNeighbours(e);
    var poss := e.possibilities;
    var accepted := Accepted(g, pos);
    assert forall x :: x in poss ==> x in accepted;
    LCVAllPassFrom(g, ns, pos, accepted, poss, 0, 100, None);
    var l := LCVFrom(g, ns, pos, accepted, poss, 0, 100, None);
    assert LCV(g, pos) == (g[pos := e.(possibilities := l.0)], l.1);
    assert l.0 == poss;
    assert g[pos := e] == g;
  }

  /**
   * Whether the loop of `LeastConstrainingValue`, run over the list `s`
   * with `ok` the candidates that pass forward checking, looks at `s[t]`:
   * it looks at the first one, and at `s[t]` unless it looked at `s[t - 1]`
   * and dropped it (the drop shifts `s[t]` under an index that has
   * already moved on).
   */
  predicate Visited(s: seq<int>, ok: set<int>, t: nat)
    requires t <= |s|
  {
    t == 0 || !Visited(s, ok, t - 1) || s[t - 1] in ok
  }

  /** Once the loop looks at `s[k]`, what it looks at from there on depends only on `s[k..]`. */
  lemma {:induction false} VisitedShift(s: seq<int>, ok: set<int>, k: nat, t: nat)
    requires k + t <= |s| && Visited(s, ok, k)
    ensures Visited(s, ok, k + t) == Visited(s[k..], ok, t)
  {
    if t > 0 {
      VisitedShift(s, ok, k, t - 1);
      assert s[k..][t - 1] == s[k + t - 1];
    }
  }

  /** No candidate of `s` that the loop looks at and keeps counts below `maxTotal`. */
  ghost predicate NoneBelow(g: Grid, ns: seq<int>, pos: int, ok: set<int>, s: seq<int>, maxTotal: int)
    requires |g| == 81 && InBoard(ns)
  {
    forall t :: 0 <= t < |s| && Visited(s, ok, t) && s[t] in ok ==> maxTotal <= CountHolding(g, ns, pos, s[t], |ns|)
  }

  /** `s[b]` is the first of least count, below `maxTotal`, among the candidates of `s` the loop looks at and keeps. */
  ghost predicate LeastAt(g: Grid, ns: seq<int>, pos: int, ok: set<int>, s: seq<int>, maxTotal: int, b: int)
    requires |g| == 81 && InBoard(ns)
  {
    0 <= b < |s| && Visited(s, ok, b) && s[b] in ok && CountHolding(g, ns, pos, s[b], |ns|) < maxTotal &&
    forall t :: 0 <= t < |s| && Visited(s, ok, t) && s[t] in ok ==>
      CountHolding(g, ns, pos, s[b], |ns|) <= CountHolding(g, ns, pos, s[t], |ns|) &&
      (t < b ==> CountHolding(g, ns, pos, s[b], |ns|) < CountHolding(g, ns, pos, s[t], |ns|))
  }

  /** What the loop over `s` ends with, given the best count `maxTotal` and value `maxValue` so far. */
  ghost predicate LeastAmong(g: Grid, ns: seq<int>, pos: int, ok: set<int>, s: seq<int>,
                             maxTotal: int, maxValue: Option<int>, m: Option<int>)
    requires |g| == 81 && InBoard(ns)
  {
    (m == maxValue && NoneBelow(g, ns, pos, ok, s, maxTotal)) ||
    exists b :: 0 <= b < |s| && LeastAt(g, ns, pos, ok, s, maxTotal, b) && m == Some(s[b])
  }

  /** The loop from `idx` on ends with the first least-count candidate it looks at and keeps, or with the best so far. */
  lemma {:induction false} LCVFromLeast(g: Grid, ns: seq<int>, pos: int, ok: set<int>, poss: seq<int>, idx: nat,
                                        maxTotal: int, maxValue: Option<int>)
    requires |g| == 81 && InBoard(ns) && Ascending(poss) && idx <= |poss|
    ensures LeastAmong(g, ns, pos, ok, poss[idx..], maxTotal, maxValue, LCVFrom(g, ns, pos, ok, poss, idx, maxTotal, maxValue).1)
    decreases |poss| - idx, 1
  {
    if idx < |poss| {
      if poss[idx] !in ok {
        LCVFromLeastDropped(g, ns, pos, ok, poss, idx, maxTotal, maxValue);
      } else {
        LCVFromLeastWeighed(g, ns, pos, ok, poss, idx, maxTotal, maxValue);
      }
    }
  }

  lemma {:induction false} LCVFromLeastDropped(g: Grid, ns: seq<int>, pos: int, ok: set<int>, poss: seq<int>, idx: nat,
                                               maxTotal: int, maxValue: Option<int>)
    requires |g| == 81 && InBoard(ns) && Ascending(poss) && idx < |poss| && poss[idx] !in ok
    ensures LeastAmong(g, ns, pos, ok, poss[idx..], maxTotal, maxValue, LCVFrom(g, ns, pos, ok, poss, idx, maxTotal, maxValue).1)
    decreases |poss| - idx, 0
  {
    var s := poss[idx..];
    var x := poss[idx];
    ListRemoveAscending(poss, x);
    RemoveAt(poss, idx);
    var rest := ListRemove(poss, x);
    var m := LCVFrom(g, ns, pos, ok, rest, idx + 1, maxTotal, maxValue).1;
    assert LCVFrom(g, ns, pos, ok, poss, idx, maxTotal, maxValue).1 == m;
    if idx + 1 < |poss| {
      LCVFromLeast(g, ns, pos, ok, rest, idx + 1, maxTotal, maxValue);
      assert rest[idx + 1..] == s[2..];
      LeastAfterDropped(g, ns, pos, ok, s, maxTotal, maxValue, m);
    } else {
      assert s == [x];
    }
  }

  lemma {:induction false} LCVFromLeastWeighed(g: Grid, ns: seq<int>, pos: int, ok: set<int>, poss: seq<int>, idx: nat,
                                               maxTotal: int, maxValue: Option<int>)
    requires |g| == 81 && InBoard(ns) && Ascending(poss) && idx < |poss| && poss[idx] in ok
    ensures LeastAmong(g, ns, pos, ok, poss[idx..], maxTotal, maxValue, LCVFrom(g, ns, pos, ok, poss, idx, maxTotal, maxValue).1)
    decreases |poss| - idx, 0
  {
    var s := poss[idx..];
    var x := poss[idx];
    var total := CountHolding(g, ns, pos, x, |ns|);
    assert poss[idx + 1..] == s[1..];
    if total < maxTotal {
      assert LCVFrom(g, ns, pos, ok, poss, idx, maxTotal, maxValue) == LCVFrom(g, ns, pos, ok, poss, idx + 1, total, Some(x));
      LCVFromLeast(g, ns, pos, ok, poss, idx + 1, total, Some(x));
      LeastAfterTaken(g, ns, pos, ok, s, maxTotal, maxValue, LCVFrom(g, ns, pos, ok, poss, idx + 1, total, Some(x)).1);
    } else {
      assert LCVFrom(g, ns, pos, ok, poss, idx, maxTotal, maxValue) == LCVFrom(g, ns, pos, ok, poss, idx + 1, maxTotal, maxValue);
      LCVFromLeast(g, ns, pos, ok, poss, idx + 1, maxTotal, maxValue);
      LeastAfterPassed(g, ns, pos, ok, s, maxTotal, maxValue, LCVFrom(g, ns, pos, ok, poss, idx + 1, maxTotal, maxValue).1);
    }
  }

  /** A dropped first candidate: the loop skips the second and goes on from the third. */
  lemma LeastAfterDropped(g: Grid, ns: seq<int>, pos: int, ok: set<int>, s: seq<int>,
                          maxTotal: int, maxValue: Option<int>, m: Option<int>)
    requires |g| == 81 && InBoard(ns) && |s| >= 2 && s[0] !in ok
    requires LeastAmong(g, ns, pos, ok, s[2..], maxTotal, maxValue, m)
    ensures LeastAmong(g, ns, pos, ok, s, maxTotal, maxValue, m)
  {
    assert !Visited(s, ok, 1) && Visited(s, ok, 2);
    forall t | 0 <= t <= |s| - 2 ensures Visited(s, ok, t + 2) == Visited(s[2..], ok, t) {
      VisitedShift(s, ok, 2, t);
    }
    var u := s[2..];
    if exists b :: 0 <= b < |u| && LeastAt(g, ns, pos, ok, u, maxTotal, b) && m == Some(u[b]) {
      var b :| 0 <= b < |u| && LeastAt(g, ns, pos, ok, u, maxTotal, b) && m == Some(u[b]);
      assert u[b] == s[b + 2];
      forall t | 0 <= t < |s| && Visited(s, ok, t) && s[t] in ok
        ensures CountHolding(g, ns, pos, s[b + 2], |ns|) <= CountHolding(g, ns, pos, s[t], |ns|)
        ensures t < b + 2 ==> CountHolding(g, ns, pos, s[b + 2], |ns|) < CountHolding(g, ns, pos, s[t], |ns|)
      {
        assert t >= 2 && u[t - 2] == s[t];
      }
      assert LeastAt(g, ns, pos, ok, s, maxTotal, b + 2);
    } else {
      forall t | 0 <= t < |s| && Visited(s, ok, t) && s[t] in ok ensures maxTotal <= CountHolding(g, ns, pos, s[t], |ns|) {
        assert t >= 2 && u[t - 2] == s[t];
      }
    }
  }

  /** A kept first candidate that beats the best so far becomes the best; the loop goes on from the second. */
  lemma LeastAfterTaken(g: Grid, ns: seq<int>, pos: int, ok: set<int>, s: seq<int>,
                        maxTotal: int, maxValue: Option<int>, m: Option<int>)
    requires |g| == 81 && InBoard(ns) && |s| >= 1 && s[0] in ok
    requires CountHolding(g, ns, pos, s[0], |ns|) < maxTotal
    requires LeastAmong(g, ns, pos, ok, s[1..], CountHolding(g, ns, pos, s[0], |ns|), Some(s[0]), m)
    ensures LeastAmong(g, ns, pos, ok, s, maxTotal, maxValue, m)
  {
    var c := CountHolding(g, ns, pos, s[0], |ns|);
    assert Visited(s, ok, 1);
    forall t | 0 <= t <= |s| - 1 ensures Visited(s, ok, t + 1) == Visited(s[1..], ok, t) {
      VisitedShift(s, ok, 1, t);
    }
    var u := s[1..];
    if exists b :: 0 <= b < |u| && LeastAt(g, ns, pos, ok, u, c, b) && m == Some(u[b]) {
      var b :| 0 <= b < |u| && LeastAt(g, ns, pos, ok, u, c, b) && m == Some(u[b]);
      assert u[b] == s[b + 1];
      forall t | 0 <= t < |s| && Visited(s, ok, t) && s[t] in ok
        ensures CountHolding(g, ns, pos, s[b + 1], |ns|) <= CountHolding(g, ns, pos, s[t], |ns|)
        ensures t < b + 1 ==> CountHolding(g, ns, pos, s[b + 1], |ns|) < CountHolding(g, ns, pos, s[t], |ns|)
      {
        if t > 0 {
          assert u[t - 1] == s[t];
        }
      }
      assert LeastAt(g, ns, pos, ok, s, maxTotal, b + 1);
    } else {
      forall t | 0 <= t < |s| && Visited(s, ok, t) && s[t] in ok
        ensures c <= CountHolding(g, ns, pos, s[t], |ns|)
      {
        if t > 0 {
          assert u[t - 1] == s[t];
        }
      }
      assert LeastAt(g, ns, pos, ok, s, maxTotal, 0);
    }
  }

  /** A kept first candidate that does not beat the best so far changes nothing; the loop goes on from the second. */
  lemma LeastAfterPassed(g: Grid, ns: seq<int>, pos: int, ok: set<int>, s: seq<int>,
                         maxTotal: int, maxValue: Option<int>, m: Option<int>)
    requires |g| == 81 && InBoard(ns) && |s| >= 1 && s[0] in ok
    requires maxTotal <= CountHolding(g, ns, pos, s[0], |ns|)
    requires LeastAmong(g, ns, pos, ok, s[1..], maxTotal, maxValue, m)
    ensures LeastAmong(g, ns, pos, ok, s, maxTotal, maxValue, m)
  {
    assert Visited(s, ok, 1);
    forall t | 0 <= t <= |s| - 1 ensures Visited(s, ok, t + 1) == Visited(s[1..], ok, t) {
      VisitedShift(s, ok, 1, t);
    }
    var u := s[1..];
    if exists b :: 0 <= b < |u| && LeastAt(g, ns, pos, ok, u, maxTotal, b) && m == Some(u[b]) {
      var b :| 0 <= b < |u| && LeastAt(g, ns, pos, ok, u, maxTotal, b) && m == Some(u[b]);
      assert u[b] == s[b + 1];
      forall t | 0 <= t < |s| && Visited(s, ok, t) && s[t] in ok
        ensures CountHolding(g, ns, pos, s[b + 1], |ns|) <= CountHolding(g, ns, pos, s[t], |ns|)
        ensures t < b + 1 ==> CountHolding(g, ns, pos, s[b + 1], |ns|) < CountHolding(g, ns, pos, s[t], |ns|)
      {
        if t > 0 {
          assert u[t - 1] == s[t];
        }
      }
      assert LeastAt(g, ns, pos, ok, s, maxTotal, b + 1);
    } else {
      forall t | 0 <= t < |s| && Visited(s, ok, t) && s[t] in ok
        ensures maxTotal <= CountHolding(g, ns, pos, s[t], |ns|)
      {
        if t > 0 {
          assert u[t - 1] == s[t];
        }
      }
    }
  }

  /** From the start (`maxTotal` 100, no value): nothing exactly when no looked-at candidate is kept, otherwise the least. */
  lemma LeastFromStart(g: Grid, ns: seq<int>, pos: int, ok: set<int>, s: seq<int>, m: Option<int>)
    requires |g| == 81 && InBoard(ns) && |ns| < 100
    requires LeastAmong(g, ns, pos, ok, s, 100, None, m)
    ensures m.None? <==> forall t :: 0 <= t < |s| && Visited(s, ok, t) ==> s[t] !in ok
    ensures m.Some? ==> exists b :: 0 <= b < |s| && LeastAt(g, ns, pos, ok, s, 100, b) && m == Some(s[b])
  {
    if m.None? {
      forall t | 0 <= t < |s| && Visited(s, ok, t) ensures s[t] !in ok {
        assert CountHolding(g, ns, pos, s[t], |ns|) <= |ns|;
      }
    }
  }

  /** The count of `LeastConstrainingValue` for `x` at the cell at `pos`. */
  function Offers(g: Grid, pos: int, x: int): nat
    requires Placed(g) && 0 <= pos < 81
  {
    PlacedCell(g, pos);
    var ns := FindNeighbours(g[pos]);
    CountHolding(g, ns, pos, x, |ns|)
  }

  /** The loop of `LeastConstrainingValue` read at its start, over the cell's own candidates. */
  lemma LCVStart(g: Grid, pos: int) returns (ns: seq<int>)
    requires WellFormed(g) && 0 <= pos < 81
    ensures |ns| == 27 && InBoard(ns)
    ensures LeastAmong(g, ns, pos, Accepted(g, pos), g[pos].possibilities, 100, None, LCV(g, pos).1)
    ensures forall x :: Offers(g, pos, x) == CountHolding(g, ns, pos, x, |ns|)
  {
    PlacedCell(g, pos);
    ns := FindNeighbours(g[pos]);
    var poss := g[pos].possibilities;
    LCVFromLeast(g, ns, pos, Accepted(g, pos), poss, 0, 100, None);
    assert poss[0..] == poss;
  }

  /**
   * Whichever candidates fail forward checking, `LeastConstrainingValue`
   * returns nothing exactly when no candidate it looks at passes. It looks
   * at the first candidate and, after each one, at the next unless it
   * dropped the one before (see `Visited`).
   */
  lemma LCVNothing(g: Grid, pos: int)
    requires WellFormed(g) && 0 <= pos < 81
    ensures var poss := g[pos].possibilities;
      LCV(g, pos).1.None? <==>
        forall t :: 0 <= t < |poss| && Visited(poss, Accepted(g, pos), t) ==> !ForwardCheck(g, pos, poss[t])
  {
    var ns := LCVStart(g, pos);
    LeastFromStart(g, ns, pos, Accepted(g, pos), g[pos].possibilities, LCV(g, pos).1);
  }

  /**
   * `v` is `poss[b]` for a `b` the loop looks at, and its count is the
   * least among the candidates it looks at and keeps (those in `ok`), and
   * strictly below the count of every such candidate before it.
   */
  ghost predicate LeastVisited(g: Grid, pos: int, ok: set<int>, poss: seq<int>, v: int)
    requires Placed(g) && 0 <= pos < 81
  {
    exists b :: 0 <= b < |poss| && Visited(poss, ok, b) && poss[b] == v &&
      forall t :: 0 <= t < |poss| && Visited(poss, ok, t) && poss[t] in ok ==>
        Offers(g, pos, v) <= Offers(g, pos, poss[t]) &&
        (t < b ==> Offers(g, pos, v) < Offers(g, pos, poss[t]))
  }

  /**
   * When `LeastConstrainingValue` returns a value, it is the first
   * candidate of least count among the candidates it looks at that pass
   * forward checking (`Accepted`; see `Visited` for which ones it looks at).
   */
  lemma LCVLeast(g: Grid, pos: int)
    requires WellFormed(g) && 0 <= pos < 81
    ensures LCV(g, pos).1.Some? ==> LeastVisited(g, pos, Accepted(g, pos), g[pos].possibilities, LCV(g, pos).1.value)
  {
    var ns := LCVStart(g, pos);
    LeastOffers(g, pos, ns, Accepted(g, pos), g[pos].possibilities, LCV(g, pos).1);
  }

  /** `LeastAmong` from the start, restated with the cell's own counts. */
  lemma LeastOffers(g: Grid, pos: int, ns: seq<int>, ok: set<int>, poss: seq<int>, m: Option<int>)
    requires Placed(g) && 0 <= pos < 81 && |ns| == 27 && InBoard(ns)
    requires LeastAmong(g, ns, pos, ok, poss, 100, None, m)
    requires forall x :: Offers(g, pos, x) == CountHolding(g, ns, pos, x, |ns|)
    ensures m.Some? ==> LeastVisited(g, pos, ok, poss, m.value)
  {
    LeastFromStart(g, ns, pos, ok, poss, m);
    if m.Some? {
      var b :| 0 <= b < |poss| && LeastAt(g, ns, pos, ok, poss, 100, b) && m == Some(poss[b]);
      assert Visited(poss, ok, b) && poss[b] == m.value;
    }
  }

  // ---------------------------------------------------------------------
  // MostConstrainedEntry

  /** The count of the tie-break over `ns[..t]`: listed cells other than `e` that are unassigned. */
  function UnassignedCount(g: Grid, ns: seq<int>, e: int, t: nat): (n: nat)
    requires |g| == 81 && InBoard(ns) && t <= |ns|
    ensures n <= t
  {
    if t == 0 then 0
    else UnassignedCount(g, ns, e, t - 1) + if ns[t - 1] != e && g[ns[t - 1]].value == 0 then 1 else 0
  }

  /** The tie-break score of the cell at `e`: its unassigned neighbours, as `FindNeighbours` lists them. */
  function UnassignedNeighbours(g: Grid, e: int): (n: nat)
    requires Placed(g) && 0 <= e < 81
    ensures n <= 27
  {
    PlacedCell(g, e);
    var ns := FindNeighbours(g[e]);
    UnassignedCount(g, ns, e, |ns|)
  }

  /** How the first scan of `MostConstrainedEntry` ends: at a starved cell, or with the candidate `most`. */
  datatype ScanResult = Starving(cell: int) | Smallest(cell: int)

  /** The first scan from position `k` on, with `most` the best cell so far. */
  function ScanFrom(g: Grid, k: nat, most: int): (r: ScanResult)
    requires |g| == 81 && k <= 81 && 0 <= most < 81
    ensures 0 <= r.cell < 81
    decreases 81 - k
  {
    if k == 81 then Smallest(most)
    else if g[k].possibilities == [] && g[k].value == 0 then Starving(k)
    else if g[most].possibilities == [] || (|g[k].possibilities| > 0 && |g[k].possibilities| < |g[most].possibilities|) then
      ScanFrom(g, k + 1, k)
    else ScanFrom(g, k + 1, most)
  }

  /** The second scan from position `k` on: the cells tied with `most`, in the order they are appended. */
  function TiesFrom(g: Grid, most: int, k: nat, acc: seq<int>): (r: seq<int>)
    requires |g| == 81 && k <= 81 && 0 <= most < 81 && InBoard(acc)
    ensures InBoard(r) && |r| >= |acc| && r[..|acc|] == acc
    decreases 81 - k
  {
    if k == 81 then acc
    else if k !in acc && |g[k].possibilities| > 0 && |g[k].possibilities| == |g[most].possibilities| then
      TiesFrom(g, most, k + 1, acc + [k])
    else TiesFrom(g, most, k + 1, acc)
  }

  /** The tie-break scores of the cells listed in `mc`. */
  function Scores(g: Grid, mc: seq<int>): (r: seq<nat>)
    requires Placed(g) && InBoard(mc)
    ensures |r| == |mc|
  {
    if mc == [] then [] else [UnassignedNeighbours(g, mc[0])] + Scores(g, mc[1..])
  }

  lemma {:induction false} ScoresAt(g: Grid, mc: seq<int>)
    requires Placed(g) && InBoard(mc)
    ensures forall s :: 0 <= s < |mc| ==> Scores(g, mc)[s] == UnassignedNeighbours(g, mc[s])
  {
    if mc != [] {
      ScoresAt(g, mc[1..]);
    }
  }

  /** The tie-break loop over `mc[t..]`, `scores` holding their scores: keep the last cell whose score is at least the best so far. */
  function TieBreakFrom(mc: seq<int>, scores: seq<nat>, t: nat, best: int, least: int): (r: int)
    requires InBoard(mc) && |scores| == |mc| && t <= |mc| && 0 <= best < 81
    ensures 0 <= r < 81
    decreases |mc| - t
  {
    if t == |mc| then best
    else if scores[t] >= least then TieBreakFrom(mc, scores, t + 1, mc[t], scores[t])
    else TieBreakFrom(mc, scores, t + 1, best, least)
  }

  /** `Board.MostConstrainedEntry()`: the position of the cell the solver works on next. */
  function MostConstrained(g: Grid): (r: int)
    requires Placed(g)
    ensures 0 <= r < 81
  {
    match ScanFrom(g, 0, 0)
    case Starving(k) => k
    case Smallest(most) =>
      var mc := TiesFrom(g, most, 0, [most]);
      if |mc| > 1 then TieBreakFrom(mc, Scores(g, mc), 0, mc[0], 0) else most
  }

  lemma {:induction false} ScanStarving(g: Grid, k: nat, most: int)
    requires |g| == 81 && k <= 81 && 0 <= most < 81
    ensures ScanFrom(g, k, most).Starving? <==> exists c :: k <= c < 81 && Starved(g[c])
    ensures ScanFrom(g, k, most).Starving? ==>
              var c := ScanFrom(g, k, most).cell;
              k <= c && Starved(g[c]) && forall c' :: k <= c' < c ==> !Starved(g[c'])
    decreases 81 - k
  {
    if k < 81 {
      assert Starved(g[k]) <==> g[k].possibilities == [] && g[k].value == 0;
      var next := if g[most].possibilities == [] || (|g[k].possibilities| > 0 && |g[k].possibilities| < |g[most].possibilities|) then k else most;
      ScanStarving(g, k + 1, next);
    }
  }

  /** What the first scan knows after the cells before `k`, when none of them is starved. */
  ghost predicate ScanInv(g: Grid, k: nat, most: int)
    requires |g| == 81 && k <= 81
  {
    0 <= most < 81 && (k == 0 ==> most == 0) &&
    (k > 0 ==>
      if exists c :: 0 <= c < k && |g[c].possibilities| > 0 then
        most < k && |g[most].possibilities| > 0 &&
        (forall c :: 0 <= c < k && |g[c].possibilities| > 0 ==> |g[most].possibilities| <= |g[c].possibilities|) &&
        (forall c :: 0 <= c < most ==> |g[c].possibilities| == 0 || |g[c].possibilities| > |g[most].possibilities|)
      else most == k - 1)
  }

  lemma {:induction false} ScanSmallest(g: Grid, k: nat, most: int)
    requires |g| == 81 && k <= 81 && ScanInv(g, k, most)
    requires forall c :: k <= c < 81 ==> !Starved(g[c])
    ensures ScanFrom(g, k, most).Smallest? && ScanInv(g, 81, ScanFrom(g, k, most).cell)
    decreases 81 - k
  {
    if k < 81 {
      assert !(g[k].possibilities == [] && g[k].value == 0);
      var next := if g[most].possibilities == [] || (|g[k].possibilities| > 0 && |g[k].possibilities| < |g[most].possibilities|) then k else most;
      assert ScanInv(g, k + 1, next) by {
        if exists c :: 0 <= c < k && |g[c].possibilities| > 0 {
          assert k > 0;
        } else if |g[k].possibilities| > 0 {
          assert k > 0 ==> g[most].possibilities == [];
          assert next == k;
        }
      }
      ScanSmallest(g, k + 1, next);
    }
  }

  lemma {:induction false} TiesMembers(g: Grid, most: int, k: nat, acc: seq<int>)
    requires |g| == 81 && k <= 81 && 0 <= most < 81 && InBoard(acc)
    requires forall c :: c in acc ==> c < k || c == most
    ensures forall c :: c in TiesFrom(g, most, k, acc) <==>
              c in acc || (k <= c < 81 && |g[c].possibilities| > 0 && |g[c].possibilities| == |g[most].possibilities|)
    decreases 81 - k
  {
    if k < 81 {
      if k !in acc && |g[k].possibilities| > 0 && |g[k].possibilities| == |g[most].possibilities| {
        TiesMembers(g, most, k + 1, acc + [k]);
      } else {
        TiesMembers(g, most, k + 1, acc);
      }
    }
  }

  /** The ties list is `most` followed by the other tied cells in row-major order. */
  lemma {:induction false} TiesOrder(g: Grid, most: int, k: nat, acc: seq<int>)
    requires |g| == 81 && k <= 81 && 0 <= most < 81 && InBoard(acc) && |acc| > 0
    requires forall a, b :: 1 <= a < b < |acc| ==> acc[a] < acc[b]
    requires forall a :: 1 <= a < |acc| ==> acc[a] < k && acc[a] != acc[0]
    ensures var r := TiesFrom(g, most, k, acc);
      r[0] == acc[0] && (forall a :: 1 <= a < |r| ==> r[a] != r[0]) &&
      forall a, b :: 1 <= a < b < |r| ==> r[a] < r[b]
    decreases 81 - k
  {
    if k < 81 {
      if k !in acc && |g[k].possibilities| > 0 && |g[k].possibilities| == |g[most].possibilities| {
        TiesOrder(g, most, k + 1, acc + [k]);
      } else {
        TiesOrder(g, most, k + 1, acc);
      }
    }
  }

  /**
   * The tie-break keeps a listed cell whose score no listed cell exceeds,
   * and no cell listed after it reaches that score; `bi` is where `best`
   * sits in `mc`.
   */
  lemma {:induction false} TieBreakBest(mc: seq<int>, scores: seq<nat>, t: nat, best: int, least: int, bi: nat)
    requires InBoard(mc) && |scores| == |mc| && t <= |mc| && 0 <= best < 81 && bi < |mc| && mc[bi] == best
    requires t == 0 ==> least == 0
    requires t > 0 ==> bi < t && least == scores[bi]
    requires forall s :: 0 <= s < t ==> scores[s] <= least
    requires forall s :: bi < s < t ==> scores[s] < least
    ensures exists b :: 0 <= b < |mc| && mc[b] == TieBreakFrom(mc, scores, t, best, least) &&
              (forall s :: 0 <= s < |mc| ==> scores[s] <= scores[b]) &&
              forall s :: b < s < |mc| ==> scores[s] < scores[b]
    decreases |mc| - t
  {
    if t < |mc| {
      if scores[t] >= least {
        TieBreakBest(mc, scores, t + 1, mc[t], scores[t], t);
      } else {
        TieBreakBest(mc, scores, t + 1, best, least, bi);
      }
    } else {
      assert mc[bi] == TieBreakFrom(mc, scores, t, best, least);
    }
  }

  /** `MostConstrainedEntry` returns the first unassigned cell without candidates, when there is one. */
  lemma MostConstrainedStarved(g: Grid)
    requires Placed(g) && exists c :: 0 <= c < 81 && Starved(g[c])
    ensures Starved(g[MostConstrained(g)])
    ensures forall c :: 0 <= c < MostConstrained(g) ==> !Starved(g[c])
  {
    ScanStarving(g, 0, 0);
  }

  /** With no starved cell, the ties list holds exactly the cells with as many candidates as the scan's result. */
  lemma MostConstrainedTies(g: Grid)
    requires Placed(g) && forall c :: 0 <= c < 81 ==> !Starved(g[c])
    ensures ScanFrom(g, 0, 0).Smallest? && ScanInv(g, 81, ScanFrom(g, 0, 0).cell)
    ensures var most := ScanFrom(g, 0, 0).cell;
      var mc := TiesFrom(g, most, 0, [most]);
      mc[0] == most &&
      forall c :: c in mc <==> c == most || (0 <= c < 81 && |g[c].possibilities| > 0 && |g[c].possibilities| == |g[most].possibilities|)
  {
    ScanSmallest(g, 0, 0);
    var most := ScanFrom(g, 0, 0).cell;
    TiesMembers(g, most, 0, [most]);
    var mc := TiesFrom(g, most, 0, [most]);
    assert mc[..1] == [most];
  }

  /**
   * With no unassigned cell lacking candidates but some cell offering
   * candidates, `MostConstrainedEntry` returns a cell with the fewest
   * candidates, and among the cells with that many, one with the most
   * unassigned neighbours (the most constraining one).
   */
  lemma MostConstrainedSmallest(g: Grid)
    requires Placed(g) && forall c :: 0 <= c < 81 ==> !Starved(g[c])
    requires exists c :: 0 <= c < 81 && |g[c].possibilities| > 0
    ensures |g[MostConstrained(g)].possibilities| > 0
    ensures forall c :: 0 <= c < 81 && |g[c].possibilities| > 0 ==>
              |g[MostConstrained(g)].possibilities| <= |g[c].possibilities|
    ensures forall c :: 0 <= c < 81 && |g[c].possibilities| == |g[MostConstrained(g)].possibilities| ==>
              UnassignedNeighbours(g, c) <= UnassignedNeighbours(g, MostConstrained(g))
  {
    MostConstrainedTies(g);
    var most := ScanFrom(g, 0, 0).cell;
    var mc := TiesFrom(g, most, 0, [most]);
    var r := MostConstrained(g);
    assert |g[most].possibilities| > 0;
    if |mc| > 1 {
      assert r == TieBreakFrom(mc, Scores(g, mc), 0, mc[0], 0);
      TieBreakMost(g, mc);
    } else {
      assert r == most;
      assert forall c :: c in mc ==> c == most;
    }
    assert |g[r].possibilities| == |g[most].possibilities|;
  }

  /**
   * Among the cells tied on the fewest candidates, `MostConstrainedEntry`
   * returns the last one with the most unassigned neighbours, in the order
   * of its ties list: the first scan's cell `most`, then the others row by
   * row. Every tied cell listed after the result has fewer.
   */
  lemma MostConstrainedLast(g: Grid)
    requires Placed(g) && forall c :: 0 <= c < 81 ==> !Starved(g[c])
    requires exists c :: 0 <= c < 81 && |g[c].possibilities| > 0
    ensures var most := ScanFrom(g, 0, 0).cell;
      var r := MostConstrained(g);
      forall c :: (0 <= c < 81 && c != r && c != most && (r == most || c > r) &&
                   |g[c].possibilities| == |g[r].possibilities|) ==>
        UnassignedNeighbours(g, c) < UnassignedNeighbours(g, r)
  {
    MostConstrainedTies(g);
    var most := ScanFrom(g, 0, 0).cell;
    var mc := TiesFrom(g, most, 0, [most]);
    var r := MostConstrained(g);
    assert |g[most].possibilities| > 0;
    TiesOrder(g, most, 0, [most]);
    if |mc| > 1 {
      assert r == TieBreakFrom(mc, Scores(g, mc), 0, mc[0], 0);
      TieBreakLast(g, mc, most);
      assert |g[r].possibilities| == |g[most].possibilities|;
      forall c | 0 <= c < 81 && c != r && c != most && (r == most || c > r) &&
          |g[c].possibilities| == |g[r].possibilities|
        ensures UnassignedNeighbours(g, c) < UnassignedNeighbours(g, r)
      {
        assert c in mc;
      }
    } else {
      assert r == most;
      assert forall c :: c in mc ==> c == most;
    }
  }

  /** `MostConstrainedLast` on the ties list `mc` itself. */
  lemma TieBreakLast(g: Grid, mc: seq<int>, most: int)
    requires Placed(g) && InBoard(mc) && |mc| > 0 && mc[0] == most
    requires forall a :: 1 <= a < |mc| ==> mc[a] != most
    requires forall a, a' :: 1 <= a < a' < |mc| ==> mc[a] < mc[a']
    ensures var r := TieBreakFrom(mc, Scores(g, mc), 0, mc[0], 0);
      r in mc && forall c :: (c in mc && c != r && c != most && (r == most || c > r)) ==>
        UnassignedNeighbours(g, c) < UnassignedNeighbours(g, r)
  {
    var r := TieBreakFrom(mc, Scores(g, mc), 0, mc[0], 0);
    TieBreakMost(g, mc);
    var b :| 0 <= b < |mc| && mc[b] == r &&
      forall s :: b < s < |mc| ==> UnassignedNeighbours(g, mc[s]) < UnassignedNeighbours(g, r);
    assert mc[b] in mc;
    forall c | c in mc && c != r && c != most && (r == most || c > r)
      ensures UnassignedNeighbours(g, c) < UnassignedNeighbours(g, r)
    {
      var s :| 0 <= s < |mc| && mc[s] == c;
      LaterInTies(mc, b, s);
    }
  }

  /** In a ties list, a cell other than the head and after `mc[b]` in board order (or any, when `b` is the head) sits after `b`. */
  lemma LaterInTies(mc: seq<int>, b: int, s: int)
    requires 0 <= b < |mc| && 0 <= s < |mc|
    requires forall a :: 1 <= a < |mc| ==> mc[a] != mc[0]
    requires forall a, a' :: 1 <= a < a' < |mc| ==> mc[a] < mc[a']
    requires mc[s] != mc[b] && mc[s] != mc[0] && (mc[b] == mc[0] || mc[s] > mc[b])
    ensures b < s
  {
  }

  /**
   * The tie-break picks one of the tied cells, with the most unassigned
   * neighbours among them, and the last such cell in the order of `mc`.
   */
  lemma TieBreakMost(g: Grid, mc: seq<int>)
    requires Placed(g) && InBoard(mc) && |mc| > 0
    ensures var r := TieBreakFrom(mc, Scores(g, mc), 0, mc[0], 0);
      exists b :: 0 <= b < |mc| && mc[b] == r &&
        (forall s :: 0 <= s < |mc| ==> UnassignedNeighbours(g, mc[s]) <= UnassignedNeighbours(g, r)) &&
        forall s :: b < s < |mc| ==> UnassignedNeighbours(g, mc[s]) < UnassignedNeighbours(g, r)
  {
    var scores := Scores(g, mc);
    var r := TieBreakFrom(mc, scores, 0, mc[0], 0);
    ScoresAt(g, mc);
    TieBreakBest(mc, scores, 0, mc[0], 0, 0);
    var b :| 0 <= b < |mc| && mc[b] == r &&
      (forall s :: 0 <= s < |mc| ==> scores[s] <= scores[b]) &&
      forall s :: b < s < |mc| ==> scores[s] < scores[b];
    forall s | 0 <= s < |mc|
      ensures UnassignedNeighbours(g, mc[s]) <= UnassignedNeighbours(g, r)
      ensures b < s ==> UnassignedNeighbours(g, mc[s]) < UnassignedNeighbours(g, r)
    {
      assert scores[s] == UnassignedNeighbours(g, mc[s]) && scores[b] == UnassignedNeighbours(g, r);
    }
  }

  /** When no cell offers candidates and none is starved, `MostConstrainedEntry` returns the last cell. */
  lemma MostConstrainedAllEmpty(g: Grid)
    requires Placed(g) && forall c :: 0 <= c < 81 ==> !Starved(g[c]) && |g[c].possibilities| == 0
    ensures MostConstrained(g) == 80
  {
    MostConstrainedTies(g);
    var most := ScanFrom(g, 0, 0).cell;
    var mc := TiesFrom(g, most, 0, [most]);
    assert most == 80;
    assert forall c :: c in mc ==> c == most;
    if |mc| > 1 {
      var scores := Scores(g, mc);
      TieBreakBest(mc, scores, 0, mc[0], 0, 0);
      var b :| 0 <= b < |mc| && mc[b] == TieBreakFrom(mc, scores, 0, mc[0], 0);
      assert mc[b] in mc;
    }
  }
}
