/**
 * What the board's mutating operations do to the grid, as functions of the
 * grid before the call: `Board.Update` with `PropogateConstraints`,
 * `RestoreConstraints`, `Board.Reset`, and the construction of a board from
 * 81 numbers. Each loop of the source is a tail-recursive function that
 * takes the loop's state; the methods of `SudokuBoard.Board` are proved
 * to compute these functions.
 */
module Propagation {
  import opened Entries
  import opened Geometry
  import opened Grids

  // ---------------------------------------------------------------------
  // Update and PropogateConstraints

  /** The loop of `PropogateConstraints` from the `t`-th listed cell on: `e.Remove(v)` for each. */
  function RemoveFrom(g: Grid, ns: seq<int>, t: nat, v: int): (r: Grid)
    requires |g| == 81 && InBoard(ns) && t <= |ns|
    ensures |r| == 81
    ensures forall k :: 0 <= k < 81 ==>
              r[k].i == g[k].i && r[k].j == g[k].j && r[k].value == g[k].value && r[k].tried == g[k].tried
    ensures WellFormed(g) ==> WellFormed(r)
    decreases |ns| - t
  {
    if t == |ns| then g else RemoveFrom(g[ns[t] := Remove(g[ns[t]], v)], ns, t + 1, v)
  }

  /** `PropogateConstraints(entry)` for the cell at `p`: its value leaves every neighbour's candidates. */
  function Propagate(g: Grid, p: int): (r: Grid)
    requires Placed(g) && 0 <= p < 81
    ensures |r| == 81
  {
    PlacedCell(g, p);
    RemoveFrom(g, FindNeighbours(g[p]), 0, g[p].value)
  }

  /** `Board.Update(i, j, value)`: update the cell in row `i`, column `j`, then propagate its value. */
  function UpdateGrid(g: Grid, i: int, j: int, v: int): (r: Grid)
    requires Placed(g) && 0 <= i < 9 && 0 <= j < 9
    ensures |r| == 81
    ensures forall k :: 0 <= k < 81 ==> r[k].i == g[k].i && r[k].j == g[k].j
    ensures WellFormed(g) ==> WellFormed(r)
  {
    var p := 9 * i + j;
    PlacedSet(g, p, Update(g[p], v));
    Propagate(g[p := Update(g[p], v)], p)
  }

  lemma {:induction false} RemoveFromEffect(g: Grid, ns: seq<int>, t: nat, v: int)
    requires WellFormed(g) && InBoard(ns) && t <= |ns|
    ensures forall k :: 0 <= k < 81 ==>
              RemoveFrom(g, ns, t, v)[k] == if k in ns[t..] then Remove(g[k], v) else g[k]
    decreases |ns| - t
  {
    if t < |ns| {
      var n := ns[t];
      var h := g[n := Remove(g[n], v)];
      RemoveFromEffect(h, ns, t + 1, v);
      assert ns[t..] == [n] + ns[t + 1..];
      RemoveIdempotent(g[n], v);
    }
  }

  /** `PropogateConstraints` on the cell at `p` removes its value from the candidates of exactly the cells sharing a unit with it. */
  lemma PropagateEffect(h: Grid, p: int)
    requires WellFormed(h) && 0 <= p < 81
    ensures forall k :: 0 <= k < 81 ==>
              Propagate(h, p)[k] == if SameUnit(p, k) then Remove(h[k], h[p].value) else h[k]
  {
    forall k | 0 <= k < 81
      ensures Propagate(h, p)[k] == if SameUnit(p, k) then Remove(h[k], h[p].value) else h[k]
    {
      PropagateAt(h, p, k);
    }
  }

  lemma PropagateAt(h: Grid, p: int, k: int)
    requires WellFormed(h) && 0 <= p < 81 && 0 <= k < 81
    ensures Propagate(h, p)[k] == if SameUnit(p, k) then Remove(h[k], h[p].value) else h[k]
  {
    PlacedCell(h, p);
    var ns := FindNeighbours(h[p]);
    var v := h[p].value;
    assert Propagate(h, p) == RemoveFrom(h, ns, 0, v);
    RemoveFromEffect(h, ns, 0, v);
    assert ns[0..] == ns;
    NeighbourMembers(h[p], k);
    assert k in ns <==> SameUnit(p, k);
  }

  /**
   * `Board.Update(i, j, v)` with `v != 0` assigns `v` to the cell in row `i`,
   * column `j`, removes `v` from the candidates of every other cell of that
   * row, column and box, and changes nothing else.
   */
  lemma UpdateEffect(g: Grid, i: int, j: int, v: int)
    requires WellFormed(g) && 0 <= i < 9 && 0 <= j < 9 && v != 0
    ensures UpdateGrid(g, i, j, v)[9 * i + j] == Update(g[9 * i + j], v)
    ensures forall k :: 0 <= k < 81 && k != 9 * i + j ==>
              UpdateGrid(g, i, j, v)[k] == if SameUnit(9 * i + j, k) then Remove(g[k], v) else g[k]
  {
    var p := 9 * i + j;
    var h := g[p := Update(g[p], v)];
    WellFormedSet(g, p, Update(g[p], v));
    assert UpdateGrid(g, i, j, v) == Propagate(h, p);
    PropagateEffect(h, p);
    assert SameUnit(p, p) && h[p].possibilities == [];
  }

  /** `Board.Update(i, j, 0)` on an unassigned cell changes nothing. */
  lemma UpdateZeroOnBlank(g: Grid, i: int, j: int)
    requires WellFormed(g) && 0 <= i < 9 && 0 <= j < 9 && g[9 * i + j].value == 0
    ensures UpdateGrid(g, i, j, 0) == g
  {
    var p := 9 * i + j;
    assert g[p := Update(g[p], 0)] == g;
    PlacedCell(g, p);
    var ns := FindNeighbours(g[p]);
    var r := RemoveFrom(g, ns, 0, 0);
    assert UpdateGrid(g, i, j, 0) == r;
    RemoveFromEffect(g, ns, 0, 0);
    forall k | 0 <= k < 81 ensures r[k] == g[k] {
      assert Valid(g[k]);
      assert 0 !in g[k].possibilities;
    }
  }

  /**
   * The result of `Update` does not depend on the candidates the updated
   * cell had: only its coordinates, value history and the other cells count.
   */
  lemma UpdateIgnoresOwnCandidates(g: Grid, h: Grid, i: int, j: int, v: int)
    requires Placed(g) && Placed(h) && 0 <= i < 9 && 0 <= j < 9 && v != 0
    requires forall k :: 0 <= k < 81 && k != 9 * i + j ==> h[k] == g[k]
    requires h[9 * i + j].tried == g[9 * i + j].tried
    ensures UpdateGrid(h, i, j, v) == UpdateGrid(g, i, j, v)
  {
    var p := 9 * i + j;
    assert h[p := Update(h[p], v)] == g[p := Update(g[p], v)];
  }

  // ---------------------------------------------------------------------
  // RestoreConstraints

  /** The inner loop of `RestoreConstraints`: a listed neighbour of the cell at `n`, other than the cell at `p`, holds `v`. */
  predicate HeldNearby(g: Grid, n: int, p: int, v: int)
    requires Placed(g) && 0 <= n < 81
  {
    PlacedCell(g, n);
    var cs := FindNeighbours(g[n]);
    exists t :: 0 <= t < |cs| && cs[t] != p && g[cs[t]].value == v
  }

  /** Some cell other than the one at `p` that shares a row, column or box with the cell at `n` holds `v`. */
  predicate PeerHolds(g: Grid, n: int, p: int, v: int)
    requires |g| == 81
  {
    exists c :: 0 <= c < 81 && c != p && SameUnit(n, c) && g[c].value == v
  }

  lemma HeldNearbyIff(g: Grid, n: int, p: int, v: int)
    requires Placed(g) && 0 <= n < 81
    ensures HeldNearby(g, n, p, v) <==> PeerHolds(g, n, p, v)
  {
    PlacedCell(g, n);
    var cs := FindNeighbours(g[n]);
    if HeldNearby(g, n, p, v) {
      var t :| 0 <= t < |cs| && cs[t] != p && g[cs[t]].value == v;
      NeighbourMembers(g[n], cs[t]);
    }
    if PeerHolds(g, n, p, v) {
      var c :| 0 <= c < 81 && c != p && SameUnit(n, c) && g[c].value == v;
      NeighbourMembers(g[n], c);
      var t :| 0 <= t < |cs| && cs[t] == c;
    }
  }

  /**
   * When `RestoreConstraints` on the cell at `p`, whose value was `v`,
   * re-offers `v` to the cell at `k`: `k` is another unassigned cell that
   * neither offers nor has tried `v`, and no cell it sees other than `p` holds `v`.
   */
  predicate Reoffered(g: Grid, p: int, v: int, k: int)
    requires |g| == 81 && 0 <= k < 81
  {
    k != p && g[k].value == 0 && v !in g[k].possibilities && v !in g[k].tried && !PeerHolds(g, k, p, v)
  }

  /** One pass of the loop of `RestoreConstraints` (entry at `p`, value `v`) on the neighbour at `n`. */
  function RestoreStep(g: Grid, ps: seq<int>, p: int, v: int, n: int): (Grid, seq<int>)
    requires Placed(g) && 0 <= n < 81
  {
    if n == p then (g, ps)
    else if g[n].value != 0 && g[n].value in ps then (g, ListRemove(ps, g[n].value))
    else if g[n].value == 0 && v !in g[n].possibilities && v !in g[n].tried && !HeldNearby(g, n, p, v) then
      (g[n := AddPossibility(g[n], v)], ps)
    else (g, ps)
  }

  /** The loop of `RestoreConstraints` from the `t`-th neighbour on, with candidate list `ps`. */
  function RestoreFrom(g: Grid, ps: seq<int>, p: int, v: int, ns: seq<int>, t: nat): (r: (Grid, seq<int>))
    requires WellFormed(g) && InBoard(ns) && t <= |ns| && 1 <= v <= 9
    requires AllDigits(ps) && Ascending(ps)
    ensures WellFormed(r.0) && AllDigits(r.1) && Ascending(r.1)
    ensures forall k :: 0 <= k < 81 ==>
              r.0[k].value == g[k].value && r.0[k].tried == g[k].tried && r.0[k].i == g[k].i && r.0[k].j == g[k].j
    ensures 0 <= p < 81 ==> r.0[p] == g[p]
    decreases |ns| - t
  {
    if t == |ns| then (g, ps)
    else
      var n := ns[t];
      if n != p && g[n].value != 0 && g[n].value in ps then ListRemoveAscending(ps, g[n].value); (
      var next := RestoreStep(g, ps, p, v, n);
      RestoreFrom(next.0, next.1, p, v, ns, t + 1))
      else
      var next := RestoreStep(g, ps, p, v, n);
      RestoreFrom(next.0, next.1, p, v, ns, t + 1)
  }

  /**
   * `RestoreConstraints(entry)` for the assigned cell at `p`. The source's
   * `possibilities.remove(entry.value)` fails unless the value is a digit.
   */
  function RestoreGrid(g: Grid, p: int): (r: Grid)
    requires WellFormed(g) && 0 <= p < 81 && 1 <= g[p].value <= 9
    ensures WellFormed(r)
  {
    var e := g[p];
    PlacedCell(g, p);
    var next := RestoreFrom(g, ResetStart(e.value), p, e.value, FindNeighbours(e), 0);
    next.0[p := Restore(next.0[p], next.1)]
  }

  /** The grid `RestoreConstraints` leaves in the cells other than `p` after the neighbours listed in `done`. */
  ghost predicate RestoredSoFar(g0: Grid, g: Grid, p: int, v: int, done: seq<int>)
    requires |g0| == 81 && |g| == 81
  {
    forall k :: 0 <= k < 81 ==>
      g[k] == if k in done && Reoffered(g0, p, v, k) then AddPossibility(g0[k], v) else g0[k]
  }

  /** The candidate list `RestoreConstraints` holds after the neighbours listed in `done`. */
  ghost predicate KeptSoFar(g0: Grid, ps0: seq<int>, ps: seq<int>, p: int, done: seq<int>)
    requires |g0| == 81 && InBoard(done)
  {
    forall x :: x in ps <==> x in ps0 && forall s :: 0 <= s < |done| && done[s] != p ==> g0[done[s]].value != x
  }

  /** Values and coordinates alone decide `HeldNearby`. */
  lemma HeldNearbyOnValues(g: Grid, h: Grid, n: int, p: int, v: int)
    requires Placed(g) && Placed(h) && 0 <= n < 81
    requires forall k :: 0 <= k < 81 ==> g[k].value == h[k].value
    ensures HeldNearby(g, n, p, v) == HeldNearby(h, n, p, v)
  {
    HeldNearbyIff(g, n, p, v);
    HeldNearbyIff(h, n, p, v);
  }

  /** One pass of the loop keeps `RestoredSoFar`. */
  lemma RestoreStepGrid(g0: Grid, g: Grid, ps: seq<int>, p: int, v: int, done: seq<int>, n: int)
    requires WellFormed(g0) && WellFormed(g) && 0 <= n < 81 && 1 <= v <= 9 && 0 <= p < 81
    requires AllDigits(ps) && Ascending(ps)
    requires RestoredSoFar(g0, g, p, v, done)
    ensures |RestoreStep(g, ps, p, v, n).0| == 81
    ensures RestoredSoFar(g0, RestoreStep(g, ps, p, v, n).0, p, v, done + [n])
  {
    var next := RestoreStep(g, ps, p, v, n);
    assert g[n].value == g0[n].value && g[n].tried == g0[n].tried;
    HeldNearbyOnValues(g, g0, n, p, v);
    HeldNearbyIff(g0, n, p, v);
    if n == p {
      assert !Reoffered(g0, p, v, n);
    } else if g[n].value != 0 && g[n].value in ps {
      assert !Reoffered(g0, p, v, n);
    } else if g[n].value == 0 && v !in g[n].possibilities && v !in g[n].tried && !HeldNearby(g, n, p, v) {
      assert g[n] == g0[n];
      assert Reoffered(g0, p, v, n);
    } else if n !in done {
      assert g[n] == g0[n];
      assert !Reoffered(g0, p, v, n);
    }
  }

  /** One pass of the loop keeps `KeptSoFar`. */
  lemma RestoreStepCandidates(g0: Grid, ps0: seq<int>, g: Grid, ps: seq<int>, p: int, v: int, done: seq<int>, n: int)
    requires WellFormed(g0) && WellFormed(g) && InBoard(done) && 0 <= n < 81 && 1 <= v <= 9 && 0 <= p < 81
    requires AllDigits(ps0) && AllDigits(ps) && Ascending(ps)
    requires forall k :: 0 <= k < 81 ==> g[k].value == g0[k].value
    requires KeptSoFar(g0, ps0, ps, p, done)
    ensures KeptSoFar(g0, ps0, RestoreStep(g, ps, p, v, n).1, p, done + [n])
  {
    var done' := done + [n];
    var next := RestoreStep(g, ps, p, v, n);
    if n != p && g[n].value != 0 && g[n].value in ps {
      ListRemoveAscending(ps, g[n].value);
    }
    forall x ensures x in next.1 <==> x in ps0 && forall s :: 0 <= s < |done'| && done'[s] != p ==> g0[done'[s]].value != x {
      assert forall s :: 0 <= s < |done| ==> done'[s] == done[s];
      assert done'[|done|] == n;
    }
  }

  lemma {:induction false} RestoreFromEffect(g0: Grid, ps0: seq<int>, g: Grid, ps: seq<int>, p: int, v: int, ns: seq<int>, t: nat)
    requires WellFormed(g0) && WellFormed(g) && InBoard(ns) && t <= |ns| && 1 <= v <= 9 && 0 <= p < 81
    requires AllDigits(ps0) && AllDigits(ps) && Ascending(ps)
    requires RestoredSoFar(g0, g, p, v, ns[..t]) && KeptSoFar(g0, ps0, ps, p, ns[..t])
    ensures RestoredSoFar(g0, RestoreFrom(g, ps, p, v, ns, t).0, p, v, ns)
    ensures KeptSoFar(g0, ps0, RestoreFrom(g, ps, p, v, ns, t).1, p, ns)
    decreases |ns| - t
  {
    if t == |ns| {
      assert ns[..t] == ns;
    } else {
      var n := ns[t];
      assert ns[..t + 1] == ns[..t] + [n];
      RestoreStepGrid(g0, g, ps, p, v, ns[..t], n);
      RestoreStepCandidates(g0, ps0, g, ps, p, v, ns[..t], n);
      if n != p && g[n].value != 0 && g[n].value in ps {
        ListRemoveAscending(ps, g[n].value);
      }
      var next := RestoreStep(g, ps, p, v, n);
      RestoreFromEffect(g0, ps0, next.0, next.1, p, v, ns, t + 1);
    }
  }

  /** Some neighbour of `p` other than `p` holds `x` exactly when a peer of `p` holds it. */
  lemma NeighbourValues(g: Grid, p: int, x: int)
    requires Placed(g) && 0 <= p < 81
    ensures var ns := (PlacedCell(g, p); FindNeighbours(g[p]));
      (exists s :: 0 <= s < |ns| && ns[s] != p && g[ns[s]].value == x) <==> PeerHolds(g, p, p, x)
  {
    PlacedCell(g, p);
    assert 9 * g[p].j + g[p].i == p;
    var ns := FindNeighbours(g[p]);
    if PeerHolds(g, p, p, x) {
      var c :| 0 <= c < 81 && c != p && SameUnit(p, c) && g[c].value == x;
      NeighbourMembers(g[p], c);
      var s :| 0 <= s < |ns| && ns[s] == c;
    }
    if exists s :: 0 <= s < |ns| && ns[s] != p && g[ns[s]].value == x {
      var s :| 0 <= s < |ns| && ns[s] != p && g[ns[s]].value == x;
      NeighbourMembers(g[p], ns[s]);
    }
  }

/**
   * `RestoreConstraints` on the assigned cell at `p` with value `v`:
   * the cell becomes unassigned, keeps its tried values, and is offered
   * exactly the digits other than `v` that it has not tried and that no
   * other cell of its row, column or box holds; `v` is re-offered to the
   * cells it sees for which `Reoffered` holds, and nothing else changes.
   */
  lemma RestoreEffect(g: Grid, p: int)
    requires WellFormed(g) && 0 <= p < 81 && 1 <= g[p].value <= 9
    ensures RestoreGrid(g, p)[p].value == 0 && RestoreGrid(g, p)[p].tried == g[p].tried
    ensures forall x :: x in RestoreGrid(g, p)[p].possibilities <==>
              1 <= x <= 9 && x != g[p].value && x !in g[p].tried && !PeerHolds(g, p, p, x)
    ensures forall k :: 0 <= k < 81 && k != p ==>
              RestoreGrid(g, p)[k] ==
                if SameUnit(p, k) && Reoffered(g, p, g[p].value, k) then AddPossibility(g[k], g[p].value) else g[k]
  {
    RestoreOwnCell(g, p);
    RestoreOthers(g, p);
  }

  /** The neighbour loop of `RestoreConstraints`, run over every neighbour of `p`: the candidates it keeps for `p`. */
  lemma RestoreAllKept(g: Grid, p: int)
    requires WellFormed(g) && 0 <= p < 81 && 1 <= g[p].value <= 9
    ensures 0 <= g[p].i < 9 && 0 <= g[p].j < 9
    ensures var ns := FindNeighbours(g[p]);
      var next := RestoreFrom(g, ResetStart(g[p].value), p, g[p].value, ns, 0);
      RestoreGrid(g, p)[p] == Restore(g[p], next.1) && KeptSoFar(g, ResetStart(g[p].value), next.1, p, ns)
  {
    PlacedCell(g, p);
    var ns := FindNeighbours(g[p]);
    var ps0 := ResetStart(g[p].value);
    assert ns[..0] == [];
    RestoreFromEffect(g, ps0, g, ps0, p, g[p].value, ns, 0);
  }

  /** The neighbour loop of `RestoreConstraints`, run over every neighbour of `p`: the grid it leaves around `p`. */
  lemma RestoreAllGrid(g: Grid, p: int)
    requires WellFormed(g) && 0 <= p < 81 && 1 <= g[p].value <= 9
    ensures 0 <= g[p].i < 9 && 0 <= g[p].j < 9
    ensures var ns := FindNeighbours(g[p]);
      var next := RestoreFrom(g, ResetStart(g[p].value), p, g[p].value, ns, 0);
      (forall k :: 0 <= k < 81 && k != p ==> RestoreGrid(g, p)[k] == next.0[k]) &&
      RestoredSoFar(g, next.0, p, g[p].value, ns)
  {
    PlacedCell(g, p);
    var ns := FindNeighbours(g[p]);
    var ps0 := ResetStart(g[p].value);
    assert ns[..0] == [];
    RestoreFromEffect(g, ps0, g, ps0, p, g[p].value, ns, 0);
  }

  lemma RestoreOwnCell(g: Grid, p: int)
    requires WellFormed(g) && 0 <= p < 81 && 1 <= g[p].value <= 9
    ensures RestoreGrid(g, p)[p].value == 0 && RestoreGrid(g, p)[p].tried == g[p].tried
    ensures forall x :: x in RestoreGrid(g, p)[p].possibilities <==>
              1 <= x <= 9 && x != g[p].value && x !in g[p].tried && !PeerHolds(g, p, p, x)
  {
    var e := g[p];
    PlacedCell(g, p);
    var ns := FindNeighbours(e);
    var ps0 := ResetStart(e.value);
    RestoreAllKept(g, p);
    var next := RestoreFrom(g, ps0, p, e.value, ns, 0);
    var r := RestoreGrid(g, p);
    assert r[p] == Restore(e, next.1);
    forall x ensures x in r[p].possibilities <==> 1 <= x <= 9 && x != e.value && x !in e.tried && !PeerHolds(g, p, p, x) {
      NeighbourValues(g, p, x);
      assert x in next.1 <==> x in ps0 && forall s :: 0 <= s < |ns| && ns[s] != p ==> g[ns[s]].value != x;
    }
  }

  lemma RestoreOthers(g: Grid, p: int)
    requires WellFormed(g) && 0 <= p < 81 && 1 <= g[p].value <= 9
    ensures forall k :: 0 <= k < 81 && k != p ==>
              RestoreGrid(g, p)[k] ==
                if SameUnit(p, k) && Reoffered(g, p, g[p].value, k) then AddPossibility(g[k], g[p].value) else g[k]
  {
    RestoreAllGrid(g, p);
    PlacedCell(g, p);
    var e := g[p];
    assert 9 * e.j + e.i == p;
    var ns := FindNeighbours(e);
    var next := RestoreFrom(g, ResetStart(e.value), p, e.value, ns, 0);
    var r := RestoreGrid(g, p);
    forall k | 0 <= k < 81 && k != p
      ensures r[k] == if SameUnit(p, k) && Reoffered(g, p, e.value, k) then AddPossibility(g[k], e.value) else g[k]
    {
      NeighbourMembers(e, k);
      assert k in ns <==> SameUnit(p, k);
      assert r[k] == next.0[k];
      RestoredAt(g, next.0, r, p, e.value, ns, k);
    }
  }

  lemma RestoredAt(g: Grid, h: Grid, r: Grid, p: int, v: int, ns: seq<int>, k: int)
    requires |g| == 81 && |h| == 81 && |r| == 81 && 0 <= k < 81
    requires RestoredSoFar(g, h, p, v, ns) && r[k] == h[k] && (k in ns <==> SameUnit(p, k))
    ensures r[k] == if SameUnit(p, k) && Reoffered(g, p, v, k) then AddPossibility(g[k], v) else g[k]
  {
  }

  // ---------------------------------------------------------------------
  // Board.Reset

  /** The loop of `Board.Reset` (entry at `p`) from the `t`-th neighbour on, with candidate list `ps`. */
  function ResetFrom(g: Grid, p: int, ns: seq<int>, t: nat, ps: seq<int>): (r: seq<int>)
    requires |g| == 81 && InBoard(ns) && t <= |ns| && AllDigits(ps) && Ascending(ps)
    ensures AllDigits(r) && Ascending(r)
    decreases |ns| - t
  {
    if t == |ns| then ps
    else
      var c := ns[t];
      if g[c].value != 0 && c != p && g[c].value in ps then
        ListRemoveAscending(ps, g[c].value);
        ResetFrom(g, p, ns, t + 1, ListRemove(ps, g[c].value))
      else ResetFrom(g, p, ns, t + 1, ps)
  }

  /** The list `Board.Reset` starts from: the digits, without the cell's own value. */
  function ResetStart(v: int): (ps: seq<int>)
    ensures AllDigits(ps) && Ascending(ps)
    ensures forall x :: x in ps <==> 1 <= x <= 9 && x != v
  {
    DigitsAscending();
    if v in Digits then ListRemoveAscending(Digits, v); ListRemove(Digits, v) else Digits
  }

  /** `Board.Reset(entry)` for the cell at `p`: fresh candidates from its neighbours, tried values forgotten. */
  function ResetGrid(g: Grid, p: int): (r: Grid)
    requires WellFormed(g) && 0 <= p < 81
    ensures WellFormed(r)
  {
    var e := g[p];
    PlacedCell(g, p);
    var candidates := ResetFrom(g, p, FindNeighbours(e), 0, ResetStart(e.value));
    WellFormedSet(g, p, Reset(e, candidates));
    g[p := Reset(e, candidates)]
  }

  lemma {:induction false} ResetFromMembers(g: Grid, p: int, ns: seq<int>, t: nat, ps: seq<int>)
    requires |g| == 81 && InBoard(ns) && t <= |ns| && AllDigits(ps) && Ascending(ps)
    ensures forall x :: x in ResetFrom(g, p, ns, t, ps) <==>
              x in ps && forall s :: t <= s < |ns| && ns[s] != p ==> g[ns[s]].value != x
    decreases |ns| - t
  {
    if t < |ns| {
      var c := ns[t];
      if g[c].value != 0 && c != p && g[c].value in ps {
        ListRemoveAscending(ps, g[c].value);
        ResetFromMembers(g, p, ns, t + 1, ListRemove(ps, g[c].value));
      } else {
        ResetFromMembers(g, p, ns, t + 1, ps);
      }
    }
  }

  /**
   * `Board.Reset` on the cell at `p` keeps its value, forgets its tried
   * values and offers exactly the digits other than its value that no
   * other cell of its row, column or box holds; no other cell changes.
   */
  lemma ResetEffect(g: Grid, p: int)
    requires WellFormed(g) && 0 <= p < 81
    ensures ResetGrid(g, p)[p].value == g[p].value && ResetGrid(g, p)[p].tried == []
    ensures forall x :: x in ResetGrid(g, p)[p].possibilities <==>
              1 <= x <= 9 && x != g[p].value && !PeerHolds(g, p, p, x)
    ensures forall k :: 0 <= k < 81 && k != p ==> ResetGrid(g, p)[k] == g[k]
  {
    var e := g[p];
    PlacedCell(g, p);
    var ns := FindNeighbours(e);
    ResetFromMembers(g, p, ns, 0, ResetStart(e.value));
    var r := ResetGrid(g, p);
    forall x ensures x in r[p].possibilities <==> 1 <= x <= 9 && x != e.value && !PeerHolds(g, p, p, x) {
      NeighbourValues(g, p, x);
    }
  }

  // ---------------------------------------------------------------------
  // Board() and ConstructBoard

  /** `Board()`: 81 unassigned cells, each offering every digit. */
  function InitialGrid(): (g: Grid)
    ensures WellFormed(g) && Settled(g)
    ensures forall k :: 0 <= k < 81 ==> g[k] == Blank(k % 9, k / 9)
  {
    seq(81, k requires 0 <= k < 81 => Blank(k % 9, k / 9))
  }

  /** The grid the loops of `ConstructBoard` hold after the first `t` calls `board.Update(i, j, values[9 * i + j])`. */
  function ConstructTo(values: seq<int>, t: nat): (r: Grid)
    requires |values| == 81 && t <= 81
    ensures WellFormed(r)
  {
    if t == 0 then InitialGrid()
    else
      Position(t - 1);
      UpdateGrid(ConstructTo(values, t - 1), (t - 1) / 9, (t - 1) % 9, values[t - 1])
  }

  /** `ConstructBoard` on the 81 numbers of a puzzle, read row by row (0 for an empty cell). */
  function Construct(values: seq<int>): (r: Grid)
    requires |values| == 81
  {
    ConstructTo(values, 81)
  }

  /** No cell among the first `t` positions that shares a unit with `k` holds `x`. */
  ghost predicate FreeSoFar(values: seq<int>, t: nat, k: int, x: int)
    requires |values| == 81 && t <= 81
  {
    forall c :: 0 <= c < t && SameUnit(k, c) ==> values[c] != x
  }

  /** The grid `ConstructBoard` holds once the first `t` positions are updated. */
  ghost predicate BuiltSoFar(values: seq<int>, g: Grid, t: nat)
    requires |values| == 81 && |g| == 81 && t <= 81
  {
    forall k :: 0 <= k < 81 ==>
      if k < t && values[k] != 0 then
        g[k].value == values[k] && g[k].possibilities == [] && g[k].tried == [values[k]]
      else
        g[k].value == 0 && g[k].tried == [] &&
        forall x :: x in g[k].possibilities <==> 1 <= x <= 9 && FreeSoFar(values, t, k, x)
  }

  lemma ConstructStep(values: seq<int>, g: Grid, t: nat)
    requires |values| == 81 && WellFormed(g) && t < 81 && BuiltSoFar(values, g, t)
    ensures BuiltSoFar(values, UpdateGrid(g, t / 9, t % 9, values[t]), t + 1)
  {
    Position(t);
    var v := values[t];
    var r := UpdateGrid(g, t / 9, t % 9, v);
    if v == 0 {
      UpdateZeroOnBlank(g, t / 9, t % 9);
      forall k, x | 0 <= k < 81 && 1 <= x <= 9
        ensures FreeSoFar(values, t + 1, k, x) <==> FreeSoFar(values, t, k, x)
      {
      }
    } else {
      UpdateEffect(g, t / 9, t % 9, v);
      forall k | 0 <= k < 81
        ensures if k < t + 1 && values[k] != 0 then
                  r[k].value == values[k] && r[k].possibilities == [] && r[k].tried == [values[k]]
                else
                  r[k].value == 0 && r[k].tried == [] &&
                  forall x :: x in r[k].possibilities <==> 1 <= x <= 9 && FreeSoFar(values, t + 1, k, x)
      {
        if k != t && !(k < t && values[k] != 0) {
          WithoutMembers(g[k].possibilities, v);
          forall x ensures FreeSoFar(values, t + 1, k, x) <==> FreeSoFar(values, t, k, x) && (SameUnit(k, t) ==> x != v) {
          }
        }
      }
    }
  }

  lemma InitialBuilt(values: seq<int>)
    requires |values| == 81
    ensures BuiltSoFar(values, InitialGrid(), 0)
  {
    var g := InitialGrid();
    forall k | 0 <= k < 81
      ensures forall x :: x in g[k].possibilities <==> 1 <= x <= 9 && FreeSoFar(values, 0, k, x)
    {
      assert g[k] == Blank(k % 9, k / 9);
    }
  }

  lemma {:induction false} ConstructToEffect(values: seq<int>, t: nat)
    requires |values| == 81 && t <= 81
    ensures BuiltSoFar(values, ConstructTo(values, t), t)
  {
    if t == 0 {
      InitialBuilt(values);
    } else {
      ConstructToEffect(values, t - 1);
      ConstructStep(values, ConstructTo(values, t - 1), t - 1);
    }
  }

  /** What a fully built grid holds, cell by cell. */
  lemma BuiltCells(values: seq<int>, r: Grid)
    requires |values| == 81 && WellFormed(r) && BuiltSoFar(values, r, 81)
    ensures Settled(r)
    ensures forall k :: 0 <= k < 81 ==> r[k].value == values[k]
    ensures forall k :: 0 <= k < 81 && values[k] != 0 ==> r[k].tried == [values[k]]
    ensures forall k :: 0 <= k < 81 && values[k] == 0 ==> r[k].tried == []
    ensures forall k, x :: 0 <= k < 81 && values[k] == 0 ==>
              (x in r[k].possibilities <==> 1 <= x <= 9 && forall c :: 0 <= c < 81 && SameUnit(k, c) ==> values[c] != x)
  {
    forall k | 0 <= k < 81
      ensures r[k].value == values[k]
      ensures values[k] != 0 ==> r[k].possibilities == [] && r[k].tried == [values[k]]
      ensures values[k] == 0 ==> r[k].tried == []
    {
    }
    forall k, x | 0 <= k < 81 && values[k] == 0
      ensures x in r[k].possibilities <==> 1 <= x <= 9 && forall c :: 0 <= c < 81 && SameUnit(k, c) ==> values[c] != x
    {
      assert x in r[k].possibilities <==> 1 <= x <= 9 && FreeSoFar(values, 81, k, x);
    }
  }

  /**
   * `ConstructBoard` puts every given number in its cell with no candidates
   * and the number as its one tried value; every empty cell is unassigned,
   * has tried nothing, and offers exactly the digits that no given number
   * in its row, column or box equals.
   */
  lemma ConstructGivens(values: seq<int>)
    requires |values| == 81
    ensures WellFormed(Construct(values)) && Settled(Construct(values))
    ensures forall k :: 0 <= k < 81 ==> Construct(values)[k].value == values[k]
    ensures forall k :: 0 <= k < 81 && values[k] != 0 ==> Construct(values)[k].tried == [values[k]]
    ensures forall k :: 0 <= k < 81 && values[k] == 0 ==> Construct(values)[k].tried == []
    ensures forall k, x :: 0 <= k < 81 && values[k] == 0 ==>
              (x in Construct(values)[k].possibilities <==>
                 1 <= x <= 9 && forall c :: 0 <= c < 81 && SameUnit(k, c) ==> values[c] != x)
  {
    ConstructToEffect(values, 81);
    BuiltCells(values, Construct(values));
  }
}
