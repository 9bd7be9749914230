/**
 * One cell of the Sudoku grid (the source's `Entry`) and the operations the
 * solver performs on a single cell.
 *
 * The source mutates an `Entry` object in place; here a cell is a value and
 * each operation returns the cell's new state. The board replaces the cell in
 * its grid with that new state (see `SudokuBoard.Board`).
 */
module Entries {

  /** The candidate list of a fresh cell: `list(range(1, 10))`. */
  const Digits: seq<int> := [1, 2, 3, 4, 5, 6, 7, 8, 9]

  /**
   * A cell. `i` is its column and `j` its row: the source's field comments
   * say the opposite, but the board builds `spaces[r][c]` with `j == r` and
   * `i == c`, and every caller reads the row from `j`.
   * `value` is 0 while the cell is unassigned, `possibilities` is the sorted
   * candidate list and `tried` (the source's `assigned`) lists the values
   * already tried here.
   */
  datatype Entry = Entry(i: int, j: int, value: int, possibilities: seq<int>, tried: seq<int>)

  predicate Ascending(s: seq<int>)
  {
    forall a, b :: 0 <= a < b < |s| ==> s[a] < s[b]
  }

  predicate AllDigits(s: seq<int>)
  {
    forall x :: x in s ==> 1 <= x <= 9
  }

  /** The cell invariant: candidates are digits, strictly ascending, and never a value already tried. */
  predicate Valid(e: Entry)
  {
    AllDigits(e.possibilities) && Ascending(e.possibilities) &&
    forall x :: x in e.possibilities ==> x !in e.tried
  }

  /** Two entries are the same cell when their coordinates agree (`__eq__`). */
  predicate Same(a: Entry, b: Entry)
  {
    a.i == b.i && a.j == b.j
  }

  /** `Entry(0, i, j)`: an unassigned cell with every digit as candidate. */
  function Blank(i: int, j: int): (e: Entry)
    ensures Valid(e) && e.i == i && e.j == j && e.value == 0 && e.tried == []
    ensures forall x :: x in e.possibilities <==> 1 <= x <= 9
  {
    Entry(i, j, 0, Digits, [])
  }

  /** The fresh candidate list is strictly ascending. */
  lemma DigitsAscending()
    ensures Ascending(Digits) && AllDigits(Digits)
    ensures forall x :: x in Digits <==> 1 <= x <= 9
  {
    forall a, b | 0 <= a < b < |Digits| ensures Digits[a] < Digits[b] {
      assert Digits[a] == a + 1 && Digits[b] == b + 1;
    }
  }

  // ---------------------------------------------------------------------
  // Python list operations used by the cell

  /** Position of the first occurrence of `v` in `s`. */
  function IndexOf(s: seq<int>, v: int): (t: nat)
    requires v in s
    ensures t < |s| && s[t] == v
    ensures forall u :: 0 <= u < t ==> s[u] != v
  {
    if s[0] == v then 0 else 1 + IndexOf(s[1..], v)
  }

  /** Python's `list.remove(v)`: deletes the first occurrence of `v`. */
  function ListRemove(s: seq<int>, v: int): (r: seq<int>)
    requires v in s
    ensures |r| == |s| - 1
  {
    s[..IndexOf(s, v)] + s[IndexOf(s, v) + 1..]
  }

  /** Reference definition: the elements of `s` other than `v`, in their order. */
  function Without(s: seq<int>, v: int): seq<int>
  {
    if s == [] then [] else (if s[0] == v then [] else [s[0]]) + Without(s[1..], v)
  }

  /** Prepending an element below every element keeps a list ascending. */
  lemma AscendingCons(x: int, s: seq<int>)
    requires Ascending(s) && forall y :: y in s ==> x < y
    ensures Ascending([x] + s)
  {
    forall a, b | 0 <= a < b < |[x] + s| ensures ([x] + s)[a] < ([x] + s)[b] {
      if a > 0 {
        assert ([x] + s)[a] == s[a - 1];
      }
      assert ([x] + s)[b] == s[b - 1];
      assert s[b - 1] in s;
    }
  }

  /** The head of an ascending list is below every element of its tail. */
  lemma AscendingHead(s: seq<int>)
    requires Ascending(s) && s != []
    ensures Ascending(s[1..]) && forall y :: y in s[1..] ==> s[0] < y
  {
    forall y | y in s[1..] ensures s[0] < y {
      var t :| 0 <= t < |s[1..]| && s[1..][t] == y;
      assert s[t + 1] == y;
    }
  }

  /** `[p for p in s if p not in excluded]` */
  function Filter(s: seq<int>, excluded: seq<int>): (r: seq<int>)
    ensures forall x :: x in r <==> x in s && x !in excluded
    ensures Ascending(s) ==> Ascending(r)
  {
    if s == [] then []
    else
      var rest := Filter(s[1..], excluded);
      assert s == [s[0]] + s[1..];
      if s[0] in excluded then rest
      else
        (if Ascending(s) then AscendingHead(s); AscendingCons(s[0], rest); [s[0]] + rest
         else [s[0]] + rest)
  }

  /** Ordered insertion; on an ascending list it is `sorted(s + [v])` (see `InsertSortedAscending`). */
  function InsertSorted(s: seq<int>, v: int): (r: seq<int>)
    ensures multiset(r) == multiset(s) + multiset{v}
    ensures forall x :: x in r <==> x in s || x == v
  {
    if s == [] then [v]
    else if v < s[0] then [v] + s
    else
      assert s == [s[0]] + s[1..];
      [s[0]] + InsertSorted(s[1..], v)
  }

  lemma {:induction false} InsertSortedAscending(s: seq<int>, v: int)
    requires Ascending(s) && v !in s
    ensures Ascending(InsertSorted(s, v))
  {
    if s != [] {
      AscendingHead(s);
      if v < s[0] {
        AscendingCons(v, s);
      } else {
        InsertSortedAscending(s[1..], v);
        assert s == [s[0]] + s[1..];
        AscendingCons(s[0], InsertSorted(s[1..], v));
      }
    }
  }

  lemma {:induction false} WithoutMembers(s: seq<int>, v: int)
    ensures forall x :: x in Without(s, v) <==> x in s && x != v
    ensures Ascending(s) ==> Ascending(Without(s, v))
  {
    if s != [] {
      WithoutMembers(s[1..], v);
      assert s == [s[0]] + s[1..];
      if Ascending(s) {
        AscendingHead(s);
        if s[0] != v {
          AscendingCons(s[0], Without(s[1..], v));
        }
      }
    }
  }

  /**
   * On an ascending list, `list.remove` deletes exactly the element `v`
   * and keeps the others in their order.
   */
  lemma {:induction false} ListRemoveIsWithout(s: seq<int>, v: int)
    requires Ascending(s) && v in s
    ensures ListRemove(s, v) == Without(s, v)
  {
    if s[0] == v {
      WithoutNotIn(s[1..], v);
    } else {
      ListRemoveIsWithout(s[1..], v);
      assert s[1..][..IndexOf(s[1..], v)] + s[1..][IndexOf(s[1..], v) + 1..]
          == s[1..IndexOf(s, v)] + s[IndexOf(s, v) + 1..];
      assert s[..IndexOf(s, v)] == [s[0]] + s[1..IndexOf(s, v)];
    }
  }

  lemma {:induction false} WithoutNotIn(s: seq<int>, v: int)
    requires v !in s
    ensures Without(s, v) == s
  {
    if s != [] {
      WithoutNotIn(s[1..], v);
      assert s == [s[0]] + s[1..];
    }
  }

  /** `list.remove` on an ascending list keeps it ascending and drops exactly `v`. */
  lemma ListRemoveAscending(s: seq<int>, v: int)
    requires Ascending(s) && v in s
    ensures Ascending(ListRemove(s, v))
    ensures forall x :: x in ListRemove(s, v) <==> x in s && x != v
  {
    ListRemoveIsWithout(s, v);
    WithoutMembers(s, v);
  }

  // ---------------------------------------------------------------------
  // The cell operations

  /** `Entry.Remove`: drop `v` from the candidates if it is one of them. */
  function Remove(e: Entry, v: int): (r: Entry)
    ensures r.i == e.i && r.j == e.j && r.value == e.value && r.tried == e.tried
    ensures v !in e.possibilities ==> r == e
    ensures Valid(e) ==> Valid(r) && r.possibilities == Without(e.possibilities, v)
  {
    WithoutMembers(e.possibilities, v);
    if v in e.possibilities then
      (if Ascending(e.possibilities) then ListRemoveIsWithout(e.possibilities, v); e.(possibilities := ListRemove(e.possibilities, v))
       else e.(possibilities := ListRemove(e.possibilities, v)))
    else
      WithoutNotIn(e.possibilities, v);
      e
  }

  /** `Entry.Reset`: new candidates, and forget every value tried here. */
  function Reset(e: Entry, possibilities: seq<int>): (r: Entry)
    ensures r.i == e.i && r.j == e.j && r.value == e.value
    ensures r.possibilities == possibilities && r.tried == []
    ensures AllDigits(possibilities) && Ascending(possibilities) ==> Valid(r)
  {
    e.(possibilities := possibilities, tried := [])
  }

  /** `Entry.Update`: assign a non-zero value; 0 leaves the cell alone. */
  function Update(e: Entry, v: int): (r: Entry)
    ensures r.i == e.i && r.j == e.j
    ensures v == 0 ==> r == e
    ensures v != 0 ==> r.value == v && r.possibilities == [] && r.tried == e.tried + [v]
    ensures Valid(e) ==> Valid(r)
  {
    if v != 0 then e.(value := v, possibilities := [], tried := e.tried + [v]) else e
  }

  /** `Entry.AddPossibility`: re-offer `v` unless it is already offered or was tried here. */
  function AddPossibility(e: Entry, v: int): (r: Entry)
    ensures r.i == e.i && r.j == e.j && r.value == e.value && r.tried == e.tried
    ensures v in e.possibilities || v in e.tried ==> r == e
    ensures v !in e.possibilities && v !in e.tried ==>
              forall x :: x in r.possibilities <==> x in e.possibilities || x == v
    ensures Valid(e) && 1 <= v <= 9 ==> Valid(r)
  {
    if v !in e.possibilities && v !in e.tried then
      (if Ascending(e.possibilities) then InsertSortedAscending(e.possibilities, v); e.(possibilities := InsertSorted(e.possibilities, v))
       else e.(possibilities := InsertSorted(e.possibilities, v)))
    else e
  }

  /** `Entry.Restore`: unassign, and offer the given candidates minus the values tried here. */
  function Restore(e: Entry, possibilities: seq<int>): (r: Entry)
    ensures r.i == e.i && r.j == e.j && r.value == 0 && r.tried == e.tried
    ensures forall x :: x in r.possibilities <==> x in possibilities && x !in e.tried
    ensures AllDigits(possibilities) && Ascending(possibilities) ==> Valid(r)
  {
    e.(value := 0, possibilities := Filter(possibilities, e.tried))
  }

  // ---------------------------------------------------------------------
  // Properties of the cell operations

  /** Removing twice is removing once. */
  lemma RemoveIdempotent(e: Entry, v: int)
    requires Valid(e)
    ensures Remove(Remove(e, v), v) == Remove(e, v)
  {
    WithoutMembers(e.possibilities, v);
  }

  /** A value tried at this cell is never re-offered by `AddPossibility` or `Restore` (until `Reset`). */
  lemma TriedValueNotReoffered(e: Entry, v: int, possibilities: seq<int>)
    requires Valid(e) && v in e.tried
    ensures v !in AddPossibility(e, v).possibilities
    ensures v !in Restore(e, possibilities).possibilities
  {
  }
}
