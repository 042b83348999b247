/**
 * Pure definitions behind the generator: where a cell sits, which of the
 * 27 shared candidate sets it belongs to, the digits a cell may take, and
 * the invariant that ties the cells' values to the candidate sets.
 *
 * The 27 candidate sets live in one arena.  Cell `i = y * 9 + x` uses the
 * "row" set `x` (the source indexes `rows` by `x`), the "column" set
 * `9 + y` (`cols[y]`) and the box set `18 + (y / 3) * 3 + x / 3`
 * (`grps[floor(y / 3) * 3 + floor(x / 3)]`).
 */
module Sudoku {

  /** The digits `options` inspects, in the order it inspects them. */
  const Digits: seq<int> := [1, 2, 3, 4, 5, 6, 7, 8, 9]

  /** What every candidate set holds when it is created: 1 up to 10. */
  const InitialSet: set<int> := {1, 2, 3, 4, 5, 6, 7, 8, 9, 10}

  const CellCount: nat := 81
  const SetCount: nat := 27

  /** An index into the arena of candidate sets. */
  type SetId = k: nat | k < 27

  /** Position of cell (x, y) in the field's cell array, `y * 9 + x`. */
  function CellIndex(x: nat, y: nat): (i: nat)
    requires x < 9 && y < 9
    ensures i < CellCount
    ensures i % 9 == x && i / 9 == y
  {
    y * 9 + x
  }

  /** Index of the 3x3 box holding (x, y): its band is `y / 3`, its stack `x / 3`. */
  function BoxIndex(x: nat, y: nat): (b: nat)
    requires x < 9 && y < 9
    ensures b < 9
    ensures b / 3 == y / 3 && b % 3 == x / 3
  {
    (y / 3) * 3 + x / 3
  }

  /** Arena index of the row set of cell `i` (`rows[x]`). */
  function RowSet(i: nat): (k: nat)
    requires i < CellCount
    ensures k < 9
  {
    i % 9
  }

  /** Arena index of the column set of cell `i` (`cols[y]`). */
  function ColSet(i: nat): (k: nat)
    requires i < CellCount
    ensures 9 <= k < 18
  {
    9 + i / 9
  }

  /** Arena index of the box set of cell `i`. */
  function BoxSet(i: nat): (k: nat)
    requires i < CellCount
    ensures 18 <= k < 27
  {
    18 + BoxIndex(i % 9, i / 9)
  }

  /** Cell `i` shares candidate set `k`. */
  predicate InSet(i: nat, k: nat)
    requires i < CellCount
  {
    k == RowSet(i) || k == ColSet(i) || k == BoxSet(i)
  }

  /** Cells `i` and `j` share at least one candidate set. */
  predicate ShareSet(i: nat, j: nat)
    requires i < CellCount && j < CellCount
  {
    RowSet(i) == RowSet(j) || ColSet(i) == ColSet(j) || BoxSet(i) == BoxSet(j)
  }

  ghost predicate Increasing(s: seq<int>)
  {
    forall i, j :: 0 <= i < j < |s| ==> s[i] < s[j]
  }

  /**
   * The `filter` in `options`: the elements of `ds`, in their order, that
   * are in all three sets.
   */
  function KeepShared(ds: seq<int>, row: set<int>, col: set<int>, grp: set<int>): (r: seq<int>)
    ensures |r| <= |ds|
    ensures forall d :: d in r <==> d in ds && d in row && d in col && d in grp
    ensures Increasing(ds) ==> Increasing(r)
    decreases |ds|
  {
    if ds == [] then []
    else
      var rest := KeepShared(ds[1..], row, col, grp);
      assert ds == [ds[0]] + ds[1..];
      KeepHead(ds, rest);
      if ds[0] in col && ds[0] in row && ds[0] in grp then [ds[0]] + rest else rest
  }

  /** Keeping the head of an ascending list in front of a kept part of its tail stays ascending. */
  lemma KeepHead(ds: seq<int>, rest: seq<int>)
    requires ds != []
    requires forall d :: d in rest ==> d in ds[1..]
    requires Increasing(ds[1..]) ==> Increasing(rest)
    ensures Increasing(ds) ==> Increasing(ds[1..]) && Increasing([ds[0]] + rest)
  {
    if Increasing(ds) {
      var s := [ds[0]] + rest;
      forall i, j | 0 <= i < j < |s|
        ensures s[i] < s[j]
      {
        if i == 0 {
          assert rest[j - 1] in rest;
        }
      }
    }
  }

  /**
   * The options of a cell whose three sets are `row`, `col` and `grp`:
   * exactly the digits 1..9 in all three, in ascending order.
   */
  function Candidates(row: set<int>, col: set<int>, grp: set<int>): (r: seq<int>)
    ensures |r| <= 9
    ensures Increasing(r)
    ensures forall d :: d in r <==> 1 <= d <= 9 && d in row && d in col && d in grp
  {
    DigitsAscend();
    KeepShared(Digits, row, col, grp)
  }

  lemma DigitsAscend()
    ensures Increasing(Digits)
    ensures forall d :: d in Digits <==> 1 <= d <= 9
  {
    forall d | 1 <= d <= 9
      ensures d in Digits
    {
      assert Digits[d - 1] == d;
    }
  }

  /** Position `m` holds the smallest count of `c`, and no earlier position does. */
  ghost predicate FirstMinimum(c: seq<int>, m: nat)
  {
    m < |c| &&
    (forall j :: 0 <= j < |c| ==> c[m] <= c[j]) &&
    (forall j :: 0 <= j < m ==> c[m] < c[j])
  }

  /** One more count either takes over as the first minimum (if strictly smaller) or leaves it. */
  lemma MinimumExtends(c: seq<int>, n: int, m: nat)
    requires FirstMinimum(c, m)
    ensures n < c[m] ==> FirstMinimum(c + [n], |c|)
    ensures c[m] <= n ==> FirstMinimum(c + [n], m)
  {
  }

  /** Every non-empty list of counts has exactly one first minimum. */
  lemma {:induction false} FirstMinimumUnique(c: seq<int>)
    requires c != []
    ensures exists m :: FirstMinimum(c, m)
    ensures forall m, m' :: FirstMinimum(c, m) && FirstMinimum(c, m') ==> m == m'
  {
    if |c| == 1 {
      assert FirstMinimum(c, 0);
    } else {
      var init := c[..|c| - 1];
      FirstMinimumUnique(init);
      var m :| FirstMinimum(init, m);
      assert c == init + [c[|c| - 1]];
      MinimumExtends(init, c[|c| - 1], m);
    }
  }

  /** How many options cell `i` has when the candidate sets are `sets`. */
  function OptionCount(sets: seq<set<int>>, i: nat): nat
    requires |sets| == SetCount && i < CellCount
  {
    |Candidates(sets[RowSet(i)], sets[ColSet(i)], sets[BoxSet(i)])|
  }

  /** The option counts of the cells listed in `remaining`, in list order. */
  function Counts(sets: seq<set<int>>, remaining: seq<nat>): (c: seq<nat>)
    requires |sets| == SetCount
    requires forall j :: 0 <= j < |remaining| ==> remaining[j] < CellCount
    ensures |c| == |remaining|
    decreases |remaining|
  {
    if remaining == [] then []
    else Counts(sets, remaining[..|remaining| - 1]) + [OptionCount(sets, remaining[|remaining| - 1])]
  }

  /** Entry `j` of `Counts` is the option count of the `j`-th listed cell. */
  lemma {:induction false} CountsAt(sets: seq<set<int>>, remaining: seq<nat>, j: nat)
    requires |sets| == SetCount
    requires forall j :: 0 <= j < |remaining| ==> remaining[j] < CellCount
    requires j < |remaining|
    ensures Counts(sets, remaining)[j] == OptionCount(sets, remaining[j])
    decreases |remaining|
  {
    if j < |remaining| - 1 {
      CountsAt(sets, remaining[..|remaining| - 1], j);
    }
  }

  /**
   * The first minimum of the counts is a cell with no more options than
   * the cell at any position `j` of the list, and with strictly fewer
   * when `j` comes before it.
   */
  lemma FewestOptions(sets: seq<set<int>>, remaining: seq<nat>, m: nat, j: nat)
    requires |sets| == SetCount
    requires forall j :: 0 <= j < |remaining| ==> remaining[j] < CellCount
    requires FirstMinimum(Counts(sets, remaining), m) && j < |remaining|
    ensures OptionCount(sets, remaining[m]) <= OptionCount(sets, remaining[j])
    ensures j < m ==> OptionCount(sets, remaining[m]) < OptionCount(sets, remaining[j])
  {
    CountsAt(sets, remaining, m);
    CountsAt(sets, remaining, j);
  }

  /** Some cell of set `k` holds digit `d`. */
  ghost predicate Held(vals: seq<int>, k: nat, d: int)
  {
    exists i :: 0 <= i < |vals| && i < CellCount && InSet(i, k) && vals[i] == d
  }

  /**
   * The grid invariant kept while filling.  `vals` are the 81 cell values
   * (0 for a cell not yet collapsed), `sets` the 27 candidate sets:
   * every value is 0 or a digit; no two cells sharing a set hold the same
   * digit; a digit is missing from a set exactly when some cell of that set
   * holds it; and every set is still within 1..10 and still holds 10.
   */
  ghost predicate Consistent(vals: seq<int>, sets: seq<set<int>>)
  {
    |vals| == CellCount && |sets| == SetCount &&
    (forall i :: 0 <= i < CellCount ==> vals[i] == 0 || 1 <= vals[i] <= 9) &&
    (forall i, j :: 0 <= i < CellCount && 0 <= j < CellCount && i != j && ShareSet(i, j) && vals[i] != 0 ==>
       vals[i] != vals[j]) &&
    (forall k, d :: 0 <= k < SetCount && 1 <= d <= 9 ==> (d in sets[k] <==> !Held(vals, k, d))) &&
    (forall k :: 0 <= k < SetCount ==> 10 in sets[k] && sets[k] <= InitialSet)
  }

  /** A complete and valid grid: every value a digit, no digit twice in a set. */
  ghost predicate Solved(vals: seq<int>)
  {
    |vals| == CellCount &&
    (forall i :: 0 <= i < CellCount ==> 1 <= vals[i] <= 9) &&
    (forall i, j :: 0 <= i < CellCount && 0 <= j < CellCount && i != j && ShareSet(i, j) ==> vals[i] != vals[j])
  }

  /** The naturals below `n`. */
  function Below(n: nat): (r: set<nat>)
    ensures forall i :: i in r <==> 0 <= i < n
  {
    if n == 0 then {} else Below(n - 1) + {n - 1}
  }

  /** The list 0, 1, ..., n - 1 holds each natural below `n` once. */
  lemma {:induction false} IndicesOnce(n: nat)
    ensures multiset(seq(n, i => i)) == multiset(Below(n))
  {
    if n > 0 {
      IndicesOnce(n - 1);
      assert seq(n, i => i) == seq(n - 1, i => i) + [n - 1];
      assert n - 1 !in Below(n - 1);
    }
  }

  /** The cells not yet collapsed. */
  function Unresolved(vals: seq<int>): (u: set<nat>)
    ensures forall i :: i in u <==> 0 <= i < |vals| && vals[i] == 0
  {
    set i: nat | i < |vals| && vals[i] == 0
  }

  /** A list holding exactly the unresolved cells lists only cells whose value is 0. */
  lemma ListedUnresolved(listed: seq<nat>, vals: seq<int>, p: nat)
    requires multiset(listed) == multiset(Unresolved(vals)) && p < |listed|
    ensures listed[p] < |vals| && vals[listed[p]] == 0
  {
    assert listed[p] in multiset(listed);
    assert listed[p] in Unresolved(vals);
  }

  /** Collapsing unresolved cell `i` to a digit takes exactly `i` off the unresolved cells. */
  lemma ResolveOne(vals: seq<int>, i: nat, d: int)
    requires i < |vals| && vals[i] == 0 && d != 0
    ensures Unresolved(vals[i := d]) == Unresolved(vals) - {i}
    ensures multiset(Unresolved(vals[i := d])) == multiset(Unresolved(vals)) - multiset{i}
  {
  }

  /** The candidate sets after cell `i` collapsed to `d`: `d` leaves its three sets. */
  function Eliminated(sets: seq<set<int>>, i: nat, d: int): (r: seq<set<int>>)
    requires i < CellCount
    ensures |r| == |sets|
    ensures forall k :: 0 <= k < |sets| && InSet(i, k) ==> r[k] == sets[k] - {d}
    ensures forall k :: 0 <= k < |sets| && !InSet(i, k) ==> r[k] == sets[k]
  {
    seq(|sets|, k requires 0 <= k < |sets| => if InSet(i, k) then sets[k] - {d} else sets[k])
  }

  /** Freshly initialized candidate sets, each 1..10. */
  function InitialSets(): (sets: seq<set<int>>)
    ensures |sets| == SetCount
    ensures forall k :: 0 <= k < SetCount ==> sets[k] == InitialSet
  {
    seq(SetCount, _ => InitialSet)
  }

  /** The values of a freshly initialized field: all 81 cells 0. */
  function EmptyGrid(): (vals: seq<int>)
    ensures |vals| == CellCount
    ensures forall i :: 0 <= i < CellCount ==> vals[i] == 0
  {
    seq(CellCount, _ => 0)
  }

  /** A freshly initialized field satisfies the invariant. */
  lemma InitialConsistent()
    ensures Consistent(EmptyGrid(), InitialSets())
  {
    var vals := EmptyGrid();
    forall k, d | 0 <= k < SetCount && 1 <= d <= 9
      ensures d in InitialSets()[k] <==> !Held(vals, k, d)
    {
      assert d in InitialSet;
    }
  }

  /** Two cells that share a set have a set `k` in common. */
  lemma SharedSet(i: nat, j: nat) returns (k: nat)
    requires i < CellCount && j < CellCount && ShareSet(i, j)
    ensures k < SetCount && InSet(i, k) && InSet(j, k)
  {
    if RowSet(i) == RowSet(j) {
      k := RowSet(i);
    } else if ColSet(i) == ColSet(j) {
      k := ColSet(i);
    } else {
      k := BoxSet(i);
    }
  }

  /**
   * Under the invariant, the options of cell `i` are the legal digits: a
   * digit is in all three of its sets exactly when no cell sharing a set
   * with `i` holds it.
   */
  lemma OptionsAreLegal(vals: seq<int>, sets: seq<set<int>>, i: nat, d: int)
    requires Consistent(vals, sets) && i < CellCount && 1 <= d <= 9
    ensures d in Candidates(sets[RowSet(i)], sets[ColSet(i)], sets[BoxSet(i)]) <==>
            forall j :: 0 <= j < CellCount && ShareSet(i, j) ==> vals[j] != d
  {
    if d in Candidates(sets[RowSet(i)], sets[ColSet(i)], sets[BoxSet(i)]) {
      forall j | 0 <= j < CellCount && ShareSet(i, j)
        ensures vals[j] != d
      {
        var k := SharedSet(i, j);
        assert d in sets[k];
      }
    } else {
      var k :| k in {RowSet(i), ColSet(i), BoxSet(i)} && d !in sets[k];
      var j :| 0 <= j < |vals| && j < CellCount && InSet(j, k) && vals[j] == d;
      assert ShareSet(i, j);
    }
  }

  /**
   * Collapsing an unresolved cell to one of its options keeps the
   * invariant: the digit leaves the cell's three sets and nowhere else.
   */
  lemma CollapsePreservesConsistent(vals: seq<int>, sets: seq<set<int>>, i: nat, d: int)
    requires Consistent(vals, sets) && i < CellCount && vals[i] == 0
    requires 1 <= d <= 9 && d in sets[RowSet(i)] && d in sets[ColSet(i)] && d in sets[BoxSet(i)]
    ensures Consistent(vals[i := d], Eliminated(sets, i, d))
  {
    var vals', sets' := vals[i := d], Eliminated(sets, i, d);
    CollapseKeepsDistinct(vals, sets, i, d);
    CollapseKeepsHeld(vals, sets, i, d);
    assert forall j :: 0 <= j < CellCount ==> vals'[j] == 0 || 1 <= vals'[j] <= 9;
    assert forall k :: 0 <= k < SetCount ==> 10 in sets'[k] && sets'[k] <= InitialSet;
  }

  lemma CollapseKeepsDistinct(vals: seq<int>, sets: seq<set<int>>, i: nat, d: int)
    requires Consistent(vals, sets) && i < CellCount && vals[i] == 0
    requires 1 <= d <= 9 && d in sets[RowSet(i)] && d in sets[ColSet(i)] && d in sets[BoxSet(i)]
    ensures forall a, b :: 0 <= a < CellCount && 0 <= b < CellCount && a != b && ShareSet(a, b) && vals[i := d][a] != 0 ==>
              vals[i := d][a] != vals[i := d][b]
  {
    var vals' := vals[i := d];
    forall a, b | 0 <= a < CellCount && 0 <= b < CellCount && a != b && ShareSet(a, b) && vals'[a] != 0
      ensures vals'[a] != vals'[b]
    {
      if a == i || b == i {
        var other := if a == i then b else a;
        assert ShareSet(i, other);
        var k := SharedSet(i, other);
        assert d in sets[k] && !Held(vals, k, d);
        assert vals[other] != d;
      }
    }
  }

  lemma CollapseKeepsHeld(vals: seq<int>, sets: seq<set<int>>, i: nat, d: int)
    requires Consistent(vals, sets) && i < CellCount && vals[i] == 0 && 1 <= d <= 9
    ensures forall k, e :: 0 <= k < SetCount && 1 <= e <= 9 ==>
              (e in Eliminated(sets, i, d)[k] <==> !Held(vals[i := d], k, e))
  {
    var vals', sets' := vals[i := d], Eliminated(sets, i, d);
    forall k, e | 0 <= k < SetCount && 1 <= e <= 9
      ensures e in sets'[k] <==> !Held(vals', k, e)
    {
      if InSet(i, k) && e == d {
        assert vals'[i] == e;
        assert Held(vals', k, e);
      } else {
        if Held(vals', k, e) {
          var j :| 0 <= j < |vals'| && j < CellCount && InSet(j, k) && vals'[j] == e;
          assert j != i;
          assert Held(vals, k, e);
        }
        if Held(vals, k, e) {
          var j :| 0 <= j < |vals| && j < CellCount && InSet(j, k) && vals[j] == e;
          assert vals'[j] == e;
          assert Held(vals', k, e);
        }
      }
    }
  }

  /** When the list of unresolved cells has run empty, the grid is solved. */
  lemma EmptyListSolved(vals: seq<int>, sets: seq<set<int>>)
    requires Consistent(vals, sets) && multiset(Unresolved(vals)) == multiset{}
    ensures Solved(vals)
  {
    assert |multiset(Unresolved(vals))| == 0;
    CompleteIsSolved(vals, sets);
  }

  /** Once no cell is unresolved, the invariant makes the grid a solved one. */
  lemma CompleteIsSolved(vals: seq<int>, sets: seq<set<int>>)
    requires Consistent(vals, sets) && Unresolved(vals) == {}
    ensures Solved(vals)
  {
    forall i | 0 <= i < CellCount
      ensures vals[i] != 0
    {
      assert i !in Unresolved(vals);
    }
  }
}
