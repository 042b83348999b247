/**
 * The 9x9 field: 81 cells indexed as `y * 9 + x` and the arena of 27
 * candidate sets they share.  `Generate` fills the field by the
 * minimum-remaining-values rule and starts over from a fresh field when a
 * fill attempt runs into a dead end, at most 100 times.
 */
module Fields {
  import opened Arrays
  import opened Sudoku
  import opened Cells

  /** How many fill attempts `Generate` makes before giving up. */
  const MaxAttempts: nat := 100

  /** Cells `i` and `j` with the same row set and the same column set are one cell. */
  lemma SameSetsSameCell(i: nat, j: nat)
    requires i < CellCount && j < CellCount
    ensures RowSet(i) == RowSet(j) && ColSet(i) == ColSet(j) ==> i == j
  {
  }

  class Field {
    /** The cells, indexed as `y * 9 + x`; empty slots until the first `Initialize`. */
    const cells: array<Cell?>
    /** The 27 shared candidate sets: row sets 0..8, column sets 9..17, box sets 18..26. */
    var sets: array<set<int>>

    constructor ()
      ensures fresh(cells) && cells.Length == CellCount
      ensures forall i :: 0 <= i < CellCount ==> cells[i] == null
    {
      cells := new Cell?[CellCount](_ => null);
      sets := new set<int>[0];
    }

    /** All 81 cells and all 27 sets are there. */
    ghost predicate Present()
      reads this, cells
    {
      cells.Length == CellCount && sets.Length == SetCount &&
      forall i :: 0 <= i < CellCount ==> cells[i] != null
    }

    /** Cell `i` uses the row, column and box sets of its position. */
    ghost predicate WiredAt(i: nat)
      requires Present() && i < CellCount
      reads this, cells
    {
      cells[i].row == RowSet(i) && cells[i].col == ColSet(i) && cells[i].grp == BoxSet(i)
    }

    /** Every cell is present and uses the three sets its position calls for. */
    ghost predicate Wired()
      reads this, cells
    {
      Present() && forall i :: 0 <= i < CellCount ==> WiredAt(i)
    }

    ghost function CellObjects(): set<object>
      reads this, cells
    {
      set i | 0 <= i < cells.Length && cells[i] != null :: cells[i]
    }

    /** Some unresolved cell has no options left: the dead end a fill attempt can run into. */
    ghost predicate Stuck()
      requires Wired()
      reads this, cells, sets, CellObjects()
    {
      exists i :: 0 <= i < CellCount && Values()[i] == 0 && cells[i].NoOptions(sets[..])
    }

    /** The 81 values, cell by cell. */
    ghost function Values(): (vals: seq<int>)
      requires Present()
      reads this, cells, CellObjects()
      ensures |vals| == CellCount
      ensures forall i :: 0 <= i < CellCount ==> vals[i] == cells[i].value
    {
      seq(CellCount, i requires 0 <= i < cells.Length && cells[i] != null reads this, cells, CellObjects() => cells[i].value)
    }

    /** The cell at column `x` and row `y`: the one wired to `rows[x]`, `cols[y]` and its box. */
    function At(x: nat, y: nat): (c: Cell?)
      requires x < 9 && y < 9 && cells.Length == CellCount
      reads this, cells
      ensures Wired() ==> c != null && c.row == x && c.col == 9 + y && c.grp == 18 + BoxIndex(x, y)
    {
      assert Wired() ==> WiredAt(CellIndex(x, y));
      cells[CellIndex(x, y)]
    }

    /**
     * Builds 27 fresh candidate sets, each 1..10, and 81 fresh cells with
     * value 0, cell `y * 9 + x` wired to `rows[x]`, `cols[y]` and
     * `grps[floor(y / 3) * 3 + floor(x / 3)]`.
     */
    method Initialize()
      requires cells.Length == CellCount
      modifies this, cells
      ensures Wired()
      ensures fresh(sets) && sets[..] == InitialSets()
      ensures forall i :: 0 <= i < CellCount ==> fresh(cells[i])
      ensures Values() == EmptyGrid()
    {
      var arena := NewSets();
      PlaceCells();
      forall i | 0 <= i < CellCount
        ensures cells[i] != null && fresh(cells[i]) && cells[i].value == 0
        ensures cells[i].row == RowSet(i) && cells[i].col == ColSet(i) && cells[i].grp == BoxSet(i)
      {
        assert i == CellIndex(i % 9, i / 9);
      }
      sets := arena;
      assert Present();
      forall i | 0 <= i < CellCount ensures WiredAt(i) { }
      assert Values() == EmptyGrid();
    }

    /** The candidate sets: `rows[idx]` at `idx`, `cols[idx]` at `9 + idx`, `grps[idx]` at `18 + idx`, each 1..10. */
    static method NewSets() returns (arena: array<set<int>>)
      ensures fresh(arena) && arena[..] == InitialSets()
    {
      var opts := InitialSet;
      arena := new set<int>[SetCount];
      for idx := 0 to 9
        invariant forall k :: 0 <= k < SetCount && k % 9 < idx ==> arena[k] == opts
      {
        arena[idx] := opts;
        arena[18 + idx] := opts;
        arena[9 + idx] := opts;
      }
      forall k | 0 <= k < SetCount ensures arena[k] == InitialSet {
        assert k % 9 < 9;
      }
    }

    /** Fills every slot with a new cell of value 0, wired to the sets of its position. */
    method PlaceCells()
      requires cells.Length == CellCount
      modifies cells
      ensures forall x, y :: 0 <= x < 9 && 0 <= y < 9 ==>
                var c := cells[CellIndex(x, y)];
                c != null && fresh(c) && c.value == 0 && c.row == x && c.col == 9 + y && c.grp == 18 + BoxIndex(x, y)
    {
      for x := 0 to 9
        invariant forall x', y' :: 0 <= x' < x && 0 <= y' < 9 ==>
                    var c := cells[CellIndex(x', y')];
                    c != null && fresh(c) && c.value == 0 && c.row == x' && c.col == 9 + y' && c.grp == 18 + BoxIndex(x', y')
      {
        PlaceColumn(x);
      }
    }

    /** The inner loop of the placement: the nine cells of column `x`, row by row. */
    method PlaceColumn(x: nat)
      requires x < 9 && cells.Length == CellCount
      modifies cells
      ensures forall i :: 0 <= i < CellCount && i % 9 != x ==> cells[i] == old(cells[i])
      ensures forall y' :: 0 <= y' < 9 ==>
                var c := cells[CellIndex(x, y')];
                c != null && fresh(c) && c.value == 0 && c.row == x && c.col == 9 + y' && c.grp == 18 + BoxIndex(x, y')
    {
      var row := x;
      for y := 0 to 9
        invariant forall i :: 0 <= i < CellCount && i % 9 != x ==> cells[i] == old(cells[i])
        invariant forall y' :: 0 <= y' < y ==>
                    var c := cells[CellIndex(x, y')];
                    c != null && fresh(c) && c.value == 0 && c.row == x && c.col == 9 + y' && c.grp == 18 + BoxIndex(x, y')
      {
        var col := 9 + y;
        var grp := 18 + BoxIndex(x, y);
        ghost var before := cells[..];
        cells[CellIndex(x, y)] := new Cell(row, col, grp);
        assert forall y' :: 0 <= y' < y ==> cells[CellIndex(x, y')] == before[CellIndex(x, y')];
      }
    }

    /**
     * The minimum-remaining-values scan: the first position in `remaining`
     * whose cell has the fewest options.  Every cell has at most 9 options,
     * fewer than the starting bound 10, so a cell is found whenever the list
     * is not empty.
     */
    method FindLowest(remaining: array<nat>) returns (lowestIdx: nat, lowestCell: Cell?)
      requires Wired()
      requires forall j :: 0 <= j < remaining.Length ==> remaining[j] < CellCount
      ensures lowestCell == null <==> remaining.Length == 0
      ensures lowestCell != null ==>
                FirstMinimum(Counts(sets[..], remaining[..]), lowestIdx) && lowestCell == cells[remaining[lowestIdx]]
    {
      var lowestNum := 10;
      lowestIdx := 0;
      lowestCell := null;
      ghost var counts: seq<nat> := [];
      for idx := 0 to remaining.Length
        invariant counts == Counts(sets[..], remaining[..idx])
        invariant lowestCell == null <==> idx == 0
        invariant lowestCell == null ==> lowestIdx == 0 && lowestNum == 10
        invariant lowestCell != null ==>
                    FirstMinimum(counts, lowestIdx) && lowestNum == counts[lowestIdx] &&
                    lowestCell == cells[remaining[lowestIdx]]
      {
        assert WiredAt(remaining[idx]);
        var opts := cells[remaining[idx]].Options(sets);
        if lowestCell != null {
          MinimumExtends(counts, |opts|, lowestIdx);
        }
        assert remaining[..idx + 1][..idx] == remaining[..idx];
        counts := counts + [|opts|];
        if |opts| < lowestNum {
          lowestNum := |opts|;
          lowestIdx := idx;
          lowestCell := cells[remaining[idx]];
        }
      }
      assert remaining[..remaining.Length] == remaining[..];
    }

    /**
     * One fill attempt on a freshly initialized field: until no cell is
     * left, shuffle the list of unresolved cells, pick the first with the
     * fewest options, collapse it and drop it from the list.  A cell with
     * no options ends the attempt with a failure.  Each round collapses one
     * cell, so an attempt collapses at most 81; a complete one leaves a
     * solved grid.  The list is never empty when a round starts, so the
     * "unsolvable field" failure cannot happen.
     */
    method Fill() returns (outcome: Outcome, ghost collapses: nat)
      requires Wired()
      requires sets[..] == InitialSets() && Values() == EmptyGrid()
      modifies sets, CellObjects()
      ensures Wired()
      ensures collapses <= CellCount
      ensures outcome.Pass? ==> collapses == CellCount && Solved(Values())
      ensures outcome.Fail? ==> outcome.error == UnsolvableCell && Stuck()
    {
      InitialConsistent();
      var remaining := new nat[CellCount](i => i);
      assert multiset(remaining[..]) == multiset(Unresolved(Values())) by {
        assert remaining[..] == seq(CellCount, i => i);
        IndicesOnce(CellCount);
        assert Unresolved(Values()) == Below(CellCount);
      }
      collapses := 0;
      while remaining.Length > 0
        invariant fresh(remaining)
        invariant Wired()
        invariant Consistent(Values(), sets[..])
        invariant multiset(remaining[..]) == multiset(Unresolved(Values()))
        invariant collapses + remaining.Length == CellCount
        decreases remaining.Length
      {
        var step, next, _, _ := Round(remaining);
        if step.Fail? {
          return step, collapses;
        }
        remaining := next;
        collapses := collapses + 1;
      }
      assert remaining[..] == [];
      EmptyListSolved(Values(), sets[..]);
      return Pass, collapses;
    }

    /** A cell without options, taken from a list of exactly the unresolved cells, is a dead end. */
    lemma StuckOn(listed: seq<nat>, p: nat)
      requires Wired() && multiset(listed) == multiset(Unresolved(Values()))
      requires p < |listed| && listed[p] < CellCount && cells[listed[p]].NoOptions(sets[..])
      ensures Stuck()
    {
      ListedUnresolved(listed, Values(), p);
    }

    /**
     * The head of a fill round: shuffle the list of unresolved cells in
     * place, then scan it for the first cell with the fewest options.  Only
     * the list changes, and only its order.
     */
    method PickLowest(remaining: array<nat>) returns (lowestIdx: nat, lowestCell: Cell?, ghost choices: seq<nat>)
      requires Wired()
      requires forall j :: 0 <= j < remaining.Length ==> remaining[j] < CellCount
      modifies remaining
      ensures Wired() && Values() == old(Values()) && sets[..] == old(sets[..])
      ensures ValidChoices(choices, remaining.Length) && remaining[..] == Shuffled(old(remaining[..]), choices)
      ensures multiset(remaining[..]) == old(multiset(remaining[..]))
      ensures forall j :: 0 <= j < remaining.Length ==> remaining[j] < CellCount
      ensures lowestCell == null <==> remaining.Length == 0
      ensures lowestCell != null ==>
                FirstMinimum(Counts(sets[..], remaining[..]), lowestIdx) && lowestCell == cells[remaining[lowestIdx]]
    {
      choices := ShuffleIndices(remaining);
      lowestIdx, lowestCell := FindLowest(remaining);
    }

    /** Shuffles the list of unresolved cell indices; it still lists the same cells. */
    static method ShuffleIndices(remaining: array<nat>) returns (ghost choices: seq<nat>)
      requires forall j :: 0 <= j < remaining.Length ==> remaining[j] < CellCount
      modifies remaining
      ensures ValidChoices(choices, remaining.Length) && remaining[..] == Shuffled(old(remaining[..]), choices)
      ensures multiset(remaining[..]) == old(multiset(remaining[..]))
      ensures forall j :: 0 <= j < remaining.Length ==> remaining[j] < CellCount
    {
      var shuffled;
      shuffled, choices := ShuffleArray(remaining);
      forall j | 0 <= j < remaining.Length
        ensures remaining[j] < CellCount
      {
        assert remaining[j] in multiset(remaining[..]);
      }
    }

    /**
     * One pass of the fill loop over the list `remaining` of unresolved
     * cells: shuffle the list, pick the first cell with the fewest options,
     * collapse it and hand back the list without it.  An empty list fails
     * with `UnsolvableField`, a cell without options with `UnsolvableCell`.
     * A pass keeps the grid invariant and the list in step with the cells
     * still unresolved.
     */
    method Round(remaining: array<nat>) returns (outcome: Outcome, next: array<nat>, ghost choices: seq<nat>, ghost at: nat)
      requires Wired() && Consistent(Values(), sets[..])
      requires multiset(remaining[..]) == multiset(Unresolved(Values()))
      modifies remaining, sets, CellObjects()
      ensures Wired()
      ensures ValidChoices(choices, remaining.Length) && remaining[..] == Shuffled(old(remaining[..]), choices)
      ensures multiset(remaining[..]) == old(multiset(remaining[..]))
      ensures forall j :: 0 <= j < remaining.Length ==> remaining[j] < CellCount
      ensures remaining.Length == 0 ==> outcome == Fail(UnsolvableField)
      ensures remaining.Length > 0 ==> FirstMinimum(Counts(old(sets[..]), remaining[..]), at)
      ensures outcome.Fail? && remaining.Length > 0 ==> outcome.error == UnsolvableCell
      ensures remaining.Length > 0 ==> (outcome.Fail? <==> cells[remaining[at]].NoOptions(old(sets[..])))
      ensures outcome.Fail? ==> Values() == old(Values()) && sets[..] == old(sets[..])
      ensures outcome.Fail? && remaining.Length > 0 ==> Stuck()
      ensures outcome.Pass? ==>
                1 <= Values()[remaining[at]] <= 9 &&
                Values() == old(Values())[remaining[at] := Values()[remaining[at]]]
      ensures outcome.Pass? ==>
                fresh(next) && next[..] == remaining[..at] + remaining[at + 1..] &&
                Consistent(Values(), sets[..]) &&
                multiset(next[..]) == multiset(Unresolved(Values()))
    {
      next := remaining;
      forall j | 0 <= j < remaining.Length ensures remaining[j] < CellCount {
        assert remaining[j] in multiset(remaining[..]);
      }
      var lowestIdx, lowestCell;
      lowestIdx, lowestCell, choices := PickLowest(remaining);
      at := lowestIdx;
      if lowestCell == null {
        return Fail(UnsolvableField), next, choices, at;
      }
      outcome, next := CollapseListed(remaining, lowestIdx);
    }

    /**
     * The tail of a fill round: collapse the cell at position `at` of the
     * list and hand back the list without that position.  The cell list
     * itself is not changed; the shorter list is a new array.
     */
    method CollapseListed(remaining: array<nat>, at: nat) returns (outcome: Outcome, next: array<nat>)
      requires Wired() && Consistent(Values(), sets[..])
      requires multiset(remaining[..]) == multiset(Unresolved(Values()))
      requires forall j :: 0 <= j < remaining.Length ==> remaining[j] < CellCount
      requires at < remaining.Length
      modifies sets, CellObjects()
      ensures Wired()
      ensures outcome.Fail? <==> cells[remaining[at]].NoOptions(old(sets[..]))
      ensures outcome.Fail? ==>
                outcome.error == UnsolvableCell && Values() == old(Values()) && sets[..] == old(sets[..])
      ensures outcome.Fail? ==> Stuck()
      ensures outcome.Pass? ==>
                1 <= Values()[remaining[at]] <= 9 &&
                Values() == old(Values())[remaining[at] := Values()[remaining[at]]]
      ensures outcome.Pass? ==>
                fresh(next) && next[..] == remaining[..at] + remaining[at + 1..] &&
                Consistent(Values(), sets[..]) &&
                multiset(next[..]) == multiset(Unresolved(Values()))
    {
      next := remaining;
      ghost var vals := Values();
      ghost var i := remaining[at];
      assert i in multiset(remaining[..]);
      var r := CollapseCell(remaining[at]);
      if r.Failure? {
        StuckOn(remaining[..], at);
        return Fail(r.error), next;
      }

      ghost var vals', cur' := Values(), sets[..];
      next := SpliceResolved(remaining, at, vals, r.value);
      assert Values() == vals' && sets[..] == cur';
      assert Wired();
      return Pass, next;
    }

    /**
     * `splice` of the list entry at `at` once its cell has been given the
     * digit `d`: the list still holds exactly the unresolved cells.
     */
    static method SpliceResolved(remaining: array<nat>, at: nat, ghost vals: seq<int>, ghost d: int) returns (next: array<nat>)
      requires at < remaining.Length && remaining[at] < |vals| && vals[remaining[at]] == 0 && d != 0
      requires multiset(remaining[..]) == multiset(Unresolved(vals))
      ensures fresh(next) && next[..] == remaining[..at] + remaining[at + 1..]
      ensures multiset(next[..]) == multiset(Unresolved(vals[remaining[at] := d]))
    {
      next := Splice(remaining, at);
      ResolveOne(vals, remaining[at], d);
    }

    /**
     * `collapse` on the unresolved cell `i`, seen through the grid
     * invariant: on success the cell's value becomes one of its options, the
     * digit leaves exactly the cell's three sets, and the invariant still
     * holds; on failure nothing changes.
     */
    method CollapseCell(i: nat) returns (r: Result<int>)
      requires Wired() && i < CellCount
      requires Consistent(Values(), sets[..]) && Values()[i] == 0
      modifies sets, cells[i]
      ensures Wired()
      ensures r.Failure? <==> cells[i].NoOptions(old(sets[..]))
      ensures r.Failure? ==> r.error == UnsolvableCell && Values() == old(Values()) && sets[..] == old(sets[..])
      ensures r.Success? ==>
                1 <= r.value <= 9 && Values() == old(Values())[i := r.value] &&
                sets[..] == Eliminated(old(sets[..]), i, r.value) &&
                Consistent(Values(), sets[..])
    {
      ghost var before, setsBefore := Values(), sets[..];
      assert WiredAt(i);
      r := cells[i].Collapse(sets);
      if r.Success? {
        var d := r.value;
        forall j | 0 <= j < CellCount
          ensures Values()[j] == before[i := d][j]
        {
          assert WiredAt(j);
          SameSetsSameCell(i, j);
        }
        assert sets[..] == Eliminated(setsBefore, i, d);
        CollapsePreservesConsistent(before, setsBefore, i, d);
      }
    }

    /**
     * `generate`: up to 100 attempts, each on a freshly initialized field;
     * the first complete fill returns true, and false comes back only after
     * all 100 attempts failed.  On true every cell holds a digit and no two
     * cells sharing a row, column or box hold the same one.
     */
    method Generate() returns (ok: bool, ghost tries: nat)
      requires cells.Length == CellCount
      modifies this, cells
      ensures 1 <= tries <= MaxAttempts
      ensures !ok ==> tries == MaxAttempts
      ensures ok ==> Wired() && Solved(Values())
    {
      tries := 0;
      var attempts := MaxAttempts;
      while attempts > 0
        invariant 0 <= attempts <= MaxAttempts && tries == MaxAttempts - attempts
      {
        tries := tries + 1;
        Initialize();
        var outcome, collapses := Fill();
        if outcome.Pass? {
          return true, tries;
        }
        // The failed attempt is discarded; the next one starts afresh.
        attempts := attempts - 1;
      }
      return false, tries;
    }
  }
}
