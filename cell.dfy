/**
 * One grid position.  A cell holds its value (0 while not collapsed) and
 * shares three candidate sets with the other cells of its row, column and
 * box.  The sets are not owned by the cell: they live in the field's arena
 * of 27 sets, and the cell keeps their three arena indices.
 */
module Cells {
  import opened Arrays
  import opened Sudoku

  /** The two ways a fill attempt can fail (an `OverconstrainedError` in the source). */
  datatype Error = UnsolvableCell | UnsolvableField

  datatype Result<T> = Success(value: T) | Failure(error: Error)

  datatype Outcome = Pass | Fail(error: Error)

  /**
   * A random option: the options are shuffled into a fresh buffer and the
   * first one is taken.  Which one comes first is the shuffle's choice.
   */
  method PickOption(options: seq<int>) returns (d: int, ghost choices: seq<nat>)
    requires options != []
    ensures d in options
    ensures ValidChoices(choices, |options|) && d == Shuffled(options, choices)[0]
  {
    var buffer := new int[|options|](i requires 0 <= i < |options| => options[i]);
    assert buffer[..] == options;
    var shuffled;
    shuffled, choices := ShuffleArray(buffer);
    assert buffer[0] in multiset(options);
    d := buffer[0];
  }

  class Cell {
    var value: int
    const row: SetId
    const col: SetId
    const grp: SetId

    constructor (row: SetId, col: SetId, grp: SetId)
      ensures this.row == row && this.col == col && this.grp == grp
      ensures value == 0
    {
      this.row := row;
      this.col := col;
      this.grp := grp;
      value := 0;
    }

    /**
     * The digits this cell may still take: in ascending order, exactly the
     * digits 1..9 present in all three of its sets.  Reading them changes
     * nothing.
     */
    function Options(sets: array<set<int>>): (r: seq<int>)
      requires sets.Length == SetCount
      reads sets
      ensures |r| <= 9 && Increasing(r)
      ensures forall d :: d in r <==> 1 <= d <= 9 && d in sets[row] && d in sets[col] && d in sets[grp]
    {
      Candidates(sets[row], sets[col], sets[grp])
    }

    /** No digit 1..9 is in all three of the cell's sets. */
    ghost predicate NoOptions(sets: seq<set<int>>)
      requires |sets| == SetCount
    {
      forall d :: 1 <= d <= 9 ==> !(d in sets[row] && d in sets[col] && d in sets[grp])
    }

    /** The options run out exactly when no digit is left in all three sets. */
    lemma EmptyOptions(sets: array<set<int>>)
      requires sets.Length == SetCount
      ensures Options(sets) == [] <==> NoOptions(sets[..])
    {
      var options := Options(sets);
      if options != [] {
        assert options[0] in options;
      }
    }

    /**
     * Commits the cell to one of its options, chosen by shuffling them, and
     * deletes that digit from its three sets.  With no options left it fails
     * and changes nothing.
     */
    method Collapse(sets: array<set<int>>) returns (r: Result<int>)
      requires sets.Length == SetCount
      modifies this, sets
      ensures NoOptions(old(sets[..])) ==>
                r == Failure(UnsolvableCell) && value == old(value) && sets[..] == old(sets[..])
      ensures !NoOptions(old(sets[..])) ==>
                r.Success? && value == r.value && 1 <= value <= 9 &&
                value in old(sets[row]) && value in old(sets[col]) && value in old(sets[grp])
      ensures !NoOptions(old(sets[..])) ==>
                forall k :: 0 <= k < sets.Length ==>
                  sets[k] == if k == row || k == col || k == grp then old(sets[k]) - {value} else old(sets[k])
    {
      var options := Options(sets);
      EmptyOptions(sets);
      if |options| == 0 {
        return Failure(UnsolvableCell);
      }

      ghost var choices;
      value, choices := PickOption(options);

      sets[row] := sets[row] - {value};
      sets[col] := sets[col] - {value};
      sets[grp] := sets[grp] - {value};

      return Success(value);
    }
  }
}
