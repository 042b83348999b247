/**
 * The two array operations the generator uses: the in-place Fisher-Yates
 * shuffle it installs as `Array.prototype.shuffleArray`, and the removal
 * of one element that `splice(i, 1)` performs.
 *
 * `Math.random` is not modelled: each swap partner is chosen
 * nondeterministically from the range the source's
 * `Math.floor(Math.random() * idx)` can produce.  The choices made are
 * handed back as a ghost sequence, and the pure function `Shuffled` says
 * which arrangement those choices produce.
 */
module Arrays {

  /** `s` with the elements at positions `i` and `j` exchanged. */
  function Swap<T>(s: seq<T>, i: nat, j: nat): (r: seq<T>)
    requires i < |s| && j < |s|
    ensures |r| == |s|
    ensures r[i] == s[j] && r[j] == s[i]
    ensures forall k :: 0 <= k < |s| && k != i && k != j ==> r[k] == s[k]
  {
    s[i := s[j]][j := s[i]]
  }

  /**
   * A legal record of the swap partners of the first `|choices|` loop
   * iterations over an array of length `n`: iteration `j` swaps position
   * `n - 1 - j` with `choices[j]`, which is at most `n - 1 - j`.
   */
  ghost predicate ValidChoices(choices: seq<nat>, n: nat)
  {
    |choices| <= n &&
    forall j :: 0 <= j < |choices| ==> choices[j] <= n - 1 - j
  }

  /** The arrangement of `s` after the swaps recorded in `choices`. */
  function Shuffled<T>(s: seq<T>, choices: seq<nat>): (r: seq<T>)
    requires ValidChoices(choices, |s|)
    ensures |r| == |s|
    decreases |choices|
  {
    if choices == [] then s
    else
      var k := |choices| - 1;
      Swap(Shuffled(s, choices[..k]), |s| - 1 - k, choices[k])
  }

  lemma SwapPermutes<T>(s: seq<T>, i: nat, j: nat)
    requires i < |s| && j < |s|
    ensures multiset(Swap(s, i, j)) == multiset(s)
  {
  }

  /** Whatever the random choices, a shuffle is a permutation of its input. */
  lemma {:induction false} ShuffledPermutes<T>(s: seq<T>, choices: seq<nat>)
    requires ValidChoices(choices, |s|)
    ensures multiset(Shuffled(s, choices)) == multiset(s)
    decreases |choices|
  {
    if choices != [] {
      var k := |choices| - 1;
      ShuffledPermutes(s, choices[..k]);
      SwapPermutes(Shuffled(s, choices[..k]), |s| - 1 - k, choices[k]);
    }
  }

  /**
   * Every choice equal to its own position leaves the input as it was:
   * the swaps are all self-swaps.
   */
  lemma {:induction false} IdentityChoices<T>(s: seq<T>, choices: seq<nat>)
    requires ValidChoices(choices, |s|)
    requires forall j :: 0 <= j < |choices| ==> choices[j] == |s| - 1 - j
    ensures Shuffled(s, choices) == s
    decreases |choices|
  {
    if choices != [] {
      var k := |choices| - 1;
      IdentityChoices(s, choices[..k]);
    }
  }

  /**
   * Shuffles `a` in place and returns it.  Every swap partner `rdx` lies in
   * `[0, idx]` once `idx` has been decremented; the result is the
   * arrangement `Shuffled` gives for the choices made, and so a permutation
   * of the old contents.
   */
  method ShuffleArray<T>(a: array<T>) returns (self: array<T>, ghost choices: seq<nat>)
    modifies a
    ensures self == a
    ensures |choices| == a.Length && ValidChoices(choices, a.Length)
    ensures a[..] == Shuffled(old(a[..]), choices)
    ensures multiset(a[..]) == multiset(old(a[..]))
  {
    var idx := a.Length;
    var rdx := 0;
    choices := [];
    while idx != 0
      invariant 0 <= idx <= a.Length
      invariant |choices| == a.Length - idx
      invariant ValidChoices(choices, a.Length)
      invariant a[..] == Shuffled(old(a[..]), choices)
    {
      rdx :| 0 <= rdx < idx;
      idx := idx - 1;
      assert rdx <= idx;
      a[idx], a[rdx] := a[rdx], a[idx];
      ghost var before := choices;
      choices := before + [rdx];
      assert choices[..|before|] == before;
    }
    ShuffledPermutes(old(a[..]), choices);
    self := a;
  }

  /**
   * `a.splice(i, 1)`: the list without its element at `i`, the elements
   * after it moved down by one.  A Dafny array cannot shrink, so the shorter
   * list is a new array.
   */
  method Splice<T>(a: array<T>, i: nat) returns (b: array<T>)
    requires i < a.Length
    ensures fresh(b)
    ensures b.Length == a.Length - 1
    ensures forall k :: 0 <= k < i ==> b[k] == a[k]
    ensures forall k :: i <= k < b.Length ==> b[k] == a[k + 1]
    ensures b[..] == a[..i] + a[i + 1..]
    ensures multiset(b[..]) == multiset(a[..]) - multiset{a[i]}
  {
    b := new T[a.Length - 1](k requires 0 <= k < a.Length - 1 reads a => if k < i then a[k] else a[k + 1]);
    assert b[..] == a[..i] + a[i + 1..];
    assert a[..] == a[..i] + [a[i]] + a[i + 1..];
  }
}
