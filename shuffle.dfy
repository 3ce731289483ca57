/**
 * The in-place Fisher-Yates shuffle of app.js. The random source is an oracle:
 * `draws(i)` is the index `Math.floor(Math.random() * (i + 1))` drawn when the loop
 * stands at position i, so it is one of 0..i. Only the permutation property is
 * modelled, not uniformity.
 */
module Shuffle {

  type Draws = nat -> nat

  /** Every drawn index lies in 0..i, as `Math.random()` lying in [0, 1) guarantees. */
  ghost predicate InRange(draws: Draws) {
    forall i: nat :: draws(i) <= i
  }

  /** The sequence with the cells at positions i and j exchanged. */
  function Swap<T>(s: seq<T>, i: nat, j: nat): seq<T>
    requires i < |s| && j < |s|
  {
    s[i := s[j]][j := s[i]]
  }

  /** One swap neither loses nor duplicates a cell. */
  lemma SwapPermutes<T>(s: seq<T>, i: nat, j: nat)
    requires i < |s| && j < |s|
    ensures |Swap(s, i, j)| == |s|
    ensures multiset(Swap(s, i, j)) == multiset(s)
  {
  }

  /** The loop's remaining steps from position i down to 1, each swapping i with a drawn j <= i. */
  function ShuffleFrom<T>(s: seq<T>, draws: Draws, i: nat): seq<T>
    requires i < |s|
    requires InRange(draws)
    decreases i
  {
    if i == 0 then s
    else ShuffleFrom(Swap(s, i, draws(i)), draws, i - 1)
  }

  /** What `shuffle` leaves in the array: the loop run from the last position down to 1. */
  function Shuffled<T>(s: seq<T>, draws: Draws): seq<T>
    requires InRange(draws)
  {
    if |s| == 0 then s else ShuffleFrom(s, draws, |s| - 1)
  }

  lemma {:induction false} ShuffleFromPermutes<T>(s: seq<T>, draws: Draws, i: nat)
    requires i < |s|
    requires InRange(draws)
    ensures |ShuffleFrom(s, draws, i)| == |s|
    ensures multiset(ShuffleFrom(s, draws, i)) == multiset(s)
    decreases i
  {
    if i > 0 {
      var t := Swap(s, i, draws(i));
      SwapPermutes(s, i, draws(i));
      ShuffleFromPermutes(t, draws, i - 1);
    }
  }

  /** A shuffle is a permutation: same length, same multiset of elements. */
  lemma ShuffledPermutes<T>(s: seq<T>, draws: Draws)
    requires InRange(draws)
    ensures |Shuffled(s, draws)| == |s|
    ensures multiset(Shuffled(s, draws)) == multiset(s)
  {
    if |s| > 0 {
      ShuffleFromPermutes(s, draws, |s| - 1);
    }
  }

  /** `shuffle(arr)`: swaps in place, counting down from the last cell to cell 1. */
  method Shuffle<T>(a: array<T>, draws: Draws)
    requires InRange(draws)
    modifies a
    ensures a[..] == Shuffled(old(a[..]), draws)
    ensures multiset(a[..]) == multiset(old(a[..]))
  {
    ShuffledPermutes(a[..], draws);
    if a.Length == 0 {
      return;
    }
    var i: nat := a.Length - 1;
    while i > 0
      invariant i < a.Length
      invariant ShuffleFrom(a[..], draws, i) == Shuffled(old(a[..]), draws)
    {
      var j := draws(i);
      ghost var before := a[..];
      a[i], a[j] := a[j], a[i];
      assert a[..] == Swap(before, i, j);
      i := i - 1;
    }
  }

  /** `shuffle([...xs])`: shuffles a fresh copy and yields its contents. */
  method ShuffledCopy<T>(xs: seq<T>, draws: Draws) returns (r: seq<T>)
    requires InRange(draws)
    ensures r == Shuffled(xs, draws)
    ensures multiset(r) == multiset(xs)
  {
    var a := new T[|xs|](k requires 0 <= k < |xs| => xs[k]);
    assert a[..] == xs;
    Shuffle(a, draws);
    r := a[..];
  }
}
