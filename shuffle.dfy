/** The Fisher-Yates shuffle of server.js. The random numbers it draws are a
    parameter: `draws[k]` is the value of the k-th call of `Math.random()`,
    a real number in [0, 1). */
module Shuffling {

  /** Every draw is a value `Math.random()` can return, and there is one for each
      of the `n - 1` swaps a shuffle of `n` elements performs. */
  predicate ValidDraws(draws: seq<real>, n: int) {
    |draws| >= n - 1 &&
    forall k :: 0 <= k < |draws| ==> 0.0 <= draws[k] < 1.0
  }

  /** `Math.floor(draw * (i + 1))`: the index swapped with `i`. It is always a
      position at or below `i`, so both reads and writes of the swap are in bounds. */
  function Pick(draw: real, i: nat): (j: nat)
    requires 0.0 <= draw < 1.0
    ensures j <= i
  {
    var m := (i + 1) as real;
    var x := draw * m;
    assert 0.0 <= x;
    assert x < m by {
      assert m - x == (1.0 - draw) * m;
      assert (1.0 - draw) * m > 0.0;
    }
    x.Floor
  }

  /** `s` with the elements at `i` and `j` exchanged. */
  function Swap<T>(s: seq<T>, i: nat, j: nat): (r: seq<T>)
    requires i < |s| && j < |s|
    ensures |r| == |s|
  {
    s[i := s[j]][j := s[i]]
  }

  /** Exchanging two elements keeps each element's number of occurrences. */
  lemma SwapPermutes<T>(s: seq<T>, i: nat, j: nat)
    requires i < |s| && j < |s|
    ensures multiset(Swap(s, i, j)) == multiset(s)
  {
  }

  /** The iterations of the shuffle loop for `i`, `i - 1`, ..., `1`; iteration `i`
      of a shuffle of `|s|` elements uses the draw numbered `|s| - 1 - i`. */
  function ShuffleFrom<T>(s: seq<T>, i: int, draws: seq<real>): (r: seq<T>)
    requires i < |s|
    requires ValidDraws(draws, |s|)
    ensures |r| == |s|
    decreases i
  {
    if i <= 0 then s
    else ShuffleFrom(Swap(s, i, Pick(draws[|s| - 1 - i], i)), i - 1, draws)
  }

  /** What `shuffle(array)` returns when `Math.random()` yields `draws`. */
  function Shuffled<T>(s: seq<T>, draws: seq<real>): (r: seq<T>)
    requires ValidDraws(draws, |s|)
    ensures |r| == |s|
  {
    ShuffleFrom(s, |s| - 1, draws)
  }

  /** Each step of the loop only exchanges two elements, so the loop returns a
      permutation of what it started from. */
  lemma {:induction false} ShuffleFromPermutes<T>(s: seq<T>, i: int, draws: seq<real>)
    requires i < |s|
    requires ValidDraws(draws, |s|)
    ensures |ShuffleFrom(s, i, draws)| == |s|
    ensures multiset(ShuffleFrom(s, i, draws)) == multiset(s)
    decreases i
  {
    if i > 0 {
      SwapPermutes(s, i, Pick(draws[|s| - 1 - i], i));
      ShuffleFromPermutes(Swap(s, i, Pick(draws[|s| - 1 - i], i)), i - 1, draws);
    }
  }

  /** Step `i` exchanges `arr[i]` with a position at or below it, so the run
      from step `i` downward leaves every position above `i` as it was. */
  lemma {:induction false} ShuffleFromKeepsAbove<T>(s: seq<T>, i: int, draws: seq<real>)
    requires i < |s|
    requires ValidDraws(draws, |s|)
    ensures forall k :: 0 <= k < |s| && i < k ==> ShuffleFrom(s, i, draws)[k] == s[k]
    decreases i
  {
    if i > 0 {
      ShuffleFromKeepsAbove(Swap(s, i, Pick(draws[|s| - 1 - i], i)), i - 1, draws);
    }
  }

  /** `shuffle` returns an array of the same length holding the same elements,
      each as often as in the input, whatever `Math.random()` yields. */
  lemma ShuffledIsPermutation<T>(s: seq<T>, draws: seq<real>)
    requires ValidDraws(draws, |s|)
    ensures |Shuffled(s, draws)| == |s|
    ensures multiset(Shuffled(s, draws)) == multiset(s)
  {
    ShuffleFromPermutes(s, |s| - 1, draws);
  }

  /** When every draw is 0 each step swaps `arr[i]` with `arr[0]`; the loop down
      to index 1 then moves every element of `s[1..i+1]` one place left and
      puts `s[0]` at `i`. */
  lemma {:induction false} ShuffleFromZeroDraws<T>(s: seq<T>, i: int, draws: seq<real>)
    requires 0 < i < |s|
    requires ValidDraws(draws, |s|)
    requires forall k :: 0 <= k < |draws| ==> draws[k] == 0.0
    ensures |ShuffleFrom(s, i, draws)| == |s|
    ensures forall k :: 0 <= k < i ==> ShuffleFrom(s, i, draws)[k] == s[k + 1]
    ensures ShuffleFrom(s, i, draws)[i] == s[0]
    ensures forall k :: i < k < |s| ==> ShuffleFrom(s, i, draws)[k] == s[k]
    decreases i
  {
    var t := Swap(s, i, Pick(draws[|s| - 1 - i], i));
    assert Pick(draws[|s| - 1 - i], i) == 0;
    assert t == s[i := s[0]][0 := s[i]];
    assert ShuffleFrom(s, i, draws) == ShuffleFrom(t, i - 1, draws);
    if i > 1 {
      ShuffleFromZeroDraws(t, i - 1, draws);
      assert ShuffleFrom(t, i - 1, draws)[i - 1] == t[0];
      forall k | 0 <= k < i - 1 ensures ShuffleFrom(s, i, draws)[k] == s[k + 1] {
        assert ShuffleFrom(t, i - 1, draws)[k] == t[k + 1];
      }
    }
  }

  /** With all draws 0 the shuffle rotates the array one place to the left. */
  lemma ShuffledZeroDrawsRotates<T>(s: seq<T>, draws: seq<real>)
    requires |s| >= 2
    requires ValidDraws(draws, |s|)
    requires forall k :: 0 <= k < |draws| ==> draws[k] == 0.0
    ensures Shuffled(s, draws) == s[1..] + [s[0]]
  {
    ShuffleFromZeroDraws(s, |s| - 1, draws);
    assert Shuffled(s, draws) == s[1..] + [s[0]];
  }

  /** The destructuring assignment `[arr[i], arr[j]] = [arr[j], arr[i]]`. */
  method SwapInPlace<T>(arr: array<T>, i: nat, j: nat)
    requires i < arr.Length && j < arr.Length
    modifies arr
    ensures arr[..] == Swap(old(arr[..]), i, j)
  {
    arr[i], arr[j] := arr[j], arr[i];
  }

  /** `shuffle(array)`: copy the input (`array.slice()`), then walk `i` down from
      the last index to 1, swapping `arr[i]` with `arr[j]` for a drawn `j <= i`.
      The input is a value, so the caller's array cannot change. */
  method Shuffle<T>(input: seq<T>, draws: seq<real>) returns (r: seq<T>)
    requires ValidDraws(draws, |input|)
    ensures r == Shuffled(input, draws)
    ensures |r| == |input| && multiset(r) == multiset(input)
  {
    var arr := new T[|input|](k requires 0 <= k < |input| => input[k]);
    assert arr[..] == input;
    var i := arr.Length - 1;
    while i > 0
      invariant i < arr.Length == |input|
      invariant ShuffleFrom(arr[..], i, draws) == Shuffled(input, draws)
    {
      var j := Pick(draws[arr.Length - 1 - i], i);
      SwapInPlace(arr, i, j);
      i := i - 1;
    }
    r := arr[..];
    ShuffledIsPermutation(input, draws);
  }
}
