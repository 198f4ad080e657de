/**
 * The in-place Fisher-Yates shuffle that reorders the permutation key, in the shape
 * of `SliceRandom::shuffle` of the `rand` crate, versions 0.7 and 0.8: for `i`
 * from `len - 1` down to `1`, swap entry `i` with an entry `j <= i` drawn from the
 * generator. The generator itself is not modelled: it is a stream of raw draws.
 */
module Shuffle {
  import opened Grid

  /**
   * A seeded generator, seen only through what it yields: `rng(k)` is the raw value
   * behind the `k`-th index the shuffle draws.
   */
  type Rng = nat -> nat

  /** The `k`-th index the shuffle draws, uniform over `[0, bound)` in the library. */
  function Draw(rng: Rng, k: nat, bound: nat): (j: nat)
    requires bound > 0
    ensures j < bound
  {
    rng(k) % bound
  }

  /** `s` with the entries at `i` and `j` exchanged (a no-op when `i == j`). */
  function Swap<T>(s: seq<T>, i: nat, j: nat): (t: seq<T>)
    requires i < |s| && j < |s|
    ensures |t| == |s| && t[i] == s[j] && t[j] == s[i]
    ensures forall m :: 0 <= m < |s| && m != i && m != j ==> t[m] == s[m]
  {
    s[i := s[j]][j := s[i]]
  }

  /** The steps `i, i - 1, ..., 1` of the shuffle of `s`; step `i` is the `(|s| - 1 - i)`-th draw. */
  function ShuffleFrom<T>(s: seq<T>, rng: Rng, i: nat): seq<T>
    requires i < |s|
    decreases i
  {
    if i == 0 then s
    else ShuffleFrom(Swap(s, i, Draw(rng, |s| - 1 - i, i + 1)), rng, i - 1)
  }

  /** The whole shuffle of `s` driven by `rng`; a sequence of fewer than two entries is left as it is. */
  function Shuffled<T>(s: seq<T>, rng: Rng): seq<T> {
    if |s| == 0 then s else ShuffleFrom(s, rng, |s| - 1)
  }

  /** A swap only reorders: same multiset, and no duplicate appears. */
  lemma SwapPermutes<T>(s: seq<T>, i: nat, j: nat)
    requires i < |s| && j < |s|
    ensures multiset(Swap(s, i, j)) == multiset(s)
    ensures Distinct(s) ==> Distinct(Swap(s, i, j))
  {
  }

  /** The remaining steps of the shuffle only reorder `s`. */
  lemma {:induction false} ShuffleFromPermutes<T>(s: seq<T>, rng: Rng, i: nat)
    requires i < |s|
    ensures |ShuffleFrom(s, rng, i)| == |s|
    ensures multiset(ShuffleFrom(s, rng, i)) == multiset(s)
    ensures Distinct(s) ==> Distinct(ShuffleFrom(s, rng, i))
    decreases i
  {
    if i > 0 {
      var t := Swap(s, i, Draw(rng, |s| - 1 - i, i + 1));
      SwapPermutes(s, i, Draw(rng, |s| - 1 - i, i + 1));
      ShuffleFromPermutes(t, rng, i - 1);
    }
  }

  /**
   * Whatever the generator yields, the shuffle is a permutation: its result has the
   * length and the multiset of its input.
   */
  lemma ShuffledPermutes<T>(s: seq<T>, rng: Rng)
    ensures |Shuffled(s, rng)| == |s|
    ensures multiset(Shuffled(s, rng)) == multiset(s)
  {
    if |s| > 0 {
      ShuffleFromPermutes(s, rng, |s| - 1);
    }
  }

  /** Whatever the generator yields, the shuffle of a sequence without repeats has none. */
  lemma ShuffledKeepsDistinct<T>(s: seq<T>, rng: Rng)
    requires Distinct(s)
    ensures Distinct(Shuffled(s, rng))
  {
    if |s| > 0 {
      ShuffleFromPermutes(s, rng, |s| - 1);
    }
  }

  /** The shuffle neither loses nor invents an element. */
  lemma ShuffledSameElements<T>(s: seq<T>, rng: Rng, x: T)
    ensures x in Shuffled(s, rng) <==> x in s
  {
    ShuffledPermutes(s, rng);
    assert x in Shuffled(s, rng) <==> x in multiset(Shuffled(s, rng));
  }

  /** A single entry has nothing to swap with. */
  lemma ShuffledSingleton<T>(x: T, rng: Rng)
    ensures Shuffled([x], rng) == [x]
  {
  }

  /** `slice.swap(i, j)`. */
  method SwapInPlace<T>(a: array<T>, i: nat, j: nat)
    requires i < a.Length && j < a.Length
    modifies a
    ensures a[..] == Swap(old(a[..]), i, j)
  {
    var t := a[i];
    a[i] := a[j];
    a[j] := t;
  }

  /**
   * `slice.shuffle(rng)`: the array is reordered in place, exactly as `Shuffled`
   * describes, and so keeps its multiset.
   */
  method ShuffleInPlace<T>(a: array<T>, rng: Rng)
    modifies a
    ensures a[..] == Shuffled(old(a[..]), rng)
    ensures multiset(a[..]) == multiset(old(a[..]))
  {
    ghost var original := a[..];
    var n := a.Length;
    if n > 0 {
      var i: nat := n - 1;
      while i > 0
        invariant i < n
        invariant ShuffleFrom(a[..], rng, i) == Shuffled(original, rng)
      {
        var j := Draw(rng, n - 1 - i, i + 1);
        SwapInPlace(a, i, j);
        i := i - 1;
      }
    }
    assert a[..] == Shuffled(original, rng);
    ShuffledPermutes(original, rng);
  }
}
