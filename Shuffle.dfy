/** `shuffleCards`: an in-place Fisher-Yates shuffle of the deck. The
    random draw `Math.floor(Math.random() * (i + 1))` is modelled as an
    arbitrary choice of `j` with `0 <= j <= i`, so what is proved holds
    for every sequence of draws. */
module Shuffle {

  /** Swapping two positions permutes the array and touches nothing else. */
  method Swap<T>(a: array<T>, i: int, j: int)
    requires 0 <= i < a.Length && 0 <= j < a.Length
    modifies a
    ensures a[i] == old(a[j]) && a[j] == old(a[i])
    ensures forall k :: 0 <= k < a.Length && k != i && k != j ==> a[k] == old(a[k])
    ensures multiset(a[..]) == old(multiset(a[..]))
  {
    a[i], a[j] := a[j], a[i];
  }

  /** The shuffle permutes the array, whatever index each step draws. */
  method ShuffleCards<T>(a: array<T>)
    modifies a
    ensures multiset(a[..]) == old(multiset(a[..]))
  {
    var i := a.Length - 1;
    while i > 0
      invariant -1 <= i < a.Length
      invariant multiset(a[..]) == old(multiset(a[..]))
    {
      var j :| 0 <= j <= i;
      Swap(a, i, j);
      i := i - 1;
    }
  }
}
