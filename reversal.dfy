/** Reverse: the in-place two-pointer reversal of a slice. */
module Reversal {

  /** The sequence read back to front. */
  function Reversed<T>(s: seq<T>): (r: seq<T>)
    ensures |r| == |s|
    ensures forall k :: 0 <= k < |s| ==> r[k] == s[|s| - 1 - k]
    decreases |s|
  {
    if s == [] then [] else [s[|s| - 1]] + Reversed(s[..|s| - 1])
  }

  /** Reversing twice gives back the original order. */
  lemma ReversedTwice<T>(s: seq<T>)
    ensures Reversed(Reversed(s)) == s
  {
    assert forall k :: 0 <= k < |s| ==> Reversed(Reversed(s))[k] == s[k];
  }

  /** Sequences of length 0 or 1 read the same both ways. */
  lemma ReversedShort<T>(s: seq<T>)
    requires |s| <= 1
    ensures Reversed(s) == s
  {
    assert forall k :: 0 <= k < |s| ==> Reversed(s)[k] == s[k];
  }

  /** Reversal moves the last element to the front. */
  lemma ReversedSnoc<T>(s: seq<T>, x: T)
    ensures Reversed(s + [x]) == [x] + Reversed(s)
  {
    assert forall k :: 0 <= k < |s| + 1 ==> Reversed(s + [x])[k] == ([x] + Reversed(s))[k];
  }

  /** Reversal moves the first element to the back. */
  lemma ReversedCons<T>(x: T, s: seq<T>)
    ensures Reversed([x] + s) == Reversed(s) + [x]
  {
    assert forall k :: 0 <= k < |s| + 1 ==> Reversed([x] + s)[k] == (Reversed(s) + [x])[k];
  }

  /** Reverse: swaps s[i] and s[j] while the indices i (from the front) and j
      (from the back) have not met, and returns the same array. Exactly
      |s| / 2 swaps take place. */
  method Reverse<T>(s: array<T>) returns (r: array<T>, ghost swaps: nat)
    modifies s
    ensures r == s
    ensures forall k :: 0 <= k < s.Length ==> s[k] == old(s[s.Length - 1 - k])
    ensures s[..] == Reversed(old(s[..]))
    ensures swaps == s.Length / 2
  {
    var i, j := 0, s.Length - 1;
    swaps := 0;
    while i < j
      invariant 0 <= i <= j + 1 <= s.Length
      invariant j == s.Length - 1 - i
      invariant swaps == i
      invariant forall k :: 0 <= k < i ==> s[k] == old(s[s.Length - 1 - k]) && s[s.Length - 1 - k] == old(s[k])
      invariant forall k :: i <= k <= j ==> s[k] == old(s[k])
    {
      s[i], s[j] := s[j], s[i];
      i, j := i + 1, j - 1;
      swaps := swaps + 1;
    }
    r := s;
  }
}
