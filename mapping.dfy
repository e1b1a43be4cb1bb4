/** Map: a fold whose accumulator is the output sequence, grown by one mapped
    element per input element. */
module Mapping {
  import opened Fold

  /** The reducer Map hands to Reduce: append the image of `v`. */
  function MapStep<T, R>(mapper: T -> R): (seq<R>, T) -> seq<R>
  {
    (acc: seq<R>, v: T) => acc + [mapper(v)]
  }

  /** Folding MapStep(mapper) from the empty sequence yields the images of
      the elements, position by position. */
  lemma {:induction false} FoldAppendsImages<T, R>(s: seq<T>, mapper: T -> R)
    ensures |FoldLeft([], s, MapStep(mapper))| == |s|
    ensures forall i :: 0 <= i < |s| ==> FoldLeft([], s, MapStep(mapper))[i] == mapper(s[i])
    decreases |s|
  {
    if s != [] {
      var p := s[..|s| - 1];
      FoldAppendsImages(p, mapper);
      assert FoldLeft([], s, MapStep(mapper)) == FoldLeft([], p, MapStep(mapper)) + [mapper(s[|s| - 1])];
    }
  }

  /** Map: a new sequence of the same length whose i-th element is
      `mapper(items[i])`. */
  function Map<T, R>(items: seq<T>, mapper: T -> R): (r: seq<R>)
    ensures |r| == |items|
    ensures forall i :: 0 <= i < |items| ==> r[i] == mapper(items[i])
  {
    FoldAppendsImages(items, mapper);
    FoldLeft([], items, MapStep(mapper))
  }

  /** Mapping one more element appends its image. */
  lemma MapSnoc<T, R>(s: seq<T>, x: T, mapper: T -> R)
    ensures Map(s + [x], mapper) == Map(s, mapper) + [mapper(x)]
  {
    assert forall i :: 0 <= i < |s| ==> (s + [x])[i] == s[i];
  }

  /** Mapping the identity gives back the input. */
  lemma MapIdentity<T>(s: seq<T>)
    ensures Map(s, (v: T) => v) == s
  {
  }
}
