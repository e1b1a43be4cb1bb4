/** The left fold at the bottom of the library: every other operation is a
    fold with a particular reducer. */
module Fold {

  /** The value `Reduce(z, s, f)` computes: `f(...f(f(z, s[0]), s[1])..., s[|s|-1])`,
      stated by peeling off the last element, which is the element the loop
      consumes last. */
  function FoldLeft<T, R>(z: R, s: seq<T>, f: (R, T) -> R): R
    decreases |s|
  {
    if s == [] then z else f(FoldLeft(z, s[..|s| - 1], f), s[|s| - 1])
  }

  /** Consuming one more element applies the reducer once more, to the
      accumulator reached so far. */
  lemma FoldLeftSnoc<T, R>(z: R, s: seq<T>, x: T, f: (R, T) -> R)
    ensures FoldLeft(z, s + [x], f) == f(FoldLeft(z, s, f), x)
  {
    assert (s + [x])[..|s|] == s;
  }

  /** Folding a concatenation folds the second part starting from the result of
      folding the first: the traversal is strictly in sequence order. */
  lemma {:induction false} FoldLeftAppend<T, R>(z: R, s: seq<T>, t: seq<T>, f: (R, T) -> R)
    ensures FoldLeft(z, s + t, f) == FoldLeft(FoldLeft(z, s, f), t, f)
    decreases |t|
  {
    if t == [] {
      assert s + t == s;
    } else {
      var p, x := t[..|t| - 1], t[|t| - 1];
      assert t == p + [x];
      assert s + t == (s + p) + [x];
      FoldLeftSnoc(z, s + p, x, f);
      FoldLeftAppend(z, s, p, f);
      FoldLeftSnoc(FoldLeft(z, s, f), p, x, f);
    }
  }

  /** The reducer is applied to the initial value and the first element first:
      `FoldLeft(z, [e1..en], f) == FoldLeft(f(z, e1), [e2..en], f)`. */
  lemma FoldLeftCons<T, R>(z: R, x: T, s: seq<T>, f: (R, T) -> R)
    ensures FoldLeft(z, [x] + s, f) == FoldLeft(f(z, x), s, f)
  {
    FoldLeftAppend(z, [x], s, f);
    FoldLeftSnoc(z, [], x, f);
  }

  /** Reduce: runs through `items` once, in order, replacing the accumulator by
      `reducer(acc, v)` for each element `v`. */
  method Reduce<T, R>(initial: R, items: seq<T>, reducer: (R, T) -> R) returns (r: R)
    ensures r == FoldLeft(initial, items, reducer)
    ensures items == [] ==> r == initial
  {
    r := initial;
    for i := 0 to |items|
      invariant r == FoldLeft(initial, items[..i], reducer)
    {
      FoldLeftSnoc(initial, items[..i], items[i], reducer);
      assert items[..i + 1] == items[..i] + [items[i]];
      r := reducer(r, items[i]);
    }
    assert items[..|items|] == items;
  }
}
