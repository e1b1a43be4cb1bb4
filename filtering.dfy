/** Filter: a fold whose accumulator is the output sequence, grown only by the
    elements the predicate accepts. */
module Filtering {
  import opened Fold

  /** The reducer Filter hands to Reduce: append `v` only if `pred(v)`. */
  function FilterStep<T>(pred: T -> bool): (seq<T>, T) -> seq<T>
  {
    (acc: seq<T>, v: T) => if pred(v) then acc + [v] else acc
  }

  /** `r` is `s` with some elements deleted and the rest kept in order. */
  ghost predicate IsSubsequence<T>(r: seq<T>, s: seq<T>)
    decreases |s|
  {
    if r == [] then true
    else if s == [] then false
    else (r[|r| - 1] == s[|s| - 1] && IsSubsequence(r[..|r| - 1], s[..|s| - 1]))
         || IsSubsequence(r, s[..|s| - 1])
  }

  /** Folding FilterStep(pred) from the empty sequence keeps exactly the
      accepted elements: each accepted value as often as it occurs, each
      rejected value never, and all of them in their original order. */
  lemma {:induction false} FoldSelects<T>(s: seq<T>, pred: T -> bool)
    ensures forall x :: multiset(FoldLeft([], s, FilterStep(pred)))[x] == if pred(x) then multiset(s)[x] else 0
    ensures IsSubsequence(FoldLeft([], s, FilterStep(pred)), s)
    ensures forall x | x in FoldLeft([], s, FilterStep(pred)) :: pred(x) && x in s
    decreases |s|
  {
    if s != [] {
      var p, v := s[..|s| - 1], s[|s| - 1];
      var r, rp := FoldLeft([], s, FilterStep(pred)), FoldLeft([], p, FilterStep(pred));
      FoldSelects(p, pred);
      assert s == p + [v];
      assert multiset(s) == multiset(p) + multiset{v};
      if pred(v) {
        assert r == rp + [v];
        assert multiset(r) == multiset(rp) + multiset{v};
        assert r[..|r| - 1] == rp;
      } else {
        assert r == rp;
      }
    }
    forall x | x in FoldLeft([], s, FilterStep(pred)) ensures pred(x) && x in s {
      assert x in multiset(FoldLeft([], s, FilterStep(pred)));
      assert x in multiset(s);
    }
  }

  /** Filter: exactly the elements of `items` that satisfy `pred`, each
      as often as in `items`, in their original relative order. */
  function Filter<T>(items: seq<T>, pred: T -> bool): (r: seq<T>)
    ensures forall x | x in r :: pred(x) && x in items
    ensures forall x | x in items :: multiset(r)[x] == if pred(x) then multiset(items)[x] else 0
    ensures IsSubsequence(r, items)
  {
    FoldSelects(items, pred);
    FoldLeft([], items, FilterStep(pred))
  }

  /** Filtering one more element appends it exactly when it is accepted. */
  lemma FilterSnoc<T>(s: seq<T>, x: T, pred: T -> bool)
    ensures Filter(s + [x], pred) == if pred(x) then Filter(s, pred) + [x] else Filter(s, pred)
  {
    FoldLeftSnoc([], s, x, FilterStep(pred));
  }

  /** A predicate that accepts everything keeps the whole input. */
  lemma {:induction false} FilterAll<T>(s: seq<T>)
    ensures Filter(s, (v: T) => true) == s
    decreases |s|
  {
    if s != [] {
      var p := s[..|s| - 1];
      assert s == p + [s[|s| - 1]];
      FilterSnoc(p, s[|s| - 1], (v: T) => true);
      FilterAll(p);
    }
  }

  /** A predicate that rejects everything leaves nothing. */
  lemma {:induction false} FilterNone<T>(s: seq<T>)
    ensures Filter(s, (v: T) => false) == []
    decreases |s|
  {
    if s != [] {
      var p := s[..|s| - 1];
      assert s == p + [s[|s| - 1]];
      FilterSnoc(p, s[|s| - 1], (v: T) => false);
      FilterNone(p);
    }
  }
}
