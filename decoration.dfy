/** Decorate and ReversedDecorate: wrapping a function value with a sequence
    of decorators of type F -> F by folding over them. */
module Decoration {
  import opened Fold
  import opened Reversal

  /** The reducer Decorate hands to Reduce: wrap the accumulator in the next
      decorator. */
  function WrapStep<F>(): (F, F -> F) -> F
  {
    (acc: F, decorator: F -> F) => decorator(acc)
  }

  /** Decorate: `f` wrapped by each decorator in turn, the first one innermost.
      With no decorators the result is `f` itself. */
  function Decorate<F>(f: F, decorators: seq<F -> F>): (r: F)
    ensures decorators == [] ==> r == f
  {
    FoldLeft(f, decorators, WrapStep())
  }

  /** The last decorator is the outermost wrapper. */
  lemma DecorateSnoc<F>(f: F, decorators: seq<F -> F>, d: F -> F)
    ensures Decorate(f, decorators + [d]) == d(Decorate(f, decorators))
  {
    assert (decorators + [d])[..|decorators|] == decorators;
  }

  /** The first decorator is the innermost wrapper: it is applied to `f`
      before any other. */
  lemma DecorateCons<F>(f: F, d: F -> F, decorators: seq<F -> F>)
    ensures Decorate(f, [d] + decorators) == Decorate(d(f), decorators)
  {
    FoldLeftCons(f, d, decorators, WrapStep());
  }

  /** Decorating with `ds` and then with `es` is decorating with `ds + es`. */
  lemma DecorateAppend<F>(f: F, ds: seq<F -> F>, es: seq<F -> F>)
    ensures Decorate(f, ds + es) == Decorate(Decorate(f, ds), es)
  {
    FoldLeftAppend(f, ds, es, WrapStep());
  }

  /** `Decorate(f, g, h, i) == i(h(g(f)))`. */
  lemma DecorateThree<F>(f: F, g: F -> F, h: F -> F, i: F -> F)
    ensures Decorate(f, [g, h, i]) == i(h(g(f)))
  {
    assert [g, h, i] == [g, h] + [i];
    assert [g, h] == [g] + [h];
    DecorateSnoc(f, [g, h], i);
    DecorateSnoc(f, [g], h);
    DecorateSnoc(f, [], g);
  }

  /** Reversing the decorators makes the first one the outermost wrapper. */
  lemma DecorateReversedCons<F>(f: F, d: F -> F, decorators: seq<F -> F>)
    ensures Decorate(f, Reversed([d] + decorators)) == d(Decorate(f, Reversed(decorators)))
  {
    ReversedCons(d, decorators);
    DecorateSnoc(f, Reversed(decorators), d);
  }

  /** `ReversedDecorate(f, g, h, i) == g(h(i(f)))`. */
  lemma ReversedDecorateThree<F>(f: F, g: F -> F, h: F -> F, i: F -> F)
    ensures Decorate(f, Reversed([g, h, i])) == g(h(i(f)))
  {
    assert Reversed([g, h, i]) == [i, h, g];
    DecorateThree(f, i, h, g);
  }

  /** ReversedDecorate: reverses the caller's decorator array in place, then
      decorates `f` with the reversed sequence. The caller sees the array
      reversed afterwards. */
  method ReversedDecorate<F>(f: F, decorators: array<F -> F>) returns (r: F)
    modifies decorators
    ensures decorators[..] == Reversed(old(decorators[..]))
    ensures r == Decorate(f, Reversed(old(decorators[..])))
  {
    var reversed, _ := Reverse(decorators);
    r := Decorate(f, reversed[..]);
  }
}
