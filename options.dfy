/** ApplyOptions: functional options applied, in order, to one shared target. */
module Options {
  import opened Fold

  /** The shared target. In Go it is a pointer (`*Config`) that every option
      writes through; here it is a heap object holding the pointee's state. */
  class Target<S> {
    var state: S

    constructor (initial: S)
      ensures state == initial
    {
      state := initial;
    }
  }

  /** An option: the effect of one call `opt(target)` on the target's state. */
  type Option<!S> = S -> S

  /** The reducer ApplyOptions hands to Reduce: run the option on the
      target, and pass the same target on. */
  function OptionStep<S>(): (S, Option<S>) -> S
  {
    (acc: S, opt: Option<S>) => opt(acc)
  }

  /** The state reached by applying `opts` in order, starting from `s`. */
  function Configured<S>(s: S, opts: seq<Option<S>>): S
  {
    FoldLeft(s, opts, OptionStep())
  }

  /** With no options the state is left as it was. */
  lemma ConfiguredEmpty<S>(s: S)
    ensures Configured(s, []) == s
  {
  }

  /** Options run left to right: the later group acts on the state the
      earlier group left behind. */
  lemma ConfiguredAppend<S>(s: S, first: seq<Option<S>>, later: seq<Option<S>>)
    ensures Configured(s, first + later) == Configured(Configured(s, first), later)
  {
    FoldLeftAppend(s, first, later, OptionStep());
  }

  /** The last option acts last, on everything the others did. */
  lemma ConfiguredSnoc<S>(s: S, opts: seq<Option<S>>, opt: Option<S>)
    ensures Configured(s, opts + [opt]) == opt(Configured(s, opts))
  {
    FoldLeftSnoc(s, opts, opt, OptionStep());
  }

  /** ApplyOptions: calls every option on the same target, first to last. The
      target object stays the same; only its state changes. */
  method ApplyOptions<S>(target: Target<S>, opts: seq<Option<S>>)
    modifies target
    ensures target.state == Configured(old(target.state), opts)
  {
    for i := 0 to |opts|
      invariant target.state == Configured(old(target.state), opts[..i])
    {
      ConfiguredSnoc(old(target.state), opts[..i], opts[i]);
      assert opts[..i + 1] == opts[..i] + [opts[i]];
      target.state := opts[i](target.state);
    }
    assert opts[..|opts|] == opts;
  }
}
