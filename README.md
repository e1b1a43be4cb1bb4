# gofn in Dafny

A model of `gofn`, a small Go library of generic helpers over slices and
function values: the left fold `Reduce`, `Map` and `Filter` (folds whose
accumulator is the output slice), the in-place two-pointer `Reverse`,
`Decorate` and `ReversedDecorate` (wrapping a function value with `F -> F`
decorators by folding over them) and `ApplyOptions` (functional options run in
order against one shared target).

Layout, one module per component of `gofn.go`:

- `fold.dfy`, module `Fold`: `FoldLeft`, the recursive left fold that
  specifies `Reduce`, its algebra (one more element, concatenation, head
  first), and `Reduce` itself as a loop method proved equal to `FoldLeft`.
- `mapping.dfy`, module `Mapping`: `Map` as `FoldLeft` with the appending
  reducer `MapStep`, proved element-wise.
- `filtering.dfy`, module `Filtering`: `Filter` as `FoldLeft` with the
  conditionally appending reducer `FilterStep`, proved to keep exactly the
  accepted elements (with their counts) as a subsequence.
- `reversal.dfy`, module `Reversal`: `Reversed` (the specification) and
  `Reverse`, the in-place swap loop on an `array`.
- `decoration.dfy`, module `Decoration`: `Decorate` and the composition
  order it produces; `ReversedDecorate` as a method that reverses the
  caller's decorator array in place and then decorates.
- `options.dfy`, module `Options`: the shared target (`Target`, a heap
  object standing for Go's pointer), options as state transformers,
  `Configured` (the state after a sequence of options) and `ApplyOptions`.
- `examples.dfy`, module `Examples`: every example of `gofn_test.go` as a
  method that promises the documented output, plus the general facts behind
  them (the trace shape produced by the `df(id)` decorators, "last write
  wins" for options, the fold that equals `Map`).

Modelling choices:

- Slices that the library only reads (`Reduce`, `Map`, `Filter`,
  `Decorate`) are `seq` values, so "the input is not modified" holds by
  construction; outputs are fresh sequences. Slices the library writes
  (`Reverse`, `ReversedDecorate`) are `array`s with `modifies` clauses.
- Callbacks (reducer, mapper, predicate, decorator) are total Dafny
  functions. An option, which in Go mutates its target through a pointer, is
  the function from the target's state before the call to its state after it.
- `FoldLeft` peels off the last element: `FoldLeft(z, s, f) ==
  f(FoldLeft(z, s[..|s|-1], f), s[|s|-1])`, which is the order in which
  `Reduce`'s loop consumes the slice. The head-first reading is proved as
  `FoldLeftCons`.
- `ApplyOptions` is a loop over the options that writes the target's state;
  in Go the same loop is `Reduce`'s, driven by a closure that calls the
  option and hands the same pointer on. A Dafny function value cannot write
  the heap, so the loop is written out in the method and specified by the
  fold `Configured`.
- In the decorator examples a Go `fn` appends to a shared `trace` slice. The
  model represents such a function by the map from the trace before the call
  to the trace after it: the base function appends `0`, and `df(id)` wraps
  `inner` as `t => inner(t + [id]) + [id]` (the second append is Go's
  `defer`).
- The Filter example's predicate `v%2 == 1` is stated with Go's truncating
  `%`, under which it rejects negative odd numbers (`IsOddExactly`).

## Model

| member | source | states |
|---|---|---|
| Fold.FoldLeft | gofn.go:6-12 | no contract: the recursive left fold `f(...f(f(z, s[0]), s[1])..., s[n-1])` behind Reduce, Map, Filter, Decorate and Configured. |
| Fold.Reduce | gofn.go:6-12 | The loop's result is the left fold `FoldLeft(initial, items, reducer)`; on an empty slice it is `initial` unchanged. |
| Fold.FoldLeftSnoc | gofn.go:7-9 | Consuming one more element applies the reducer once more to the accumulator reached so far. |
| Fold.FoldLeftAppend | gofn.go:6-12 | Folding `s + t` equals folding `t` starting from the fold of `s`: the traversal is strictly in order. |
| Fold.FoldLeftCons | gofn.go:3-6 | The reducer is applied to the initial value and the first element first: `Reduce(z, [e1..en], f) == Reduce(f(z, e1), [e2..en], f)`. |
| Mapping.MapStep | gofn.go:16-18 | no contract: Map's closure, appending `mapper(v)` to the accumulator. |
| Mapping.FoldAppendsImages | gofn.go:16-18 | Folding the appending reducer from an empty slice gives a sequence of the input's length whose i-th element is `mapper(items[i])`. |
| Mapping.Map | gofn.go:14-19 | The result has the input's length and `r[i] == mapper(items[i])` at every index. |
| Mapping.MapSnoc | gofn.go:16-18 | Mapping one more element appends exactly its image. |
| Mapping.MapIdentity | gofn.go:14-19 | Mapping the identity gives back the input. |
| Filtering.FilterStep | gofn.go:23-29 | no contract: Filter's closure, appending `v` only when `pred(v)` holds. |
| Filtering.FoldSelects | gofn.go:23-29 | Folding the conditionally appending reducer from an empty slice keeps each accepted value as often as it occurs, no rejected value, and the original order (a subsequence). |
| Filtering.Filter | gofn.go:21-30 | Every element of the result satisfies the predicate and occurs in the input, every accepted value keeps its count, rejected values do not occur, and the result is a subsequence of the input. |
| Filtering.FilterSnoc | gofn.go:23-29 | Filtering one more element appends it exactly when the predicate accepts it. |
| Filtering.FilterAll | gofn.go:21-30 | With an always-true predicate the result is the input. |
| Filtering.FilterNone | gofn.go:21-30 | With an always-false predicate the result is empty. |
| Reversal.Reversed | gofn.go:59-66 | The reference reversal: same length and `r[k] == s[|s|-1-k]` at every index. |
| Reversal.ReversedTwice | gofn.go:59-66 | Reversing twice gives back the original sequence. |
| Reversal.ReversedShort | gofn.go:61 | Sequences of length 0 or 1 are unchanged by reversal (the loop does not run). |
| Reversal.ReversedSnoc | gofn.go:59-66 | Reversal moves the last element to the front. |
| Reversal.ReversedCons | gofn.go:59-66 | Reversal moves the first element to the back. |
| Reversal.Reverse | gofn.go:60-66 | Swapping from both ends in place leaves `s[k] == old(s[|s|-1-k])`, i.e. the array equals `Reversed` of its old contents; it returns the same array, after exactly `|s| / 2` swaps. |
| Decoration.WrapStep | gofn.go:47-49 | no contract: Decorate's closure, wrapping the accumulator in the next decorator. |
| Decoration.Decorate | gofn.go:46-50 | With no decorators the result is `f` itself. |
| Decoration.DecorateSnoc | gofn.go:47-49 | The last decorator is the outermost wrapper: `Decorate(f, ds + [d]) == d(Decorate(f, ds))`. |
| Decoration.DecorateCons | gofn.go:46-49 | The first decorator is applied to `f` first (innermost): `Decorate(f, [d] + ds) == Decorate(d(f), ds)`. |
| Decoration.DecorateAppend | gofn.go:46-50 | Decorating with `ds + es` is decorating with `ds`, then decorating the result with `es`. |
| Decoration.DecorateThree | gofn.go:43-46 | `Decorate(f, g, h, i) == i(h(g(f)))`. |
| Decoration.DecorateReversedCons | gofn.go:52-57 | Over the reversed decorators the first decorator is the outermost wrapper. |
| Decoration.ReversedDecorateThree | gofn.go:52-56 | `Decorate(f, Reversed([g, h, i])) == g(h(i(f)))`; through ReversedDecorate's ensures `r == Decorate(f, Reversed(old(decorators[..])))` this is the doc comment's `ReversedDecorate(f, g, h, i) == g(h(i(f)))`. |
| Decoration.ReversedDecorate | gofn.go:55-57 | The caller's decorator array is left reversed, and the result is `Decorate` of `f` over the reversed decorators. |
| Options.Target.constructor | gofn_test.go:75-76 | The shared target standing for the `*Config` pointer starts in the given state. |
| Options.OptionStep | gofn.go:37-40 | no contract: ApplyOptions' closure, running the option on the target and passing the same target on. |
| Options.Configured | gofn.go:35-41 | no contract: the target's state after the options are applied in order, `FoldLeft` with OptionStep. |
| Options.ConfiguredEmpty | gofn.go:35-41 | With no options the target's state is unchanged. |
| Options.ConfiguredAppend | gofn.go:35-41 | Options run left to right: a later group acts on the state an earlier group left. |
| Options.ConfiguredSnoc | gofn.go:37-40 | The last option acts last, on the state all earlier options produced. |
| Options.ApplyOptions | gofn.go:35-41 | The same target object ends in the state `opt_n(...opt_1(s))` reached by applying the options in order to its old state. |
| Examples.DoubledFoldIsMap | gofn_test.go:17-20 | For every slice, folding "append 2*v" from an empty slice equals `Map` with `v*2`. |
| Examples.Add | gofn_test.go:9-11 | no contract: the summing reducer `acc + v`. |
| Examples.Concat | gofn_test.go:13-15 | no contract: the string-concatenating reducer `acc + v`. |
| Examples.AppendDoubled | gofn_test.go:18-20 | no contract: the reducer `append(acc, 2*v)`. |
| Examples.SumUpToFive | gofn_test.go:9-11 | Folding `+` over `[1..5]` from 0 gives 15. |
| Examples.ConcatAbc | gofn_test.go:13-15 | Folding concatenation over `["a","b","c"]` from `""` gives `"abc"`. |
| Examples.ExampleReduce | gofn_test.go:8-30 | `Reduce(0, [1..5], +) == 15`, `Reduce("", ["a","b","c"], concat) == "abc"`, and the doubling fold gives `[2, 4, 6]`. |
| Examples.Twice | gofn_test.go:33-35 | no contract: the mapper `v * 2`. |
| Examples.UpperChar | gofn_test.go:37 | no contract: upper case of one character, for ASCII letters only; the per-letter half of the `strings.ToUpper` stand-in. |
| Examples.ToUpper | gofn_test.go:37 | no contract: stand-in for `strings.ToUpper`, mapping ASCII lower-case letters to upper case. |
| Examples.ExampleMap | gofn_test.go:32-45 | `Map([1,2,3], v*2) == [2,4,6]` and `Map(["a","b","c"], ToUpper) == ["A","B","C"]`. |
| Examples.IsOdd | gofn_test.go:48-50 | no contract: the predicate `v%2 == 1` with Go's truncating `%`. |
| Examples.IsOddExactly | gofn_test.go:48-50 | With Go's truncating `%`, the predicate `v%2 == 1` accepts exactly the positive odd numbers. |
| Examples.OddsUpToFive | gofn_test.go:47-55 | The filtering fold over `[1..5]` with the odd predicate yields `[1, 3, 5]`. |
| Examples.ExampleFilter | gofn_test.go:47-55 | `Filter([1..5], odd) == [1, 3, 5]`. |
| Examples.WithA | gofn_test.go:63-67 | no contract: the option `withA(a)`, writing field A. |
| Examples.WithB | gofn_test.go:69-73 | no contract: the option `withB(b)`, writing field B. |
| Examples.BothWritesHold | gofn_test.go:63-76 | Options writing A and then B leave both writes in place, `{A:a B:b}`, whatever the state before. |
| Examples.LastWriteWins | gofn_test.go:63-67 | A final write to A wins over all earlier options and leaves B as they left it. |
| Examples.ExampleApplyOptions | gofn_test.go:57-81 | `ApplyOptions(&c, withA(1), withB("b"))` on a zero Config leaves `{A:1 B:b}`. |
| Examples.Center | gofn_test.go:100 | no contract: the undecorated function, appending 0 to the trace. |
| Examples.Df | gofn_test.go:88-98 | no contract: the decorator `df(id)`, mapping `inner` to `t => inner(t + [id]) + [id]`. |
| Examples.DecoratedTrace | gofn_test.go:83-113 | Decorating the base function with `df(ids[0])..df(ids[n-1])` and calling it appends `Reversed(ids) + [0] + ids` to the trace. |
| Examples.ReversedDecoratedTrace | gofn_test.go:121-150 | With the decorators reversed the call appends `ids + [0] + Reversed(ids)`. |
| Examples.ExampleDecorate | gofn_test.go:83-113 | `Decorate(f, df(1), df(2), df(3))` called once leaves the trace `[3,2,1,0,1,2,3]`. |
| Examples.ExampleReverse | gofn_test.go:115-119 | `Reverse([1,2,3,4,5])` gives `[5,4,3,2,1]`. |
| Examples.ExampleReversedDecorate | gofn_test.go:121-150 | `ReversedDecorate(f, df(1), df(2), df(3))` called once leaves the trace `[1,2,3,0,3,2,1]`, and the model's caller-owned decorator array is left as `[df(3), df(2), df(1)]` (the Go test passes separate arguments, so its fresh slice is never seen; see ReversedDecorate under Left out). |

## Left out

- Slice capacity and backing stores (`make(..., 0, len(slices))`, `append`
  reallocation): outputs are fresh sequences.
- Failure of a callback (a panic) and its propagation: callbacks are total,
  pure Dafny functions, so every traversal runs to completion.
- Side effects of reducers, mappers, predicates and decorators in general:
  only the two effects the library is used for are modelled, an option's
  write to its target and the decorator examples' shared trace.
- ApplyOptions: only the pointer case is modelled. When `T` is not a
  reference type, Go's options act on copies and the caller sees no change.
- The `defer` mechanism and the `int` argument of the decorated `fn`: the
  model keeps only the resulting trace shape `[id] + inner + [id]`.
- ReversedDecorate: the decorators are always an array the caller owns. In
  Go a call with separate arguments builds a fresh slice, so the reversal is
  visible only to a caller that passes its own slice with `ds...`.
- `fmt.Println` and the output comparison of the examples; each example
  instead promises its output in its postcondition.
- `strings.ToUpper`: replaced by `ToUpper`, which upper-cases ASCII letters
  only; Unicode case mapping is not modelled.
- Go's fixed-width `int` (32 or 64 bits) wrap-around in the example reducers (`acc + v`, `v * 2`):
  integers are unbounded, and the example values are far from the limit.
