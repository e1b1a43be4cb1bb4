/** The library's documented examples (gofn_test.go), each stated as a method
    that runs the modelled operations on the example's inputs and promises
    the example's output, together with the general facts behind them. */
module Examples {
  import opened Fold
  import opened Mapping
  import opened Filtering
  import opened Reversal
  import opened Decoration
  import opened Options

  // ---------------------------------------------------------------- Reduce

  function Add(acc: int, v: int): int { acc + v }

  function Concat(acc: string, v: string): string { acc + v }

  /** The reducer of the third Reduce example: append twice the element. */
  function AppendDoubled(): (seq<int>, int) -> seq<int>
  {
    (acc: seq<int>, v: int) => acc + [2 * v]
  }

  /** The mapper of the Map example. */
  function Twice(v: int): int { v * 2 }

  /** Folding "append 2*v" from the empty sequence is Map with "v*2", for
      every input. */
  lemma {:induction false} DoubledFoldIsMap(s: seq<int>)
    ensures FoldLeft([], s, AppendDoubled()) == Map(s, Twice)
    decreases |s|
  {
    if s != [] {
      var p, x := s[..|s| - 1], s[|s| - 1];
      assert s == p + [x];
      DoubledFoldIsMap(p);
      FoldLeftSnoc([], p, x, AppendDoubled());
      MapSnoc(p, x, Twice);
    }
  }

  /** The summing fold on the example's input, one element at a time. */
  lemma SumUpToFive()
    ensures FoldLeft(0, [1, 2, 3, 4, 5], Add) == 15
  {
    FoldLeftSnoc(0, [], 1, Add);
    assert [] + [1] == [1];
    FoldLeftSnoc(0, [1], 2, Add);
    assert [1] + [2] == [1, 2];
    FoldLeftSnoc(0, [1, 2], 3, Add);
    assert [1, 2] + [3] == [1, 2, 3];
    FoldLeftSnoc(0, [1, 2, 3], 4, Add);
    assert [1, 2, 3] + [4] == [1, 2, 3, 4];
    FoldLeftSnoc(0, [1, 2, 3, 4], 5, Add);
    assert [1, 2, 3, 4] + [5] == [1, 2, 3, 4, 5];
  }

  /** The concatenating fold on the example's input, one element at a time. */
  lemma ConcatAbc()
    ensures FoldLeft("", ["a", "b", "c"], Concat) == "abc"
  {
    FoldLeftSnoc("", [], "a", Concat);
    assert [] + ["a"] == ["a"];
    FoldLeftSnoc("", ["a"], "b", Concat);
    assert ["a"] + ["b"] == ["a", "b"];
    FoldLeftSnoc("", ["a", "b"], "c", Concat);
    assert ["a", "b"] + ["c"] == ["a", "b", "c"];
  }

  method ExampleReduce() returns (sum: int, concat: string, twice: seq<int>)
    ensures sum == 15
    ensures concat == "abc"
    ensures twice == [2, 4, 6]
  {
    sum := Reduce(0, [1, 2, 3, 4, 5], Add);
    SumUpToFive();
    concat := Reduce("", ["a", "b", "c"], Concat);
    ConcatAbc();
    twice := Reduce([], [1, 2, 3], AppendDoubled());
    DoubledFoldIsMap([1, 2, 3]);
  }

  // ------------------------------------------------------------------- Map

  /** Upper case of one letter, for the ASCII letters only. */
  function UpperChar(c: char): char
  {
    if 'a' <= c <= 'z' then (c as int - 32) as char else c
  }

  /** A stand-in for strings.ToUpper restricted to ASCII letters. */
  function ToUpper(s: string): string
  {
    Map(s, UpperChar)
  }

  method ExampleMap() returns (twice: seq<int>, uppercase: seq<string>)
    ensures twice == [2, 4, 6]
    ensures uppercase == ["A", "B", "C"]
  {
    twice := Map([1, 2, 3], Twice);
    uppercase := Map(["a", "b", "c"], ToUpper);
    assert ToUpper("a") == "A" && ToUpper("b") == "B" && ToUpper("c") == "C";
  }

  // ---------------------------------------------------------------- Filter

  /** The example's predicate `v%2 == 1`, with Go's `%`, which truncates
      toward zero so that the remainder takes the sign of the dividend. */
  function IsOdd(v: int): bool
  {
    (if v < 0 then -((-v) % 2) else v % 2) == 1
  }

  /** Under Go's `%` the predicate accepts exactly the positive odd numbers:
      a negative odd number leaves remainder -1. */
  lemma IsOddExactly(v: int)
    ensures IsOdd(v) <==> v > 0 && v % 2 == 1
  {
  }

  /** The filtering fold on the example's input, one element at a time. */
  lemma OddsUpToFive()
    ensures FoldLeft([], [1, 2, 3, 4, 5], FilterStep(IsOdd)) == [1, 3, 5]
  {
    var step := FilterStep(IsOdd);
    assert IsOdd(1) && !IsOdd(2) && IsOdd(3) && !IsOdd(4) && IsOdd(5);
    FoldLeftSnoc([], [], 1, step);
    assert [] + [1] == [1];
    assert FoldLeft([], [1], step) == [1];
    FoldLeftSnoc([], [1], 2, step);
    assert [1] + [2] == [1, 2];
    assert FoldLeft([], [1, 2], step) == [1];
    FoldLeftSnoc([], [1, 2], 3, step);
    assert [1, 2] + [3] == [1, 2, 3];
    assert FoldLeft([], [1, 2, 3], step) == [1, 3];
    FoldLeftSnoc([], [1, 2, 3], 4, step);
    assert [1, 2, 3] + [4] == [1, 2, 3, 4];
    assert FoldLeft([], [1, 2, 3, 4], step) == [1, 3];
    FoldLeftSnoc([], [1, 2, 3, 4], 5, step);
    assert [1, 2, 3, 4] + [5] == [1, 2, 3, 4, 5];
  }

  method ExampleFilter() returns (odd: seq<int>)
    ensures odd == [1, 3, 5]
  {
    odd := Filter([1, 2, 3, 4, 5], IsOdd);
    OddsUpToFive();
  }

  // ---------------------------------------------------------- ApplyOptions

  datatype Config = Config(A: int, B: string)

  function WithA(a: int): Option<Config>
  {
    (c: Config) => c.(A := a)
  }

  function WithB(b: string): Option<Config>
  {
    (c: Config) => c.(B := b)
  }

  /** Two options writing different fields: both writes hold, whatever the
      state before. */
  lemma BothWritesHold(c: Config, a: int, b: string)
    ensures Configured(c, [WithA(a), WithB(b)]) == Config(a, b)
  {
    assert [WithA(a), WithB(b)] == [WithA(a)] + [WithB(b)];
    assert [WithA(a)] == [] + [WithA(a)];
    ConfiguredSnoc(c, [WithA(a)], WithB(b));
    ConfiguredSnoc(c, [], WithA(a));
  }

  /** A final write to A wins over whatever the earlier options did, and
      leaves B as they left it. */
  lemma LastWriteWins(c: Config, opts: seq<Option<Config>>, a: int)
    ensures Configured(c, opts + [WithA(a)]) == Configured(c, opts).(A := a)
  {
    ConfiguredSnoc(c, opts, WithA(a));
  }

  method ExampleApplyOptions() returns (c: Config)
    ensures c == Config(1, "b")
  {
    var target := new Target(Config(0, ""));
    ApplyOptions(target, [WithA(1), WithB("b")]);
    BothWritesHold(Config(0, ""), 1, "b");
    c := target.state;
  }

  // -------------------------------------------------------------- Decorate

  /** What a call leaves in the shared trace, as a function of the trace
      before the call. */
  type Trace = seq<int>
  type Fn = Trace -> Trace

  /** The undecorated function: it appends 0. */
  function Center(): Fn
  {
    (t: Trace) => t + [0]
  }

  /** The decorator `df(id)`: append `id`, call the wrapped function, and
      append `id` again on the way out (the deferred append). */
  function Df(id: int): Fn -> Fn
  {
    (inner: Fn) => (t: Trace) => inner(t + [id]) + [id]
  }

  /** Decorating Center with df(ids[0]), ..., df(ids[n-1]) runs the entries
      from the last decorator inwards and the exits back outwards. */
  lemma {:induction false} DecoratedTrace(ids: seq<int>, t: Trace)
    ensures Decorate(Center(), Map(ids, Df))(t) == t + Reversed(ids) + [0] + ids
    decreases |ids|
  {
    if ids == [] {
      assert Map(ids, Df) == [];
    } else {
      var p, x := ids[..|ids| - 1], ids[|ids| - 1];
      assert ids == p + [x];
      MapSnoc(p, x, Df);
      DecorateSnoc(Center(), Map(p, Df), Df(x));
      DecoratedTrace(p, t + [x]);
      ReversedSnoc(p, x);
    }
  }

  /** With the decorators reversed, the first one is entered first. */
  lemma ReversedDecoratedTrace(ids: seq<int>, t: Trace)
    ensures Decorate(Center(), Reversed(Map(ids, Df)))(t) == t + ids + [0] + Reversed(ids)
  {
    assert Reversed(Map(ids, Df)) == Map(Reversed(ids), Df);
    DecoratedTrace(Reversed(ids), t);
    ReversedTwice(ids);
  }

  method ExampleDecorate() returns (trace: Trace)
    ensures trace == [3, 2, 1, 0, 1, 2, 3]
  {
    var f := Decorate(Center(), [Df(1), Df(2), Df(3)]);
    trace := f([]);
    assert Map([1, 2, 3], Df) == [Df(1), Df(2), Df(3)];
    DecoratedTrace([1, 2, 3], []);
    assert Reversed([1, 2, 3]) == [3, 2, 1];
  }

  method ExampleReverse() returns (r: seq<int>)
    ensures r == [5, 4, 3, 2, 1]
  {
    var a := new int[] [1, 2, 3, 4, 5];
    var b, _ := Reverse(a);
    r := b[..];
  }

  method ExampleReversedDecorate() returns (trace: Trace, decorators: seq<Fn -> Fn>)
    ensures trace == [1, 2, 3, 0, 3, 2, 1]
    ensures decorators == [Df(3), Df(2), Df(1)]
  {
    var a := new (Fn -> Fn)[] [Df(1), Df(2), Df(3)];
    ghost var before := a[..];
    assert before == Map([1, 2, 3], Df);
    var f := ReversedDecorate(Center(), a);
    assert f == Decorate(Center(), Reversed(Map([1, 2, 3], Df)));
    ReversedDecoratedTrace([1, 2, 3], []);
    assert Reversed([1, 2, 3]) == [3, 2, 1];
    trace := f([]);
    decorators := a[..];
    assert decorators == Reversed(before);
  }
}
