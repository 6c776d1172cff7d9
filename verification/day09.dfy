/** Day 9: extrapolating a sequence of readings one step forwards and one
    step backwards from its table of successive differences. */
module Day9 {
  import opened Common
  import opened Text

  /** The successive differences `xs[i + 1] - xs[i]` (`windows(2)`). */
  function Diffs(xs: seq<int>): (ds: seq<int>)
    ensures |ds| == if |xs| >= 1 then |xs| - 1 else 0
  {
    seq(if |xs| >= 1 then |xs| - 1 else 0, i requires 0 <= i < |xs| - 1 => xs[i + 1] - xs[i])
  }

  /** The differences collected into a set have exactly one element. */
  predicate AllSame(ds: seq<int>) {
    |ds| >= 1 && forall i :: 0 <= i < |ds| ==> ds[i] == ds[0]
  }

  /** `next_point` on at least two values: the value before the first and
      the value after the last. */
  function Extrapolate(xs: seq<int>): (r: (int, int))
    requires |xs| >= 2
    decreases |xs|
  {
    var ds := Diffs(xs);
    var next := if AllSame(ds) then (ds[|ds| - 1], ds[|ds| - 1]) else Extrapolate(ds);
    (xs[0] - next.0, xs[|xs| - 1] + next.1)
  }

  /** `next_point` in full: with fewer than two values the difference set
      is empty, so the recursion never reaches a constant row and never
      returns; that outcome is `None`. */
  function NextPoint(xs: seq<int>): (r: Option<(int, int)>)
    ensures r.Some? <==> |xs| >= 2
  {
    if |xs| < 2 then None else Some(Extrapolate(xs))
  }

  // ---------------------------------------------------------------------
  // What the extrapolated values mean

  /** `ys` has one more value than `xs`, and so has every row of its
      difference table down to the first constant row of `xs`, which stays
      constant in `ys`. */
  ghost predicate TableExtends(xs: seq<int>, ys: seq<int>)
    requires |xs| >= 2
    decreases |xs|
  {
    |ys| == |xs| + 1
    && (AllSame(Diffs(xs)) ==> AllSame(Diffs(ys)))
    && (!AllSame(Diffs(xs)) ==> TableExtends(Diffs(xs), Diffs(ys)))
  }

  lemma DiffsAppend(xs: seq<int>, e: int)
    requires |xs| >= 1
    ensures Diffs(xs + [e]) == Diffs(xs) + [e - xs[|xs| - 1]]
  {
  }

  lemma DiffsPrepend(s: int, xs: seq<int>)
    requires |xs| >= 1
    ensures Diffs([s] + xs) == [xs[0] - s] + Diffs(xs)
  {
  }

  /** The last value is the only one that keeps the difference table's
      constant row constant when appended. */
  lemma {:induction false} ExtrapolateEnd(xs: seq<int>, e: int)
    requires |xs| >= 2
    ensures TableExtends(xs, xs + [e]) <==> e == Extrapolate(xs).1
    decreases |xs|
  {
    var ds := Diffs(xs);
    var last := xs[|xs| - 1];
    DiffsAppend(xs, e);
    if AllSame(ds) {
      var grown := ds + [e - last];
      assert grown[0] == ds[0] && grown[|grown| - 1] == e - last;
      if AllSame(grown) {
        assert ds[|ds| - 1] == grown[|ds| - 1] == grown[0];
      }
      if e == Extrapolate(xs).1 {
        assert forall i :: 0 <= i < |grown| ==> grown[i] == grown[0];
      }
    } else {
      ExtrapolateEnd(ds, e - last);
    }
  }

  /** Likewise the first value when prepended. */
  lemma {:induction false} ExtrapolateStart(xs: seq<int>, s: int)
    requires |xs| >= 2
    ensures TableExtends(xs, [s] + xs) <==> s == Extrapolate(xs).0
    decreases |xs|
  {
    var ds := Diffs(xs);
    DiffsPrepend(s, xs);
    if AllSame(ds) {
      var grown := [xs[0] - s] + ds;
      assert grown[1] == ds[0];
      if AllSame(grown) {
        assert ds[|ds| - 1] == ds[0] == grown[1] == grown[0];
      }
      if s == Extrapolate(xs).0 {
        assert forall i :: 0 <= i < |grown| ==> grown[i] == grown[0] by {
          forall i | 0 <= i < |grown|
            ensures grown[i] == grown[0]
          {
            if i > 0 {
              assert grown[i] == ds[i - 1];
            }
          }
        }
      }
    } else {
      ExtrapolateStart(ds, xs[0] - s);
    }
  }

  /** On an arithmetic progression the common difference is added at both
      ends. */
  lemma ArithmeticExtrapolate(xs: seq<int>, d: int)
    requires |xs| >= 2 && forall i :: 0 <= i < |xs| - 1 ==> xs[i + 1] - xs[i] == d
    ensures Extrapolate(xs) == (xs[0] - d, xs[|xs| - 1] + d)
  {
    assert AllSame(Diffs(xs));
  }

  /** The three sequences of the `next_point` unit test. */
  lemma NextPointExamples()
    ensures NextPoint([0, 3, 6, 9, 12, 15]) == Some((-3, 18))
    ensures NextPoint([1, 3, 6, 10, 15, 21]) == Some((0, 28))
    ensures NextPoint([10, 13, 16, 21, 30, 45]) == Some((5, 68))
  {
    ArithmeticExtrapolate([0, 3, 6, 9, 12, 15], 3);
    SecondOrderExample();
    ThirdOrderExample();
  }

  /** A row that is not constant extrapolates from its differences. */
  lemma ExtrapolateFromDiffs(xs: seq<int>, ds: seq<int>, next: (int, int))
    requires |xs| >= 2 && Diffs(xs) == ds && !AllSame(ds) && Extrapolate(ds) == next
    ensures Extrapolate(xs) == (xs[0] - next.0, xs[|xs| - 1] + next.1)
  {
  }

  lemma SecondOrderExample()
    ensures Extrapolate([1, 3, 6, 10, 15, 21]) == (0, 28)
  {
    ArithmeticExtrapolate([2, 3, 4, 5, 6], 1);
    assert Diffs([1, 3, 6, 10, 15, 21]) == [2, 3, 4, 5, 6];
    assert !AllSame([2, 3, 4, 5, 6]);
    ExtrapolateFromDiffs([1, 3, 6, 10, 15, 21], [2, 3, 4, 5, 6], (1, 7));
  }

  lemma ThirdOrderExample()
    ensures Extrapolate([10, 13, 16, 21, 30, 45]) == (5, 68)
  {
    ArithmeticExtrapolate([0, 2, 4, 6], 2);
    assert Diffs([3, 3, 5, 9, 15]) == [0, 2, 4, 6];
    assert !AllSame([3, 3, 5, 9, 15]);
    ExtrapolateFromDiffs([3, 3, 5, 9, 15], [0, 2, 4, 6], (-2, 8));
    assert Diffs([10, 13, 16, 21, 30, 45]) == [3, 3, 5, 9, 15];
    ExtrapolateFromDiffs([10, 13, 16, 21, 30, 45], [3, 3, 5, 9, 15], (5, 23));
  }

  // ---------------------------------------------------------------------
  // The puzzle

  /** `Dataset::from`: whitespace-separated signed numbers; a word that
      does not parse panics (`None`). */
  function ParseDataset(line: string): (r: Option<seq<int>>)
    ensures r.Some? ==> |r.value| == |Words(line)|
  {
    var ws := Words(line);
    AllSome(seq(|ws|, i requires 0 <= i < |ws| => ParseInt(ws[i])))
  }

  /** One line's pair, or `None` when it does not parse or `next_point`
      never returns. */
  function LinePoint(line: string): (r: Option<(int, int)>)
    ensures r.Some? <==> ParseDataset(line).Some? && |ParseDataset(line).value| >= 2
  {
    match ParseDataset(line)
    case Some(xs) => NextPoint(xs)
    case None => None
  }

  /** The value after a line's readings is the one that extends its
      difference table at the end, and the value before it the one that
      extends it at the start. */
  lemma LinePointExtends(line: string)
    requires LinePoint(line).Some?
    ensures var xs := ParseDataset(line).value;
            var p := LinePoint(line).value;
            |xs| >= 2 && TableExtends(xs, xs + [p.1]) && TableExtends(xs, [p.0] + xs)
  {
    var xs := ParseDataset(line).value;
    ExtrapolateEnd(xs, Extrapolate(xs).1);
    ExtrapolateStart(xs, Extrapolate(xs).0);
  }

  function Starts(ps: seq<(int, int)>): (r: seq<int>)
    ensures |r| == |ps| && forall k :: 0 <= k < |ps| ==> r[k] == ps[k].0
  {
    if ps == [] then [] else Starts(ps[..|ps| - 1]) + [ps[|ps| - 1].0]
  }

  function Ends(ps: seq<(int, int)>): (r: seq<int>)
    ensures |r| == |ps| && forall k :: 0 <= k < |ps| ==> r[k] == ps[k].1
  {
    if ps == [] then [] else Ends(ps[..|ps| - 1]) + [ps[|ps| - 1].1]
  }

  /** `try_into::<u64>().ok()`: a negative total is no answer. */
  function AsAnswer(x: int): (r: Option<nat>)
    ensures r.Some? <==> x >= 0
    ensures r.Some? ==> r.value == x
  {
    if x >= 0 then Some(x) else None
  }

  /** `evaluate_datapoints`: part 1 totals the values after each line,
      part 2 the values before; an empty input leaves the folds at `None`
      and the final `unwrap` panics. */
  function EvaluateDatapoints(input: string): (r: Option<(Option<nat>, Option<nat>)>)
  {
    var lines := Lines(input);
    match AllSome(seq(|lines|, k requires 0 <= k < |lines| => LinePoint(lines[k])))
    case None => None
    case Some(ps) =>
      if ps == [] then None
      else Some((AsAnswer(Sum(Ends(ps))), AsAnswer(Sum(Starts(ps)))))
  }

  /** There is an answer exactly when the input has lines and every line
      has a pair. */
  lemma EvaluateDatapointsDefined(input: string)
    ensures EvaluateDatapoints(input).Some? <==>
            |Lines(input)| >= 1 && forall k :: 0 <= k < |Lines(input)| ==> LinePoint(Lines(input)[k]).Some?
  {
    var lines := Lines(input);
    var opts := seq(|lines|, k requires 0 <= k < |lines| => LinePoint(lines[k]));
    assert forall k :: 0 <= k < |lines| ==> opts[k] == LinePoint(lines[k]);
  }

  /** On an answer, every line has its pair, part 1 is the total of the
      values after each line (when not negative) and part 2 the total of
      the values before. */
  lemma EvaluateDatapointsSpec(input: string)
    ensures EvaluateDatapoints(input).Some? ==>
              exists ps: seq<(int, int)> :: |ps| == |Lines(input)|
                && (forall k :: 0 <= k < |ps| ==> LinePoint(Lines(input)[k]) == Some(ps[k]))
                && EvaluateDatapoints(input).value == (AsAnswer(Sum(Ends(ps))), AsAnswer(Sum(Starts(ps))))
  {
    var lines := Lines(input);
    var opts := seq(|lines|, k requires 0 <= k < |lines| => LinePoint(lines[k]));
    assert forall k :: 0 <= k < |lines| ==> opts[k] == LinePoint(lines[k]);
    if EvaluateDatapoints(input).Some? {
      var ps := AllSome(opts).value;
      assert forall k :: 0 <= k < |ps| ==> LinePoint(lines[k]) == Some(ps[k]);
    }
  }
}
