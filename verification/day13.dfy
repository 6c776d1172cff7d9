/** Day 13: patterns of ash and rocks, and the lines between two rows or
    two columns where they mirror, allowing an exact number of smudges. */
module Day13 {
  import opened Common
  import opened Text
  import opened Grids

  type Grid = seq<seq<char>>

  /** `Pattern`: the grid and how many smudges a reflection needs. */
  datatype Pattern = Pattern(grid: Grid, allowed: nat)

  // ---------------------------------------------------------------------
  // Smudges

  /** The number of positions among the first `n` where `a` and `b`
      differ. */
  function MismatchesUpTo(a: seq<char>, b: seq<char>, n: nat): (m: nat)
    requires n <= |a| && n <= |b|
    ensures m <= n
  {
    if n == 0 then 0
    else MismatchesUpTo(a, b, n - 1) + (if a[n - 1] != b[n - 1] then 1 else 0)
  }

  /** Cells that differ when two lines are zipped (the shorter one sets the
      length). */
  function Mismatches(a: seq<char>, b: seq<char>): nat {
    MismatchesUpTo(a, b, Min(|a|, |b|))
  }

  lemma {:induction false} MismatchesUpToZero(a: seq<char>, b: seq<char>, n: nat)
    requires n <= |a| && n <= |b|
    ensures MismatchesUpTo(a, b, n) == 0 <==> a[..n] == b[..n]
  {
    if n > 0 {
      MismatchesUpToZero(a, b, n - 1);
      assert a[..n] == a[..n - 1] + [a[n - 1]];
      assert b[..n] == b[..n - 1] + [b[n - 1]];
      if a[..n] == b[..n] {
        assert a[..n - 1] == a[..n][..n - 1] && b[..n - 1] == b[..n][..n - 1];
        assert a[n - 1] == a[..n][n - 1] && b[n - 1] == b[..n][n - 1];
      }
    }
  }

  /** Two lines of the same length have no mismatch exactly when they are
      equal. */
  lemma MismatchesZero(a: seq<char>, b: seq<char>)
    requires |a| == |b|
    ensures Mismatches(a, b) == 0 <==> a == b
  {
    MismatchesUpToZero(a, b, |a|);
    assert a[..|a|] == a && b[..|b|] == b;
  }

  lemma {:induction false} MismatchesUpToSymmetric(a: seq<char>, b: seq<char>, n: nat)
    requires n <= |a| && n <= |b|
    ensures MismatchesUpTo(a, b, n) == MismatchesUpTo(b, a, n)
  {
    if n > 0 {
      MismatchesUpToSymmetric(a, b, n - 1);
    }
  }

  /** Zipping is symmetric. */
  lemma MismatchesSymmetric(a: seq<char>, b: seq<char>)
    ensures Mismatches(a, b) == Mismatches(b, a)
  {
    MismatchesUpToSymmetric(a, b, Min(|a|, |b|));
  }

  lemma {:induction false} MismatchesUpToEqual(a: seq<char>, a': seq<char>, b: seq<char>, n: nat)
    requires n <= |a| && n <= |a'| && n <= |b|
    requires forall k :: 0 <= k < n ==> a[k] == a'[k]
    ensures MismatchesUpTo(a, b, n) == MismatchesUpTo(a', b, n)
  {
    if n > 0 {
      MismatchesUpToEqual(a, a', b, n - 1);
    }
  }

  /** Changing one cell of a line changes the mismatch count by at most
      one: a single smudge is a single mismatch. */
  lemma {:induction false} MismatchesUpToOneCell(a: seq<char>, b: seq<char>, n: nat, c: nat, x: char)
    requires n <= |a| && n <= |b| && c < |a|
    ensures MismatchesUpTo(a[c := x], b, n) <= MismatchesUpTo(a, b, n) + 1
    ensures MismatchesUpTo(a, b, n) <= MismatchesUpTo(a[c := x], b, n) + 1
  {
    if c >= n {
      MismatchesUpToEqual(a, a[c := x], b, n);
    } else if c == n - 1 {
      MismatchesUpToEqual(a, a[c := x], b, n - 1);
    } else {
      MismatchesUpToOneCell(a, b, n - 1, c, x);
    }
  }

  // ---------------------------------------------------------------------
  // Reflections

  /** How many line pairs a mirror after line `idx` compares: the lines
      before it, read backwards, zipped with the lines after it. */
  function Reach(n: nat, idx: nat): (k: nat)
    requires idx + 1 < n
    ensures k <= idx + 1 && idx + k < n
  {
    Min(idx + 1, n - idx - 1)
  }

  /** Mismatches of the first `k` line pairs around the mirror after
      line `idx`. */
  function SmudgesUpTo(lines: Grid, idx: nat, k: nat): nat
    requires idx + 1 < |lines| && k <= Reach(|lines|, idx)
  {
    if k == 0 then 0
    else SmudgesUpTo(lines, idx, k - 1) + Mismatches(lines[idx - (k - 1)], lines[idx + k])
  }

  /** All the mismatches the mirror after line `idx` has. */
  function Smudges(lines: Grid, idx: nat): nat
    requires idx + 1 < |lines|
  {
    SmudgesUpTo(lines, idx, Reach(|lines|, idx))
  }

  /** `is_reflection`: exactly the allowed number of smudges; a perfect
      mirror is not a reflection once a smudge is required. */
  predicate IsReflection(lines: Grid, idx: nat, allowed: nat)
    requires idx + 1 < |lines|
  {
    Smudges(lines, idx) == allowed
  }

  /** The `k`-th line before the mirror after line `idx` equals the
      `k`-th line after it. */
  predicate PairMatches(lines: Grid, idx: nat, k: nat)
    requires k <= idx && idx + 1 + k < |lines|
  {
    lines[idx - k] == lines[idx + 1 + k]
  }

  /** The mirror after line `idx` is perfect: every line before it,
      counting outwards, equals the line as far after it, as long as both
      exist. */
  ghost predicate Mirrors(lines: Grid, idx: nat)
    requires idx + 1 < |lines|
  {
    forall k: nat :: k < Reach(|lines|, idx) ==> PairMatches(lines, idx, k)
  }

  lemma {:induction false} SmudgesUpToZero(lines: Grid, idx: nat, k: nat)
    requires Rectangular(lines) && idx + 1 < |lines| && k <= Reach(|lines|, idx)
    ensures SmudgesUpTo(lines, idx, k) == 0 <==> forall j: nat :: j < k ==> PairMatches(lines, idx, j)
  {
    if k > 0 {
      SmudgesUpToZero(lines, idx, k - 1);
      MismatchesZero(lines[idx - (k - 1)], lines[idx + k]);
      assert PairMatches(lines, idx, k - 1) <==> lines[idx - (k - 1)] == lines[idx + k];
    }
  }

  /** On a grid, no smudge is the same as a perfect mirror. */
  lemma SmudgesZero(lines: Grid, idx: nat)
    requires Rectangular(lines) && idx + 1 < |lines|
    ensures Smudges(lines, idx) == 0 <==> Mirrors(lines, idx)
  {
    SmudgesUpToZero(lines, idx, Reach(|lines|, idx));
  }

  /** A perfect mirror reflects with no smudges allowed and does not with
      one. */
  lemma PerfectMirror(lines: Grid, idx: nat)
    requires Rectangular(lines) && idx + 1 < |lines| && Mirrors(lines, idx)
    ensures IsReflection(lines, idx, 0) && !IsReflection(lines, idx, 1)
  {
    SmudgesZero(lines, idx);
  }

  /** Which mirror positions `idx` in `0..total_len - 1` reflect. */
  function Reflections(lines: Grid, allowed: nat): (fs: seq<bool>)
    requires |lines| > 0
    ensures |fs| == |lines| - 1
    ensures forall i :: 0 <= i < |fs| ==> fs[i] == IsReflection(lines, i, allowed)
  {
    seq(|lines| - 1, i requires 0 <= i < |lines| - 1 => IsReflection(lines, i, allowed))
  }

  /** The sum of `i + 1` over the set flags below `m`. */
  function FlagSum(fs: seq<bool>, m: nat): nat
    requires m <= |fs|
  {
    if m == 0 then 0
    else FlagSum(fs, m - 1) + (if fs[m - 1] then m else 0)
  }

  /** `find_reflection`: the sum of `idx + 1` over the reflecting `idx` in
      `0..total_len - 1`; with no lines at all `total_len - 1` underflows
      and the program panics (`None`). */
  function FindReflection(lines: Grid, allowed: nat): (r: Option<nat>)
    ensures r.Some? <==> |lines| > 0
  {
    if |lines| == 0 then None else Some(FlagSum(Reflections(lines, allowed), |lines| - 1))
  }

  /** With no flag set below `m` the sum is 0. */
  lemma {:induction false} FlagSumNone(fs: seq<bool>, m: nat)
    requires m <= |fs|
    requires forall i :: 0 <= i < m ==> !fs[i]
    ensures FlagSum(fs, m) == 0
  {
    if m > 0 {
      FlagSumNone(fs, m - 1);
    }
  }

  /** With exactly one flag `idx` set, the result is the number of
      positions up to and including it. */
  lemma {:induction false} FlagSumSingle(fs: seq<bool>, m: nat, idx: nat)
    requires idx < m <= |fs| && fs[idx]
    requires forall i :: 0 <= i < m && i != idx ==> !fs[i]
    ensures FlagSum(fs, m) == idx + 1
  {
    if m - 1 == idx {
      FlagSumNone(fs, idx);
    } else {
      FlagSumSingle(fs, m - 1, idx);
    }
  }

  /** The result is at least `idx + 1` for every flag `idx` set, so a
      second reflection always shows in the total. */
  lemma {:induction false} FlagSumAtLeast(fs: seq<bool>, m: nat, idx: nat)
    requires idx < m <= |fs| && fs[idx]
    ensures FlagSum(fs, m) >= idx + 1
  {
    if m - 1 != idx {
      FlagSumAtLeast(fs, m - 1, idx);
    }
  }

  /** `find_reflection_score`: columns count once, rows a hundred times. */
  function Score(p: Pattern): (r: Option<nat>)
    requires Rectangular(p.grid)
    ensures r.Some? <==> |p.grid| > 0 && Width(p.grid) > 0
  {
    var v := FindReflection(Columns(p.grid), p.allowed);
    var h := FindReflection(p.grid, p.allowed);
    if v.Some? && h.Some? then Some(v.value + h.value * 100) else None
  }

  /** Mirrored at exactly one line, the reflection sum is the number of
      lines before it. */
  lemma FindReflectionSingle(lines: Grid, allowed: nat, idx: nat)
    requires idx + 1 < |lines| && IsReflection(lines, idx, allowed)
    requires forall i :: 0 <= i < |lines| - 1 && i != idx ==> !IsReflection(lines, i, allowed)
    ensures FindReflection(lines, allowed) == Some(idx + 1)
  {
    var fs := Reflections(lines, allowed);
    FlagSumSingle(fs, |fs|, idx);
  }

  /** Mirrored at no line, the reflection sum is zero. */
  lemma FindReflectionNone(lines: Grid, allowed: nat)
    requires |lines| > 0
    requires forall i :: 0 <= i < |lines| - 1 ==> !IsReflection(lines, i, allowed)
    ensures FindReflection(lines, allowed) == Some(0)
  {
    var fs := Reflections(lines, allowed);
    FlagSumNone(fs, |fs|);
  }

  /** A pattern mirrored at exactly one column line and no row line scores
      the number of columns to the left of it. */
  lemma ScoreVertical(p: Pattern, idx: nat)
    requires Rectangular(p.grid) && |p.grid| > 0 && Width(p.grid) > 0
    requires idx + 1 < Width(p.grid) && IsReflection(Columns(p.grid), idx, p.allowed)
    requires forall i :: 0 <= i < Width(p.grid) - 1 && i != idx ==> !IsReflection(Columns(p.grid), i, p.allowed)
    requires forall i :: 0 <= i < |p.grid| - 1 ==> !IsReflection(p.grid, i, p.allowed)
    ensures Score(p) == Some(idx + 1)
  {
    FindReflectionSingle(Columns(p.grid), p.allowed, idx);
    FindReflectionNone(p.grid, p.allowed);
    ScoreOf(p, idx + 1, 0, idx + 1);
  }

  /** Mirrored at exactly one row line and no column line, it scores a
      hundred times the rows above it. */
  lemma ScoreHorizontal(p: Pattern, idx: nat)
    requires Rectangular(p.grid) && |p.grid| > 0 && Width(p.grid) > 0
    requires idx + 1 < |p.grid| && IsReflection(p.grid, idx, p.allowed)
    requires forall i :: 0 <= i < |p.grid| - 1 && i != idx ==> !IsReflection(p.grid, i, p.allowed)
    requires forall i :: 0 <= i < Width(p.grid) - 1 ==> !IsReflection(Columns(p.grid), i, p.allowed)
    ensures Score(p) == Some((idx + 1) * 100)
  {
    FindReflectionNone(Columns(p.grid), p.allowed);
    FindReflectionSingle(p.grid, p.allowed, idx);
    ScoreOf(p, 0, idx + 1, (idx + 1) * 100);
  }

  /** The score from the two reflection sums. */
  lemma ScoreOf(p: Pattern, v: nat, h: nat, total: nat)
    requires Rectangular(p.grid) && |p.grid| > 0 && Width(p.grid) > 0
    requires FindReflection(Columns(p.grid), p.allowed) == Some(v)
    requires FindReflection(p.grid, p.allowed) == Some(h)
    requires total == v + h * 100
    ensures Score(p) == Some(total)
  {
  }

  // ---------------------------------------------------------------------
  // Patterns

  /** `Pattern::from`: one grid row per line, no smudges; `from_rows`
      refuses rows of different lengths and the `unwrap` panics. */
  function ParsePattern(text: string): (r: Option<Pattern>)
    ensures r.Some? <==> Rectangular(Lines(text))
    ensures r.Some? ==> r.value.grid == Lines(text) && r.value.allowed == 0
  {
    var rows := Lines(text);
    if Rectangular(rows) then Some(Pattern(rows, 0)) else None
  }

  /** `allow_smudges`: only the number of smudges changes. */
  function AllowSmudges(p: Pattern, amount: nat): (r: Pattern)
    ensures r.grid == p.grid && r.allowed == amount
  {
    p.(allowed := amount)
  }

  /** One pattern's score with the given number of smudges. */
  function PatternScore(text: string, smudges: nat): Option<nat> {
    match ParsePattern(text)
    case None => None
    case Some(p) => Score(AllowSmudges(p, smudges))
  }

  /** Both parts: the scores of the blank-line separated patterns added up,
      without and then with one smudge. */
  function Solve(input: string): Option<(nat, nat)> {
    var blocks := Split(input, "\n\n");
    var one := AllSome(seq(|blocks|, k requires 0 <= k < |blocks| => PatternScore(blocks[k], 0)));
    var two := AllSome(seq(|blocks|, k requires 0 <= k < |blocks| => PatternScore(blocks[k], 1)));
    if one.None? || two.None? then None
    else
      SumNonNegative(one.value);
      SumNonNegative(two.value);
      Some((Sum(one.value), Sum(two.value)))
  }

  /** A block that is a non-empty rectangle with columns. */
  predicate Scorable(block: string) {
    Rectangular(Lines(block)) && |Lines(block)| > 0 && |Lines(block)[0]| > 0
  }

  predicate AllScorable(blocks: seq<string>) {
    forall k :: 0 <= k < |blocks| ==> Scorable(blocks[k])
  }

  /** `scores` holds the score of every block, with the given smudges. */
  ghost predicate ScoresOf(blocks: seq<string>, smudges: nat, scores: seq<nat>) {
    |scores| == |blocks| && forall k :: 0 <= k < |blocks| ==> PatternScore(blocks[k], smudges) == Some(scores[k])
  }

  /** Both parts answer exactly when every blank-line separated block is a
      non-empty rectangle with columns; they are then the sums of the
      blocks' scores without and with one smudge. */
  lemma SolveSpec(input: string)
    ensures Solve(input).Some? <==> AllScorable(Split(input, "\n\n"))
    ensures Solve(input).Some? ==>
              exists one: seq<nat>, two: seq<nat> :: ScoresOf(Split(input, "\n\n"), 0, one) && ScoresOf(Split(input, "\n\n"), 1, two)
                && Solve(input).value == (Sum(one), Sum(two))
  {
    var blocks := Split(input, "\n\n");
    var ones := seq(|blocks|, k requires 0 <= k < |blocks| => PatternScore(blocks[k], 0));
    var twos := seq(|blocks|, k requires 0 <= k < |blocks| => PatternScore(blocks[k], 1));
    BlockScores(blocks, 0, ones);
    BlockScores(blocks, 1, twos);
  }

  /** The blocks score together exactly when each is a non-empty rectangle
      with columns, and then into their scores. */
  lemma BlockScores(blocks: seq<string>, smudges: nat, scored: seq<Option<nat>>)
    requires |scored| == |blocks| && forall k :: 0 <= k < |blocks| ==> scored[k] == PatternScore(blocks[k], smudges)
    ensures AllSome(scored).Some? <==> AllScorable(blocks)
    ensures AllSome(scored).Some? ==> ScoresOf(blocks, smudges, AllSome(scored).value)
  {
    forall k | 0 <= k < |blocks| {
      PatternScoreDefined(blocks[k], smudges);
    }
  }

  /** Every pattern scored is a rectangular grid with rows and columns. */
  lemma PatternScoreDefined(text: string, smudges: nat)
    ensures PatternScore(text, smudges).Some? <==>
            Rectangular(Lines(text)) && |Lines(text)| > 0 && |Lines(text)[0]| > 0
  {
  }
}
