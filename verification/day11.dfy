/** Day 11: an image of galaxies, expanded by doubling every empty row and
    column, and the sum of the Manhattan distances between all pairs. */
module Day11 {
  import opened Common
  import opened Text
  import opened Grids

  type Grid = seq<seq<char>>

  // ---------------------------------------------------------------------
  // Counting galaxies

  /** The number of '#' cells in one line. */
  function CountHashes(s: seq<char>): nat {
    if s == [] then 0 else (if s[0] == '#' then 1 else 0) + CountHashes(s[1..])
  }

  /** The number of '#' cells in a grid. */
  function GridHashes(g: Grid): nat {
    if g == [] then 0 else CountHashes(g[0]) + GridHashes(g[1..])
  }

  lemma {:induction false} CountHashesZero(s: seq<char>)
    ensures CountHashes(s) == 0 <==> '#' !in s
  {
    if s != [] {
      CountHashesZero(s[1..]);
      assert s == [s[0]] + s[1..];
    }
  }

  lemma {:induction false} GridHashesAppend(a: Grid, b: Grid)
    ensures GridHashes(a + b) == GridHashes(a) + GridHashes(b)
  {
    if a != [] {
      assert (a + b)[0] == a[0];
      assert (a + b)[1..] == a[1..] + b;
      GridHashesAppend(a[1..], b);
    } else {
      assert a + b == b;
    }
  }

  // ---------------------------------------------------------------------
  // Expansion

  /** The `flat_map` of `Universe::from`: a line holding a galaxy is kept,
      any other line is emitted twice, in place. */
  function ExpandLines(ls: Grid): (r: Grid)
    ensures |r| >= |ls|
  {
    if ls == [] then []
    else (if '#' in ls[0] then [ls[0]] else [ls[0], ls[0]]) + ExpandLines(ls[1..])
  }

  /** Undoes the doubling: an empty line is read together with its
      copy. */
  function Shrink(ls: Grid): Grid {
    if ls == [] then []
    else if '#' in ls[0] || |ls| == 1 then [ls[0]] + Shrink(ls[1..])
    else [ls[0]] + Shrink(ls[2..])
  }

  /** Expansion is reversible: every empty line was doubled in place and
      every other line kept once, in order. */
  lemma {:induction false} ShrinkExpand(ls: Grid)
    ensures Shrink(ExpandLines(ls)) == ls
  {
    if ls != [] {
      var rest := ExpandLines(ls[1..]);
      ShrinkExpand(ls[1..]);
      if '#' in ls[0] {
        assert ([ls[0]] + rest)[1..] == rest;
      } else {
        assert ([ls[0], ls[0]] + rest)[2..] == rest;
      }
    }
  }

  /** Expansion repeats lines and adds none. */
  lemma {:induction false} ExpandLinesRows(ls: Grid)
    ensures ls != [] ==> ExpandLines(ls)[0] == ls[0]
    ensures forall k :: 0 <= k < |ExpandLines(ls)| ==> ExpandLines(ls)[k] in ls
    ensures forall i :: 0 <= i < |ls| ==> ls[i] in ExpandLines(ls)
  {
    if ls != [] {
      ExpandLinesRows(ls[1..]);
      var head := if '#' in ls[0] then [ls[0]] else [ls[0], ls[0]];
      var r := ExpandLines(ls);
      assert r == head + ExpandLines(ls[1..]);
      forall k | 0 <= k < |r|
        ensures r[k] in ls
      {
        if k >= |head| {
          assert r[k] == ExpandLines(ls[1..])[k - |head|];
        }
      }
      forall i | 0 <= i < |ls|
        ensures ls[i] in r
      {
        if i > 0 {
          assert ls[i] == ls[1..][i - 1];
        }
      }
    }
  }

  /** Expanded lines are all of one length exactly when the lines were. */
  lemma ExpandLinesRectangular(ls: Grid)
    ensures Rectangular(ExpandLines(ls)) <==> Rectangular(ls)
  {
    ExpandLinesRows(ls);
    var r := ExpandLines(ls);
    if Rectangular(ls) && ls != [] {
      forall k | 0 <= k < |r|
        ensures |r[k]| == |r[0]|
      {
        var i :| 0 <= i < |ls| && ls[i] == r[k];
      }
    }
    if Rectangular(r) && r != [] {
      forall i | 0 <= i < |ls|
        ensures |ls[i]| == |ls[0]|
      {
        var k :| 0 <= k < |r| && r[k] == ls[i];
      }
    }
  }

  /** Expansion only copies lines without galaxies, so it adds none. */
  lemma {:induction false} ExpandLinesHashes(ls: Grid)
    ensures GridHashes(ExpandLines(ls)) == GridHashes(ls)
  {
    if ls != [] {
      ExpandLinesHashes(ls[1..]);
      CountHashesZero(ls[0]);
      var head := if '#' in ls[0] then [ls[0]] else [ls[0], ls[0]];
      GridHashesAppend(head, ExpandLines(ls[1..]));
      if '#' !in ls[0] {
        assert GridHashes(head) == CountHashes(ls[0]) + GridHashes([ls[0]]);
      }
    }
  }

  /** The columns of a grid whose rows all have length `w`; unlike
      `Columns` it keeps the `w` empty columns of an empty grid. */
  function ColumnsOfWidth(g: Grid, w: nat): (cs: Grid)
    requires forall r :: 0 <= r < |g| ==> |g[r]| == w
    ensures |cs| == w
  {
    seq(w, c requires 0 <= c < w => seq(|g|, r requires 0 <= r < |g| => g[r][c]))
  }

  /** `w` empty columns. */
  function EmptyColumns(w: nat): Grid {
    seq(w, c => [])
  }

  lemma {:induction false} EmptyColumnsHashes(w: nat)
    ensures GridHashes(EmptyColumns(w)) == 0
  {
    if w > 0 {
      assert EmptyColumns(w)[1..] == EmptyColumns(w - 1);
      EmptyColumnsHashes(w - 1);
    }
  }

  /** Putting one cell in front of every column adds that line's galaxies. */
  lemma {:induction false} ConsColumnsHashes(x: seq<char>, a: Grid)
    requires |x| == |a|
    ensures GridHashes(seq(|x|, c requires 0 <= c < |x| => [x[c]] + a[c])) == CountHashes(x) + GridHashes(a)
  {
    var cs := seq(|x|, c requires 0 <= c < |x| => [x[c]] + a[c]);
    if x != [] {
      assert cs[1..] == seq(|x[1..]|, c requires 0 <= c < |x[1..]| => [x[1..][c]] + a[1..][c]);
      ConsColumnsHashes(x[1..], a[1..]);
      assert cs[0] == [x[0]] + a[0];
      assert cs[0][1..] == a[0];
    }
  }

  /** Transposing keeps the number of galaxies. */
  lemma {:induction false} ColumnsOfWidthHashes(g: Grid, w: nat)
    requires forall r :: 0 <= r < |g| ==> |g[r]| == w
    ensures GridHashes(ColumnsOfWidth(g, w)) == GridHashes(g)
  {
    if g == [] {
      assert ColumnsOfWidth(g, w) == EmptyColumns(w);
      EmptyColumnsHashes(w);
    } else {
      var rest := ColumnsOfWidth(g[1..], w);
      ColumnsOfWidthHashes(g[1..], w);
      var cs := ColumnsOfWidth(g, w);
      forall c | 0 <= c < w
        ensures cs[c] == [g[0][c]] + rest[c]
      {
        assert |cs[c]| == |g|;
        forall r | 0 <= r < |g|
          ensures cs[c][r] == ([g[0][c]] + rest[c])[r]
        {
          if r > 0 {
            assert g[r] == g[1..][r - 1];
          }
        }
      }
      assert cs == seq(|g[0]|, c requires 0 <= c < |g[0]| => [g[0][c]] + rest[c]);
      ConsColumnsHashes(g[0], rest);
    }
  }

  lemma ColumnsHashes(g: Grid)
    requires Rectangular(g)
    ensures GridHashes(Columns(g)) == GridHashes(g)
  {
    var cs, ws := Columns(g), ColumnsOfWidth(g, Width(g));
    forall c | 0 <= c < Width(g)
      ensures cs[c] == ws[c]
    {
    }
    assert cs == ws;
    ColumnsOfWidthHashes(g, Width(g));
  }

  /** `Universe::from` on the lines of the input: rows are expanded, the
      result must be rectangular for `Array2D::from_rows` (otherwise it
      panics), and then the columns are expanded and put back together. */
  function Expand(lines: Grid): (r: Option<Grid>)
    ensures r.Some? <==> Rectangular(lines)
  {
    var rows := ExpandLines(lines);
    ExpandLinesRectangular(lines);
    if !Rectangular(rows) then None
    else
      var cols := ExpandLines(Columns(rows));
      ExpandLinesRectangular(Columns(rows));
      Some(Columns(cols))
  }

  /** Expansion keeps the number of galaxies. */
  lemma ExpandHashes(lines: Grid)
    requires Rectangular(lines)
    ensures GridHashes(Expand(lines).value) == GridHashes(lines)
  {
    var rows := ExpandLines(lines);
    ExpandLinesRectangular(lines);
    ExpandLinesHashes(lines);
    ColumnsHashes(rows);
    var cols := ExpandLines(Columns(rows));
    ExpandLinesHashes(Columns(rows));
    ExpandLinesRectangular(Columns(rows));
    ColumnsHashes(cols);
  }

  /** The expanded universe's rows, read back, are the input's lines, and
      its columns, read back, are the columns of the row-expanded lines:
      each empty row and each empty column of the row-expanded grid was
      doubled in place. */
  lemma ExpandInPlace(lines: Grid)
    requires Rectangular(lines) && Width(lines) > 0
    ensures var rows := ExpandLines(lines);
            Rectangular(rows) && Shrink(rows) == lines &&
            Shrink(Columns(Expand(lines).value)) == Columns(rows) &&
            |Expand(lines).value| == |rows|
  {
    var rows := ExpandLines(lines);
    ExpandLinesRectangular(lines);
    ShrinkExpand(lines);
    ExpandLinesRows(lines);
    var cols := ExpandLines(Columns(rows));
    ExpandLinesRectangular(Columns(rows));
    ExpandLinesRows(Columns(rows));
    assert Width(cols) == |rows|;
    ColumnsTwice(cols);
    ShrinkExpand(Columns(rows));
  }

  // ---------------------------------------------------------------------
  // Galaxies and distances

  /** The galaxies of one row, left to right from column `c`. */
  function RowGalaxies(line: seq<char>, r: nat, c: nat): seq<Position>
    decreases |line| - c
  {
    if c >= |line| then []
    else (if line[c] == '#' then [Position(r, c)] else []) + RowGalaxies(line, r, c + 1)
  }

  /** `enumerate_row_major` filtered to '#', from row `r` on. */
  function GalaxiesFrom(g: Grid, r: nat): seq<Position>
    decreases |g| - r
  {
    if r >= |g| then [] else RowGalaxies(g[r], r, 0) + GalaxiesFrom(g, r + 1)
  }

  function Galaxies(g: Grid): seq<Position> {
    GalaxiesFrom(g, 0)
  }

  lemma {:induction false} RowGalaxiesSpec(line: seq<char>, r: nat, c: nat)
    requires c <= |line|
    ensures |RowGalaxies(line, r, c)| == CountHashes(line[c..])
    ensures forall p :: p in RowGalaxies(line, r, c) <==> p.row == r && c <= p.col < |line| && line[p.col] == '#'
    decreases |line| - c
  {
    if c < |line| {
      RowGalaxiesSpec(line, r, c + 1);
      assert line[c..][1..] == line[c + 1..];
    }
  }

  lemma {:induction false} GalaxiesFromSpec(g: Grid, r: nat)
    requires r <= |g|
    ensures |GalaxiesFrom(g, r)| == GridHashes(g[r..])
    ensures forall p :: p in GalaxiesFrom(g, r) <==>
              r <= p.row < |g| && p.col < |g[p.row]| && g[p.row][p.col] == '#'
    decreases |g| - r
  {
    if r < |g| {
      GalaxiesFromSpec(g, r + 1);
      RowGalaxiesSpec(g[r], r, 0);
      assert g[r..][1..] == g[r + 1..];
      assert g[r][0..] == g[r];
    }
  }

  /** The galaxy list holds exactly the '#' cells, once each. */
  lemma GalaxiesSpec(g: Grid)
    ensures |Galaxies(g)| == GridHashes(g)
    ensures forall p :: p in Galaxies(g) <==> p.row < |g| && p.col < |g[p.row]| && g[p.row][p.col] == '#'
  {
    GalaxiesFromSpec(g, 0);
    assert g[0..] == g;
  }

  /** The Manhattan distance, with `abs_diff` on each coordinate. */
  function Distance(a: Position, b: Position): nat {
    Abs(a.row - b.row) + Abs(a.col - b.col)
  }

  /** Only a galaxy and itself are no distance apart, and the distance
      reads the same both ways. */
  lemma DistanceMetric(a: Position, b: Position)
    ensures Distance(a, b) == 0 <==> a == b
    ensures Distance(a, b) == Distance(b, a)
  {
  }

  /** The distances from `p` to every position of `qs`. */
  function DistancesFrom(p: Position, qs: seq<Position>): nat {
    if qs == [] then 0 else Distance(p, qs[0]) + DistancesFrom(p, qs[1..])
  }

  /** The outer `map` of `sum_distances` from index `i` on: each galaxy
      against itself and every later one. */
  function SumFrom(gs: seq<Position>, i: nat): nat
    decreases |gs| - i
  {
    if i >= |gs| then 0 else DistancesFrom(gs[i], gs[i..]) + SumFrom(gs, i + 1)
  }

  /** `sum_distances`. */
  function SumDistances(gs: seq<Position>): nat {
    SumFrom(gs, 0)
  }

  /** Each unordered pair of distinct indices once. */
  function PairSum(gs: seq<Position>): nat {
    if gs == [] then 0 else DistancesFrom(gs[0], gs[1..]) + PairSum(gs[1..])
  }

  /** The distance from every position of `xs` to every position of
      `all`: the ordered pairs. */
  function OrderedPairs(xs: seq<Position>, all: seq<Position>): nat {
    if xs == [] then 0 else DistancesFrom(xs[0], all) + OrderedPairs(xs[1..], all)
  }

  lemma {:induction false} SumFromPairs(gs: seq<Position>, i: nat)
    requires i <= |gs|
    ensures SumFrom(gs, i) == PairSum(gs[i..])
    decreases |gs| - i
  {
    if i < |gs| {
      SumFromPairs(gs, i + 1);
      assert gs[i..][1..] == gs[i + 1..];
    }
  }

  /** The self-pairs that `galaxies[index..]` includes add nothing:
      `sum_distances` is the sum over unordered pairs of distinct
      galaxies. */
  lemma SumDistancesPairs(gs: seq<Position>)
    ensures SumDistances(gs) == PairSum(gs)
  {
    SumFromPairs(gs, 0);
    assert gs[0..] == gs;
  }

  lemma {:induction false} OrderedPairsCons(xs: seq<Position>, p: Position, all: seq<Position>)
    ensures OrderedPairs(xs, [p] + all) == DistancesFrom(p, xs) + OrderedPairs(xs, all)
  {
    if xs != [] {
      OrderedPairsCons(xs[1..], p, all);
      assert ([p] + all)[1..] == all;
    }
  }

  /** The sum over unordered pairs is half the sum over ordered pairs, so
      it does not depend on the order the galaxies are listed in. */
  lemma {:induction false} PairSumHalf(gs: seq<Position>)
    ensures 2 * PairSum(gs) == OrderedPairs(gs, gs)
  {
    if gs != [] {
      var p, rest := gs[0], gs[1..];
      assert gs == [p] + rest;
      PairSumHalf(rest);
      OrderedPairsCons(rest, p, rest);
    }
  }

  /** Part 1: the distances of the expanded universe. */
  function Part1(input: string): (r: Option<nat>)
    ensures r.Some? <==> Rectangular(Lines(input))
  {
    match Expand(Lines(input))
    case None => None
    case Some(m) => Some(SumDistances(Galaxies(m)))
  }

  /** Part 1 is half the sum of the distances over all ordered pairs of
      galaxies of the expanded image. */
  lemma Part1Spec(input: string)
    ensures Part1(input).Some? ==>
              exists m :: Expand(Lines(input)) == Some(m)
                && 2 * Part1(input).value == OrderedPairs(Galaxies(m), Galaxies(m))
  {
    if Part1(input).Some? {
      var m := Expand(Lines(input)).value;
      SumDistancesPairs(Galaxies(m));
      PairSumHalf(Galaxies(m));
    }
  }

  /** The galaxies of the test image after expansion, in row-major
      order. */
  function ExampleGalaxies(): seq<Position> {
    [Position(0, 4), Position(1, 9), Position(2, 0), Position(5, 8), Position(6, 1), Position(7, 12), Position(10, 9), Position(11, 0), Position(11, 5)]
  }

  lemma ExampleRow0()
    ensures DistancesFrom(Position(0, 4), [Position(0, 4), Position(1, 9), Position(2, 0), Position(5, 8), Position(6, 1), Position(7, 12), Position(10, 9), Position(11, 0), Position(11, 5)]) == 87
  {
  }

  lemma ExampleRow1()
    ensures DistancesFrom(Position(1, 9), [Position(1, 9), Position(2, 0), Position(5, 8), Position(6, 1), Position(7, 12), Position(10, 9), Position(11, 0), Position(11, 5)]) == 79
  {
  }

  lemma ExampleRow2()
    ensures DistancesFrom(Position(2, 0), [Position(2, 0), Position(5, 8), Position(6, 1), Position(7, 12), Position(10, 9), Position(11, 0), Position(11, 5)]) == 73
  {
  }

  lemma ExampleRow3()
    ensures DistancesFrom(Position(5, 8), [Position(5, 8), Position(6, 1), Position(7, 12), Position(10, 9), Position(11, 0), Position(11, 5)]) == 43
  {
  }

  lemma ExampleRow4()
    ensures DistancesFrom(Position(6, 1), [Position(6, 1), Position(7, 12), Position(10, 9), Position(11, 0), Position(11, 5)]) == 39
  {
  }

  lemma ExampleRow5()
    ensures DistancesFrom(Position(7, 12), [Position(7, 12), Position(10, 9), Position(11, 0), Position(11, 5)]) == 33
  {
  }

  lemma ExampleRow6()
    ensures DistancesFrom(Position(10, 9), [Position(10, 9), Position(11, 0), Position(11, 5)]) == 15
  {
  }

  lemma ExampleRow7()
    ensures DistancesFrom(Position(11, 0), [Position(11, 0), Position(11, 5)]) == 5
  {
  }

  lemma ExampleRow8()
    ensures DistancesFrom(Position(11, 5), [Position(11, 5)]) == 0
  {
  }

  /** The galaxies of the expanded test image are 374 steps apart in
      total. */
  lemma DistancesExample()
    ensures SumDistances(ExampleGalaxies()) == 374
  {
    var gs := ExampleGalaxies();
    assert gs[8..] == [Position(11, 5)];
    ExampleRow8();
    assert SumFrom(gs, 8) == 0;
    assert gs[7..] == [Position(11, 0), Position(11, 5)];
    ExampleRow7();
    assert SumFrom(gs, 7) == 5;
    assert gs[6..] == [Position(10, 9), Position(11, 0), Position(11, 5)];
    ExampleRow6();
    assert SumFrom(gs, 6) == 20;
    assert gs[5..] == [Position(7, 12), Position(10, 9), Position(11, 0), Position(11, 5)];
    ExampleRow5();
    assert SumFrom(gs, 5) == 53;
    assert gs[4..] == [Position(6, 1), Position(7, 12), Position(10, 9), Position(11, 0), Position(11, 5)];
    ExampleRow4();
    assert SumFrom(gs, 4) == 92;
    assert gs[3..] == [Position(5, 8), Position(6, 1), Position(7, 12), Position(10, 9), Position(11, 0), Position(11, 5)];
    ExampleRow3();
    assert SumFrom(gs, 3) == 135;
    assert gs[2..] == [Position(2, 0), Position(5, 8), Position(6, 1), Position(7, 12), Position(10, 9), Position(11, 0), Position(11, 5)];
    ExampleRow2();
    assert SumFrom(gs, 2) == 208;
    assert gs[1..] == [Position(1, 9), Position(2, 0), Position(5, 8), Position(6, 1), Position(7, 12), Position(10, 9), Position(11, 0), Position(11, 5)];
    ExampleRow1();
    assert SumFrom(gs, 1) == 287;
    assert gs[0..] == [Position(0, 4), Position(1, 9), Position(2, 0), Position(5, 8), Position(6, 1), Position(7, 12), Position(10, 9), Position(11, 0), Position(11, 5)];
    ExampleRow0();
    assert SumFrom(gs, 0) == 374;
  }
}
