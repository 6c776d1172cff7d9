/** Day 18: a dig plan of straight trenches, and the cubic metres of lava
    the dug-out lagoon holds, from the shoelace formula and the trench
    length. */
module Day18 {
  import opened Common
  import opened Text

  /** A row and column offset or position, the `(isize, isize)` pairs. */
  datatype Vec = Vec(row: int, col: int)

  /** One line of the plan: a unit direction, how far to dig, and the
      colour code between "(#" and ")". */
  datatype Instruction = Instruction(dir: Vec, dist: nat, colour: string)

  /** The direction letters: up and down change the row, left and right
      the column; any other word panics. */
  function DirectionOf(w: string): (d: Option<Vec>)
    ensures d.Some? <==> w == "U" || w == "D" || w == "L" || w == "R"
    ensures d.Some? ==> Abs(d.value.row) + Abs(d.value.col) == 1
    ensures d.Some? ==> (d.value.row != 0 <==> w == "U" || w == "D")
    ensures d.Some? ==> (d.value.row < 0 <==> w == "U") && (d.value.row > 0 <==> w == "D")
    ensures d.Some? ==> (d.value.col < 0 <==> w == "L") && (d.value.col > 0 <==> w == "R")
  {
    if w == "U" then Some(Vec(-1, 0))
    else if w == "D" then Some(Vec(1, 0))
    else if w == "L" then Some(Vec(0, -1))
    else if w == "R" then Some(Vec(0, 1))
    else None
  }

  /** `Dig::from` for one line: direction, distance and colour as the
      first three whitespace-separated words; the colour drops its first
      two characters and its last, and a word that is missing, a distance
      that does not parse, or a colour too short for that slice panics. */
  function ParseInstruction(line: string): (r: Option<Instruction>)
    ensures r.Some? ==> |Words(line)| >= 3 && DirectionOf(Words(line)[0]) == Some(r.value.dir)
    ensures r.Some? ==> ParseNat(Words(line)[1]) == Some(r.value.dist)
    ensures r.Some? ==> |Words(line)[2]| >= 3 && r.value.colour == Words(line)[2][2..|Words(line)[2]| - 1]
    ensures r.None? <==>
              (|Words(line)| < 3 || DirectionOf(Words(line)[0]).None? ||
               ParseNat(Words(line)[1]).None? || |Words(line)[2]| < 3)
  {
    var ws := Words(line);
    if |ws| < 3 then None
    else
      var col := ws[2];
      match (DirectionOf(ws[0]), ParseNat(ws[1]))
      case (Some(d), Some(n)) => if |col| >= 3 then Some(Instruction(d, n, col[2..|col| - 1])) else None
      case _ => None
  }

  /** The plan: one instruction per line. */
  function ParsePlan(input: string): (r: Option<seq<Instruction>>)
    ensures r.Some? ==> |r.value| == |Lines(input)|
    ensures r.Some? ==> forall i :: 0 <= i < |Lines(input)| ==> ParseInstruction(Lines(input)[i]) == Some(r.value[i])
    ensures r.None? <==> exists i :: 0 <= i < |Lines(input)| && ParseInstruction(Lines(input)[i]).None?
  {
    var lines := Lines(input);
    AllSome(seq(|lines|, i requires 0 <= i < |lines| => ParseInstruction(lines[i])))
  }

  // ---------------------------------------------------------------------
  // The fold

  /** The fold's state: the last vertex, the two shoelace sums and the
      trench length so far. */
  datatype DigState = DigState(last: Vec, xSum: int, ySum: int, perim: nat)

  /** One trench: the next vertex is the last plus direction times
      distance; `x_sum` gains last row times next column, `y_sum` last
      column times next row. */
  function DigStep(s: DigState, ins: Instruction): DigState {
    var next := Vec(s.last.row + ins.dir.row * ins.dist, s.last.col + ins.dir.col * ins.dist);
    DigState(next, s.xSum + s.last.row * next.col, s.ySum + s.last.col * next.row, s.perim + ins.dist)
  }

  /** The fold over the first `n` instructions, from `(0, 0)`. */
  function FoldUpTo(plan: seq<Instruction>, n: nat): DigState
    requires n <= |plan|
  {
    if n == 0 then DigState(Vec(0, 0), 0, 0, 0)
    else DigStep(FoldUpTo(plan, n - 1), plan[n - 1])
  }

  /** The fold over the whole plan. */
  function DigFold(plan: seq<Instruction>): DigState {
    FoldUpTo(plan, |plan|)
  }

  /** `get_lava_capacity`: half the difference of the shoelace sums, plus
      half the trench length, plus one. */
  function LavaCapacity(plan: seq<Instruction>): nat {
    var s := DigFold(plan);
    Abs(s.xSum - s.ySum) / 2 + s.perim / 2 + 1
  }

  // ---------------------------------------------------------------------
  // What the fold computes

  function RowMoves(plan: seq<Instruction>): (r: seq<int>)
    ensures |r| == |plan| && forall k :: 0 <= k < |plan| ==> r[k] == plan[k].dir.row * plan[k].dist
  {
    seq(|plan|, k requires 0 <= k < |plan| => plan[k].dir.row * plan[k].dist)
  }

  function ColumnMoves(plan: seq<Instruction>): (r: seq<int>)
    ensures |r| == |plan| && forall k :: 0 <= k < |plan| ==> r[k] == plan[k].dir.col * plan[k].dist
  {
    seq(|plan|, k requires 0 <= k < |plan| => plan[k].dir.col * plan[k].dist)
  }

  function Distances(plan: seq<Instruction>): (r: seq<int>)
    ensures |r| == |plan| && forall k :: 0 <= k < |plan| ==> r[k] == plan[k].dist
  {
    seq(|plan|, k requires 0 <= k < |plan| => plan[k].dist)
  }

  /** The sum of the first `n` elements, one more than that of the first
      `n - 1`. */
  lemma SumPrefixStep(xs: seq<int>, n: nat)
    requires 0 < n <= |xs|
    ensures Sum(xs[..n]) == Sum(xs[..n - 1]) + xs[n - 1]
  {
    assert xs[..n][..n - 1] == xs[..n - 1];
  }

  /** The vertex after `n` instructions is the sum of their moves, and the
      trench length the sum of their distances. */
  lemma {:induction false} FoldEndsAt(plan: seq<Instruction>, n: nat)
    requires n <= |plan|
    ensures FoldUpTo(plan, n).last == Vec(Sum(RowMoves(plan)[..n]), Sum(ColumnMoves(plan)[..n]))
    ensures FoldUpTo(plan, n).perim == Sum(Distances(plan)[..n])
  {
    if n > 0 {
      FoldEndsAt(plan, n - 1);
      SumPrefixStep(RowMoves(plan), n);
      SumPrefixStep(ColumnMoves(plan), n);
      SumPrefixStep(Distances(plan), n);
    }
  }

  /** The last vertex of the whole plan is the sum of its moves, and the
      trench length the sum of its distances. */
  lemma DigFoldEndsAt(plan: seq<Instruction>)
    ensures DigFold(plan).last == Vec(Sum(RowMoves(plan)), Sum(ColumnMoves(plan)))
    ensures DigFold(plan).perim == Sum(Distances(plan))
  {
    FoldEndsAt(plan, |plan|);
    assert RowMoves(plan)[..|plan|] == RowMoves(plan);
    assert ColumnMoves(plan)[..|plan|] == ColumnMoves(plan);
    assert Distances(plan)[..|plan|] == Distances(plan);
  }

  /** Every move is along a row or along a column. */
  predicate AxisAligned(plan: seq<Instruction>) {
    forall k :: 0 <= k < |plan| ==> plan[k].dir.row == 0 || plan[k].dir.col == 0
  }

  /** The area swept by the first `n` trenches' horizontal moves: each adds
      the row it is dug in times its column move. */
  function StripSum(plan: seq<Instruction>, n: nat): int
    requires n <= |plan|
  {
    if n == 0 then 0
    else StripSum(plan, n - 1) + Sum(RowMoves(plan)[..n - 1]) * ColumnMoves(plan)[n - 1]
  }

  lemma ShoelaceStep(x: int, y: int, r: int, c: int, a: int, b: int, strip: int)
    requires x - y + r * c == 2 * strip && a * b == 0
    ensures (x + r * (c + b)) - (y + c * (r + a)) + (r + a) * (c + b) == 2 * (strip + r * b)
  {
    assert r * (c + b) == r * c + r * b;
    assert c * (r + a) == c * r + c * a;
    assert (r + a) * (c + b) == r * c + r * b + a * c + a * b;
  }

  /** Along any axis-aligned plan, the shoelace difference plus the product
      of the last vertex's coordinates is twice the strip sum. */
  lemma {:induction false} ShoelaceStrips(plan: seq<Instruction>, n: nat)
    requires n <= |plan| && AxisAligned(plan)
    ensures var s := FoldUpTo(plan, n);
            s.xSum - s.ySum + s.last.row * s.last.col == 2 * StripSum(plan, n)
  {
    if n > 0 {
      var ins := plan[n - 1];
      ShoelaceStrips(plan, n - 1);
      var s := FoldUpTo(plan, n - 1);
      assert s.last.row == Sum(RowMoves(plan)[..n - 1]) by {
        FoldEndsAt(plan, n - 1);
      }
      var a := ins.dir.row * ins.dist;
      var b := ins.dir.col * ins.dist;
      assert a * b == 0 by {
        if ins.dir.row == 0 {
          assert a == 0;
        } else {
          assert b == 0;
        }
      }
      assert FoldUpTo(plan, n) == DigStep(s, ins);
      assert b == ColumnMoves(plan)[n - 1];
      assert StripSum(plan, n) == StripSum(plan, n - 1) + s.last.row * b;
      ShoelaceStep(s.xSum, s.ySum, s.last.row, s.last.col, a, b, StripSum(plan, n - 1));
    }
  }

  /** A plan that digs back to where it started encloses twice the strip
      sum in its shoelace difference, so the halving is exact and the
      capacity is the strip area plus half the trench length plus one
      (Pick's theorem for the boundary cells). */
  lemma ClosedPlanCapacity(plan: seq<Instruction>)
    requires AxisAligned(plan)
    requires Sum(RowMoves(plan)) == 0 && Sum(ColumnMoves(plan)) == 0
    ensures LavaCapacity(plan) == Abs(StripSum(plan, |plan|)) + Sum(Distances(plan)) / 2 + 1
  {
    var s := DigFold(plan);
    var t := StripSum(plan, |plan|);
    assert s.last == Vec(0, 0) && s.perim == Sum(Distances(plan)) by {
      DigFoldEndsAt(plan);
    }
    assert s.xSum - s.ySum == 2 * t by {
      ShoelaceStrips(plan, |plan|);
    }
    HalfOfDouble(s.xSum - s.ySum, t);
  }

  lemma HalfOfDouble(d: int, t: int)
    requires d == 2 * t
    ensures Abs(d) / 2 == Abs(t)
  {
  }

  /** Parsed directions are axis-aligned unit steps. */
  lemma ParsedAxisAligned(input: string)
    requires ParsePlan(input).Some?
    ensures AxisAligned(ParsePlan(input).value)
  {
    var lines := Lines(input);
    var plan := ParsePlan(input).value;
    forall k | 0 <= k < |plan|
      ensures plan[k].dir.row == 0 || plan[k].dir.col == 0
    {
      assert ParseInstruction(lines[k]) == Some(plan[k]);
    }
  }

  /** The colour never affects the result: plans that agree on directions
      and distances fold alike and have the same capacity. */
  lemma {:induction false} ColourIgnored(p: seq<Instruction>, q: seq<Instruction>, n: nat)
    requires |p| == |q| && n <= |p|
    requires forall k :: 0 <= k < |p| ==> p[k].dir == q[k].dir && p[k].dist == q[k].dist
    ensures FoldUpTo(p, n) == FoldUpTo(q, n)
    ensures n == |p| ==> LavaCapacity(p) == LavaCapacity(q)
  {
    if n > 0 {
      ColourIgnored(p, q, n - 1);
    }
  }

  /** `Dig::from` followed by `get_lava_capacity`. */
  function Solve(input: string): Option<nat> {
    match ParsePlan(input)
    case None => None
    case Some(plan) => Some(LavaCapacity(plan))
  }

  /** The answer exists exactly when every line is an instruction; for a
      plan that returns to its start it is the area enclosed by the
      trench, as strips, plus half the trench length plus one. */
  lemma SolveSpec(input: string)
    ensures Solve(input).None? <==> exists i :: 0 <= i < |Lines(input)| && ParseInstruction(Lines(input)[i]).None?
    ensures Solve(input).Some? ==>
              var plan := ParsePlan(input).value;
              Sum(RowMoves(plan)) == 0 && Sum(ColumnMoves(plan)) == 0 ==>
                Solve(input).value == Abs(StripSum(plan, |plan|)) + Sum(Distances(plan)) / 2 + 1
  {
    if ParsePlan(input).Some? {
      var plan := ParsePlan(input).value;
      ParsedAxisAligned(input);
      if Sum(RowMoves(plan)) == 0 && Sum(ColumnMoves(plan)) == 0 {
        ClosedPlanCapacity(plan);
      }
    }
  }

  /** One more instruction folded in. */
  lemma FoldStepAt(plan: seq<Instruction>, n: nat, s: DigState, ins: Instruction)
    requires n < |plan| && FoldUpTo(plan, n) == s && plan[n] == ins
    ensures FoldUpTo(plan, n + 1) == DigStep(s, ins)
  {
  }

  /** The fold over instructions 1 to 7 of the unit test. */
  lemma ExampleFold7(p: seq<Instruction>)
    requires |p| == 14
    requires p[0] == Instruction(Vec(0, 1), 6, "70c710")
    requires p[1] == Instruction(Vec(1, 0), 5, "0dc571")
    requires p[2] == Instruction(Vec(0, -1), 2, "5713f0")
    requires p[3] == Instruction(Vec(1, 0), 2, "d2c081")
    requires p[4] == Instruction(Vec(0, 1), 2, "59c680")
    requires p[5] == Instruction(Vec(1, 0), 2, "411b91")
    requires p[6] == Instruction(Vec(0, -1), 5, "8ceee2")
    ensures FoldUpTo(p, 7) == DigState(Vec(9, 1), 133, 224, 24)
  {
    FoldStepAt(p, 0, DigState(Vec(0, 0), 0, 0, 0), Instruction(Vec(0, 1), 6, "70c710"));
    FoldStepAt(p, 1, DigState(Vec(0, 6), 0, 0, 6), Instruction(Vec(1, 0), 5, "0dc571"));
    FoldStepAt(p, 2, DigState(Vec(5, 6), 0, 30, 11), Instruction(Vec(0, -1), 2, "5713f0"));
    FoldStepAt(p, 3, DigState(Vec(5, 4), 20, 60, 13), Instruction(Vec(1, 0), 2, "d2c081"));
    FoldStepAt(p, 4, DigState(Vec(7, 4), 40, 88, 15), Instruction(Vec(0, 1), 2, "59c680"));
    FoldStepAt(p, 5, DigState(Vec(7, 6), 82, 116, 17), Instruction(Vec(1, 0), 2, "411b91"));
    FoldStepAt(p, 6, DigState(Vec(9, 6), 124, 170, 19), Instruction(Vec(0, -1), 5, "8ceee2"));
  }

  /** The fold over instructions 8 to 14 of the unit test. */
  lemma ExampleFold14(p: seq<Instruction>)
    requires |p| == 14
    requires p[7] == Instruction(Vec(-1, 0), 2, "caa173")
    requires p[8] == Instruction(Vec(0, -1), 1, "1b58a2")
    requires p[9] == Instruction(Vec(-1, 0), 2, "caa171")
    requires p[10] == Instruction(Vec(0, 1), 2, "7807d2")
    requires p[11] == Instruction(Vec(-1, 0), 3, "a77fa3")
    requires p[12] == Instruction(Vec(0, -1), 2, "015232")
    requires p[13] == Instruction(Vec(-1, 0), 2, "7a21e3")
    requires FoldUpTo(p, 7) == DigState(Vec(9, 1), 133, 224, 24)
    ensures FoldUpTo(p, 14) == DigState(Vec(0, 0), 162, 246, 38)
  {
    FoldStepAt(p, 7, DigState(Vec(9, 1), 133, 224, 24), Instruction(Vec(-1, 0), 2, "caa173"));
    FoldStepAt(p, 8, DigState(Vec(7, 1), 142, 231, 26), Instruction(Vec(0, -1), 1, "1b58a2"));
    FoldStepAt(p, 9, DigState(Vec(7, 0), 142, 238, 27), Instruction(Vec(-1, 0), 2, "caa171"));
    FoldStepAt(p, 10, DigState(Vec(5, 0), 142, 238, 29), Instruction(Vec(0, 1), 2, "7807d2"));
    FoldStepAt(p, 11, DigState(Vec(5, 2), 152, 238, 31), Instruction(Vec(-1, 0), 3, "a77fa3"));
    FoldStepAt(p, 12, DigState(Vec(2, 2), 162, 242, 34), Instruction(Vec(0, -1), 2, "015232"));
    FoldStepAt(p, 13, DigState(Vec(2, 0), 162, 246, 36), Instruction(Vec(-1, 0), 2, "7a21e3"));
  }

  /** The plan of the unit test holds 62 cubic metres. */
  lemma CapacityExample(p: seq<Instruction>)
    requires |p| == 14
    requires p[0] == Instruction(Vec(0, 1), 6, "70c710")
    requires p[1] == Instruction(Vec(1, 0), 5, "0dc571")
    requires p[2] == Instruction(Vec(0, -1), 2, "5713f0")
    requires p[3] == Instruction(Vec(1, 0), 2, "d2c081")
    requires p[4] == Instruction(Vec(0, 1), 2, "59c680")
    requires p[5] == Instruction(Vec(1, 0), 2, "411b91")
    requires p[6] == Instruction(Vec(0, -1), 5, "8ceee2")
    requires p[7] == Instruction(Vec(-1, 0), 2, "caa173")
    requires p[8] == Instruction(Vec(0, -1), 1, "1b58a2")
    requires p[9] == Instruction(Vec(-1, 0), 2, "caa171")
    requires p[10] == Instruction(Vec(0, 1), 2, "7807d2")
    requires p[11] == Instruction(Vec(-1, 0), 3, "a77fa3")
    requires p[12] == Instruction(Vec(0, -1), 2, "015232")
    requires p[13] == Instruction(Vec(-1, 0), 2, "7a21e3")
    ensures LavaCapacity(p) == 62
  {
    assert FoldUpTo(p, 0) == DigState(Vec(0, 0), 0, 0, 0);
    ExampleFold7(p);
    ExampleFold14(p);
  }
}
