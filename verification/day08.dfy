/** Day 8: walking a network of named nodes, each with a left and a right
    successor, by a cyclic list of 'L'/'R' instructions; part 2 walks from
    every node ending in 'A' at once, which the solution answers with the
    least common multiple of the single walks. */
module Day8 {
  import opened Common
  import opened Text

  type Network = map<string, (string, string)>

  // ---------------------------------------------------------------------
  // gcd and lcm

  /** `d` divides `x`: some multiple of `d` is `x`. */
  ghost predicate Divides(d: nat, x: nat) {
    exists k: nat :: x == d * k
  }

  /** `gcd`: Euclid's algorithm on remainders. */
  function Gcd(a: nat, b: nat): nat
    decreases b
  {
    if b > 0 then Gcd(b, a % b) else a
  }

  lemma DividesMultiple(d: nat, x: nat, q: nat)
    requires Divides(d, x)
    ensures Divides(d, x * q)
  {
    var k: nat :| x == d * k;
    assert x * q == d * (k * q);
  }

  lemma DividesSum(d: nat, x: nat, y: nat)
    requires Divides(d, x) && Divides(d, y)
    ensures Divides(d, x + y)
  {
    var k: nat :| x == d * k;
    var j: nat :| y == d * j;
    assert x + y == d * (k + j);
  }

  lemma DividesDifference(d: nat, x: nat, y: nat)
    requires Divides(d, x) && Divides(d, y) && y <= x
    ensures Divides(d, x - y)
  {
    var k: nat :| x == d * k;
    var j: nat :| y == d * j;
    if d > 0 {
      assert d * j <= d * k;
      assert j <= k;
    } else {
      assert x == 0 && y == 0;
      assert x - y == d * 0;
    }
    assert x - y == d * (k - j);
  }

  lemma DividesSelf(d: nat)
    ensures Divides(d, d) && Divides(d, 0)
  {
    assert d == d * 1;
    assert 0 == d * 0;
  }

  /** The gcd divides both arguments. */
  lemma {:induction false} GcdDivides(a: nat, b: nat)
    ensures Divides(Gcd(a, b), a) && Divides(Gcd(a, b), b)
    decreases b
  {
    if b == 0 {
      DividesSelf(a);
    } else {
      GcdDivides(b, a % b);
      var g := Gcd(a, b);
      DividesMultiple(g, b, a / b);
      DividesSum(g, b * (a / b), a % b);
      assert a == b * (a / b) + a % b;
    }
  }

  /** Every common divisor divides the gcd. */
  lemma {:induction false} GcdGreatest(a: nat, b: nat, d: nat)
    requires Divides(d, a) && Divides(d, b)
    ensures Divides(d, Gcd(a, b))
    decreases b
  {
    if b > 0 {
      DividesMultiple(d, b, a / b);
      assert a == b * (a / b) + a % b;
      DividesDifference(d, a, b * (a / b));
      GcdGreatest(b, a % b, d);
    }
  }

  /** `lcm`: `a * b / gcd(a, b)`; `None` when both are 0 and the division
      by zero panics. */
  function Lcm(a: nat, b: nat): (r: Option<nat>)
    ensures r.None? <==> a == 0 && b == 0
  {
    var g := Gcd(a, b);
    if g == 0 then
      assert a == 0 && b == 0 by {
        GcdDivides(a, b);
      }
      None
    else
      Some(a * b / g)
  }

  lemma GcdPositive(a: nat, b: nat)
    requires a > 0 || b > 0
    ensures Gcd(a, b) > 0
  {
    GcdDivides(a, b);
  }

  /** The lcm is a common multiple of both arguments. */
  lemma LcmCommonMultiple(a: nat, b: nat)
    requires Lcm(a, b).Some?
    ensures Divides(a, Lcm(a, b).value) && Divides(b, Lcm(a, b).value)
  {
    var g := Gcd(a, b);
    GcdDivides(a, b);
    var i: nat :| a == g * i;
    var j: nat :| b == g * j;
    assert a * b == g * (i * b);
    assert a * b / g == i * b by {
      MulDiv(g, i * b);
    }
    var m := a * b / g;
    assert m == b * i;
    assert m == a * j by {
      assert i * b == i * (g * j) == (g * i) * j;
    }
  }

  lemma MulDiv(g: nat, x: nat)
    requires g > 0
    ensures (g * x) / g == x
  {
    var q := (g * x) / g;
    var r := (g * x) % g;
    assert g * x == g * q + r && 0 <= r < g;
    assert g * (x - q) == r;
    MulBounds(g, x - q);
  }

  lemma MulBounds(g: int, d: int)
    requires g > 0
    ensures d >= 1 ==> g * d >= g
    ensures d <= -1 ==> g * d <= -g
  {
    if d >= 1 {
      assert g * d == g * (d - 1) + g;
    } else if d <= -1 {
      assert g * d == -(g * (-d - 1)) - g;
    }
  }

  /** Division with remainder has one answer. */
  lemma DivModUnique(x: nat, d: nat, q: nat, r: nat)
    requires d > 0 && x == d * q + r && r < d
    ensures x / d == q && x % d == r
  {
    var q', r' := x / d, x % d;
    assert d * q' + r' == d * q + r;
    assert d * (q - q') == r' - r;
    MulBounds(d, q - q');
  }

  /** Scaling both arguments scales the remainder. */
  lemma ModScale(m: nat, a: nat, b: nat)
    requires m > 0 && b > 0
    ensures (m * a) % (m * b) == m * (a % b)
  {
    var q, r := a / b, a % b;
    assert a == b * q + r;
    assert m * a == (m * b) * q + m * r;
    MulBounds(m, b - r);
    assert m * (b - r) == m * b - m * r;
    DivModUnique(m * a, m * b, q, m * r);
  }

  /** Scaling both arguments scales the gcd. */
  lemma {:induction false} GcdScale(m: nat, a: nat, b: nat)
    ensures Gcd(m * a, m * b) == m * Gcd(a, b)
    decreases b
  {
    if m == 0 {
      assert m * a == 0 && m * b == 0;
    } else if b == 0 {
      assert m * b == 0;
    } else {
      MulBounds(m, b);
      ModScale(m, a, b);
      GcdScale(m, b, a % b);
      assert Gcd(m * a, m * b) == Gcd(m * b, m * (a % b));
    }
  }

  /** The lcm times the gcd is the product of the arguments. */
  lemma LcmTimesGcd(a: nat, b: nat)
    requires Lcm(a, b).Some?
    ensures Gcd(a, b) > 0 && a * b == Gcd(a, b) * Lcm(a, b).value
  {
    var g := Gcd(a, b);
    GcdDivides(a, b);
    var i: nat :| a == g * i;
    assert a * b == g * (i * b);
    MulDiv(g, i * b);
  }

  lemma CancelLeft(g: nat, x: nat, y: nat)
    requires g > 0 && g * x == g * y
    ensures x == y
  {
    assert g * (x - y) == g * x - g * y;
    MulBounds(g, x - y);
  }

  /** The lcm divides every common multiple of its arguments, so it is the
      least positive one. */
  lemma LcmLeast(a: nat, b: nat, c: nat)
    requires Lcm(a, b).Some? && Divides(a, c) && Divides(b, c)
    ensures Divides(Lcm(a, b).value, c)
  {
    var g := Gcd(a, b);
    LcmTimesGcd(a, b);
    ProductDividesBoth(a, b, c);
    GcdGreatest(c * a, c * b, a * b);
    GcdScale(c, a, b);
    DividesCancel(g, Lcm(a, b).value, a * b, c);
  }

  /** With `ab == g * l`, `ab` dividing `c * g` means `l` divides `c`. */
  lemma DividesCancel(g: nat, l: nat, ab: nat, c: nat)
    requires g > 0 && ab == g * l && Divides(ab, c * g)
    ensures Divides(l, c)
  {
    var k: nat :| c * g == ab * k;
    assert g * c == g * (l * k);
    CancelLeft(g, c, l * k);
  }

  /** The product of two divisors of `c` divides `c` times either. */
  lemma ProductDividesBoth(a: nat, b: nat, c: nat)
    requires Divides(a, c) && Divides(b, c)
    ensures Divides(a * b, c * a) && Divides(a * b, c * b)
  {
    var p: nat :| c == a * p;
    var q: nat :| c == b * q;
    assert c * b == (a * b) * p;
    assert c * a == (a * b) * q;
  }

  /** Example values of the gcd and the lcm. */
  lemma GcdExamples()
    ensures Gcd(12, 18) == 6 && Gcd(7, 0) == 7 && Gcd(0, 5) == 5
  {
    assert Gcd(6, 0) == 6;
    assert Gcd(12, 6) == Gcd(6, 0);
    assert Gcd(18, 12) == Gcd(12, 6);
    assert Gcd(12, 18) == Gcd(18, 12);
    assert Gcd(5, 0) == 5;
    assert Gcd(0, 5) == Gcd(5, 0);
  }

  /** The two lcm steps of the second example's fold. */
  lemma LcmExamples()
    ensures Lcm(2, 1) == Some(2) && Lcm(3, 2) == Some(6)
  {
    assert Gcd(2, 1) == 1;
    assert Gcd(3, 2) == 1;
  }

  // ---------------------------------------------------------------------
  // Walking the network

  /** The two end conditions the solution uses: part 1 walks until it
      stands on "ZZZ", part 2 until the node's name ends in 'Z'. */
  datatype Goal = ToZZZ | ToAnyZ

  predicate EndsWith(s: string, c: char) {
    |s| > 0 && s[|s| - 1] == c
  }

  /** The loop condition of `traverse`. */
  predicate KeepGoing(goal: Goal, loc: string) {
    match goal
    case ToZZZ => loc != "ZZZ"
    case ToAnyZ => !EndsWith(loc, 'Z')
  }

  /** One step from `loc` with the `i`-th instruction, cycling; `None` when
      the node is unknown, there are no instructions, or the instruction is
      neither 'L' nor 'R'. */
  function Step(net: Network, instr: string, loc: string, i: nat): (r: Option<string>)
    ensures r.Some? <==> loc in net && |instr| > 0 && instr[i % |instr|] in {'L', 'R'}
    ensures r.Some? ==> r.value == if instr[i % |instr|] == 'L' then net[loc].0 else net[loc].1
  {
    if loc !in net || |instr| == 0 then None
    else if instr[i % |instr|] == 'L' then Some(net[loc].0)
    else if instr[i % |instr|] == 'R' then Some(net[loc].1)
    else None
  }

  /** How a walk ends: after a number of steps, stuck (`traverse` returns
      `None`), or still going when the fuel runs out (the source loops on). */
  datatype Outcome = Arrived(steps: nat) | Stuck | Unfinished

  /** `traverse` from `loc`, `i` steps having been taken, with at most
      `fuel` more. */
  function Traverse(net: Network, instr: string, goal: Goal, loc: string, i: nat, fuel: nat): (o: Outcome)
    ensures o.Arrived? ==> o.steps >= i
    decreases fuel
  {
    if !KeepGoing(goal, loc) then Arrived(i)
    else if fuel == 0 then Unfinished
    else match Step(net, instr, loc, i)
      case None => Stuck
      case Some(next) => Traverse(net, instr, goal, next, i + 1, fuel - 1)
  }

  /** Where `k` steps from `loc`, starting at instruction `i`, lead. */
  function WalkFrom(net: Network, instr: string, loc: string, i: nat, k: nat): Option<string>
    decreases k
  {
    if k == 0 then Some(loc)
    else match Step(net, instr, loc, i)
      case None => None
      case Some(next) => WalkFrom(net, instr, next, i + 1, k - 1)
  }

  /** After `n` steps the walk stands where the goal is met, and at every
      earlier step it stood where the goal was not met. */
  ghost predicate FirstStop(net: Network, instr: string, goal: Goal, loc: string, i: nat, n: nat) {
    (forall j: nat :: j < n ==> WalkFrom(net, instr, loc, i, j).Some? && KeepGoing(goal, WalkFrom(net, instr, loc, i, j).value))
    && WalkFrom(net, instr, loc, i, n).Some? && !KeepGoing(goal, WalkFrom(net, instr, loc, i, n).value)
  }

  /** Where the goal already holds, `traverse` returns 0 steps. */
  lemma TraverseAtGoal(net: Network, instr: string, goal: Goal, loc: string, fuel: nat)
    requires !KeepGoing(goal, loc)
    ensures Traverse(net, instr, goal, loc, 0, fuel) == Arrived(0)
  {
  }

  lemma FirstStopStep(net: Network, instr: string, goal: Goal, loc: string, i: nat, n: nat, next: string)
    requires KeepGoing(goal, loc) && Step(net, instr, loc, i) == Some(next)
    ensures FirstStop(net, instr, goal, loc, i, n + 1) <==> FirstStop(net, instr, goal, next, i + 1, n)
  {
    forall j: nat | j < n + 1
      ensures WalkFrom(net, instr, loc, i, j) == if j == 0 then Some(loc) else WalkFrom(net, instr, next, i + 1, j - 1)
    {
    }
    if FirstStop(net, instr, goal, next, i + 1, n) {
      forall j: nat | j < n + 1
        ensures WalkFrom(net, instr, loc, i, j).Some? && KeepGoing(goal, WalkFrom(net, instr, loc, i, j).value)
      {
        if j > 0 {
          assert WalkFrom(net, instr, loc, i, j) == WalkFrom(net, instr, next, i + 1, j - 1);
        }
      }
    }
    if FirstStop(net, instr, goal, loc, i, n + 1) {
      var i' := i + 1;
      forall j: nat | j < n
        ensures WalkFrom(net, instr, next, i', j).Some? && KeepGoing(goal, WalkFrom(net, instr, next, i', j).value)
      {
        assert WalkFrom(net, instr, loc, i, j + 1) == WalkFrom(net, instr, next, i', j);
      }
    }
  }

  /** A walk that arrives does so at the first step where the goal holds. */
  lemma {:induction false} TraverseArrived(net: Network, instr: string, goal: Goal, loc: string, i: nat, fuel: nat, n: nat)
    requires Traverse(net, instr, goal, loc, i, fuel) == Arrived(i + n)
    ensures n <= fuel && FirstStop(net, instr, goal, loc, i, n)
    decreases fuel
  {
    if KeepGoing(goal, loc) {
      var next := Step(net, instr, loc, i).value;
      assert n > 0;
      TraverseArrived(net, instr, goal, next, i + 1, fuel - 1, n - 1);
      FirstStopStep(net, instr, goal, loc, i, n - 1, next);
    } else {
      assert FirstStop(net, instr, goal, loc, i, 0);
    }
  }

  /** Conversely, with enough fuel the walk arrives at the first step
      where the goal holds. */
  lemma {:induction false} FirstStopArrives(net: Network, instr: string, goal: Goal, loc: string, i: nat, fuel: nat, n: nat)
    requires FirstStop(net, instr, goal, loc, i, n) && n <= fuel
    ensures Traverse(net, instr, goal, loc, i, fuel) == Arrived(i + n)
    decreases n
  {
    if n == 0 {
      assert WalkFrom(net, instr, loc, i, 0) == Some(loc);
    } else {
      assert WalkFrom(net, instr, loc, i, 0) == Some(loc);
      assert KeepGoing(goal, loc);
      assert WalkFrom(net, instr, loc, i, 1).Some?;
      var next := Step(net, instr, loc, i).value;
      FirstStopStep(net, instr, goal, loc, i, n - 1, next);
      FirstStopArrives(net, instr, goal, next, i + 1, fuel - 1, n - 1);
    }
  }

  /** An unknown node, an instruction other than 'L'/'R' or an empty
      instruction list stops the walk with no answer. */
  lemma TraverseStuck(net: Network, instr: string, goal: Goal, loc: string, i: nat, fuel: nat)
    requires KeepGoing(goal, loc) && fuel > 0
    requires loc !in net || |instr| == 0 || instr[i % |instr|] !in {'L', 'R'}
    ensures Traverse(net, instr, goal, loc, i, fuel) == Stuck
  {
  }

  /** More fuel changes nothing once the walk has ended. */
  lemma {:induction false} TraverseFuel(net: Network, instr: string, goal: Goal, loc: string, i: nat, fuel: nat, more: nat)
    requires Traverse(net, instr, goal, loc, i, fuel) != Unfinished && fuel <= more
    ensures Traverse(net, instr, goal, loc, i, more) == Traverse(net, instr, goal, loc, i, fuel)
    decreases fuel
  {
    if KeepGoing(goal, loc) && Step(net, instr, loc, i).Some? {
      TraverseFuel(net, instr, goal, Step(net, instr, loc, i).value, i + 1, fuel - 1, more - 1);
    }
  }

  /** The first example network, walked with "LLR". */
  lemma TraverseExample(net: Network)
    requires net == map["AAA" := ("BBB", "BBB"), "BBB" := ("AAA", "ZZZ"), "ZZZ" := ("ZZZ", "ZZZ")]
    ensures Traverse(net, "LLR", ToZZZ, "AAA", 0, 6) == Arrived(6)
  {
    assert Step(net, "LLR", "AAA", 0) == Some("BBB");
    assert Step(net, "LLR", "BBB", 1) == Some("AAA");
    assert Step(net, "LLR", "AAA", 2) == Some("BBB");
    assert Step(net, "LLR", "BBB", 3) == Some("AAA");
    assert Step(net, "LLR", "AAA", 4) == Some("BBB");
    assert Step(net, "LLR", "BBB", 5) == Some("ZZZ");
  }

  // ---------------------------------------------------------------------
  // Part 2

  /** The part-2 fold: `Some(lcm(steps, acc))` over the start nodes, from
      `Some(1)`.  A walk that gets stuck, or an lcm of two zeros, panics
      (`unwrap` or the division); a walk that never ends runs out of fuel.
      The starts are folded in order, so the first of these decides. */
  function GhostSteps(net: Network, instr: string, starts: seq<string>, fuel: nat): (r: Run<nat>)
  {
    if starts == [] then Done(1)
    else
      match GhostSteps(net, instr, starts[..|starts| - 1], fuel)
      case Done(acc) =>
        (match Traverse(net, instr, ToAnyZ, starts[|starts| - 1], 0, fuel)
         case Arrived(n) => (match Lcm(n, acc) case Some(m) => Done(m) case None => Panic)
         case Stuck => Panic
         case Unfinished => OutOfFuel)
      case OutOfFuel => OutOfFuel
      case Panic => Panic
  }

  /** The lcm of two positive numbers is positive. */
  lemma LcmPositive(a: nat, b: nat)
    requires a > 0 && b > 0
    ensures Lcm(a, b).Some? && Lcm(a, b).value > 0
  {
    var g := Gcd(a, b);
    GcdDivides(a, b);
    GcdPositive(a, b);
    var k: nat :| a == g * k;
    assert a * b == g * (k * b);
    MulDiv(g, k * b);
    assert k > 0;
  }

  /** With starts whose names do not end in 'Z' (every key ending in 'A'),
      part 2 has an answer exactly when every walk arrives, and the answer
      is positive; it panics exactly when some walk gets stuck after all
      earlier ones arrived. */
  lemma GhostStepsOutcome(net: Network, instr: string, starts: seq<string>, fuel: nat)
    requires forall k :: 0 <= k < |starts| ==> !EndsWith(starts[k], 'Z')
    ensures GhostSteps(net, instr, starts, fuel).Done? <==>
              forall k :: 0 <= k < |starts| ==> Traverse(net, instr, ToAnyZ, starts[k], 0, fuel).Arrived?
    ensures GhostSteps(net, instr, starts, fuel).Done? ==> GhostSteps(net, instr, starts, fuel).result > 0
    ensures GhostSteps(net, instr, starts, fuel).Panic? <==>
              exists k :: 0 <= k < |starts| && Traverse(net, instr, ToAnyZ, starts[k], 0, fuel) == Stuck
                          && forall j :: 0 <= j < k ==> Traverse(net, instr, ToAnyZ, starts[j], 0, fuel).Arrived?
  {
    GhostStepsDone(net, instr, starts, fuel);
    GhostStepsPanic(net, instr, starts, fuel);
  }

  /** Part 2 answers exactly when every walk arrives, and then positively. */
  lemma {:induction false} GhostStepsDone(net: Network, instr: string, starts: seq<string>, fuel: nat)
    requires forall k :: 0 <= k < |starts| ==> !EndsWith(starts[k], 'Z')
    ensures GhostSteps(net, instr, starts, fuel).Done? <==>
              forall k :: 0 <= k < |starts| ==> Traverse(net, instr, ToAnyZ, starts[k], 0, fuel).Arrived?
    ensures GhostSteps(net, instr, starts, fuel).Done? ==> GhostSteps(net, instr, starts, fuel).result > 0
  {
    if starts != [] {
      var init := starts[..|starts| - 1];
      var last := |starts| - 1;
      assert forall k :: 0 <= k < |init| ==> init[k] == starts[k];
      GhostStepsDone(net, instr, init, fuel);
      var o := Traverse(net, instr, ToAnyZ, starts[last], 0, fuel);
      if GhostSteps(net, instr, init, fuel).Done? && o.Arrived? {
        LcmPositive(o.steps, GhostSteps(net, instr, init, fuel).result);
      }
    }
  }

  /** Part 2 panics exactly when a walk gets stuck after all earlier ones
      arrived. */
  lemma {:induction false} GhostStepsPanic(net: Network, instr: string, starts: seq<string>, fuel: nat)
    requires forall k :: 0 <= k < |starts| ==> !EndsWith(starts[k], 'Z')
    ensures GhostSteps(net, instr, starts, fuel).Panic? <==>
              exists k :: 0 <= k < |starts| && Traverse(net, instr, ToAnyZ, starts[k], 0, fuel) == Stuck
                          && forall j :: 0 <= j < k ==> Traverse(net, instr, ToAnyZ, starts[j], 0, fuel).Arrived?
  {
    if starts != [] {
      var init := starts[..|starts| - 1];
      var last := |starts| - 1;
      assert forall k :: 0 <= k < |init| ==> init[k] == starts[k];
      GhostStepsPanic(net, instr, init, fuel);
      GhostStepsDone(net, instr, init, fuel);
      var o := Traverse(net, instr, ToAnyZ, starts[last], 0, fuel);
      match GhostSteps(net, instr, init, fuel)
      case Done(acc) =>
        if o.Arrived? {
          LcmPositive(o.steps, acc);
        }
      case OutOfFuel =>
        forall k | 0 <= k < |starts| && Traverse(net, instr, ToAnyZ, starts[k], 0, fuel) == Stuck
          ensures exists j :: 0 <= j < k && !Traverse(net, instr, ToAnyZ, starts[j], 0, fuel).Arrived?
        {
          if k == last {
            var j :| 0 <= j < |init| && !Traverse(net, instr, ToAnyZ, init[j], 0, fuel).Arrived?;
            assert init[j] == starts[j];
          }
        }
      case Panic =>
    }
  }

  lemma DividesTransitive(a: nat, b: nat, c: nat)
    requires Divides(a, b) && Divides(b, c)
    ensures Divides(a, c)
  {
    var k: nat :| b == a * k;
    var j: nat :| c == b * j;
    assert c == a * (k * j);
  }

  /** The answer of part 2 is a common multiple of every start's step
      count. */
  lemma {:induction false} GhostStepsCommonMultiple(net: Network, instr: string, starts: seq<string>, fuel: nat)
    requires GhostSteps(net, instr, starts, fuel).Done?
    ensures forall k :: 0 <= k < |starts| ==>
      Traverse(net, instr, ToAnyZ, starts[k], 0, fuel).Arrived?
      && Divides(Traverse(net, instr, ToAnyZ, starts[k], 0, fuel).steps, GhostSteps(net, instr, starts, fuel).result)
  {
    if starts != [] {
      var init := starts[..|starts| - 1];
      var acc := GhostSteps(net, instr, init, fuel).result;
      var last := starts[|starts| - 1];
      var n := Traverse(net, instr, ToAnyZ, last, 0, fuel).steps;
      var m := GhostSteps(net, instr, starts, fuel).result;
      GhostStepsCommonMultiple(net, instr, init, fuel);
      LcmCommonMultiple(n, acc);
      forall k | 0 <= k < |starts|
        ensures Traverse(net, instr, ToAnyZ, starts[k], 0, fuel).Arrived?
        ensures Divides(Traverse(net, instr, ToAnyZ, starts[k], 0, fuel).steps, m)
      {
        if k < |starts| - 1 {
          assert starts[k] == init[k];
          DividesTransitive(Traverse(net, instr, ToAnyZ, starts[k], 0, fuel).steps, acc, m);
        }
      }
    }
  }

  /** Part 2 divides every common multiple of the start's step counts:
      folding `lcm` gives the least common multiple. */
  lemma {:induction false} GhostStepsLeast(net: Network, instr: string, starts: seq<string>, fuel: nat, c: nat)
    requires GhostSteps(net, instr, starts, fuel).Done?
    requires forall k :: 0 <= k < |starts| && Traverse(net, instr, ToAnyZ, starts[k], 0, fuel).Arrived? ==>
               Divides(Traverse(net, instr, ToAnyZ, starts[k], 0, fuel).steps, c)
    ensures Divides(GhostSteps(net, instr, starts, fuel).result, c)
  {
    if starts == [] {
      assert c == 1 * c;
    } else {
      var init := starts[..|starts| - 1];
      forall k | 0 <= k < |init| && Traverse(net, instr, ToAnyZ, init[k], 0, fuel).Arrived?
        ensures Divides(Traverse(net, instr, ToAnyZ, init[k], 0, fuel).steps, c)
      {
        assert init[k] == starts[k];
      }
      GhostStepsLeast(net, instr, init, fuel, c);
      var acc := GhostSteps(net, instr, init, fuel).result;
      var n := Traverse(net, instr, ToAnyZ, starts[|starts| - 1], 0, fuel).steps;
      LcmLeast(n, acc, c);
    }
  }

  /** The second example: "11A" arrives after 2 steps and "22A" after 3,
      so part 2 answers 6. */
  lemma GhostStepsExample(net: Network)
    requires net == map["11A" := ("11B", "XXX"), "11B" := ("XXX", "11Z"), "11Z" := ("11B", "XXX"),
                        "22A" := ("22B", "XXX"), "22B" := ("22C", "22C"), "22C" := ("22Z", "22Z"),
                        "22Z" := ("22B", "22B"), "XXX" := ("XXX", "XXX")]
    ensures GhostSteps(net, "LR", ["11A", "22A"], 3) == Done(6)
  {
    assert Step(net, "LR", "11A", 0) == Some("11B");
    assert Step(net, "LR", "11B", 1) == Some("11Z");
    assert Traverse(net, "LR", ToAnyZ, "11A", 0, 3) == Arrived(2);
    assert Step(net, "LR", "22A", 0) == Some("22B");
    assert Step(net, "LR", "22B", 1) == Some("22C");
    assert Step(net, "LR", "22C", 2) == Some("22Z");
    assert Traverse(net, "LR", ToAnyZ, "22A", 0, 3) == Arrived(3);
    assert GhostSteps(net, "LR", ["11A"], 3) == Done(2) by {
      assert ["11A", "22A"][..1] == ["11A"];
      assert ["11A"][..0] == [];
    }
    assert ["11A", "22A"][..1] == ["11A"];
  }

  // ---------------------------------------------------------------------
  // Parsing

  /** One "KEY = (LEFT, RIGHT)" line; `None` where an `unwrap` or the
      slice that drops the parentheses panics. */
  function ParseNode(line: string): (r: Option<(string, (string, string))>)
    ensures r.Some? <==> (Contains(line, " = ") &&
                          var vals := SplitOnce(line, " = ").value.1;
                          |vals| >= 2 && Contains(vals[1..|vals| - 1], ", "))
    ensures r.Some? ==> exists vals :: |vals| >= 2 && line == r.value.0 + " = " + vals
                                      && vals[1..|vals| - 1] == r.value.1.0 + ", " + r.value.1.1
    ensures r.Some? ==> (forall j: nat :: !OccursAt(r.value.0, " = ", j)) && (forall j: nat :: !OccursAt(r.value.1.0, ", ", j))
  {
    match SplitOnce(line, " = ")
    case None => None
    case Some((key, vals)) =>
      if |vals| < 2 then None
      else
        match SplitOnce(vals[1..|vals| - 1], ", ")
        case None => None
        case Some((l, r)) => Some((key, (l, r)))
  }

  /** A node line "KEY = (LEFT, RIGHT)" reads back as written when the key
      has no '=' and the left name no ','. */
  lemma ParseNodeOfLine(key: string, left: string, right: string)
    requires '=' !in key && ',' !in left
    ensures ParseNode(key + " = (" + left + ", " + right + ")") == Some((key, (left, right)))
  {
    var vals := "(" + left + ", " + right + ")";
    assert key + " = (" + left + ", " + right + ")" == key + " = " + vals;
    SplitOnceOfGlued(key, " = ", vals, 1);
    assert vals[1..|vals| - 1] == left + ", " + right;
    SplitOnceOfGlued(left, ", ", right, 0);
  }

  /** `HashMap::from_iter` over the node lines: a later line for the same
      key replaces an earlier one. */
  function ParseNetwork(lines: seq<string>): (r: Option<Network>)
    ensures r.Some? ==> forall k :: 0 <= k < |lines| ==> ParseNode(lines[k]).Some? && ParseNode(lines[k]).value.0 in r.value
  {
    if lines == [] then Some(map[])
    else
      match (ParseNetwork(lines[..|lines| - 1]), ParseNode(lines[|lines| - 1]))
      case (Some(net), Some((key, val))) =>
        var r := net[key := val];
        assert forall k :: 0 <= k < |lines| - 1 ==> lines[k] == lines[..|lines| - 1][k];
        Some(r)
      case _ => None
  }

  /** The last line for a key gives its successors. */
  lemma {:induction false} ParseNetworkLastWins(lines: seq<string>, k: nat)
    requires ParseNetwork(lines).Some? && k < |lines|
    requires forall j :: k < j < |lines| ==> ParseNode(lines[j]).value.0 != ParseNode(lines[k]).value.0
    ensures ParseNetwork(lines).value[ParseNode(lines[k]).value.0] == ParseNode(lines[k]).value.1
  {
    if k < |lines| - 1 {
      var init := lines[..|lines| - 1];
      assert init[k] == lines[k];
      forall j | k < j < |init|
        ensures ParseNode(init[j]).value.0 != ParseNode(init[k]).value.0
      {
        assert init[j] == lines[j];
      }
      ParseNetworkLastWins(init, k);
    }
  }

  /** The keys ending in 'A', in the order the map yields them. */
  ghost predicate StartOrder(net: Network, starts: seq<string>) {
    (forall k :: 0 <= k < |starts| ==> starts[k] in net && EndsWith(starts[k], 'A'))
    && (forall key :: key in net && EndsWith(key, 'A') ==> key in starts)
    && (forall i, j :: 0 <= i < j < |starts| ==> starts[i] != starts[j])
  }

  /** The instructions before the first blank line and the network read
      from the lines after it; `None` where the solution panics. */
  function ReadInput(input: string): Option<(string, Network)> {
    match SplitOnce(input, "\n\n")
    case None => None
    case Some((instr, rest)) =>
      match ParseNetwork(Lines(rest))
      case None => None
      case Some(net) => Some((instr, net))
  }

  /** `starts` lists the parsed network's keys ending in 'A', as the map
      yields them. */
  ghost predicate StartsOf(input: string, starts: seq<string>) {
    ReadInput(input).Some? ==> StartOrder(ReadInput(input).value.1, starts)
  }

  /** `c` is a multiple of the first step at which each walk from a key
      ending in 'A' stands on a name ending in 'Z'. */
  ghost predicate CommonMultiple(net: Network, instr: string, c: nat) {
    forall key :: key in net && EndsWith(key, 'A') ==>
      forall n :: FirstStop(net, instr, ToAnyZ, key, 0, n) ==> Divides(n, c)
  }

  /** Both parts over a parsed network: part 1 walks from "AAA" to "ZZZ"
      (`None` when the walk gets stuck), part 2 folds the lcm over the
      walks from `starts`.  A panic in part 2 loses both answers. */
  function StepCounts(net: Network, instr: string, starts: seq<string>, fuel: nat): (r: Run<(Option<nat>, nat)>)
  {
    match Traverse(net, instr, ToZZZ, "AAA", 0, fuel)
    case Unfinished => OutOfFuel
    case first =>
      var part1 := if first.Arrived? then Some(first.steps) else None;
      match GhostSteps(net, instr, starts, fuel)
      case Done(m) => Done((part1, m))
      case OutOfFuel => OutOfFuel
      case Panic => Panic
  }

  /** When both parts are answered, part 1 is the first step at which the
      walk from "AAA" stands on "ZZZ" (none when it gets stuck), and part 2
      is a positive common multiple of the first step at which each walk
      from a key ending in 'A' stands on a name ending in 'Z', and divides
      every other common multiple: it is the least one. */
  lemma StepCountsSpec(net: Network, instr: string, starts: seq<string>, fuel: nat)
    requires StartOrder(net, starts)
    ensures StepCounts(net, instr, starts, fuel).Done? ==>
              var part1 := StepCounts(net, instr, starts, fuel).result.0;
              var part2 := StepCounts(net, instr, starts, fuel).result.1;
              (part1.Some? ==> FirstStop(net, instr, ToZZZ, "AAA", 0, part1.value)) &&
              (part1.None? ==> Traverse(net, instr, ToZZZ, "AAA", 0, fuel) == Stuck) &&
              part2 > 0 &&
              forall key :: key in net && EndsWith(key, 'A') ==>
                exists n :: FirstStop(net, instr, ToAnyZ, key, 0, n) && Divides(n, part2)
    ensures StepCounts(net, instr, starts, fuel).Done? ==>
              forall c: nat :: CommonMultiple(net, instr, c) ==> Divides(StepCounts(net, instr, starts, fuel).result.1, c)
  {
    var r := StepCounts(net, instr, starts, fuel);
    if r.Done? {
      var part1 := r.result.0;
      var part2 := r.result.1;
      assert GhostSteps(net, instr, starts, fuel) == Done(part2);
      if part1.Some? {
        TraverseArrived(net, instr, ToZZZ, "AAA", 0, fuel, part1.value);
      }
      GhostStepsOutcome(net, instr, starts, fuel);
      GhostStepsCommonMultiple(net, instr, starts, fuel);
      forall key | key in net && EndsWith(key, 'A')
        ensures exists n :: FirstStop(net, instr, ToAnyZ, key, 0, n) && Divides(n, part2)
      {
        var k :| 0 <= k < |starts| && starts[k] == key;
        var n := Traverse(net, instr, ToAnyZ, key, 0, fuel).steps;
        TraverseArrived(net, instr, ToAnyZ, key, 0, fuel, n);
      }
      forall c: nat | CommonMultiple(net, instr, c)
        ensures Divides(part2, c)
      {
        StepCountsLeast(net, instr, starts, fuel, c);
      }
    }
  }

  /** Each walk's first stop divides a common multiple, so part 2 does. */
  lemma StepCountsLeast(net: Network, instr: string, starts: seq<string>, fuel: nat, c: nat)
    requires StartOrder(net, starts) && GhostSteps(net, instr, starts, fuel).Done?
    requires CommonMultiple(net, instr, c)
    ensures Divides(GhostSteps(net, instr, starts, fuel).result, c)
  {
    forall k | 0 <= k < |starts| && Traverse(net, instr, ToAnyZ, starts[k], 0, fuel).Arrived?
      ensures Divides(Traverse(net, instr, ToAnyZ, starts[k], 0, fuel).steps, c)
    {
      var n := Traverse(net, instr, ToAnyZ, starts[k], 0, fuel).steps;
      TraverseArrived(net, instr, ToAnyZ, starts[k], 0, fuel, n);
    }
    GhostStepsLeast(net, instr, starts, fuel, c);
  }

  /** `find_step_count` on the puzzle text; `fuel` bounds every walk. */
  function FindStepCount(input: string, starts: seq<string>, fuel: nat): (r: Run<(Option<nat>, nat)>)
    requires StartsOf(input, starts)
    ensures ReadInput(input).None? ==> r.Panic?
    ensures r.Done? ==>
              var (instr, net) := ReadInput(input).value;
              var (part1, part2) := r.result;
              (part1.Some? ==> FirstStop(net, instr, ToZZZ, "AAA", 0, part1.value)) &&
              (part1.None? ==> Traverse(net, instr, ToZZZ, "AAA", 0, fuel) == Stuck) &&
              part2 > 0 &&
              forall key :: key in net && EndsWith(key, 'A') ==>
                exists n :: FirstStop(net, instr, ToAnyZ, key, 0, n) && Divides(n, part2)
    ensures r.Done? ==>
              forall c: nat :: CommonMultiple(ReadInput(input).value.1, ReadInput(input).value.0, c) ==> Divides(r.result.1, c)
  {
    match ReadInput(input)
    case None => Panic
    case Some((instr, net)) =>
      StepCountsSpec(net, instr, starts, fuel);
      StepCounts(net, instr, starts, fuel)
  }
}
