/** Day 17: the least heat lost moving a crucible from the top-left to the
    bottom-right block of a city, going at most three blocks in a line and
    never reversing, by a best-first search over a binary heap. */
module Day17 {
  import opened Common
  import opened Text
  import opened Grids

  type CityMap = seq<seq<nat>>

  /** `CityMap::from`: every character a decimal digit (`to_digit(10)`
      unwraps). */
  function ParseCity(input: string): (r: Option<CityMap>)
    ensures r.Some? ==> |r.value| == |Lines(input)| &&
                        forall i :: 0 <= i < |r.value| ==> |r.value[i]| == |Lines(input)[i]| && Digits(r.value[i])
  {
    var ls := Lines(input);
    if forall i, j :: 0 <= i < |ls| && 0 <= j < |ls[i]| ==> IsDigit(ls[i][j]) then
      Some(seq(|ls|, i requires 0 <= i < |ls| => seq(|ls[i]|, j requires 0 <= j < |ls[i]| => DigitValue(ls[i][j]))))
    else None
  }

  predicate Digits(row: seq<nat>) {
    forall j :: 0 <= j < |row| ==> row[j] < 10
  }

  /** A row of the city as the text of its digits. */
  function RowText(row: seq<nat>): (t: string)
    requires Digits(row)
    ensures |t| == |row| && '\n' !in t && forall j :: 0 <= j < |t| ==> IsDigit(t[j])
  {
    seq(|row|, j requires 0 <= j < |row| => DigitChar(row[j]))
  }

  /** The rows of a city of digits as lines of text. */
  function CityLines(city: CityMap): (ls: seq<string>)
    requires forall i :: 0 <= i < |city| ==> Digits(city[i])
    ensures |ls| == |city| && forall i :: 0 <= i < |city| ==> ls[i] == RowText(city[i])
  {
    seq(|city|, i requires 0 <= i < |city| => RowText(city[i]))
  }

  /** A city of digits comes back from its text, one row per line. */
  lemma ParseCityOfText(city: CityMap)
    requires |city| >= 1 && |city[|city| - 1]| > 0
    requires forall i :: 0 <= i < |city| ==> Digits(city[i])
    ensures ParseCity(Join(CityLines(city), "\n")) == Some(city)
  {
    var ls := CityLines(city);
    LinesOfJoin(ls);
    assert forall i, j :: 0 <= i < |ls| && 0 <= j < |ls[i]| ==> IsDigit(ls[i][j]);
    var r := ParseCity(Join(ls, "\n"));
    assert r.Some? && |r.value| == |city|;
    forall i | 0 <= i < |city|
      ensures r.value[i] == city[i]
    {
      forall j | 0 <= j < |city[i]|
        ensures r.value[i][j] == city[i][j]
      {
        assert r.value[i][j] == DigitValue(ls[i][j]);
      }
    }
    assert r.value == city;
  }

  /** A heap entry, `(hl, row, col, d_row, d_col, distance)`: the heat lost
      so far, the block, the direction of the last move and how many
      moves in a row went that way. */
  datatype Node = Node(hl: nat, row: nat, col: nat, dRow: int, dCol: int, run: nat)

  /** What `seen` remembers of a node: everything but the heat. */
  datatype StateKey = StateKey(row: nat, col: nat, dRow: int, dCol: int, run: nat)

  function KeyOf(n: Node): StateKey {
    StateKey(n.row, n.col, n.dRow, n.dCol, n.run)
  }

  /** The order of the tuples in the heap: lexicographic, heat first. */
  predicate NodeLe(a: Node, b: Node) {
    a.hl < b.hl || (a.hl == b.hl &&
    (a.row < b.row || (a.row == b.row &&
    (a.col < b.col || (a.col == b.col &&
    (a.dRow < b.dRow || (a.dRow == b.dRow &&
    (a.dCol < b.dCol || (a.dCol == b.dCol && a.run <= b.run)))))))))
  }

  lemma NodeLeTotal(a: Node, b: Node, c: Node)
    ensures NodeLe(a, b) || NodeLe(b, a)
    ensures NodeLe(a, b) && NodeLe(b, c) ==> NodeLe(a, c)
    ensures NodeLe(a, b) ==> a.hl <= b.hl
  {
  }

  /** The position of the node `BinaryHeap<Reverse<_>>::pop` returns: the
      first least in the tuple order. */
  function MinIndex(open: seq<Node>): (i: nat)
    requires |open| > 0
    ensures i < |open|
  {
    if |open| == 1 then 0
    else
      var k := 1 + MinIndex(open[1..]);
      if NodeLe(open[0], open[k]) then 0 else k
  }

  lemma {:induction false} MinIndexLeast(open: seq<Node>)
    requires |open| > 0
    ensures forall j :: 0 <= j < |open| ==> NodeLe(open[MinIndex(open)], open[j])
  {
    if |open| > 1 {
      var k := 1 + MinIndex(open[1..]);
      MinIndexLeast(open[1..]);
      NodeLeTotal(open[0], open[k], open[k]);
      forall j | 1 <= j < |open|
        ensures NodeLe(open[k], open[j])
      {
        assert open[j] == open[1..][j - 1];
      }
      forall j | 0 <= j < |open|
        ensures NodeLe(open[0], open[k]) ==> NodeLe(open[0], open[j])
      {
        NodeLeTotal(open[0], open[k], open[j]);
      }
    }
  }

  /** `pop`: the least node and what stays in the heap. */
  function Pop(open: seq<Node>): (p: (Node, seq<Node>))
    requires |open| > 0
    ensures |p.1| == |open| - 1
  {
    var i := MinIndex(open);
    (open[i], open[..i] + open[i + 1..])
  }

  /** The popped node comes from the heap and is no greater than anything
      left in it, which holds the rest of the heap. */
  lemma PopSpec(open: seq<Node>)
    requires |open| > 0
    ensures Pop(open).0 in open
    ensures forall k :: 0 <= k < |Pop(open).1| ==> Pop(open).1[k] in open && NodeLe(Pop(open).0, Pop(open).1[k])
    ensures multiset(open) == multiset{Pop(open).0} + multiset(Pop(open).1)
  {
    var i := MinIndex(open);
    var rest := open[..i] + open[i + 1..];
    MinIndexLeast(open);
    assert forall k :: 0 <= k < |rest| ==> rest[k] == if k < i then open[k] else open[k + 1];
    assert open == open[..i] + [open[i]] + open[i + 1..];
  }

  /** One move from `n` by `(dr, dc)`, if it stays inside the city
      (`checked_add_signed` and `get`); the entered block's digit is added
      to the heat. */
  function Move(city: CityMap, n: Node, dr: int, dc: int, run: nat): (r: seq<Node>)
    ensures |r| <= 1
  {
    if n.row + dr < 0 || n.col + dc < 0 then []
    else
      match Cell(city, Position(n.row + dr, n.col + dc))
      case None => []
      case Some(cost) => [Node(n.hl + cost, n.row + dr, n.col + dc, dr, dc, run)]
  }

  /** A move lands on the block it aims at, with that block's digit added
      to the heat, and there is one exactly when that block is inside the
      city. */
  lemma MoveSpec(city: CityMap, n: Node, dr: int, dc: int, run: nat)
    ensures var r := Move(city, n, dr, dc, run);
            (r != [] ==> r[0].row == n.row + dr && r[0].col == n.col + dc &&
                         Cell(city, Position(r[0].row, r[0].col)) == Some(r[0].hl - n.hl) &&
                         r[0].dRow == dr && r[0].dCol == dc && r[0].run == run) &&
            (r == [] <==> n.row + dr < 0 || n.col + dc < 0 || Cell(city, Position(n.row + dr, n.col + dc)).None?)
  {
  }

  /** `s` is one block on from `n` in the direction `s` records, and
      its heat is `n`'s plus the digit of the block it entered. */
  predicate OneBlockOn(city: CityMap, n: Node, s: Node) {
    s.row == n.row + s.dRow && s.col == n.col + s.dCol &&
    Cell(city, Position(s.row, s.col)) == Some(s.hl - n.hl)
  }

  /** `s` goes on the way `n` went, which is allowed after fewer than
      three moves that way (and not from the start); the run counts one
      more. */
  predicate StraightOn(n: Node, s: Node) {
    s.dRow == n.dRow && s.dCol == n.dCol && (n.dRow, n.dCol) != (0, 0) &&
    n.run < 3 && s.run == n.run + 1
  }

  /** `s` turns from the way `n` went, neither straight on nor back, by a
      unit step; the run starts again from one. */
  predicate TurnOff(n: Node, s: Node) {
    Abs(s.dRow) + Abs(s.dCol) == 1 && s.run == 1 &&
    (s.dRow, s.dCol) != (n.dRow, n.dCol) && (s.dRow, s.dCol) != (-n.dRow, -n.dCol)
  }

  /** A turn to `(dr, dc)`, if `next_directions` keeps it. */
  function Turn(city: CityMap, n: Node, dr: int, dc: int): (r: seq<Node>)
    requires Abs(dr) + Abs(dc) == 1
    ensures |r| <= 1
  {
    if (dr, dc) != (n.dRow, n.dCol) && (dr, dc) != (-n.dRow, -n.dCol) then Move(city, n, dr, dc, 1) else []
  }

  /** A turn enters the next block and is neither straight on nor back. */
  lemma TurnSpec(city: CityMap, n: Node, dr: int, dc: int)
    requires Abs(dr) + Abs(dc) == 1
    ensures forall s :: s in Turn(city, n, dr, dc) ==> OneBlockOn(city, n, s) && TurnOff(n, s)
  {
    MoveSpec(city, n, dr, dc, 1);
  }

  /** Straight on, if allowed. */
  function Straight(city: CityMap, n: Node): (r: seq<Node>)
    ensures |r| <= 1
  {
    if n.run < 3 && (n.dRow, n.dCol) != (0, 0) then Move(city, n, n.dRow, n.dCol, n.run + 1) else []
  }

  /** Going straight on enters the next block in the same direction. */
  lemma StraightSpec(city: CityMap, n: Node)
    ensures forall s :: s in Straight(city, n) ==> OneBlockOn(city, n, s) && StraightOn(n, s)
  {
    MoveSpec(city, n, n.dRow, n.dCol, n.run + 1);
  }

  /** The turns right, down, left and up, in that order. */
  function Turns(city: CityMap, n: Node): (r: seq<Node>) {
    Turn(city, n, 0, 1) + Turn(city, n, 1, 0) + Turn(city, n, 0, -1) + Turn(city, n, -1, 0)
  }

  /** Every turn enters the next block and is neither straight on nor back. */
  lemma TurnsSpec(city: CityMap, n: Node)
    ensures forall s :: s in Turns(city, n) ==> OneBlockOn(city, n, s) && TurnOff(n, s)
  {
    var right, down := Turn(city, n, 0, 1), Turn(city, n, 1, 0);
    var left, up := Turn(city, n, 0, -1), Turn(city, n, -1, 0);
    TurnSpec(city, n, 0, 1);
    TurnSpec(city, n, 1, 0);
    TurnSpec(city, n, 0, -1);
    TurnSpec(city, n, -1, 0);
    assert forall s :: s in right + down + left + up ==> s in right || s in down || s in left || s in up;
  }

  /** The nodes one iteration pushes. */
  function Successors(city: CityMap, n: Node): seq<Node> {
    Straight(city, n) + Turns(city, n)
  }

  /** Every pushed node is one block on, with the entered block's heat
      added, and either goes straight on, as allowed, or turns. */
  lemma SuccessorsSpec(city: CityMap, n: Node)
    ensures forall s :: s in Successors(city, n) ==> OneBlockOn(city, n, s) && (StraightOn(n, s) || TurnOff(n, s))
  {
    StraightSpec(city, n);
    TurnsSpec(city, n);
    forall s | s in Successors(city, n)
      ensures s in Straight(city, n) || s in Turns(city, n)
    {
    }
  }

  /** And every such move inside the city is pushed: straight on while
      the run is below three, any turn that is not back. */
  lemma SuccessorsComplete(city: CityMap, n: Node, dr: int, dc: int)
    requires Abs(dr) + Abs(dc) == 1 && (dr, dc) != (-n.dRow, -n.dCol)
    requires (dr, dc) == (n.dRow, n.dCol) ==> n.run < 3
    requires n.row + dr >= 0 && n.col + dc >= 0 && Cell(city, Position(n.row + dr, n.col + dc)).Some?
    ensures exists s :: s in Successors(city, n) && s.dRow == dr && s.dCol == dc &&
                        s.row == n.row + dr && s.col == n.col + dc
  {
    var succ := Successors(city, n);
    if (dr, dc) == (n.dRow, n.dCol) {
      MoveSpec(city, n, dr, dc, n.run + 1);
      assert Straight(city, n)[0] in succ;
    } else {
      var t := TurnsComplete(city, n, dr, dc);
      assert t in succ;
    }
  }

  lemma TurnsComplete(city: CityMap, n: Node, dr: int, dc: int) returns (t: Node)
    requires Abs(dr) + Abs(dc) == 1 && (dr, dc) != (-n.dRow, -n.dCol) && (dr, dc) != (n.dRow, n.dCol)
    requires n.row + dr >= 0 && n.col + dc >= 0 && Cell(city, Position(n.row + dr, n.col + dc)).Some?
    ensures t in Turns(city, n) && t.dRow == dr && t.dCol == dc && t.row == n.row + dr && t.col == n.col + dc
  {
    var right, down := Turn(city, n, 0, 1), Turn(city, n, 1, 0);
    var left, up := Turn(city, n, 0, -1), Turn(city, n, -1, 0);
    assert Turns(city, n) == right + down + left + up;
    MoveSpec(city, n, dr, dc, 1);
    if dr == 0 && dc == 1 {
      t := right[0];
    } else if dr == 1 {
      t := down[0];
    } else if dc == -1 {
      t := left[0];
    } else {
      t := up[0];
    }
  }

  /** Going straight on and turning are told apart by the direction, and
      neither goes back. */
  lemma NeverBack(n: Node, s: Node)
    ensures StraightOn(n, s) ==> !TurnOff(n, s) && (s.dRow, s.dCol) != (-n.dRow, -n.dCol)
    ensures TurnOff(n, s) ==> (s.dRow, s.dCol) != (-n.dRow, -n.dCol)
  {
  }

  /** No push is cooler than the node it comes from. */
  lemma SuccessorsHotter(city: CityMap, n: Node)
    ensures forall s :: s in Successors(city, n) ==> s.hl >= n.hl
  {
    SuccessorsSpec(city, n);
  }

  /** A node the search can hold: the start, with no direction and no
      run, or one to three moves in a unit direction. */
  predicate Valid(n: Node) {
    (n.run == 0 && n.dRow == 0 && n.dCol == 0) || (1 <= n.run <= 3 && Abs(n.dRow) + Abs(n.dCol) == 1)
  }

  /** So every direction is a unit step and no run exceeds three moves. */
  lemma SuccessorsValid(city: CityMap, n: Node)
    requires Valid(n)
    ensures forall s :: s in Successors(city, n) ==> Valid(s) && s.hl >= n.hl
  {
    SuccessorsSpec(city, n);
    forall s | s in Successors(city, n)
      ensures Valid(s)
    {
      NeverBack(n, s);
    }
  }

  /** What the search returns besides the answer: the nodes it expanded,
      in order. */
  datatype Outcome = Outcome(best: Option<nat>, expanded: seq<Node>)

  /** The search between two pops: the heap, the seen states, and the
      nodes expanded so far. */
  datatype Frontier = Frontier(open: seq<Node>, seen: set<StateKey>, expanded: seq<Node>)

  /** What one pop leads to. */
  datatype Next = Finished(outcome: Outcome) | Continue(frontier: Frontier)

  /** One turn of the `while` loop of `find_best_path`: pop the least
      node; skip it if its state was seen; otherwise remember it, stop
      with its heat at the end block, or push its successors. */
  function Step(city: CityMap, end: Position, f: Frontier): (r: Next)
    requires |f.open| > 0
  {
    var (n, rest) := Pop(f.open);
    if KeyOf(n) in f.seen then Continue(Frontier(rest, f.seen, f.expanded))
    else if Position(n.row, n.col) == end then Finished(Outcome(Some(n.hl), f.expanded + [n]))
    else Continue(Frontier(rest + Successors(city, n), f.seen + {KeyOf(n)}, f.expanded + [n]))
  }

  /** The loop, allowed `fuel` more pops; an empty heap ends it with no
      answer. */
  function Search(city: CityMap, end: Position, f: Frontier, fuel: nat): (r: Run<Outcome>)
    ensures r != Panic
    decreases fuel
  {
    if f.open == [] then Done(Outcome(None, f.expanded))
    else if fuel == 0 then OutOfFuel
    else
      match Step(city, end, f)
      case Finished(o) => Done(o)
      case Continue(g) => Search(city, end, g, fuel - 1)
  }

  /** The states of a list of expanded nodes. */
  function Keys(ns: seq<Node>): set<StateKey> {
    set n | n in ns :: KeyOf(n)
  }

  /** Expanded states are distinct, and their heat never decreases. */
  ghost predicate ExpandedOnceInOrder(expanded: seq<Node>) {
    (forall i, j :: 0 <= i < j < |expanded| ==> KeyOf(expanded[i]) != KeyOf(expanded[j])) &&
    (forall i, j :: 0 <= i < j < |expanded| ==> expanded[i].hl <= expanded[j].hl)
  }

  /** The search keeps its invariant: `seen` holds exactly the expanded
      states, and every open node is at least as hot as the last expanded
      one. */
  ghost predicate SearchInv(open: seq<Node>, seen: set<StateKey>, expanded: seq<Node>) {
    seen == Keys(expanded) && ExpandedOnceInOrder(expanded) &&
    (expanded != [] ==> forall k :: 0 <= k < |open| ==> open[k].hl >= expanded[|expanded| - 1].hl)
  }

  lemma KeysAppend(ns: seq<Node>, n: Node)
    ensures Keys(ns + [n]) == Keys(ns) + {KeyOf(n)}
  {
    var l, r := Keys(ns + [n]), Keys(ns) + {KeyOf(n)};
    forall k | k in l
      ensures k in r
    {
      var m :| m in ns + [n] && KeyOf(m) == k;
      if m != n {
        assert m in ns;
      }
    }
    forall k | k in r
      ensures k in l
    {
      if k != KeyOf(n) {
        var m :| m in ns && KeyOf(m) == k;
        assert m in ns + [n];
      }
    }
  }

  /** One expansion keeps the invariant. */
  lemma ExpandStep(city: CityMap, open: seq<Node>, seen: set<StateKey>, expanded: seq<Node>)
    requires SearchInv(open, seen, expanded) && |open| > 0
    requires KeyOf(Pop(open).0) !in seen
    ensures var (n, rest) := Pop(open);
            SearchInv(rest + Successors(city, n), seen + {KeyOf(n)}, expanded + [n])
  {
    var (n, rest) := Pop(open);
    var e2 := expanded + [n];
    PopSpec(open);
    KeysAppend(expanded, n);
    forall a, b | 0 <= a < b < |e2|
      ensures KeyOf(e2[a]) != KeyOf(e2[b]) && e2[a].hl <= e2[b].hl
    {
      if b == |expanded| {
        assert e2[a] in expanded;
      }
    }
    var next := rest + Successors(city, n);
    SuccessorsHotter(city, n);
    forall k | 0 <= k < |next|
      ensures next[k].hl >= n.hl
    {
      if k >= |rest| {
        assert next[k] in Successors(city, n);
      } else {
        NodeLeTotal(n, rest[k], rest[k]);
      }
    }
  }

  /** Dropping a seen node keeps the invariant. */
  lemma SkipStep(open: seq<Node>, seen: set<StateKey>, expanded: seq<Node>)
    requires SearchInv(open, seen, expanded) && |open| > 0
    ensures SearchInv(Pop(open).1, seen, expanded)
  {
    PopSpec(open);
  }

  /** What a finished search promises: states expanded once each,
      coolest first, and an answer that is the heat of the last expanded
      node, which is on the end block. */
  ghost predicate Sound(o: Outcome, end: Position) {
    ExpandedOnceInOrder(o.expanded) &&
    (o.best.Some? ==> o.expanded != [] && o.best.value == o.expanded[|o.expanded| - 1].hl &&
                      Position(o.expanded[|o.expanded| - 1].row, o.expanded[|o.expanded| - 1].col) == end)
  }

  /** One pop keeps the invariant, and a finished search is sound. */
  lemma StepInv(city: CityMap, end: Position, f: Frontier)
    requires SearchInv(f.open, f.seen, f.expanded) && |f.open| > 0
    ensures match Step(city, end, f)
            case Continue(g) => SearchInv(g.open, g.seen, g.expanded)
            case Finished(o) => o.best.Some? && Sound(o, end)
  {
    if KeyOf(Pop(f.open).0) !in f.seen {
      ExpandStep(city, f.open, f.seen, f.expanded);
    } else {
      SkipStep(f.open, f.seen, f.expanded);
    }
  }

  /** Every state is expanded at most once, in order of heat: the search
      is best-first; and its answer is the heat of a node on the end
      block. */
  lemma {:induction false} SearchSound(city: CityMap, end: Position, f: Frontier, fuel: nat)
    requires SearchInv(f.open, f.seen, f.expanded)
    requires Search(city, end, f, fuel).Done?
    ensures Sound(Search(city, end, f, fuel).result, end)
    decreases fuel
  {
    if f.open == [] {
      assert Search(city, end, f, fuel).result == Outcome(None, f.expanded);
    } else {
      var next := Step(city, end, f);
      StepInv(city, end, f);
      SearchStep(city, end, f, fuel);
      if next.Continue? {
        SearchSound(city, end, next.frontier, fuel - 1);
      }
    }
  }

  /** One iteration of the loop. */
  lemma SearchStep(city: CityMap, end: Position, f: Frontier, fuel: nat)
    requires f.open != [] && Search(city, end, f, fuel).Done?
    ensures fuel > 0
    ensures Step(city, end, f).Continue? ==>
              Search(city, end, f, fuel) == Search(city, end, Step(city, end, f).frontier, fuel - 1)
    ensures Step(city, end, f).Finished? ==> Search(city, end, f, fuel) == Done(Step(city, end, f).outcome)
  {
  }

  /** Every node in the heap and every expanded node is valid. */
  ghost predicate AllValid(f: Frontier) {
    (forall k :: 0 <= k < |f.open| ==> Valid(f.open[k])) &&
    (forall k :: 0 <= k < |f.expanded| ==> Valid(f.expanded[k]))
  }

  lemma StepValid(city: CityMap, end: Position, f: Frontier)
    requires AllValid(f) && |f.open| > 0
    ensures match Step(city, end, f)
            case Continue(g) => AllValid(g)
            case Finished(o) => forall k :: 0 <= k < |o.expanded| ==> Valid(o.expanded[k])
  {
    var (n, rest) := Pop(f.open);
    PopSpec(f.open);
    SuccessorsValid(city, n);
    var next := rest + Successors(city, n);
    forall k | 0 <= k < |next|
      ensures Valid(next[k])
    {
      if k >= |rest| {
        assert next[k] in Successors(city, n);
      }
    }
  }

  /** No expanded node, so no node on the way to the answer, has gone more
      than three blocks in a line. */
  lemma {:induction false} SearchRunsBounded(city: CityMap, end: Position, f: Frontier, fuel: nat)
    requires AllValid(f)
    requires Search(city, end, f, fuel).Done?
    ensures forall k :: 0 <= k < |Search(city, end, f, fuel).result.expanded| ==>
              Search(city, end, f, fuel).result.expanded[k].run <= 3
    decreases fuel
  {
    if f.open == [] {
      assert Search(city, end, f, fuel).result == Outcome(None, f.expanded);
    } else {
      var next := Step(city, end, f);
      StepValid(city, end, f);
      SearchStep(city, end, f, fuel);
      if next.Continue? {
        SearchRunsBounded(city, end, next.frontier, fuel - 1);
      }
    }
  }

  /** More fuel changes no outcome already reached. */
  lemma {:induction false} SearchFuel(city: CityMap, end: Position, f: Frontier, fuel: nat, more: nat)
    requires fuel <= more && Search(city, end, f, fuel).Done?
    ensures Search(city, end, f, more) == Search(city, end, f, fuel)
    decreases fuel
  {
    if f.open != [] {
      match Step(city, end, f)
      case Finished(o) =>
      case Continue(g) => SearchFuel(city, end, g, fuel - 1, more - 1);
    }
  }

  /** The start: the top-left block, no heat (its own digit is not
      counted), no direction. */
  const Start := Node(0, 0, 0, 0, 0, 0)

  /** `find_best_path` with at most `fuel` pops: indexing the first row
      and taking one from the lengths panic on an empty city. */
  function FindBestPath(city: CityMap, fuel: nat): (r: Run<Option<nat>>)
    ensures r == Panic <==> |city| == 0 || |city[0]| == 0
  {
    if |city| == 0 || |city[0]| == 0 then Panic
    else
      match Search(city, Position(|city| - 1, |city[0]| - 1), Frontier([Start], {}, []), fuel)
      case Done(o) => Done(o.best)
      case OutOfFuel => OutOfFuel
      case Panic => Panic
  }

  /** The answer is the heat of an expanded node at the bottom-right
      block; the search expanded every state at most once, coolest first,
      and never a node more than three blocks into a line. */
  lemma FindBestPathSpec(city: CityMap, fuel: nat)
    requires |city| > 0 && |city[0]| > 0
    requires Search(city, Position(|city| - 1, |city[0]| - 1), Frontier([Start], {}, []), fuel).Done?
    ensures var o := Search(city, Position(|city| - 1, |city[0]| - 1), Frontier([Start], {}, []), fuel).result;
            ExpandedOnceInOrder(o.expanded) &&
            (forall k :: 0 <= k < |o.expanded| ==> o.expanded[k].run <= 3) &&
            (o.best.Some? ==> exists n :: n in o.expanded && n.hl == o.best.value &&
                                         n.row == |city| - 1 && n.col == |city[0]| - 1)
  {
    StartInv();
    SearchSpec(city, Position(|city| - 1, |city[0]| - 1), Frontier([Start], {}, []), fuel);
  }

  /** The search starts in its invariant. */
  lemma StartInv()
    ensures SearchInv([Start], {}, []) && AllValid(Frontier([Start], {}, []))
  {
    assert Keys([]) == {};
  }

  /** A search started in its invariant ends sound and with bounded runs. */
  lemma SearchSpec(city: CityMap, end: Position, f: Frontier, fuel: nat)
    requires SearchInv(f.open, f.seen, f.expanded) && AllValid(f)
    requires Search(city, end, f, fuel).Done?
    ensures var o := Search(city, end, f, fuel).result;
            ExpandedOnceInOrder(o.expanded) &&
            (forall k :: 0 <= k < |o.expanded| ==> o.expanded[k].run <= 3) &&
            (o.best.Some? ==> exists n :: n in o.expanded && n.hl == o.best.value &&
                                         n.row == end.row && n.col == end.col)
  {
    SearchSound(city, end, f, fuel);
    SearchRunsBounded(city, end, f, fuel);
    var o := Search(city, end, f, fuel).result;
    if o.best.Some? {
      assert o.expanded[|o.expanded| - 1] in o.expanded;
    }
  }

  /** Part 1. */
  function Part1(input: string, fuel: nat): Run<Option<nat>> {
    match ParseCity(input)
    case None => Panic
    case Some(city) => FindBestPath(city, fuel)
  }

  /** Popping from a heap of two. */
  lemma PopTwo(a: Node, b: Node)
    requires NodeLe(a, b)
    ensures Pop([a, b]) == (a, [b])
  {
    assert [a, b][1..] == [b];
    assert MinIndex([b]) == 0;
    assert MinIndex([a, b]) == 0;
    assert [a, b][..0] + [a, b][1..] == [b];
  }

  /** The example city below, its end block, and the nodes the search
      pushes there. */
  const Small: CityMap := [[1, 2], [3, 4]]
  const SmallR := Node(2, 0, 1, 0, 1, 1)
  const SmallD := Node(3, 1, 0, 1, 0, 1)
  const SmallRD := Node(6, 1, 1, 1, 0, 1)
  const SmallDR := Node(7, 1, 1, 0, 1, 1)

  /** A turn the search does not take: straight on or back. */
  lemma TurnNotTaken(city: CityMap, n: Node, dr: int, dc: int)
    requires Abs(dr) + Abs(dc) == 1
    requires (dr, dc) == (n.dRow, n.dCol) || (dr, dc) == (-n.dRow, -n.dCol)
    ensures Turn(city, n, dr, dc) == []
  {
  }

  /** A turn that would leave the city. */
  lemma TurnOutside(city: CityMap, n: Node, dr: int, dc: int)
    requires Abs(dr) + Abs(dc) == 1
    requires n.row + dr < 0 || n.col + dc < 0 || Cell(city, Position(n.row + dr, n.col + dc)).None?
    ensures Turn(city, n, dr, dc) == []
  {
  }

  /** A turn onto a block of the city. */
  lemma TurnInside(city: CityMap, n: Node, dr: int, dc: int, cost: nat)
    requires Abs(dr) + Abs(dc) == 1
    requires (dr, dc) != (n.dRow, n.dCol) && (dr, dc) != (-n.dRow, -n.dCol)
    requires n.row + dr >= 0 && n.col + dc >= 0 && Cell(city, Position(n.row + dr, n.col + dc)) == Some(cost)
    ensures Turn(city, n, dr, dc) == [Node(n.hl + cost, n.row + dr, n.col + dc, dr, dc, 1)]
  {
  }

  /** No straight move from the start, nor after three moves in a line. */
  lemma StraightNotTaken(city: CityMap, n: Node)
    requires n.run >= 3 || (n.dRow, n.dCol) == (0, 0)
    ensures Straight(city, n) == []
  {
  }

  lemma StartTurns()
    ensures Turns(Small, Start) == [SmallR, SmallD]
  {
    assert Cell(Small, Position(0, 1)) == Some(2);
    assert Cell(Small, Position(1, 0)) == Some(3);
    TurnInside(Small, Start, 0, 1, 2);
    TurnInside(Small, Start, 1, 0, 3);
    TurnOutside(Small, Start, 0, -1);
    TurnOutside(Small, Start, -1, 0);
    TurnsOf(Small, Start, [SmallR], [SmallD], [], []);
    assert [SmallR] + [SmallD] + [] + [] == [SmallR, SmallD];
  }

  /** The turns are pushed right, down, left, up. */
  lemma TurnsOf(city: CityMap, n: Node, right: seq<Node>, down: seq<Node>, left: seq<Node>, up: seq<Node>)
    requires Turn(city, n, 0, 1) == right && Turn(city, n, 1, 0) == down
    requires Turn(city, n, 0, -1) == left && Turn(city, n, -1, 0) == up
    ensures Turns(city, n) == right + down + left + up
  {
  }

  lemma StartSuccessors()
    ensures Successors(Small, Start) == [SmallR, SmallD]
  {
    StartTurns();
    StraightNotTaken(Small, Start);
  }

  lemma SmallRSuccessors()
    ensures Successors(Small, SmallR) == [SmallRD]
  {
    assert Cell(Small, Position(0, 2)) == None;
    assert Cell(Small, Position(1, 1)) == Some(4);
    TurnNotTaken(Small, SmallR, 0, 1);
    TurnInside(Small, SmallR, 1, 0, 4);
    TurnNotTaken(Small, SmallR, 0, -1);
    TurnOutside(Small, SmallR, -1, 0);
    TurnsOf(Small, SmallR, [], [SmallRD], [], []);
    assert [] + [SmallRD] + [] + [] == [SmallRD];
  }

  lemma SmallDSuccessors()
    ensures Successors(Small, SmallD) == [SmallDR]
  {
    assert Cell(Small, Position(2, 0)) == None;
    assert Cell(Small, Position(1, 1)) == Some(4);
    TurnInside(Small, SmallD, 0, 1, 4);
    TurnNotTaken(Small, SmallD, 1, 0);
    TurnOutside(Small, SmallD, 0, -1);
    TurnNotTaken(Small, SmallD, -1, 0);
    TurnsOf(Small, SmallD, [SmallDR], [], [], []);
    assert [SmallDR] + [] + [] + [] == [SmallDR];
  }

  lemma SmallStep1()
    ensures Step(Small, Position(1, 1), Frontier([Start], {}, [])) ==
            Continue(Frontier([SmallR, SmallD], {KeyOf(Start)}, [Start]))
  {
    assert Pop([Start]) == (Start, []);
    StartSuccessors();
  }

  lemma SmallStep2()
    ensures Step(Small, Position(1, 1), Frontier([SmallR, SmallD], {KeyOf(Start)}, [Start])) ==
            Continue(Frontier([SmallD, SmallRD], {KeyOf(Start), KeyOf(SmallR)}, [Start, SmallR]))
  {
    PopTwo(SmallR, SmallD);
    SmallRSuccessors();
    assert KeyOf(SmallR) !in {KeyOf(Start)};
    assert [SmallD] + [SmallRD] == [SmallD, SmallRD];
  }

  lemma SmallStep3()
    ensures Step(Small, Position(1, 1), Frontier([SmallD, SmallRD], {KeyOf(Start), KeyOf(SmallR)}, [Start, SmallR])) ==
            Continue(Frontier([SmallRD, SmallDR], {KeyOf(Start), KeyOf(SmallR), KeyOf(SmallD)}, [Start, SmallR, SmallD]))
  {
    PopTwo(SmallD, SmallRD);
    SmallDSuccessors();
    assert KeyOf(SmallD) !in {KeyOf(Start), KeyOf(SmallR)};
    assert [SmallRD] + [SmallDR] == [SmallRD, SmallDR];
  }

  lemma SmallStep4()
    ensures Step(Small, Position(1, 1), Frontier([SmallRD, SmallDR], {KeyOf(Start), KeyOf(SmallR), KeyOf(SmallD)}, [Start, SmallR, SmallD])) ==
            Finished(Outcome(Some(6), [Start, SmallR, SmallD, SmallRD]))
  {
    PopTwo(SmallRD, SmallDR);
  }

  /** A two-by-two city: right then down loses 2 + 4; the search pops
      the start, right, down, and then the end block. */
  lemma SmallCity()
    ensures FindBestPath(Small, 4) == Done(Some(6))
  {
    SmallStep1();
    SmallStep2();
    SmallStep3();
    SmallStep4();
  }
}
