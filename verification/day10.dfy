/** Day 10: a field of pipes, and how many steps along the loop through
    the start tile the farthest tile is, found by walking from the start in
    all four directions at once. */
module Day10 {
  import opened Common
  import opened Text
  import opened Grids

  datatype Direction = North | East | South | West

  function Opposite(d: Direction): Direction {
    match d
    case North => South
    case East => West
    case South => North
    case West => East
  }

  /** A pipe maps the heading a walker enters with to the heading it
      leaves with. */
  datatype Pipe = Pipe(directions: map<Direction, Direction>)

  /** The pipe characters: '-' and '|' go straight, 'J', '7', 'L' and 'F'
      bend; every other character (the ground '.', the start 'S') is no
      pipe. */
  function PipeOf(c: char): (p: Option<Pipe>)
    ensures p.Some? <==> c in "-|J7LF"
  {
    match c
    case '-' => Some(Pipe(map[East := East, West := West]))
    case '|' => Some(Pipe(map[North := North, South := South]))
    case 'J' => Some(Pipe(map[East := North, South := West]))
    case '7' => Some(Pipe(map[East := South, North := West]))
    case 'L' => Some(Pipe(map[South := East, West := North]))
    case 'F' => Some(Pipe(map[North := East, West := South]))
    case _ => None
  }

  /** `next_direction`: the heading out, if the pipe takes this one in. */
  function NextDirection(p: Pipe, d: Direction): Option<Direction> {
    if d in p.directions then Some(p.directions[d]) else None
  }

  /** Every pipe takes exactly two headings, and they are not opposite
      ends of a straight line walked the same way: the two headings out
      differ. */
  lemma PipeTakesTwo(c: char)
    requires PipeOf(c).Some?
    ensures var p := PipeOf(c).value;
            |p.directions| == 2 &&
            exists d, e :: d != e && p.directions.Keys == {d, e} && p.directions[d] != p.directions[e]
  {
    var p := PipeOf(c).value;
    match c
    case '-' => assert p.directions.Keys == {East, West};
    case '|' => assert p.directions.Keys == {North, South};
    case 'J' => assert p.directions.Keys == {East, South};
    case '7' => assert p.directions.Keys == {East, North};
    case 'L' => assert p.directions.Keys == {South, West};
    case 'F' => assert p.directions.Keys == {North, West};
  }

  /** Every pipe can be walked backwards: entering with the reverse of the
      heading out leaves with the reverse of the heading in. */
  lemma PipeReversible(c: char, d: Direction, e: Direction)
    requires PipeOf(c).Some? && NextDirection(PipeOf(c).value, d) == Some(e)
    ensures NextDirection(PipeOf(c).value, Opposite(e)) == Some(Opposite(d))
  {
  }

  /** One step from `p`: north and west fail at the top and left edges
      (`checked_sub`). */
  function Step(p: Position, d: Direction): (q: Option<Position>)
    ensures q.None? <==> (d == North && p.row == 0) || (d == West && p.col == 0)
    ensures q.Some? ==> Abs(q.value.row - p.row) + Abs(q.value.col - p.col) == 1
  {
    match d
    case North => if p.row == 0 then None else Some(Position(p.row - 1, p.col))
    case East => Some(Position(p.row, p.col + 1))
    case South => Some(Position(p.row + 1, p.col))
    case West => if p.col == 0 then None else Some(Position(p.row, p.col - 1))
  }

  /** A step can always be taken back. */
  lemma StepReverse(p: Position, d: Direction)
    requires Step(p, d).Some?
    ensures Step(Step(p, d).value, Opposite(d)) == Some(p)
  {
  }

  /** The field and the position of 'S'. */
  datatype PipeMap = PipeMap(grid: seq<string>, start: Position)

  /** A walker: where it stands and where it is heading. */
  datatype Path = Path(at: Position, heading: Direction)

  /** `next_tile`: the step must stay on the field, and the tile reached
      must be a pipe that takes the heading; the walker then stands there
      with the pipe's heading out. */
  function NextTile(m: PipeMap, cur: Position, d: Direction): (r: Option<Path>)
    ensures r.Some? ==> Step(cur, d) == Some(r.value.at)
    ensures r.Some? ==> Cell(m.grid, r.value.at).Some? &&
                        PipeOf(Cell(m.grid, r.value.at).value).Some? &&
                        NextDirection(PipeOf(Cell(m.grid, r.value.at).value).value, d) == Some(r.value.heading)
  {
    match Step(cur, d)
    case None => None
    case Some(q) =>
      match Cell(m.grid, q)
      case None => None
      case Some(c) =>
        match PipeOf(c)
        case None => None
        case Some(p) =>
          match NextDirection(p, d)
          case None => None
          case Some(e) => Some(Path(q, e))
  }

  /** Everything that is not a step onto a pipe taking the heading is
      refused. */
  lemma NextTileRefuses(m: PipeMap, cur: Position, d: Direction)
    requires Step(cur, d).None? ||
             Cell(m.grid, Step(cur, d).value).None? ||
             PipeOf(Cell(m.grid, Step(cur, d).value).value).None? ||
             NextDirection(PipeOf(Cell(m.grid, Step(cur, d).value).value).value, d).None?
    ensures NextTile(m, cur, d).None?
  {
  }

  /** Walking is reversible: a walker who stepped from `p` onto `q` and
      would leave `q` heading `e` meets, coming back from that tile
      heading the other way, `q` again and leaves it towards `p`. */
  lemma NextTileReversible(m: PipeMap, p: Position, d: Direction, q: Position, e: Direction, q2: Position)
    requires NextTile(m, p, d) == Some(Path(q, e))
    requires Step(q, e) == Some(q2)
    ensures NextTile(m, q2, Opposite(e)) == Some(Path(q, Opposite(d)))
    ensures Step(q, Opposite(d)) == Some(p)
  {
    StepReverse(q2, Opposite(e));
    assert Opposite(Opposite(e)) == e;
    StepReverse(p, d);
    var c := Cell(m.grid, q).value;
    PipeReversible(c, d, e);
  }

  // ---------------------------------------------------------------------
  // Parsing

  /** The first 'S' in row-major order from row `r` on. */
  function FindStartFrom(g: seq<string>, r: nat): Option<Position>
    decreases |g| - r
  {
    if r >= |g| then None
    else if 'S' in g[r] then Some(Position(r, FirstIndex(g[r], 'S')))
    else FindStartFrom(g, r + 1)
  }

  /** Before `(r, c)` in row-major order. */
  predicate Before(a: Position, b: Position) {
    a.row < b.row || (a.row == b.row && a.col < b.col)
  }

  /** The search finds an 'S' exactly when there is one, and it finds the
      first. */
  lemma {:induction false} FindStartFromSpec(g: seq<string>, r: nat)
    ensures FindStartFrom(g, r).None? <==> forall i :: r <= i < |g| ==> 'S' !in g[i]
    ensures FindStartFrom(g, r).Some? ==>
              var p := FindStartFrom(g, r).value;
              r <= p.row < |g| && Cell(g, p) == Some('S') &&
              forall q: Position :: r <= q.row && Before(q, p) && Cell(g, q).Some? ==> Cell(g, q) != Some('S')
    decreases |g| - r
  {
    if r < |g| && 'S' !in g[r] {
      FindStartFromSpec(g, r + 1);
    }
  }

  /** `Map::from`: the lines must form a rectangle (`from_rows` unwraps)
      and hold an 'S' (`find` unwraps). */
  function ParseMap(input: string): (r: Option<PipeMap>)
    ensures r.Some? ==> Rectangular(r.value.grid) && Cell(r.value.grid, r.value.start) == Some('S')
    ensures r.Some? <==> Rectangular(Lines(input)) && exists i :: 0 <= i < |Lines(input)| && 'S' in Lines(input)[i]
    ensures r.Some? ==> r.value.grid == Lines(input)
    ensures r.Some? ==> forall q: Position :: Before(q, r.value.start) && Cell(r.value.grid, q).Some? ==>
              Cell(r.value.grid, q) != Some('S')
  {
    var rows := Lines(input);
    if !Rectangular(rows) then None
    else
      FindStartFromSpec(rows, 0);
      match FindStartFrom(rows, 0)
      case None => None
      case Some(s) => Some(PipeMap(rows, s))
  }

  // ---------------------------------------------------------------------
  // The search

  /** A walker's move on the field: `next_tile` from where it stands in
      its heading.  The search below is stated for any such move. */
  function Walk(m: PipeMap): Path -> Option<Path> {
    (w: Path) => NextTile(m, w.at, w.heading)
  }

  /** One wave's bookkeeping: the step at which each tile was reached in
      this wave, the walkers for the next wave, and the answer once two
      walkers meet. */
  datatype WaveState = WaveState(visited: map<Position, nat>, next: seq<Path>, found: Option<nat>)

  /** The body of the `for` loop of `find_farthest_point` for one walker:
      its tile is marked as reached one step ago; if its next tile was
      already reached in this wave, that count is the answer, otherwise
      the tile is marked and the walker goes on. */
  function Visit(step: Path -> Option<Path>, counter: nat, st: WaveState, w: Path): WaveState
    requires counter >= 1
  {
    var seen := st.visited[w.at := counter - 1];
    match step(w)
    case None => st.(visited := seen)
    case Some(v) =>
      if v.at in seen then st.(visited := seen, found := Some(seen[v.at]))
      else WaveState(seen[v.at := counter], st.next + [v], st.found)
  }

  /** The first `n` walkers of a wave, from a fresh `visited` map. */
  function WaveUpTo(step: Path -> Option<Path>, paths: seq<Path>, counter: nat, n: nat): WaveState
    requires counter >= 1 && n <= |paths|
  {
    if n == 0 then WaveState(map[], [], None)
    else Visit(step, counter, WaveUpTo(step, paths, counter, n - 1), paths[n - 1])
  }

  function Wave(step: Path -> Option<Path>, paths: seq<Path>, counter: nat): WaveState
    requires counter >= 1
  {
    WaveUpTo(step, paths, counter, |paths|)
  }

  /** Within a wave every mark and the answer are the wave's count or one
      less. */
  lemma {:induction false} WaveMarks(step: Path -> Option<Path>, paths: seq<Path>, counter: nat, n: nat)
    requires counter >= 1 && n <= |paths|
    ensures var st := WaveUpTo(step, paths, counter, n);
            (forall q :: q in st.visited ==> st.visited[q] == counter - 1 || st.visited[q] == counter) &&
            (st.found.Some? ==> st.found.value == counter - 1 || st.found.value == counter)
  {
    if n > 0 {
      WaveMarks(step, paths, counter, n - 1);
    }
  }

  /** No walker splits, so the walkers never outnumber the wave before;
      each new walker is one step on from some walker of this wave and
      stands on a tile marked in this wave. */
  lemma {:induction false} WaveNext(step: Path -> Option<Path>, paths: seq<Path>, counter: nat, n: nat)
    requires counter >= 1 && n <= |paths|
    ensures var st := WaveUpTo(step, paths, counter, n);
            |st.next| <= n &&
            (forall j :: 0 <= j < |st.next| ==> st.next[j].at in st.visited) &&
            (forall j :: 0 <= j < |st.next| ==> exists i :: 0 <= i < n && step(paths[i]) == Some(st.next[j]))
  {
    if n > 0 {
      WaveNext(step, paths, counter, n - 1);
      var st := WaveUpTo(step, paths, counter, n - 1);
      var st2 := WaveUpTo(step, paths, counter, n);
      assert st2 == Visit(step, counter, st, paths[n - 1]);
      forall j | 0 <= j < |st2.next|
        ensures exists i :: 0 <= i < n && step(paths[i]) == Some(st2.next[j])
      {
        if j < |st.next| {
          assert st2.next[j] == st.next[j];
          var i :| 0 <= i < n - 1 && step(paths[i]) == Some(st.next[j]);
        } else {
          assert step(paths[n - 1]) == Some(st2.next[j]);
        }
      }
    }
  }

  /** Walker `w` steps onto `q`. */
  predicate StepsTo(step: Path -> Option<Path>, w: Path, q: Position) {
    step(w).Some? && step(w).value.at == q
  }

  /** One of the first `n` walkers of a wave stands on `q`. */
  predicate StoodOn(paths: seq<Path>, n: nat, q: Position) {
    exists j :: 0 <= j < n && j < |paths| && paths[j].at == q
  }

  /** `q` is reached in a wave by its first `n` walkers: one of them
      stands there or steps there. */
  predicate Reached(step: Path -> Option<Path>, paths: seq<Path>, n: nat, q: Position) {
    exists j :: 0 <= j < n && j < |paths| && (paths[j].at == q || StepsTo(step, paths[j], q))
  }

  /** Walker `i` meets another: it steps onto a tile it stands on or one
      an earlier walker of the wave reached. */
  predicate Meets(step: Path -> Option<Path>, paths: seq<Path>, i: nat)
    requires i < |paths|
  {
    var next := step(paths[i]);
    next.Some? && (StoodOn(paths, i + 1, next.value.at) || Reached(step, paths, i, next.value.at))
  }

  /** The count walker `i` reads where it meets: the tile's step number,
      one less than the wave's count where a walker of the wave stood and
      the wave's count where one only arrived. */
  function MeetMark(step: Path -> Option<Path>, paths: seq<Path>, counter: nat, i: nat): nat
    requires counter >= 1 && i < |paths| && step(paths[i]).Some?
  {
    if StoodOn(paths, i + 1, step(paths[i]).value.at) then counter - 1 else counter
  }

  /** The walkers of the next wave: each walker that moves on and meets
      no one, one step on, in order. */
  function Successors(step: Path -> Option<Path>, paths: seq<Path>, n: nat): (next: seq<Path>)
    requires n <= |paths|
    ensures |next| <= n
  {
    if n == 0 then []
    else
      var next := step(paths[n - 1]);
      Successors(step, paths, n - 1) + (if next.Some? && !Meets(step, paths, n - 1) then [next.value] else [])
  }

  /** One more walker: it stood on its own tile. */
  lemma StoodOnStep(paths: seq<Path>, n: nat, q: Position)
    requires 0 < n <= |paths|
    ensures StoodOn(paths, n, q) <==> StoodOn(paths, n - 1, q) || q == paths[n - 1].at
  {
    if StoodOn(paths, n, q) {
      var j :| 0 <= j < n && j < |paths| && paths[j].at == q;
      if j < n - 1 {
        assert StoodOn(paths, n - 1, q);
      }
    }
    if q == paths[n - 1].at {
      assert paths[n - 1].at == q;
    }
  }

  /** One more walker: it reached its own tile and the one it steps to. */
  lemma ReachedStep(step: Path -> Option<Path>, paths: seq<Path>, n: nat, q: Position)
    requires 0 < n <= |paths|
    ensures Reached(step, paths, n, q) <==> Reached(step, paths, n - 1, q) || q == paths[n - 1].at || StepsTo(step, paths[n - 1], q)
  {
    if Reached(step, paths, n, q) {
      var j :| 0 <= j < n && j < |paths| && (paths[j].at == q || StepsTo(step, paths[j], q));
      if j < n - 1 {
        assert Reached(step, paths, n - 1, q);
      }
    }
  }

  /** What the marks of the first `n` walkers mean: the marked tiles are
      the tiles reached, each marked one less than the wave's count exactly
      where a walker stood. */
  lemma {:induction false} WaveVisited(step: Path -> Option<Path>, paths: seq<Path>, counter: nat, n: nat)
    requires counter >= 1 && n <= |paths|
    ensures var st := WaveUpTo(step, paths, counter, n);
            forall q :: q in st.visited <==> Reached(step, paths, n, q)
    ensures var st := WaveUpTo(step, paths, counter, n);
            forall q :: q in st.visited ==> st.visited[q] == if StoodOn(paths, n, q) then counter - 1 else counter
  {
    if n > 0 {
      WaveVisited(step, paths, counter, n - 1);
      var st := WaveUpTo(step, paths, counter, n - 1);
      var w := paths[n - 1];
      var seen := st.visited[w.at := counter - 1];
      var st2 := WaveUpTo(step, paths, counter, n);
      assert st2 == Visit(step, counter, st, w);
      forall q
        ensures q in st2.visited <==> Reached(step, paths, n, q)
        ensures q in st2.visited ==> st2.visited[q] == if StoodOn(paths, n, q) then counter - 1 else counter
      {
        StoodOnStep(paths, n, q);
        ReachedStep(step, paths, n, q);
      }
    }
  }

  /** An answer exists exactly when a walker met another, and it is the
      count the last such walker read. */
  lemma {:induction false} WaveFound(step: Path -> Option<Path>, paths: seq<Path>, counter: nat, n: nat)
    requires counter >= 1 && n <= |paths|
    ensures WaveUpTo(step, paths, counter, n).found.None? <==> forall i :: 0 <= i < n ==> !Meets(step, paths, i)
    ensures WaveUpTo(step, paths, counter, n).found.Some? ==>
              exists i :: 0 <= i < n && Meets(step, paths, i) && (forall j :: i < j < n ==> !Meets(step, paths, j)) &&
                WaveUpTo(step, paths, counter, n).found.value == MeetMark(step, paths, counter, i)
  {
    if n > 0 {
      WaveFound(step, paths, counter, n - 1);
      MeetsIsSeen(step, paths, counter, n);
      var st := WaveUpTo(step, paths, counter, n - 1);
      var w := paths[n - 1];
      var seen := st.visited[w.at := counter - 1];
      var st2 := WaveUpTo(step, paths, counter, n);
      assert st2 == Visit(step, counter, st, w);
      if Meets(step, paths, n - 1) {
        var q := step(w).value.at;
        WaveVisited(step, paths, counter, n - 1);
        StoodOnStep(paths, n, q);
        assert seen[q] == MeetMark(step, paths, counter, n - 1);
      } else if st.found.Some? {
        var i :| 0 <= i < n - 1 && Meets(step, paths, i) && (forall j :: i < j < n - 1 ==> !Meets(step, paths, j)) &&
                 st.found.value == MeetMark(step, paths, counter, i);
        assert forall j :: i < j < n ==> !Meets(step, paths, j);
      }
    }
  }

  /** The next wave is the walkers that moved on without meeting. */
  lemma {:induction false} WaveNextWalkers(step: Path -> Option<Path>, paths: seq<Path>, counter: nat, n: nat)
    requires counter >= 1 && n <= |paths|
    ensures WaveUpTo(step, paths, counter, n).next == Successors(step, paths, n)
  {
    if n > 0 {
      WaveNextWalkers(step, paths, counter, n - 1);
      MeetsIsSeen(step, paths, counter, n);
      assert WaveUpTo(step, paths, counter, n) == Visit(step, counter, WaveUpTo(step, paths, counter, n - 1), paths[n - 1]);
    }
  }

  /** Walker `n - 1` meets another exactly when the tile it steps to is
      marked when its turn comes. */
  lemma MeetsIsSeen(step: Path -> Option<Path>, paths: seq<Path>, counter: nat, n: nat)
    requires counter >= 1 && 0 < n <= |paths|
    ensures var w := paths[n - 1];
            var next := step(w);
            Meets(step, paths, n - 1) <==>
              next.Some? && next.value.at in WaveUpTo(step, paths, counter, n - 1).visited[w.at := counter - 1]
  {
    var w := paths[n - 1];
    var next := step(w);
    if next.Some? {
      WaveVisited(step, paths, counter, n - 1);
      StoodOnStep(paths, n, next.value.at);
    }
  }


  /** A wave's next walkers are its successors. */
  lemma WaveSuccessors(step: Path -> Option<Path>, paths: seq<Path>, counter: nat)
    requires counter >= 1
    ensures Wave(step, paths, counter).next == Successors(step, paths, |paths|)
  {
    WaveNextWalkers(step, paths, counter, |paths|);
  }

  /** The walkers of the `k`-th wave from `paths` on. */
  function Walkers(step: Path -> Option<Path>, paths: seq<Path>, k: nat): seq<Path>
    decreases k
  {
    if k == 0 then paths else Walkers(step, Successors(step, paths, |paths|), k - 1)
  }

  /** Wave `k` ends the search: no walker is left, or one meets another. */
  predicate Ends(step: Path -> Option<Path>, paths: seq<Path>, k: nat) {
    var ws := Walkers(step, paths, k);
    ws == [] || exists i :: 0 <= i < |ws| && Meets(step, ws, i)
  }

  /** No wave before the `k`-th ends the search. */
  predicate Ongoing(step: Path -> Option<Path>, paths: seq<Path>, k: nat) {
    forall k' :: 0 <= k' < k ==> !Ends(step, paths, k')
  }

  /** The last walker of `ws` to meet another reads `x`. */
  predicate LastMeeting(step: Path -> Option<Path>, ws: seq<Path>, counter: nat, x: nat)
    requires counter >= 1
  {
    exists i :: 0 <= i < |ws| && Meets(step, ws, i) && (forall j :: i < j < |ws| ==> !Meets(step, ws, j)) &&
      x == MeetMark(step, ws, counter, i)
  }

  /** The `while` loop of `find_farthest_point`, allowed `fuel` waves after
      the next: each wave counts one step further; the loop ends with the
      answer once two walkers meet, and with no answer once no walker is
      left. */
  function Waves(step: Path -> Option<Path>, paths: seq<Path>, counter: nat, fuel: nat): (r: Run<Option<nat>>)
    ensures r != Panic
    decreases fuel
  {
    if paths == [] then Done(None)
    else
      var st := Wave(step, paths, counter + 1);
      if st.found.Some? then Done(st.found)
      else if fuel == 0 then OutOfFuel
      else Waves(step, st.next, counter + 1, fuel - 1)
  }

  /** More fuel changes no answer already reached. */
  lemma {:induction false} WavesFuel(step: Path -> Option<Path>, paths: seq<Path>, counter: nat, fuel: nat, more: nat)
    requires fuel <= more && Waves(step, paths, counter, fuel).Done?
    ensures Waves(step, paths, counter, more) == Waves(step, paths, counter, fuel)
    decreases fuel
  {
    if paths != [] && Wave(step, paths, counter + 1).found.None? {
      WavesFuel(step, Wave(step, paths, counter + 1).next, counter + 1, fuel - 1, more - 1);
    }
  }

  /** An answer is the number of the wave in which the walkers met, or
      one less: at least the count the search started from and at most
      the number of waves it was allowed. */
  lemma {:induction false} WavesAnswer(step: Path -> Option<Path>, paths: seq<Path>, counter: nat, fuel: nat)
    requires Waves(step, paths, counter, fuel).Done? && Waves(step, paths, counter, fuel).result.Some?
    ensures counter <= Waves(step, paths, counter, fuel).result.value <= counter + fuel + 1
    decreases fuel
  {
    var st := Wave(step, paths, counter + 1);
    WaveMarks(step, paths, counter + 1, |paths|);
    if st.found.None? {
      WavesAnswer(step, st.next, counter + 1, fuel - 1);
    }
  }

  /** The waves after the first are those of its successors. */
  lemma WalkersShift(step: Path -> Option<Path>, paths: seq<Path>, k: nat)
    requires k >= 1
    ensures Walkers(step, paths, k) == Walkers(step, Successors(step, paths, |paths|), k - 1)
    ensures Ends(step, paths, k) == Ends(step, Successors(step, paths, |paths|), k - 1)
  {
  }

  /** A search still going after the first wave is still going one wave
      later from the start. */
  lemma OngoingShift(step: Path -> Option<Path>, paths: seq<Path>, k: nat)
    requires !Ends(step, paths, 0) && Ongoing(step, Successors(step, paths, |paths|), k)
    ensures Ongoing(step, paths, k + 1)
  {
    forall k' | 0 <= k' < k + 1
      ensures !Ends(step, paths, k')
    {
      if k' > 0 {
        WalkersShift(step, paths, k');
      }
    }
  }

  /** A wave with walkers ends the search exactly when it finds an answer. */
  lemma WaveEnds(step: Path -> Option<Path>, paths: seq<Path>, counter: nat)
    requires counter >= 1 && paths != []
    ensures Wave(step, paths, counter).found.Some? <==> Ends(step, paths, 0)
    ensures Wave(step, paths, counter).next == Successors(step, paths, |paths|)
  {
    assert Walkers(step, paths, 0) == paths;
    WaveFound(step, paths, counter, |paths|);
    WaveSuccessors(step, paths, counter);
  }

  /** A wave with walkers and no answer hands its successors on to the
      next wave. */
  lemma WavesStep(step: Path -> Option<Path>, paths: seq<Path>, counter: nat, fuel: nat)
    requires paths != [] && !Ends(step, paths, 0)
    ensures fuel == 0 ==> Waves(step, paths, counter, fuel) == OutOfFuel
    ensures fuel > 0 ==> Waves(step, paths, counter, fuel) == Waves(step, Successors(step, paths, |paths|), counter + 1, fuel - 1)
  {
    WaveEnds(step, paths, counter + 1);
  }

  /** The first wave ending the search gives its answer: none when no walker
      is left, else the count found. */
  lemma WavesStop(step: Path -> Option<Path>, paths: seq<Path>, counter: nat, fuel: nat)
    requires Ends(step, paths, 0)
    ensures paths == [] ==> Waves(step, paths, counter, fuel) == Done(None)
    ensures paths != [] ==> Waves(step, paths, counter, fuel) == Done(Wave(step, paths, counter + 1).found)
    ensures paths != [] ==> Wave(step, paths, counter + 1).found.Some?
  {
    if paths != [] {
      WaveEnds(step, paths, counter + 1);
    }
  }

  /** A search that ends does so at a wave with no walker left or a walker
      meeting another. */
  lemma {:induction false} WavesDoneEnds(step: Path -> Option<Path>, paths: seq<Path>, counter: nat, fuel: nat)
    requires Waves(step, paths, counter, fuel).Done?
    ensures exists k :: 0 <= k <= fuel && Ends(step, paths, k)
    decreases fuel
  {
    if !Ends(step, paths, 0) {
      assert Walkers(step, paths, 0) == paths;
      var next := Successors(step, paths, |paths|);
      WavesStep(step, paths, counter, fuel);
      WavesDoneEnds(step, next, counter + 1, fuel - 1);
      var k :| 0 <= k <= fuel - 1 && Ends(step, next, k);
      WalkersShift(step, paths, k + 1);
    }
  }

  /** A wave within the allowance with no walker left or a walker meeting
      another ends the search. */
  lemma {:induction false} WavesEndsDone(step: Path -> Option<Path>, paths: seq<Path>, counter: nat, fuel: nat, k: nat)
    requires k <= fuel && Ends(step, paths, k)
    ensures Waves(step, paths, counter, fuel).Done?
    decreases fuel, 1
  {
    if Ends(step, paths, 0) {
      WavesStop(step, paths, counter, fuel);
    } else {
      WavesEndsLater(step, paths, counter, fuel, k);
    }
  }

  /** The step of `WavesEndsDone` past a first wave that does not end the
      search. */
  lemma {:induction false} WavesEndsLater(step: Path -> Option<Path>, paths: seq<Path>, counter: nat, fuel: nat, k: nat)
    requires k <= fuel && Ends(step, paths, k) && !Ends(step, paths, 0)
    ensures Waves(step, paths, counter, fuel).Done?
    decreases fuel, 0
  {
    assert Walkers(step, paths, 0) == paths;
    var next := Successors(step, paths, |paths|);
    WavesStep(step, paths, counter, fuel);
    WalkersShift(step, paths, k);
    WavesEndsDone(step, next, counter + 1, fuel - 1, k - 1);
  }

  /** The search ends within its waves exactly when one of them has no
      walker left or a walker meeting another. */
  lemma WavesDone(step: Path -> Option<Path>, paths: seq<Path>, counter: nat, fuel: nat)
    ensures Waves(step, paths, counter, fuel).Done? <==> exists k :: 0 <= k <= fuel && Ends(step, paths, k)
  {
    if Waves(step, paths, counter, fuel).Done? {
      WavesDoneEnds(step, paths, counter, fuel);
    }
    if exists k :: 0 <= k <= fuel && Ends(step, paths, k) {
      var k :| 0 <= k <= fuel && Ends(step, paths, k);
      WavesEndsDone(step, paths, counter, fuel, k);
    }
  }

  /** The search ends without an answer at a wave with no walker left when
      no wave before it ended the search. */
  lemma {:induction false} WavesNone(step: Path -> Option<Path>, paths: seq<Path>, counter: nat, fuel: nat)
    requires Waves(step, paths, counter, fuel) == Done(None)
    ensures exists k :: 0 <= k <= fuel && Ongoing(step, paths, k) && Walkers(step, paths, k) == []
    decreases fuel
  {
    assert Walkers(step, paths, 0) == paths;
    if Ends(step, paths, 0) {
      WavesStop(step, paths, counter, fuel);
      assert Ongoing(step, paths, 0);
    } else {
      var next := Successors(step, paths, |paths|);
      WavesStep(step, paths, counter, fuel);
      WavesNone(step, next, counter + 1, fuel - 1);
      var k :| 0 <= k <= fuel - 1 && Ongoing(step, next, k) && Walkers(step, next, k) == [];
      OngoingShift(step, paths, k);
      WalkersShift(step, paths, k + 1);
    }
  }

  /** The search ends with an answer at the first wave where walkers met,
      and the answer is the count the last of them read there. */
  lemma {:induction false} WavesSome(step: Path -> Option<Path>, paths: seq<Path>, counter: nat, fuel: nat)
    requires Waves(step, paths, counter, fuel).Done? && Waves(step, paths, counter, fuel).result.Some?
    ensures exists k :: 0 <= k <= fuel && Ongoing(step, paths, k) && Walkers(step, paths, k) != [] &&
              LastMeeting(step, Walkers(step, paths, k), counter + k + 1, Waves(step, paths, counter, fuel).result.value)
    decreases fuel
  {
    var x := Waves(step, paths, counter, fuel).result.value;
    if Ends(step, paths, 0) {
      WavesSomeFirst(step, paths, counter, fuel);
    } else {
      var next := Successors(step, paths, |paths|);
      WavesStep(step, paths, counter, fuel);
      WavesSome(step, next, counter + 1, fuel - 1);
      var k :| 0 <= k <= fuel - 1 && Ongoing(step, next, k) && Walkers(step, next, k) != [] &&
               LastMeeting(step, Walkers(step, next, k), counter + 1 + k + 1, x);
      MeetingShift(step, paths, counter, k, x);
    }
  }

  /** An answer found by the first wave is read by its last meeting walker. */
  lemma WavesSomeFirst(step: Path -> Option<Path>, paths: seq<Path>, counter: nat, fuel: nat)
    requires Ends(step, paths, 0) && Waves(step, paths, counter, fuel).Done? && Waves(step, paths, counter, fuel).result.Some?
    ensures Ongoing(step, paths, 0) && Walkers(step, paths, 0) != [] &&
            LastMeeting(step, Walkers(step, paths, 0), counter + 0 + 1, Waves(step, paths, counter, fuel).result.value)
  {
    assert Walkers(step, paths, 0) == paths;
    WavesStop(step, paths, counter, fuel);
    WaveLastMeeting(step, paths, counter + 1);
  }

  /** A wave's answer is read by its last meeting walker. */
  lemma WaveLastMeeting(step: Path -> Option<Path>, paths: seq<Path>, counter: nat)
    requires counter >= 1 && Wave(step, paths, counter).found.Some?
    ensures LastMeeting(step, paths, counter, Wave(step, paths, counter).found.value)
  {
    WaveFound(step, paths, counter, |paths|);
  }

  /** A meeting at wave `k` after the first is a meeting at wave `k + 1`
      from the start. */
  lemma MeetingShift(step: Path -> Option<Path>, paths: seq<Path>, counter: nat, k: nat, x: nat)
    requires !Ends(step, paths, 0)
    requires var next := Successors(step, paths, |paths|);
             Ongoing(step, next, k) && Walkers(step, next, k) != [] && LastMeeting(step, Walkers(step, next, k), counter + 1 + k + 1, x)
    ensures Ongoing(step, paths, k + 1) && Walkers(step, paths, k + 1) != [] &&
            LastMeeting(step, Walkers(step, paths, k + 1), counter + (k + 1) + 1, x)
  {
    OngoingShift(step, paths, k);
    WalkersShift(step, paths, k + 1);
    assert counter + (k + 1) + 1 == counter + 1 + k + 1;
  }

  /** The four walkers leaving the start. */
  function StartPaths(s: Position): seq<Path> {
    [Path(s, North), Path(s, South), Path(s, East), Path(s, West)]
  }

  /** `find_farthest_point` with at most `fuel + 1` waves. */
  function FindFarthestPoint(input: string, fuel: nat): (r: Run<Option<nat>>)
    ensures r == Panic <==> ParseMap(input).None?
  {
    match ParseMap(input)
    case None => Panic
    case Some(m) => Waves(Walk(m), StartPaths(m.start), 0, fuel)
  }

  /** What `find_farthest_point` answers on a field: the waves leave the
      start in all four headings; the search finishes exactly when some
      allowed wave has no walker or a meeting; with no answer when the
      walkers all stop before any meets, and otherwise with the step count
      of the tile where the last walker to meet in the first meeting wave
      met another. */
  lemma FindFarthestPointSpec(input: string, fuel: nat, m: PipeMap)
    requires ParseMap(input) == Some(m)
    ensures FindFarthestPoint(input, fuel).Done? <==> exists k :: 0 <= k <= fuel && Ends(Walk(m), StartPaths(m.start), k)
    ensures FindFarthestPoint(input, fuel) == Done(None) ==>
              exists k :: 0 <= k <= fuel && Ongoing(Walk(m), StartPaths(m.start), k) && Walkers(Walk(m), StartPaths(m.start), k) == []
    ensures FindFarthestPoint(input, fuel).Done? && FindFarthestPoint(input, fuel).result.Some? ==>
              exists k :: 0 <= k <= fuel && Ongoing(Walk(m), StartPaths(m.start), k) &&
                Walkers(Walk(m), StartPaths(m.start), k) != [] &&
                LastMeeting(Walk(m), Walkers(Walk(m), StartPaths(m.start), k), k + 1, FindFarthestPoint(input, fuel).result.value)
  {
    var paths := StartPaths(m.start);
    WavesDone(Walk(m), paths, 0, fuel);
    if FindFarthestPoint(input, fuel) == Done(None) {
      WavesNone(Walk(m), paths, 0, fuel);
    }
    if FindFarthestPoint(input, fuel).Done? && FindFarthestPoint(input, fuel).result.Some? {
      WavesSome(Walk(m), paths, 0, fuel);
    }
  }

}
