/** Day 14: a dish of rounded rocks, cube-shaped rocks and empty space,
    tilted north so that every rounded rock rolls up its column, and the
    load the rounded rocks then put on the north beams. */
module Day14 {
  import opened Common
  import opened Text
  import opened Grids

  /** `Tile`. */
  datatype Tile = Rounded | Obstacle | Empty

  /** `Tile::from`: 'O', '#' and '.'; any other character panics. */
  function TileOf(c: char): (t: Option<Tile>)
    ensures t.Some? <==> c == 'O' || c == '#' || c == '.'
  {
    match c
    case 'O' => Some(Rounded)
    case '#' => Some(Obstacle)
    case '.' => Some(Empty)
    case _ => None
  }

  /** The character a tile is drawn with. */
  function TileChar(t: Tile): char {
    match t
    case Rounded => 'O'
    case Obstacle => '#'
    case Empty => '.'
  }

  /** Each tile is read back from its character, and each character that
      reads as a tile is that tile's. */
  lemma TileRoundTrip(t: Tile, c: char)
    ensures TileOf(TileChar(t)) == Some(t)
    ensures TileOf(c) == Some(t) ==> TileChar(t) == c
  {
  }

  type Dish = seq<seq<Tile>>

  /** The number of rounded rocks. */
  function CountRounded(s: seq<Tile>): (n: nat)
    ensures n <= |s|
  {
    if s == [] then 0 else CountRounded(s[..|s| - 1]) + (if s[|s| - 1] == Rounded then 1 else 0)
  }

  // ---------------------------------------------------------------------
  // Tilting one column

  /** The fold's state: the tiles placed so far and the first free row a
      rolling rock would stop in, if any. */
  datatype Fold = Fold(acc: seq<Tile>, free: Option<nat>)

  /** One step of the fold in `tilt`: the tile is pushed; an empty tile
      opens a free row if none is open, an obstacle closes it, and a
      rounded rock with a free row open moves there, leaving its own row
      empty, and the free row moves down one. */
  function Step(f: Fold, tile: Tile): (g: Fold)
    requires f.free.Some? ==> f.free.value < |f.acc|
    ensures |g.acc| == |f.acc| + 1
    ensures g.free.Some? ==> g.free.value < |g.acc|
  {
    var idx := |f.acc|;
    var acc := f.acc + [tile];
    match tile
    case Empty => if f.free.None? then Fold(acc, Some(idx)) else Fold(acc, f.free)
    case Obstacle => Fold(acc, None)
    case Rounded =>
      if f.free.Some? then Fold(acc[f.free.value := Rounded][idx := Empty], Some(f.free.value + 1))
      else Fold(acc, None)
  }

  /** The fold over the first `n` tiles of a column. */
  function FoldUpTo(col: seq<Tile>, n: nat): (f: Fold)
    requires n <= |col|
    ensures |f.acc| == n
    ensures f.free.Some? ==> f.free.value < n
  {
    if n == 0 then Fold([], None) else Step(FoldUpTo(col, n - 1), col[n - 1])
  }

  /** A column after tilting. */
  function TiltColumn(col: seq<Tile>): (r: seq<Tile>)
    ensures |r| == |col|
  {
    FoldUpTo(col, |col|).acc
  }

  /** No rounded rock has an empty tile directly north of it. */
  predicate Settled(s: seq<Tile>) {
    forall i :: 0 < i < |s| && s[i] == Rounded ==> s[i - 1] != Empty
  }

  /** `r` has obstacles exactly where `col` has them. */
  predicate SameObstacles(col: seq<Tile>, r: seq<Tile>)
    requires |r| <= |col|
  {
    forall i :: 0 <= i < |r| ==> (r[i] == Obstacle <==> col[i] == Obstacle)
  }

  /** North of every obstacle, `r` holds as many rounded rocks as `col`:
      rocks never cross an obstacle. */
  predicate SameAboveObstacles(col: seq<Tile>, r: seq<Tile>)
    requires |r| <= |col|
  {
    forall i :: 0 <= i < |r| && col[i] == Obstacle ==> CountRounded(r[..i]) == CountRounded(col[..i])
  }

  /** What the fold keeps true after `n` tiles. */
  ghost predicate FoldInv(col: seq<Tile>, n: nat, f: Fold)
    requires n <= |col|
  {
    && |f.acc| == n
    && SameObstacles(col, f.acc)
    && CountRounded(f.acc) == CountRounded(col[..n])
    && SameAboveObstacles(col, f.acc)
    && Settled(f.acc)
    && (f.free.None? ==> n == 0 || f.acc[n - 1] != Empty)
    && (f.free.Some? ==>
          f.free.value < n
          && (forall k :: f.free.value <= k < n ==> f.acc[k] == Empty)
          && (f.free.value == 0 || f.acc[f.free.value - 1] != Empty))
  }

  lemma CountRoundedAppend(s: seq<Tile>, t: Tile)
    ensures CountRounded(s + [t]) == CountRounded(s) + (if t == Rounded then 1 else 0)
  {
    assert (s + [t])[..|s|] == s;
  }

  lemma {:induction false} CountRoundedUpdate(s: seq<Tile>, i: nat, t: Tile)
    requires i < |s|
    ensures CountRounded(s[i := t]) + (if s[i] == Rounded then 1 else 0)
            == CountRounded(s) + (if t == Rounded then 1 else 0)
  {
    var last := |s| - 1;
    if i < last {
      assert s[i := t][..last] == s[..last][i := t];
      CountRoundedUpdate(s[..last], i, t);
    } else {
      assert s[i := t][..last] == s[..last];
    }
  }

  /** The tile pushed by a step that moves nothing. */
  lemma PlainShape(col: seq<Tile>, n: nat, f: Fold)
    requires n < |col| && FoldInv(col, n, f)
    requires !(col[n] == Rounded && f.free.Some?)
    ensures Step(f, col[n]).acc == f.acc + [col[n]]
    ensures SameObstacles(col, Step(f, col[n]).acc)
    ensures CountRounded(Step(f, col[n]).acc) == CountRounded(col[..n + 1])
  {
    assert col[..n + 1] == col[..n] + [col[n]];
    CountRoundedAppend(f.acc, col[n]);
    CountRoundedAppend(col[..n], col[n]);
  }

  lemma PlainAbove(col: seq<Tile>, n: nat, f: Fold)
    requires n < |col| && FoldInv(col, n, f)
    requires !(col[n] == Rounded && f.free.Some?)
    ensures SameAboveObstacles(col, Step(f, col[n]).acc)
  {
    PlainShape(col, n, f);
    var acc := Step(f, col[n]).acc;
    forall i | 0 <= i < n + 1 && col[i] == Obstacle
      ensures CountRounded(acc[..i]) == CountRounded(col[..i])
    {
      if i < n {
        assert acc[..i] == f.acc[..i];
      } else {
        assert acc[..i] == f.acc;
      }
    }
  }

  lemma PlainSettled(col: seq<Tile>, n: nat, f: Fold)
    requires n < |col| && FoldInv(col, n, f)
    requires !(col[n] == Rounded && f.free.Some?)
    ensures Settled(Step(f, col[n]).acc)
  {
    PlainShape(col, n, f);
    var acc := Step(f, col[n]).acc;
    forall i | 0 < i < n + 1 && acc[i] == Rounded
      ensures acc[i - 1] != Empty
    {
      assert acc[i - 1] == f.acc[i - 1];
    }
  }

  /** The free row after a step that moves nothing. */
  lemma PlainFree(col: seq<Tile>, n: nat, f: Fold)
    requires n < |col| && FoldInv(col, n, f)
    requires !(col[n] == Rounded && f.free.Some?)
    ensures var g := Step(f, col[n]);
            && (g.free.None? ==> g.acc[n] != Empty)
            && (g.free.Some? ==>
                  g.free.value < n + 1
                  && (forall k :: g.free.value <= k < n + 1 ==> g.acc[k] == Empty)
                  && (g.free.value == 0 || g.acc[g.free.value - 1] != Empty))
  {
    var g := Step(f, col[n]);
    assert g.acc == f.acc + [col[n]];
    if g.free.Some? && g.free.value < n {
      assert f.free == g.free;
    }
  }

  /** The steps that do not move a rock keep the invariant. */
  lemma StepPlain(col: seq<Tile>, n: nat, f: Fold)
    requires n < |col| && FoldInv(col, n, f)
    requires !(col[n] == Rounded && f.free.Some?)
    ensures FoldInv(col, n + 1, Step(f, col[n]))
  {
    PlainFree(col, n, f);
    PlainShape(col, n, f);
    PlainAbove(col, n, f);
    PlainSettled(col, n, f);
  }

  /** Where a rolling rock ends up: in the free row, its own row emptied,
      every other row as before. */
  lemma RollShape(col: seq<Tile>, n: nat, f: Fold)
    requires n < |col| && FoldInv(col, n, f)
    requires col[n] == Rounded && f.free.Some?
    ensures var acc := Step(f, col[n]).acc;
            |acc| == n + 1 && acc[f.free.value] == Rounded && acc[n] == Empty
            && forall i :: 0 <= i < n && i != f.free.value ==> acc[i] == f.acc[i]
  {
  }

  lemma RollCount(col: seq<Tile>, n: nat, f: Fold)
    requires n < |col| && FoldInv(col, n, f)
    requires col[n] == Rounded && f.free.Some?
    ensures CountRounded(Step(f, col[n]).acc) == CountRounded(col[..n + 1])
  {
    var fr := f.free.value;
    var acc1 := f.acc + [Rounded];
    var acc2 := acc1[fr := Rounded];
    assert Step(f, col[n]).acc == acc2[n := Empty];
    assert col[..n + 1] == col[..n] + [col[n]];
    CountRoundedAppend(f.acc, Rounded);
    CountRoundedAppend(col[..n], Rounded);
    assert acc1[fr] == Empty;
    CountRoundedUpdate(acc1, fr, Rounded);
    CountRoundedUpdate(acc2, n, Empty);
  }

  lemma RollAbove(col: seq<Tile>, n: nat, f: Fold)
    requires n < |col| && FoldInv(col, n, f)
    requires col[n] == Rounded && f.free.Some?
    ensures SameObstacles(col, Step(f, col[n]).acc)
    ensures SameAboveObstacles(col, Step(f, col[n]).acc)
  {
    RollShape(col, n, f);
    var fr := f.free.value;
    var acc := Step(f, col[n]).acc;
    forall i | 0 <= i < n + 1 && col[i] == Obstacle
      ensures CountRounded(acc[..i]) == CountRounded(col[..i])
    {
      assert i < fr;
      assert acc[..i] == f.acc[..i];
    }
  }

  lemma RollSettled(col: seq<Tile>, n: nat, f: Fold)
    requires n < |col| && FoldInv(col, n, f)
    requires col[n] == Rounded && f.free.Some?
    ensures Settled(Step(f, col[n]).acc)
  {
    RollShape(col, n, f);
    var fr := f.free.value;
    var acc := Step(f, col[n]).acc;
    forall i | 0 < i < n + 1 && acc[i] == Rounded
      ensures acc[i - 1] != Empty
    {
      if i != fr {
        assert i < fr;
      }
    }
  }

  /** The step that rolls a rock up to the free row keeps the invariant. */
  lemma StepRoll(col: seq<Tile>, n: nat, f: Fold)
    requires n < |col| && FoldInv(col, n, f)
    requires col[n] == Rounded && f.free.Some?
    ensures FoldInv(col, n + 1, Step(f, col[n]))
  {
    RollShape(col, n, f);
    RollCount(col, n, f);
    RollAbove(col, n, f);
    RollSettled(col, n, f);
  }

  /** Every step of the fold keeps the invariant. */
  lemma StepKeeps(col: seq<Tile>, n: nat, f: Fold)
    requires n < |col| && FoldInv(col, n, f)
    ensures FoldInv(col, n + 1, Step(f, col[n]))
  {
    if col[n] == Rounded && f.free.Some? {
      StepRoll(col, n, f);
    } else {
      StepPlain(col, n, f);
    }
  }

  lemma {:induction false} FoldUpToInv(col: seq<Tile>, n: nat)
    requires n <= |col|
    ensures FoldInv(col, n, FoldUpTo(col, n))
  {
    if n > 0 {
      FoldUpToInv(col, n - 1);
      var f := FoldUpTo(col, n - 1);
      assert FoldUpTo(col, n) == Step(f, col[n - 1]);
      StepKeeps(col, n - 1, f);
    }
  }

  /** Tilting keeps every obstacle where it is, keeps the number of rounded
      rocks north of every obstacle and in the whole column, and leaves no
      rounded rock below an empty tile. */
  lemma TiltColumnSpec(col: seq<Tile>)
    ensures SameObstacles(col, TiltColumn(col))
    ensures SameAboveObstacles(col, TiltColumn(col))
    ensures CountRounded(TiltColumn(col)) == CountRounded(col)
    ensures Settled(TiltColumn(col))
  {
    FoldUpToInv(col, |col|);
    assert col[..|col|] == col;
  }

  /** On a settled column the fold never moves a rock. */
  lemma {:induction false} FoldSettled(col: seq<Tile>, n: nat)
    requires n <= |col| && Settled(col)
    ensures FoldUpTo(col, n).acc == col[..n]
    ensures FoldUpTo(col, n).free.None? ==> n == 0 || col[n - 1] != Empty
    ensures FoldUpTo(col, n).free.Some? ==> forall k :: FoldUpTo(col, n).free.value <= k < n ==> col[k] == Empty
  {
    if n > 0 {
      FoldSettled(col, n - 1);
      assert col[..n] == col[..n - 1] + [col[n - 1]];
    }
  }

  /** Tilting a tilted column changes nothing. */
  lemma TiltColumnIdempotent(col: seq<Tile>)
    ensures TiltColumn(TiltColumn(col)) == TiltColumn(col)
  {
    TiltColumnSpec(col);
    var t := TiltColumn(col);
    FoldSettled(t, |t|);
    assert t[..|t|] == t;
  }

  // ---------------------------------------------------------------------
  // The dish

  /** `tilt`: every column tilted on its own, and the grid rebuilt from the
      columns (`from_columns`). A dish without columns comes back with no
      rows. */
  function Tilt(g: Dish): (r: Dish)
    requires Rectangular(g)
    ensures Rectangular(r)
    ensures Width(g) > 0 ==> |r| == |g| && Width(r) == Width(g)
    ensures Width(g) == 0 ==> r == []
  {
    var cols := Columns(g);
    Columns(seq(|cols|, c requires 0 <= c < |cols| => TiltColumn(cols[c])))
  }

  /** The columns of the tilted dish are the tilted columns. */
  lemma TiltByColumns(g: Dish)
    requires Rectangular(g) && Width(g) > 0
    ensures |Columns(Tilt(g))| == Width(g)
    ensures forall c :: 0 <= c < Width(g) ==> Columns(Tilt(g))[c] == TiltColumn(Columns(g)[c])
  {
    var cols := Columns(g);
    var tilted := seq(|cols|, c requires 0 <= c < |cols| => TiltColumn(cols[c]));
    ColumnsTwice(tilted);
  }

  /** Obstacles stay where they are. */
  lemma TiltKeepsObstacles(g: Dish, r: nat, c: nat)
    requires Rectangular(g) && r < |g| && c < Width(g)
    ensures Tilt(g)[r][c] == Obstacle <==> g[r][c] == Obstacle
  {
    var col := Columns(g)[c];
    TiltColumnSpec(col);
    TiltByColumns(g);
    assert Tilt(g)[r][c] == Columns(Tilt(g))[c][r];
  }

  /** Tilting twice is tilting once. */
  lemma TiltIdempotent(g: Dish)
    requires Rectangular(g)
    ensures Tilt(Tilt(g)) == Tilt(g)
  {
    if Width(g) > 0 {
      var cols := Columns(g);
      var tilted := seq(|cols|, c requires 0 <= c < |cols| => TiltColumn(cols[c]));
      ColumnsTwice(tilted);
      var again := seq(|tilted|, c requires 0 <= c < |tilted| => TiltColumn(tilted[c]));
      forall c | 0 <= c < |tilted|
        ensures again[c] == tilted[c]
      {
        TiltColumnIdempotent(cols[c]);
      }
      assert again == tilted;
    }
  }

  // ---------------------------------------------------------------------
  // Load

  /** `total_load`: the rows counted from the south, starting at 1, each
      weighing its number of rounded rocks times that count. */
  function TotalLoad(g: Dish): nat {
    if g == [] then 0 else CountRounded(g[0]) * |g| + TotalLoad(g[1..])
  }

  /** The load of one column of height `|col|`: each rounded rock weighs
      its distance from the south edge, counting the southmost row as 1. */
  function ColumnLoad(col: seq<Tile>): nat {
    if col == [] then 0 else (if col[0] == Rounded then |col| else 0) + ColumnLoad(col[1..])
  }

  function ColumnLoads(cols: seq<seq<Tile>>): nat {
    if cols == [] then 0 else ColumnLoad(cols[0]) + ColumnLoads(cols[1..])
  }

  /** A row's rounded rocks counted from the front. */
  lemma {:induction false} CountRoundedFront(s: seq<Tile>)
    requires s != []
    ensures CountRounded(s) == (if s[0] == Rounded then 1 else 0) + CountRounded(s[1..])
    decreases |s|
  {
    if |s| > 1 {
      var init := s[..|s| - 1];
      CountRoundedFront(init);
      assert init[1..] == s[1..][..|s[1..]| - 1];
    }
  }

  /** Every column without its first cell. */
  function DropFirst(cols: seq<seq<Tile>>): (r: seq<seq<Tile>>)
    requires forall c :: 0 <= c < |cols| ==> |cols[c]| > 0
    ensures |r| == |cols| && forall c :: 0 <= c < |cols| ==> r[c] == cols[c][1..]
  {
    if cols == [] then [] else [cols[0][1..]] + DropFirst(cols[1..])
  }

  /** A column's load is its first cell's weight plus the load of the
      rest. */
  lemma ColumnLoadFront(col: seq<Tile>, w: nat)
    requires |col| == w && w > 0
    ensures ColumnLoad(col) == (if col[0] == Rounded then 1 else 0) * w + ColumnLoad(col[1..])
  {
  }

  lemma MulAddRight(a: nat, b: nat, w: nat)
    ensures (a + b) * w == a * w + b * w
  {
  }

  /** Splitting off the first row of every column. */
  lemma {:induction false} ColumnLoadsSplit(w: nat, cols: seq<seq<Tile>>, row: seq<Tile>)
    requires w > 0 && |cols| == |row|
    requires forall c :: 0 <= c < |cols| ==> |cols[c]| == w && cols[c][0] == row[c]
    ensures ColumnLoads(cols) == CountRounded(row) * w + ColumnLoads(DropFirst(cols))
    decreases |cols|
  {
    if cols != [] {
      var tail, rtail := cols[1..], row[1..];
      forall c | 0 <= c < |tail|
        ensures |tail[c]| == w && tail[c][0] == rtail[c]
      {
        assert tail[c] == cols[c + 1] && rtail[c] == row[c + 1];
      }
      ColumnLoadsSplit(w, tail, rtail);
      CountRoundedFront(row);
      var b := if row[0] == Rounded then 1 else 0;
      var r := CountRounded(rtail);
      MulAddRight(b, r, w);
      ColumnLoadFront(cols[0], w);
      var d := DropFirst(cols);
      assert d[0] == cols[0][1..] && d[1..] == DropFirst(tail);
      assert ColumnLoads(d) == ColumnLoad(cols[0][1..]) + ColumnLoads(DropFirst(tail));
      assert ColumnLoads(cols) == ColumnLoad(cols[0]) + ColumnLoads(tail);
    }
  }

  /** The load summed row by row equals the load summed column by column. */
  lemma {:induction false} TotalLoadByColumns(g: Dish)
    requires Rectangular(g) && Width(g) > 0
    ensures TotalLoad(g) == ColumnLoads(Columns(g))
    decreases |g|
  {
    var cols := Columns(g);
    ColumnLoadsSplit(|g|, cols, g[0]);
    var rest := DropFirst(cols);
    if |g| == 1 {
      ColumnLoadsEmpty(rest);
    } else {
      var tail := g[1..];
      assert Rectangular(tail);
      TotalLoadByColumns(tail);
      var tcols := Columns(tail);
      forall c | 0 <= c < |rest|
        ensures rest[c] == tcols[c]
      {
        assert |rest[c]| == |tcols[c]|;
        forall r | 0 <= r < |tail|
          ensures rest[c][r] == tcols[c][r]
        {
          assert rest[c][r] == cols[c][r + 1] == g[r + 1][c];
        }
      }
      assert rest == tcols;
    }
  }

  lemma {:induction false} ColumnLoadsEmpty(cols: seq<seq<Tile>>)
    requires forall c :: 0 <= c < |cols| ==> cols[c] == []
    ensures ColumnLoads(cols) == 0
    decreases |cols|
  {
    if cols != [] {
      ColumnLoadsEmpty(cols[1..]);
    }
  }

  // ---------------------------------------------------------------------
  // The puzzle

  /** `Dish::from`: one row per line; an unknown character panics, and so
      does `from_rows` on rows of different lengths. */
  function ParseDish(input: string): (r: Option<Dish>)
    ensures r.Some? ==> Rectangular(r.value) && |r.value| == |Lines(input)|
    ensures r.Some? ==> forall i :: 0 <= i < |Lines(input)| ==> |r.value[i]| == |Lines(input)[i]|
    ensures r.Some? ==> forall i, j :: 0 <= i < |Lines(input)| && 0 <= j < |Lines(input)[i]| ==>
              TileOf(Lines(input)[i][j]) == Some(r.value[i][j])
    ensures r.None? <==>
              (!Rectangular(Lines(input)) ||
               exists i, j :: 0 <= i < |Lines(input)| && 0 <= j < |Lines(input)[i]| && TileOf(Lines(input)[i][j]).None?)
  {
    var lines := Lines(input);
    var rows := AllSome(seq(|lines|, i requires 0 <= i < |lines| => ParseRow(lines[i])));
    match rows
    case None => None
    case Some(g) =>
      assert forall i :: 0 <= i < |lines| ==> ParseRow(lines[i]) == Some(g[i]);
      if Rectangular(g) then Some(g) else None
  }

  /** One line of the dish, a tile per character. */
  function ParseRow(line: string): (r: Option<seq<Tile>>)
    ensures r.Some? ==> |r.value| == |line| && forall j :: 0 <= j < |line| ==> TileOf(line[j]) == Some(r.value[j])
    ensures r.None? <==> exists j :: 0 <= j < |line| && TileOf(line[j]).None?
  {
    AllSome(seq(|line|, j requires 0 <= j < |line| => TileOf(line[j])))
  }

  /** Part 1: the load on the north beams after tilting north. */
  function NorthLoad(input: string): Option<nat> {
    match ParseDish(input)
    case None => None
    case Some(g) => Some(TotalLoad(Tilt(g)))
  }

  /** Part 1 answers exactly when the dish parses; it is then the load of
      every column once its rounded rocks have rolled north, each rock
      weighing its distance from the south edge. */
  lemma NorthLoadSpec(input: string)
    ensures NorthLoad(input).None? <==> ParseDish(input).None?
    ensures NorthLoad(input).Some? ==>
              var g := ParseDish(input).value;
              NorthLoad(input).value
                == if Width(g) == 0 then 0
                   else ColumnLoads(seq(Width(g), c requires 0 <= c < Width(g) => TiltColumn(Columns(g)[c])))
  {
    if ParseDish(input).Some? {
      var g := ParseDish(input).value;
      if Width(g) > 0 {
        TiltedLoad(g);
      }
    }
  }

  /** The load after tilting, column by column. */
  lemma TiltedLoad(g: Dish)
    requires Rectangular(g) && Width(g) > 0
    ensures TotalLoad(Tilt(g))
            == ColumnLoads(seq(Width(g), c requires 0 <= c < Width(g) => TiltColumn(Columns(g)[c])))
  {
    var t := Tilt(g);
    TiltByColumns(g);
    TotalLoadByColumns(t);
    assert Columns(t) == seq(Width(g), c requires 0 <= c < Width(g) => TiltColumn(Columns(g)[c]));
  }
}
