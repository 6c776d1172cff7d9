/** Day 16: a contraption of mirrors and splitters, and how many tiles a
    beam of light energises as it bounces around. */
module Day16 {
  import opened Common
  import opened Text
  import opened Grids
  import opened SortedMaps

  datatype Direction = Up | Down | Left | Right

  // ---------------------------------------------------------------------
  // The contraption

  /** For every row the tiles a horizontal beam reacts to, and for every
      column those a vertical beam reacts to, each by index in a
      `BTreeMap`. */
  datatype Contraption = Contraption(rows: seq<seq<Entry<char>>>, cols: seq<seq<Entry<char>>>)

  ghost predicate WellFormed(ct: Contraption) {
    (forall r :: 0 <= r < |ct.rows| ==> Sorted(ct.rows[r])) &&
    (forall c :: 0 <= c < |ct.cols| ==> Sorted(ct.cols[c]))
  }

  /** The row map of one line from column `c` on: every tile but the
      empty '.' and the '-' a horizontal beam passes straight through. */
  function RowEntries(line: string, c: nat): (r: seq<Entry<char>>)
    ensures Sorted(r) && forall i :: 0 <= i < |r| ==> r[i].key >= c
    decreases |line| - c
  {
    if c >= |line| then []
    else (if line[c] in ".-" then [] else [Entry(c, line[c])]) + RowEntries(line, c + 1)
  }

  /** The column map of column `col` from row `r` on: every tile but '.'
      and the '|' a vertical beam passes straight through. */
  function ColumnEntries(ls: seq<string>, col: nat, r: nat): (e: seq<Entry<char>>)
    ensures Sorted(e) && forall i :: 0 <= i < |e| ==> e[i].key >= r
    decreases |ls| - r
  {
    if r >= |ls| then []
    else (if col < |ls[r]| && ls[r][col] !in ".|" then [Entry(r, ls[r][col])] else []) + ColumnEntries(ls, col, r + 1)
  }

  /** A tile past the first line's width that `from_str` would put in a
      column map: the column index is out of range and the program
      panics. */
  predicate Overhangs(ls: seq<string>, width: nat) {
    exists r, c :: 0 <= r < |ls| && width <= c < |ls[r]| && ls[r][c] !in ".|"
  }

  /** `Contraption::from_str`: as many row maps as lines and as many column
      maps as characters before the first newline (none is an error);
      every tile is inserted under its own index, so the maps hold the
      tiles in index order. */
  function Parse(s: string): (r: Option<Contraption>)
    ensures r.Some? ==> WellFormed(r.value)
    ensures r.Some? <==> '\n' in s && !Overhangs(Lines(s), FirstIndex(s, '\n'))
    ensures r.Some? ==> |r.value.rows| == |Lines(s)| && |r.value.cols| == FirstIndex(s, '\n')
  {
    match IndexOf(s, "\n")
    case None =>
      assert '\n' in s ==> OccursAt(s, "\n", FirstIndex(s, '\n'));
      None
    case Some(width) =>
      FirstNewline(s, width);
      var ls := Lines(s);
      if Overhangs(ls, width) then None
      else Some(Contraption(seq(|ls|, r requires 0 <= r < |ls| => RowEntries(ls[r], 0)),
                            seq(width, c requires 0 <= c < width => ColumnEntries(ls, c, 0))))
  }

  /** The first occurrence of "\n" is the first newline character. */
  lemma FirstNewline(s: string, width: nat)
    requires IndexOf(s, "\n") == Some(width)
    ensures '\n' in s && width == FirstIndex(s, '\n')
  {
    assert s[width] == '\n';
    var f := FirstIndex(s, '\n');
    if f < width {
      assert OccursAt(s, "\n", f);
    }
  }

  lemma {:induction false} RowEntriesSpec(line: string, c: nat)
    ensures forall e :: e in RowEntries(line, c) <==>
              c <= e.key < |line| && line[e.key] !in ".-" && e.value == line[e.key]
    decreases |line| - c
  {
    if c < |line| {
      RowEntriesSpec(line, c + 1);
    }
  }

  lemma {:induction false} ColumnEntriesSpec(ls: seq<string>, col: nat, r: nat)
    ensures forall e :: e in ColumnEntries(ls, col, r) <==>
              r <= e.key < |ls| && col < |ls[e.key]| && ls[e.key][col] !in ".|" && e.value == ls[e.key][col]
    decreases |ls| - r
  {
    if r < |ls| {
      ColumnEntriesSpec(ls, col, r + 1);
    }
  }

  /** The parsed maps drop the empty tiles, keep '-' only for vertical
      beams and '|' only for horizontal ones, and keep the mirrors for
      both. */
  lemma ParseTiles(s: string, r: nat, c: nat)
    requires Parse(s).Some?
    requires r < |Lines(s)| && c < |Lines(s)[r]|
    ensures var ct, ch := Parse(s).value, Lines(s)[r][c];
            r < |ct.rows| &&
            (Entry(c, ch) in ct.rows[r] <==> ch !in ".-") &&
            (c < |ct.cols| ==> (Entry(r, ch) in ct.cols[c] <==> ch !in ".|")) &&
            (c >= |ct.cols| ==> ch in ".|")
  {
    var ls := Lines(s);
    RowEntriesSpec(ls[r], 0);
    var ct := Parse(s).value;
    if c < |ct.cols| {
      ColumnEntriesSpec(ls, c, 0);
    } else {
      assert !Overhangs(ls, |ct.cols|);
    }
  }

  // ---------------------------------------------------------------------
  // Tiles

  /** A beam travelling `dir` at `position`. */
  datatype Photon = Photon(position: Position, dir: Direction)

  /** The turn a mirror gives: '/' swaps up with right and down with left,
      '\' swaps up with left and down with right. */
  function MirrorTurn(mirror: char, d: Direction): Direction
    requires mirror == '/' || mirror == '\\'
  {
    match (mirror == '/', d)
    case (true, Up) => Right
    case (true, Down) => Left
    case (true, Right) => Up
    case (true, Left) => Down
    case (false, Up) => Left
    case (false, Down) => Right
    case (false, Right) => Down
    case (false, Left) => Up
  }

  function Opposite(d: Direction): Direction {
    match d
    case Up => Down
    case Down => Up
    case Left => Right
    case Right => Left
  }

  /** A mirror is an involution, and light runs through it both ways: the
      reverse of the outgoing beam leaves as the reverse of the incoming
      one. */
  lemma MirrorLaws(mirror: char, d: Direction)
    requires mirror == '/' || mirror == '\\'
    ensures MirrorTurn(mirror, MirrorTurn(mirror, d)) == d
    ensures MirrorTurn(mirror, Opposite(MirrorTurn(mirror, d))) == Opposite(d)
    ensures MirrorTurn(mirror, d) != d && MirrorTurn(mirror, d) != Opposite(d)
  {
  }

  /** `tile_beam_result`: the beams leaving a tile. */
  function TileBeamResult(tile: char, position: Position, d: Direction): (r: seq<Photon>)
    ensures |r| <= 2 && forall i :: 0 <= i < |r| ==> r[i].position == position
  {
    if tile == '/' || tile == '\\' then [Photon(position, MirrorTurn(tile, d))]
    else if tile == '|' then [Photon(position, Up), Photon(position, Down)]
    else if tile == '-' then [Photon(position, Left), Photon(position, Right)]
    else []
  }

  /** A splitter sends beams both ways across it, whatever the beam that
      hit it; the edge marker '?' and any other tile end the beam. */
  lemma TileBeamResultKinds(tile: char, position: Position, d: Direction)
    ensures tile == '|' ==> (set p | p in TileBeamResult(tile, position, d) :: p.dir) == {Up, Down}
    ensures tile == '-' ==> (set p | p in TileBeamResult(tile, position, d) :: p.dir) == {Left, Right}
    ensures tile !in "/\\|-" <==> TileBeamResult(tile, position, d) == []
  {
    var r := TileBeamResult(tile, position, d);
    if tile == '|' {
      assert r[0] in r && r[1] in r;
    } else if tile == '-' {
      assert r[0] in r && r[1] in r;
    }
  }

  // ---------------------------------------------------------------------
  // Beams

  /** Where a beam stops and the tile it stops at. */
  datatype Stop = Stop(at: Position, tile: char)

  /** The jump in the `match photon.direction` of
      `count_activated_tiles`: the nearest tile in the beam's way, or the
      edge of the contraption with the marker '?'. The row or column map
      is unwrapped, and the far edges subtract one from a length, so a
      position outside the maps or an empty contraption panics. */
  function NextStop(ct: Contraption, ph: Photon): (r: Option<Stop>)
    requires WellFormed(ct)
    ensures r.Some? && ph.dir in {Left, Right} ==> r.value.at.row == ph.position.row
    ensures r.Some? && ph.dir in {Up, Down} ==> r.value.at.col == ph.position.col
  {
    var row, col := ph.position.row, ph.position.col;
    match ph.dir
    case Right =>
      if row >= |ct.rows| then None
      else (match FirstAbove(ct.rows[row], col)
        case Some(e) => Some(Stop(Position(row, e.key), e.value))
        case None => if |ct.cols| == 0 then None else Some(Stop(Position(row, |ct.cols| - 1), '?')))
    case Left =>
      if row >= |ct.rows| then None
      else (match LastBelow(ct.rows[row], col)
        case Some(e) => Some(Stop(Position(row, e.key), e.value))
        case None => Some(Stop(Position(row, 0), '?')))
    case Up =>
      if col >= |ct.cols| then None
      else (match LastBelow(ct.cols[col], row)
        case Some(e) => Some(Stop(Position(e.key, col), e.value))
        case None => Some(Stop(Position(0, col), '?')))
    case Down =>
      if col >= |ct.cols| then None
      else (match FirstAbove(ct.cols[col], row)
        case Some(e) => Some(Stop(Position(e.key, col), e.value))
        case None => if |ct.rows| == 0 then None else Some(Stop(Position(|ct.rows| - 1, col), '?')))
  }

  /** The nearest entry of a row map above column `c` is the nearest tile
      of the line to the right of `c` that is neither '.' nor '-'. */
  lemma FirstAboveRow(line: string, c: nat)
    ensures var f := FirstAbove(RowEntries(line, 0), c);
            (f.Some? ==> c < f.value.key < |line| && f.value.value == line[f.value.key] && line[f.value.key] !in ".-") &&
            (f.Some? ==> forall k :: c < k < f.value.key ==> line[k] in ".-") &&
            (f.None? ==> forall k :: c < k < |line| ==> line[k] in ".-")
  {
    var m := RowEntries(line, 0);
    RowEntriesSpec(line, 0);
    forall k | c < k < |line| && line[k] !in ".-"
      ensures Entry(k, line[k]) in m
    {
    }
  }

  /** The row maps of a parsed contraption are those of its lines. */
  lemma ParsedRow(s: string, r: nat)
    requires Parse(s).Some? && r < |Lines(s)|
    ensures r < |Parse(s).value.rows| && Parse(s).value.rows[r] == RowEntries(Lines(s)[r], 0)
  {
  }

  /** A beam going right along a row map built from `line` (as
      `ParsedRow` shows every parsed row is) jumps to the nearest tile to
      its right that a horizontal beam reacts to, skipping every tile in
      between, or to the last column if there is none. */
  lemma NextStopRight(ct: Contraption, line: string, ph: Photon)
    requires WellFormed(ct) && ph.dir == Right && ph.position.row < |ct.rows|
    requires ct.rows[ph.position.row] == RowEntries(line, 0)
    requires NextStop(ct, ph).Some?
    ensures var st, c := NextStop(ct, ph).value, ph.position.col;
            var hit := exists k :: c < k < |line| && line[k] !in ".-";
            (forall k :: c < k < st.at.col && k < |line| ==> line[k] in ".-") &&
            (hit ==> c < st.at.col < |line| && st.tile == line[st.at.col] && st.tile !in ".-") &&
            (!hit ==> |ct.cols| > 0 && st == Stop(Position(ph.position.row, |ct.cols| - 1), '?'))
  {
    var c := ph.position.col;
    var f := FirstAbove(ct.rows[ph.position.row], c);
    FirstAboveRow(line, c);
    var st := NextStop(ct, ph).value;
    if f.Some? {
      assert st == Stop(Position(ph.position.row, f.value.key), f.value.value);
    } else {
      assert st == Stop(Position(ph.position.row, |ct.cols| - 1), '?');
    }
  }

  /** The tiles a beam crosses between its start and its stop, both
      included. */
  function Segment(ph: Photon, st: Stop): (seg: set<Position>)
    ensures ph.dir in {Up, Down} && st.at.col == ph.position.col ==> ph.position in seg && st.at in seg
    ensures ph.dir in {Left, Right} && st.at.row == ph.position.row ==> ph.position in seg && st.at in seg
    ensures ph.dir in {Up, Down} ==>
              forall q :: q in seg <==>
                q.col == ph.position.col && Min(ph.position.row, st.at.row) <= q.row <= Max(ph.position.row, st.at.row)
    ensures ph.dir in {Left, Right} ==>
              forall q :: q in seg <==>
                q.row == ph.position.row && Min(ph.position.col, st.at.col) <= q.col <= Max(ph.position.col, st.at.col)
  {
    var p := ph.position;
    if ph.dir in {Up, Down} then
      set i: nat | Min(p.row, st.at.row) <= i <= Max(p.row, st.at.row) :: Position(i, p.col)
    else
      set i: nat | Min(p.col, st.at.col) <= i <= Max(p.col, st.at.col) :: Position(p.row, i)
  }

  /** What one round of the `while` loop has gathered: the energised
      tiles, the photons already followed, and the photons of the next
      round. */
  datatype Beams = Beams(visited: set<Position>, history: set<Photon>, out: seq<Photon>)

  /** The `flat_map` closure for one photon: a photon followed before
      yields nothing; otherwise its path is energised, it is remembered,
      and the tile it stops at sends out the next photons. */
  function Follow(ct: Contraption, st: Beams, ph: Photon): Option<Beams>
    requires WellFormed(ct)
  {
    if ph in st.history then Some(st)
    else
      match NextStop(ct, ph)
      case None => None
      case Some(s) =>
        Some(Beams(st.visited + Segment(ph, s), st.history + {ph},
                   st.out + TileBeamResult(s.tile, s.at, ph.dir)))
  }

  /** The first `n` photons of a round, in order. */
  function RoundUpTo(ct: Contraption, photons: seq<Photon>, st: Beams, n: nat): Option<Beams>
    requires WellFormed(ct) && n <= |photons|
  {
    if n == 0 then Some(st)
    else
      match RoundUpTo(ct, photons, st, n - 1)
      case None => None
      case Some(b) => Follow(ct, b, photons[n - 1])
  }

  /** One more photon of a round, not followed before: it has a stop, its
      path is energised, it is remembered and its outputs are queued. */
  lemma RoundNext(ct: Contraption, photons: seq<Photon>, st: Beams, n: nat)
    requires WellFormed(ct) && 0 < n <= |photons| && RoundUpTo(ct, photons, st, n).Some?
    requires photons[n - 1] !in RoundUpTo(ct, photons, st, n - 1).value.history
    ensures var b, ph := RoundUpTo(ct, photons, st, n - 1).value, photons[n - 1];
            NextStop(ct, ph).Some? &&
            RoundUpTo(ct, photons, st, n).value ==
              Beams(b.visited + Energises(ct, ph), b.history + {ph}, b.out + Outputs(ct, ph))
  {
  }

  /** After a round every photon of the round is remembered, and no
      other new one. */
  lemma {:induction false} RoundHistory(ct: Contraption, photons: seq<Photon>, st: Beams, n: nat)
    requires WellFormed(ct) && n <= |photons|
    requires RoundUpTo(ct, photons, st, n).Some?
    ensures RoundUpTo(ct, photons, st, n).value.history == st.history + set i | 0 <= i < n :: photons[i]
  {
    if n > 0 {
      RoundHistory(ct, photons, st, n - 1);
      PhotonsUpTo(photons, n);
    }
  }

  /** The photons of a prefix, one more at a time. */
  lemma PhotonsUpTo(photons: seq<Photon>, n: nat)
    requires 0 < n <= |photons|
    ensures (set i | 0 <= i < n :: photons[i]) == (set i | 0 <= i < n - 1 :: photons[i]) + {photons[n - 1]}
  {
  }

  /** A round loses no energised tile, and only photons not followed
      before send out new ones, at most two each. */
  lemma {:induction false} RoundGrows(ct: Contraption, photons: seq<Photon>, st: Beams, n: nat)
    requires WellFormed(ct) && n <= |photons|
    requires RoundUpTo(ct, photons, st, n).Some?
    ensures var b := RoundUpTo(ct, photons, st, n).value;
            st.history <= b.history && st.visited <= b.visited &&
            |b.out| <= |st.out| + 2 * |b.history - st.history|
  {
    if n > 0 {
      RoundGrows(ct, photons, st, n - 1);
      var b := RoundUpTo(ct, photons, st, n - 1).value;
      var ph := photons[n - 1];
      if ph !in b.history {
        var b2 := RoundUpTo(ct, photons, st, n).value;
        assert b2.history - st.history == (b.history - st.history) + {ph};
        assert ph !in b.history - st.history;
      }
    }
  }

  /** The `while` loop of `count_activated_tiles`, allowed `fuel` more
      rounds: round by round until no photon is left, giving the
      energised tiles and the photons followed. */
  function Flood(ct: Contraption, photons: seq<Photon>, visited: set<Position>, history: set<Photon>, fuel: nat): (r: Run<Beams>)
    requires WellFormed(ct)
    ensures r.Done? ==> visited <= r.result.visited && history <= r.result.history
    decreases fuel
  {
    if photons == [] then Done(Beams(visited, history, []))
    else if fuel == 0 then OutOfFuel
    else
      match RoundUpTo(ct, photons, Beams(visited, history, []), |photons|)
      case None => Panic
      case Some(b) =>
        RoundGrows(ct, photons, Beams(visited, history, []), |photons|);
        Flood(ct, b.out, b.visited, b.history, fuel - 1)
  }

  /** The loop's result: once no photon is left, the energised tiles are
      counted. */
  function Rounds(ct: Contraption, photons: seq<Photon>, visited: set<Position>, history: set<Photon>, fuel: nat): (r: Run<nat>)
    requires WellFormed(ct)
    ensures r.Done? ==> r.result >= |visited|
  {
    match Flood(ct, photons, visited, history, fuel)
    case OutOfFuel => OutOfFuel
    case Panic => Panic
    case Done(b) =>
      SubsetCardinality(visited, b.visited);
      Done(|b.visited|)
  }

  lemma SubsetCardinality<T>(a: set<T>, b: set<T>)
    requires a <= b
    ensures |a| <= |b|
  {
    assert b == a + (b - a);
  }

  /** More fuel changes no count already reached. */
  lemma {:induction false} RoundsFuel(ct: Contraption, photons: seq<Photon>, visited: set<Position>, history: set<Photon>, fuel: nat, more: nat)
    requires WellFormed(ct) && fuel <= more
    requires Rounds(ct, photons, visited, history, fuel).Done?
    ensures Rounds(ct, photons, visited, history, more) == Rounds(ct, photons, visited, history, fuel)
  {
    FloodFuel(ct, photons, visited, history, fuel, more);
  }

  lemma {:induction false} FloodFuel(ct: Contraption, photons: seq<Photon>, visited: set<Position>, history: set<Photon>, fuel: nat, more: nat)
    requires WellFormed(ct) && fuel <= more
    requires Flood(ct, photons, visited, history, fuel).Done?
    ensures Flood(ct, photons, visited, history, more) == Flood(ct, photons, visited, history, fuel)
    decreases fuel
  {
    if photons != [] {
      var b := RoundUpTo(ct, photons, Beams(visited, history, []), |photons|).value;
      FloodFuel(ct, b.out, b.visited, b.history, fuel - 1, more - 1);
    }
  }

  /** The tiles a photon energises: its path to where it stops, or none
      when it has no stop (the `unwrap` panics). */
  function Energises(ct: Contraption, ph: Photon): set<Position>
    requires WellFormed(ct)
  {
    match NextStop(ct, ph)
    case None => {}
    case Some(st) => Segment(ph, st)
  }

  /** The photons a photon sends on from where it stops. */
  function Outputs(ct: Contraption, ph: Photon): seq<Photon>
    requires WellFormed(ct)
  {
    match NextStop(ct, ph)
    case None => []
    case Some(st) => TileBeamResult(st.tile, st.at, ph.dir)
  }

  /** The tiles energised by a set of photons. */
  function Lit(ct: Contraption, hs: set<Photon>): set<Position>
    requires WellFormed(ct)
  {
    set ph, q | ph in hs && q in Energises(ct, ph) :: q
  }

  /** Every photon sent on by a photon of `hs` is in `hs`. */
  ghost predicate Closed(ct: Contraption, hs: set<Photon>)
    requires WellFormed(ct)
  {
    forall ph, k :: ph in hs && 0 <= k < |Outputs(ct, ph)| ==> Outputs(ct, ph)[k] in hs
  }

  /** The tiles of a union are those of its parts. */
  lemma LitUnion(ct: Contraption, a: set<Photon>, b: set<Photon>)
    requires WellFormed(ct)
    ensures Lit(ct, a + b) == Lit(ct, a) + Lit(ct, b)
  {
    forall q | q in Lit(ct, a + b)
      ensures q in Lit(ct, a) + Lit(ct, b)
    {
      var ph :| ph in a + b && q in Energises(ct, ph);
      if ph in a {
        assert q in Lit(ct, a);
      } else {
        assert q in Lit(ct, b);
      }
    }
  }

  /** The tiles of one more photon. */
  lemma LitAdd(ct: Contraption, a: set<Photon>, ph: Photon)
    requires WellFormed(ct)
    ensures Lit(ct, a + {ph}) == Lit(ct, a) + Energises(ct, ph)
  {
    LitUnion(ct, a, {ph});
    forall q | q in Energises(ct, ph)
      ensures q in Lit(ct, {ph})
    {
    }
  }

  /** One round, photon by photon: the photons not followed before are
      remembered, each has a stop, its path is energised and what it sends
      on is queued after what was queued already. */
  lemma RoundSpec(ct: Contraption, photons: seq<Photon>, st: Beams, n: nat)
    requires WellFormed(ct) && n <= |photons|
    requires RoundUpTo(ct, photons, st, n).Some?
    ensures var b := RoundUpTo(ct, photons, st, n).value;
            b.visited == st.visited + Lit(ct, b.history - st.history) &&
            (forall ph :: ph in b.history - st.history ==> NextStop(ct, ph).Some?) &&
            (forall ph, k :: ph in b.history - st.history && 0 <= k < |Outputs(ct, ph)| ==> Outputs(ct, ph)[k] in b.out) &&
            (forall k :: 0 <= k < |st.out| ==> st.out[k] in b.out) &&
            (forall k :: 0 <= k < |b.out| ==> b.out[k] in st.out || exists ph :: ph in b.history - st.history && b.out[k] in Outputs(ct, ph))
  {
    RoundLit(ct, photons, st, n);
    RoundQueue(ct, photons, st, n);
    RoundSources(ct, photons, st, n);
  }

  /** The tiles a round energises are the paths of the photons it
      follows, each of which has a stop. */
  lemma {:induction false} RoundLit(ct: Contraption, photons: seq<Photon>, st: Beams, n: nat)
    requires WellFormed(ct) && n <= |photons|
    requires RoundUpTo(ct, photons, st, n).Some?
    ensures var b := RoundUpTo(ct, photons, st, n).value;
            b.visited == st.visited + Lit(ct, b.history - st.history) &&
            (forall ph :: ph in b.history - st.history ==> NextStop(ct, ph).Some?)
  {
    if n > 0 {
      RoundLit(ct, photons, st, n - 1);
      RoundGrows(ct, photons, st, n - 1);
      var b := RoundUpTo(ct, photons, st, n - 1).value;
      var ph := photons[n - 1];
      if ph !in b.history {
        RoundNext(ct, photons, st, n);
        var b2 := RoundUpTo(ct, photons, st, n).value;
        assert b2.history - st.history == (b.history - st.history) + {ph};
        LitAdd(ct, b.history - st.history, ph);
      }
    }
  }

  /** What a round queues: the outputs of the photons it follows, after
      what was queued already, and nothing else. */
  lemma {:induction false} RoundQueue(ct: Contraption, photons: seq<Photon>, st: Beams, n: nat)
    requires WellFormed(ct) && n <= |photons|
    requires RoundUpTo(ct, photons, st, n).Some?
    ensures var b := RoundUpTo(ct, photons, st, n).value;
            (forall ph, k :: ph in b.history - st.history && 0 <= k < |Outputs(ct, ph)| ==> Outputs(ct, ph)[k] in b.out) &&
            (forall k :: 0 <= k < |st.out| ==> st.out[k] in b.out)
  {
    if n > 0 {
      RoundQueue(ct, photons, st, n - 1);
      RoundGrows(ct, photons, st, n - 1);
      var b := RoundUpTo(ct, photons, st, n - 1).value;
      var ph := photons[n - 1];
      if ph !in b.history {
        RoundNext(ct, photons, st, n);
        var b2 := RoundUpTo(ct, photons, st, n).value;
        assert b2.history - st.history == (b.history - st.history) + {ph};
      }
    }
  }

  /** `q` is an output of some photon of `hs`. */
  ghost predicate SentBy(ct: Contraption, hs: set<Photon>, q: Photon)
    requires WellFormed(ct)
  {
    exists ph :: ph in hs && q in Outputs(ct, ph)
  }

  /** A round queues nothing but what was queued already and the outputs
      of the photons it follows. */
  lemma {:induction false} RoundSources(ct: Contraption, photons: seq<Photon>, st: Beams, n: nat)
    requires WellFormed(ct) && n <= |photons|
    requires RoundUpTo(ct, photons, st, n).Some?
    ensures var b := RoundUpTo(ct, photons, st, n).value;
            forall k :: 0 <= k < |b.out| ==> b.out[k] in st.out || SentBy(ct, b.history - st.history, b.out[k])
  {
    if n > 0 {
      RoundSources(ct, photons, st, n - 1);
      RoundGrows(ct, photons, st, n - 1);
      var b := RoundUpTo(ct, photons, st, n - 1).value;
      var ph := photons[n - 1];
      if ph !in b.history {
        RoundNext(ct, photons, st, n);
        var b2 := RoundUpTo(ct, photons, st, n).value;
        SourcesStep(ct, st, b, ph, b2);
      }
    }
  }

  /** The step of `RoundSources`: following one more new photon queues
      its outputs after what was queued. */
  lemma SourcesStep(ct: Contraption, st: Beams, b: Beams, ph: Photon, b2: Beams)
    requires WellFormed(ct) && st.history <= b.history && ph !in b.history
    requires b2.history == b.history + {ph} && b2.out == b.out + Outputs(ct, ph)
    requires forall k :: 0 <= k < |b.out| ==> b.out[k] in st.out || SentBy(ct, b.history - st.history, b.out[k])
    ensures forall k :: 0 <= k < |b2.out| ==> b2.out[k] in st.out || SentBy(ct, b2.history - st.history, b2.out[k])
  {
    var old_, new_ := b.history - st.history, b2.history - st.history;
    assert ph in new_;
    forall k | 0 <= k < |b2.out|
      ensures b2.out[k] in st.out || SentBy(ct, new_, b2.out[k])
    {
      if k >= |b.out| {
        assert b2.out[k] == Outputs(ct, ph)[k - |b.out|];
      } else {
        assert b2.out[k] == b.out[k];
        if SentBy(ct, old_, b.out[k]) {
          var ph' :| ph' in old_ && b.out[k] in Outputs(ct, ph');
          assert ph' in new_;
        }
      }
    }
  }

  /** A loop that finishes with photons left ran a round that did not
      panic, and then finished from that round's result. */
  lemma FloodStep(ct: Contraption, photons: seq<Photon>, visited: set<Position>, history: set<Photon>, fuel: nat)
    requires WellFormed(ct) && photons != [] && Flood(ct, photons, visited, history, fuel).Done?
    ensures fuel > 0 && RoundUpTo(ct, photons, Beams(visited, history, []), |photons|).Some?
    ensures var b := RoundUpTo(ct, photons, Beams(visited, history, []), |photons|).value;
            Flood(ct, photons, visited, history, fuel) == Flood(ct, b.out, b.visited, b.history, fuel - 1)
  {
  }

  /** A round whose photons lie in a closed set queues only photons of
      that set. */
  lemma RoundStaysIn(ct: Contraption, photons: seq<Photon>, st: Beams, hs: set<Photon>)
    requires WellFormed(ct) && st.out == [] && RoundUpTo(ct, photons, st, |photons|).Some?
    requires Closed(ct, hs) && forall i :: 0 <= i < |photons| ==> photons[i] in hs
    ensures var b := RoundUpTo(ct, photons, st, |photons|).value;
            (forall k :: 0 <= k < |b.out| ==> b.out[k] in hs) && b.history - st.history <= hs
  {
    var b := RoundUpTo(ct, photons, st, |photons|).value;
    RoundSpec(ct, photons, st, |photons|);
    RoundHistory(ct, photons, st, |photons|);
    forall k | 0 <= k < |b.out|
      ensures b.out[k] in hs
    {
      var ph :| ph in b.history - st.history && b.out[k] in Outputs(ct, ph);
      var j :| 0 <= j < |Outputs(ct, ph)| && Outputs(ct, ph)[j] == b.out[k];
    }
  }

  /** What the loop gathers: every photon it starts with is followed, the
      tiles energised are those it started with and the paths of the
      photons it followed, each of those has a stop and every photon it
      sends on is followed too. */
  lemma {:induction false} FloodSpec(ct: Contraption, photons: seq<Photon>, visited: set<Position>, history: set<Photon>, fuel: nat)
    requires WellFormed(ct) && Flood(ct, photons, visited, history, fuel).Done?
    ensures var b := Flood(ct, photons, visited, history, fuel).result;
            (forall i :: 0 <= i < |photons| ==> photons[i] in b.history) &&
            b.visited == visited + Lit(ct, b.history - history) &&
            (forall ph :: ph in b.history - history ==> NextStop(ct, ph).Some?) &&
            (forall ph, k :: ph in b.history - history && 0 <= k < |Outputs(ct, ph)| ==> Outputs(ct, ph)[k] in b.history)
    decreases fuel
  {
    if photons == [] {
      assert Lit(ct, {}) == {};
    } else {
      FloodStep(ct, photons, visited, history, fuel);
      var st := Beams(visited, history, []);
      var b := RoundUpTo(ct, photons, st, |photons|).value;
      FloodSpec(ct, b.out, b.visited, b.history, fuel - 1);
      FloodJoin(ct, photons, st, Flood(ct, b.out, b.visited, b.history, fuel - 1).result);
    }
  }

  /** A round followed by the rest of the loop: the facts of each part
      add up. */
  lemma FloodJoin(ct: Contraption, photons: seq<Photon>, st: Beams, f: Beams)
    requires WellFormed(ct) && st.out == [] && RoundUpTo(ct, photons, st, |photons|).Some?
    requires var b := RoundUpTo(ct, photons, st, |photons|).value;
             b.history <= f.history &&
             (forall i :: 0 <= i < |b.out| ==> b.out[i] in f.history) &&
             f.visited == b.visited + Lit(ct, f.history - b.history) &&
             (forall ph :: ph in f.history - b.history ==> NextStop(ct, ph).Some?) &&
             (forall ph, k :: ph in f.history - b.history && 0 <= k < |Outputs(ct, ph)| ==> Outputs(ct, ph)[k] in f.history)
    ensures (forall i :: 0 <= i < |photons| ==> photons[i] in f.history) &&
            f.visited == st.visited + Lit(ct, f.history - st.history) &&
            (forall ph :: ph in f.history - st.history ==> NextStop(ct, ph).Some?) &&
            (forall ph, k :: ph in f.history - st.history && 0 <= k < |Outputs(ct, ph)| ==> Outputs(ct, ph)[k] in f.history)
  {
    var b := RoundUpTo(ct, photons, st, |photons|).value;
    RoundSpec(ct, photons, st, |photons|);
    RoundHistory(ct, photons, st, |photons|);
    RoundGrows(ct, photons, st, |photons|);
    forall i | 0 <= i < |photons|
      ensures photons[i] in f.history
    {
      assert photons[i] in b.history;
    }
    assert f.history - st.history == (b.history - st.history) + (f.history - b.history);
    LitUnion(ct, b.history - st.history, f.history - b.history);
    forall ph, k | ph in f.history - st.history && 0 <= k < |Outputs(ct, ph)|
      ensures Outputs(ct, ph)[k] in f.history
    {
      if ph in b.history - st.history {
        assert Outputs(ct, ph)[k] in b.out;
        var j :| 0 <= j < |b.out| && b.out[j] == Outputs(ct, ph)[k];
      }
    }
  }

  /** The loop follows no photon it need not: any closed set holding the
      photons it starts with holds every photon it followed. */
  lemma {:induction false} FloodLeast(ct: Contraption, photons: seq<Photon>, visited: set<Position>, history: set<Photon>, fuel: nat, hs: set<Photon>)
    requires WellFormed(ct) && Flood(ct, photons, visited, history, fuel).Done?
    requires Closed(ct, hs) && forall i :: 0 <= i < |photons| ==> photons[i] in hs
    ensures Flood(ct, photons, visited, history, fuel).result.history - history <= hs
    decreases fuel
  {
    if photons != [] {
      FloodStep(ct, photons, visited, history, fuel);
      var st := Beams(visited, history, []);
      var b := RoundUpTo(ct, photons, st, |photons|).value;
      RoundStaysIn(ct, photons, st, hs);
      FloodLeast(ct, b.out, b.visited, b.history, fuel - 1, hs);
    }
  }

  /** The first photons: a beam entering on a tile its row (or column)
      map holds reacts to it at once; otherwise it starts as given. */
  function StartPhotons(ct: Contraption, init: Photon): seq<Photon> {
    var p := init.position;
    var found :=
      if init.dir in {Left, Right} then
        (if p.row < |ct.rows| then Get(ct.rows[p.row], p.col) else None)
      else
        (if p.col < |ct.cols| then Get(ct.cols[p.col], p.row) else None);
    match found
    case Some(tile) => TileBeamResult(tile, p, init.dir)
    case None => [init]
  }

  /** `count_activated_tiles` with at most `fuel` rounds. */
  function CountActivated(ct: Contraption, init: Photon, fuel: nat): (r: Run<nat>)
    requires WellFormed(ct)
    ensures r.Done? ==> r.result >= 1
  {
    Rounds(ct, StartPhotons(ct, init), {init.position}, {}, fuel)
  }

  /** What is counted: the entering tile and every tile on the path of a
      photon the loop followed; the first photons are followed, each
      followed photon has a stop, and every photon a followed one sends
      on is followed too. */
  lemma CountActivatedSpec(ct: Contraption, init: Photon, fuel: nat)
    requires WellFormed(ct) && CountActivated(ct, init, fuel).Done?
    ensures var starts := StartPhotons(ct, init);
            var hs := Flood(ct, starts, {init.position}, {}, fuel).result.history;
            CountActivated(ct, init, fuel).result == |{init.position} + Lit(ct, hs)| &&
            (forall i :: 0 <= i < |starts| ==> starts[i] in hs) &&
            (forall ph :: ph in hs ==> NextStop(ct, ph).Some?) &&
            Closed(ct, hs)
  {
    var starts := StartPhotons(ct, init);
    FloodSpec(ct, starts, {init.position}, {}, fuel);
    var hs := Flood(ct, starts, {init.position}, {}, fuel).result.history;
    assert hs - {} == hs;
  }

  /** The photons followed are the fewest that can be: any closed set
      holding the first photons holds them all. */
  lemma CountActivatedLeast(ct: Contraption, init: Photon, fuel: nat, hs: set<Photon>)
    requires WellFormed(ct) && CountActivated(ct, init, fuel).Done?
    requires Closed(ct, hs) && forall i :: 0 <= i < |StartPhotons(ct, init)| ==> StartPhotons(ct, init)[i] in hs
    ensures Flood(ct, StartPhotons(ct, init), {init.position}, {}, fuel).result.history <= hs
  {
    FloodLeast(ct, StartPhotons(ct, init), {init.position}, {}, fuel, hs);
  }

  /** The beams entering from every edge of a contraption with `rows`
      rows and `cols` columns: down from the top, up from the bottom,
      right from the left and left from the right. */
  function EdgePhotons(rows: nat, cols: nat): (r: seq<Photon>)
    requires rows > 0 && cols > 0
    ensures |r| == 2 * cols + 2 * rows
    ensures forall i :: 0 <= i < |r| ==>
              r[i].position.row < rows && r[i].position.col < cols &&
              (r[i].dir == Down ==> r[i].position.row == 0) &&
              (r[i].dir == Up ==> r[i].position.row == rows - 1) &&
              (r[i].dir == Right ==> r[i].position.col == 0) &&
              (r[i].dir == Left ==> r[i].position.col == cols - 1)
  {
    seq(cols, i requires 0 <= i < cols => Photon(Position(0, i), Down)) +
    seq(cols, i requires 0 <= i < cols => Photon(Position(rows - 1, i), Up)) +
    seq(rows, i requires 0 <= i < rows => Photon(Position(i, 0), Right)) +
    seq(rows, i requires 0 <= i < rows => Photon(Position(i, cols - 1), Left))
  }

  /** The counts of the entering beams, in order; the first that does
      not finish decides the outcome. */
  function Counts(ct: Contraption, photons: seq<Photon>, fuel: nat): (r: Run<seq<nat>>)
    requires WellFormed(ct)
    ensures r.Done? ==> |r.result| == |photons|
    ensures r.Done? ==> forall i :: 0 <= i < |photons| ==> CountActivated(ct, photons[i], fuel) == Done(r.result[i])
  {
    CollectRuns(seq(|photons|, i requires 0 <= i < |photons| => CountActivated(ct, photons[i], fuel)))
  }

  /** `find_max_configuration`: the best of all entering beams; `max` of
      nothing is unwrapped, and an empty contraption underflows at the
      far edges. */
  function FindMaxConfiguration(ct: Contraption, fuel: nat): Run<nat>
    requires WellFormed(ct)
  {
    if |ct.rows| == 0 || |ct.cols| == 0 then Panic
    else
      var photons := EdgePhotons(|ct.rows|, |ct.cols|);
      match Counts(ct, photons, fuel)
      case OutOfFuel => OutOfFuel
      case Panic => Panic
      case Done(counts) => Done(MaxOf(counts))
  }

  /** The best configuration energises as many tiles as some entering
      beam and at least as many as every one. */
  lemma FindMaxConfigurationSpec(ct: Contraption, fuel: nat)
    requires WellFormed(ct) && FindMaxConfiguration(ct, fuel).Done?
    ensures |ct.rows| > 0 && |ct.cols| > 0
    ensures var photons, best := EdgePhotons(|ct.rows|, |ct.cols|), FindMaxConfiguration(ct, fuel).result;
            (exists i :: 0 <= i < |photons| && CountActivated(ct, photons[i], fuel) == Done(best)) &&
            (forall i :: 0 <= i < |photons| ==> CountActivated(ct, photons[i], fuel).Done? &&
                                                 CountActivated(ct, photons[i], fuel).result <= best)
  {
    var photons := EdgePhotons(|ct.rows|, |ct.cols|);
    var counts := Counts(ct, photons, fuel).result;
    var i :| 0 <= i < |counts| && counts[i] == MaxOf(counts);
  }

  /** Part 1: the beam entering the top-left corner heading right. */
  function Part1(s: string, fuel: nat): Run<nat> {
    match Parse(s)
    case None => Panic
    case Some(ct) => CountActivated(ct, Photon(Position(0, 0), Right), fuel)
  }

  /** Part 2. */
  function Part2(s: string, fuel: nat): Run<nat> {
    match Parse(s)
    case None => Panic
    case Some(ct) => FindMaxConfiguration(ct, fuel)
  }
}
