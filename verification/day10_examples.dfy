/** The two test fields of day 10, wave by wave. */
module Day10Examples {
  import opened Common
  import opened Grids
  import opened Day10

  lemma SimpleWave1(m: PipeMap)
    requires m == PipeMap(["-L|F7", "7S-7|", "L|7||", "-L-J|", "L|-JF"], Position(1, 1))
    ensures Wave(Walk(m), [Path(Position(1, 1), North), Path(Position(1, 1), South), Path(Position(1, 1), East), Path(Position(1, 1), West)], 1).next == [Path(Position(2, 1), South), Path(Position(1, 2), East)]
    ensures Wave(Walk(m), [Path(Position(1, 1), North), Path(Position(1, 1), South), Path(Position(1, 1), East), Path(Position(1, 1), West)], 1).found == None
  {
    var p := [Path(Position(1, 1), North), Path(Position(1, 1), South), Path(Position(1, 1), East), Path(Position(1, 1), West)];
    SimpleWave1Front(m);
    assert NextTile(m, Position(1, 1), East) == Some(Path(Position(1, 2), East));
    assert WaveUpTo(Walk(m), p, 1, 3).next == [Path(Position(2, 1), South), Path(Position(1, 2), East)];
    assert WaveUpTo(Walk(m), p, 1, 3).found == None;
    assert NextTile(m, Position(1, 1), West) == None;
  }

  /** The first two start paths of the simple field. */
  lemma SimpleWave1Front(m: PipeMap)
    requires m == PipeMap(["-L|F7", "7S-7|", "L|7||", "-L-J|", "L|-JF"], Position(1, 1))
    ensures WaveUpTo(Walk(m), [Path(Position(1, 1), North), Path(Position(1, 1), South), Path(Position(1, 1), East), Path(Position(1, 1), West)], 1, 2)
            == WaveState(map[][Position(1, 1) := 0][Position(1, 1) := 0][Position(2, 1) := 1], [Path(Position(2, 1), South)], None)
  {
    var p := [Path(Position(1, 1), North), Path(Position(1, 1), South), Path(Position(1, 1), East), Path(Position(1, 1), West)];
    assert NextTile(m, Position(1, 1), North) == None;
    assert WaveUpTo(Walk(m), p, 1, 1) == WaveState(map[][Position(1, 1) := 0], [], None);
    assert NextTile(m, Position(1, 1), South) == Some(Path(Position(2, 1), South));
  }

  lemma SimpleWave2(m: PipeMap)
    requires m == PipeMap(["-L|F7", "7S-7|", "L|7||", "-L-J|", "L|-JF"], Position(1, 1))
    ensures Wave(Walk(m), [Path(Position(2, 1), South), Path(Position(1, 2), East)], 2).next == [Path(Position(3, 1), East), Path(Position(1, 3), South)]
    ensures Wave(Walk(m), [Path(Position(2, 1), South), Path(Position(1, 2), East)], 2).found == None
  {
    var p := [Path(Position(2, 1), South), Path(Position(1, 2), East)];
    assert NextTile(m, Position(2, 1), South) == Some(Path(Position(3, 1), East));
    assert WaveUpTo(Walk(m), p, 2, 1) == WaveState(map[][Position(2, 1) := 1][Position(3, 1) := 2], [Path(Position(3, 1), East)], None);
    assert NextTile(m, Position(1, 2), East) == Some(Path(Position(1, 3), South));
    assert WaveUpTo(Walk(m), p, 2, 2) == WaveState(map[][Position(2, 1) := 1][Position(3, 1) := 2][Position(1, 2) := 1][Position(1, 3) := 2], [Path(Position(3, 1), East), Path(Position(1, 3), South)], None);
  }

  lemma SimpleWave3(m: PipeMap)
    requires m == PipeMap(["-L|F7", "7S-7|", "L|7||", "-L-J|", "L|-JF"], Position(1, 1))
    ensures Wave(Walk(m), [Path(Position(3, 1), East), Path(Position(1, 3), South)], 3).next == [Path(Position(3, 2), East), Path(Position(2, 3), South)]
    ensures Wave(Walk(m), [Path(Position(3, 1), East), Path(Position(1, 3), South)], 3).found == None
  {
    var p := [Path(Position(3, 1), East), Path(Position(1, 3), South)];
    assert NextTile(m, Position(3, 1), East) == Some(Path(Position(3, 2), East));
    assert WaveUpTo(Walk(m), p, 3, 1) == WaveState(map[][Position(3, 1) := 2][Position(3, 2) := 3], [Path(Position(3, 2), East)], None);
    assert NextTile(m, Position(1, 3), South) == Some(Path(Position(2, 3), South));
    assert WaveUpTo(Walk(m), p, 3, 2) == WaveState(map[][Position(3, 1) := 2][Position(3, 2) := 3][Position(1, 3) := 2][Position(2, 3) := 3], [Path(Position(3, 2), East), Path(Position(2, 3), South)], None);
  }

  lemma SimpleWave4(m: PipeMap)
    requires m == PipeMap(["-L|F7", "7S-7|", "L|7||", "-L-J|", "L|-JF"], Position(1, 1))
    ensures Wave(Walk(m), [Path(Position(3, 2), East), Path(Position(2, 3), South)], 4).next == [Path(Position(3, 3), North)]
    ensures Wave(Walk(m), [Path(Position(3, 2), East), Path(Position(2, 3), South)], 4).found == Some(4)
  {
    var p := [Path(Position(3, 2), East), Path(Position(2, 3), South)];
    assert NextTile(m, Position(3, 2), East) == Some(Path(Position(3, 3), North));
    assert WaveUpTo(Walk(m), p, 4, 1) == WaveState(map[][Position(3, 2) := 3][Position(3, 3) := 4], [Path(Position(3, 3), North)], None);
    assert NextTile(m, Position(2, 3), South) == Some(Path(Position(3, 3), West));
    assert WaveUpTo(Walk(m), p, 4, 2) == WaveState(map[][Position(3, 2) := 3][Position(3, 3) := 4][Position(2, 3) := 3], [Path(Position(3, 3), North)], Some(4));
  }

  /** The walkers meet after 4 steps. */
  lemma SimpleFarthest(m: PipeMap)
    requires m == PipeMap(["-L|F7", "7S-7|", "L|7||", "-L-J|", "L|-JF"], Position(1, 1))
    ensures Waves(Walk(m), StartPaths(m.start), 0, 3) == Done(Some(4))
  {
    SimpleWave1(m);
    SimpleWave2(m);
    SimpleWave3(m);
    SimpleWave4(m);
    assert Waves(Walk(m), [Path(Position(3, 2), East), Path(Position(2, 3), South)], 3, 0) == Done(Some(4));
    assert Waves(Walk(m), [Path(Position(3, 1), East), Path(Position(1, 3), South)], 2, 1) == Done(Some(4));
    assert Waves(Walk(m), [Path(Position(2, 1), South), Path(Position(1, 2), East)], 1, 2) == Done(Some(4));
    assert Waves(Walk(m), [Path(Position(1, 1), North), Path(Position(1, 1), South), Path(Position(1, 1), East), Path(Position(1, 1), West)], 0, 3) == Done(Some(4));
  }

  lemma ComplexWave1(m: PipeMap)
    requires m == PipeMap(["..F7.", ".FJ|.", "SJ.L7", "|F--J", "LJ..."], Position(2, 0))
    ensures Wave(Walk(m), [Path(Position(2, 0), North), Path(Position(2, 0), South), Path(Position(2, 0), East), Path(Position(2, 0), West)], 1).next == [Path(Position(3, 0), South), Path(Position(2, 1), North)]
    ensures Wave(Walk(m), [Path(Position(2, 0), North), Path(Position(2, 0), South), Path(Position(2, 0), East), Path(Position(2, 0), West)], 1).found == None
  {
    var p := [Path(Position(2, 0), North), Path(Position(2, 0), South), Path(Position(2, 0), East), Path(Position(2, 0), West)];
    assert NextTile(m, Position(2, 0), North) == None;
    assert WaveUpTo(Walk(m), p, 1, 1) == WaveState(map[][Position(2, 0) := 0], [], None);
    assert NextTile(m, Position(2, 0), South) == Some(Path(Position(3, 0), South));
    assert WaveUpTo(Walk(m), p, 1, 2) == WaveState(map[][Position(2, 0) := 0][Position(2, 0) := 0][Position(3, 0) := 1], [Path(Position(3, 0), South)], None);
    assert NextTile(m, Position(2, 0), East) == Some(Path(Position(2, 1), North));
    assert WaveUpTo(Walk(m), p, 1, 3) == WaveState(map[][Position(2, 0) := 0][Position(2, 0) := 0][Position(3, 0) := 1][Position(2, 0) := 0][Position(2, 1) := 1], [Path(Position(3, 0), South), Path(Position(2, 1), North)], None);
    assert NextTile(m, Position(2, 0), West) == None;
    assert WaveUpTo(Walk(m), p, 1, 4) == WaveState(map[][Position(2, 0) := 0][Position(2, 0) := 0][Position(3, 0) := 1][Position(2, 0) := 0][Position(2, 1) := 1][Position(2, 0) := 0], [Path(Position(3, 0), South), Path(Position(2, 1), North)], None);
  }

  lemma ComplexWave2(m: PipeMap)
    requires m == PipeMap(["..F7.", ".FJ|.", "SJ.L7", "|F--J", "LJ..."], Position(2, 0))
    ensures Wave(Walk(m), [Path(Position(3, 0), South), Path(Position(2, 1), North)], 2).next == [Path(Position(4, 0), East), Path(Position(1, 1), East)]
    ensures Wave(Walk(m), [Path(Position(3, 0), South), Path(Position(2, 1), North)], 2).found == None
  {
    var p := [Path(Position(3, 0), South), Path(Position(2, 1), North)];
    assert NextTile(m, Position(3, 0), South) == Some(Path(Position(4, 0), East));
    assert WaveUpTo(Walk(m), p, 2, 1) == WaveState(map[][Position(3, 0) := 1][Position(4, 0) := 2], [Path(Position(4, 0), East)], None);
    assert NextTile(m, Position(2, 1), North) == Some(Path(Position(1, 1), East));
    assert WaveUpTo(Walk(m), p, 2, 2) == WaveState(map[][Position(3, 0) := 1][Position(4, 0) := 2][Position(2, 1) := 1][Position(1, 1) := 2], [Path(Position(4, 0), East), Path(Position(1, 1), East)], None);
  }

  lemma ComplexWave3(m: PipeMap)
    requires m == PipeMap(["..F7.", ".FJ|.", "SJ.L7", "|F--J", "LJ..."], Position(2, 0))
    ensures Wave(Walk(m), [Path(Position(4, 0), East), Path(Position(1, 1), East)], 3).next == [Path(Position(4, 1), North), Path(Position(1, 2), North)]
    ensures Wave(Walk(m), [Path(Position(4, 0), East), Path(Position(1, 1), East)], 3).found == None
  {
    var p := [Path(Position(4, 0), East), Path(Position(1, 1), East)];
    assert NextTile(m, Position(4, 0), East) == Some(Path(Position(4, 1), North));
    assert WaveUpTo(Walk(m), p, 3, 1) == WaveState(map[][Position(4, 0) := 2][Position(4, 1) := 3], [Path(Position(4, 1), North)], None);
    assert NextTile(m, Position(1, 1), East) == Some(Path(Position(1, 2), North));
    assert WaveUpTo(Walk(m), p, 3, 2) == WaveState(map[][Position(4, 0) := 2][Position(4, 1) := 3][Position(1, 1) := 2][Position(1, 2) := 3], [Path(Position(4, 1), North), Path(Position(1, 2), North)], None);
  }

  lemma ComplexWave4(m: PipeMap)
    requires m == PipeMap(["..F7.", ".FJ|.", "SJ.L7", "|F--J", "LJ..."], Position(2, 0))
    ensures Wave(Walk(m), [Path(Position(4, 1), North), Path(Position(1, 2), North)], 4).next == [Path(Position(3, 1), East), Path(Position(0, 2), East)]
    ensures Wave(Walk(m), [Path(Position(4, 1), North), Path(Position(1, 2), North)], 4).found == None
  {
    var p := [Path(Position(4, 1), North), Path(Position(1, 2), North)];
    assert NextTile(m, Position(4, 1), North) == Some(Path(Position(3, 1), East));
    assert WaveUpTo(Walk(m), p, 4, 1) == WaveState(map[][Position(4, 1) := 3][Position(3, 1) := 4], [Path(Position(3, 1), East)], None);
    assert NextTile(m, Position(1, 2), North) == Some(Path(Position(0, 2), East));
    assert WaveUpTo(Walk(m), p, 4, 2) == WaveState(map[][Position(4, 1) := 3][Position(3, 1) := 4][Position(1, 2) := 3][Position(0, 2) := 4], [Path(Position(3, 1), East), Path(Position(0, 2), East)], None);
  }

  lemma ComplexWave5(m: PipeMap)
    requires m == PipeMap(["..F7.", ".FJ|.", "SJ.L7", "|F--J", "LJ..."], Position(2, 0))
    ensures Wave(Walk(m), [Path(Position(3, 1), East), Path(Position(0, 2), East)], 5).next == [Path(Position(3, 2), East), Path(Position(0, 3), South)]
    ensures Wave(Walk(m), [Path(Position(3, 1), East), Path(Position(0, 2), East)], 5).found == None
  {
    var p := [Path(Position(3, 1), East), Path(Position(0, 2), East)];
    assert NextTile(m, Position(3, 1), East) == Some(Path(Position(3, 2), East));
    assert WaveUpTo(Walk(m), p, 5, 1) == WaveState(map[][Position(3, 1) := 4][Position(3, 2) := 5], [Path(Position(3, 2), East)], None);
    assert NextTile(m, Position(0, 2), East) == Some(Path(Position(0, 3), South));
    assert WaveUpTo(Walk(m), p, 5, 2) == WaveState(map[][Position(3, 1) := 4][Position(3, 2) := 5][Position(0, 2) := 4][Position(0, 3) := 5], [Path(Position(3, 2), East), Path(Position(0, 3), South)], None);
  }

  lemma ComplexWave6(m: PipeMap)
    requires m == PipeMap(["..F7.", ".FJ|.", "SJ.L7", "|F--J", "LJ..."], Position(2, 0))
    ensures Wave(Walk(m), [Path(Position(3, 2), East), Path(Position(0, 3), South)], 6).next == [Path(Position(3, 3), East), Path(Position(1, 3), South)]
    ensures Wave(Walk(m), [Path(Position(3, 2), East), Path(Position(0, 3), South)], 6).found == None
  {
    var p := [Path(Position(3, 2), East), Path(Position(0, 3), South)];
    assert NextTile(m, Position(3, 2), East) == Some(Path(Position(3, 3), East));
    assert WaveUpTo(Walk(m), p, 6, 1) == WaveState(map[][Position(3, 2) := 5][Position(3, 3) := 6], [Path(Position(3, 3), East)], None);
    assert NextTile(m, Position(0, 3), South) == Some(Path(Position(1, 3), South));
    assert WaveUpTo(Walk(m), p, 6, 2) == WaveState(map[][Position(3, 2) := 5][Position(3, 3) := 6][Position(0, 3) := 5][Position(1, 3) := 6], [Path(Position(3, 3), East), Path(Position(1, 3), South)], None);
  }

  lemma ComplexWave7(m: PipeMap)
    requires m == PipeMap(["..F7.", ".FJ|.", "SJ.L7", "|F--J", "LJ..."], Position(2, 0))
    ensures Wave(Walk(m), [Path(Position(3, 3), East), Path(Position(1, 3), South)], 7).next == [Path(Position(3, 4), North), Path(Position(2, 3), East)]
    ensures Wave(Walk(m), [Path(Position(3, 3), East), Path(Position(1, 3), South)], 7).found == None
  {
    var p := [Path(Position(3, 3), East), Path(Position(1, 3), South)];
    assert NextTile(m, Position(3, 3), East) == Some(Path(Position(3, 4), North));
    assert WaveUpTo(Walk(m), p, 7, 1) == WaveState(map[][Position(3, 3) := 6][Position(3, 4) := 7], [Path(Position(3, 4), North)], None);
    assert NextTile(m, Position(1, 3), South) == Some(Path(Position(2, 3), East));
    assert WaveUpTo(Walk(m), p, 7, 2) == WaveState(map[][Position(3, 3) := 6][Position(3, 4) := 7][Position(1, 3) := 6][Position(2, 3) := 7], [Path(Position(3, 4), North), Path(Position(2, 3), East)], None);
  }

  lemma ComplexWave8(m: PipeMap)
    requires m == PipeMap(["..F7.", ".FJ|.", "SJ.L7", "|F--J", "LJ..."], Position(2, 0))
    ensures Wave(Walk(m), [Path(Position(3, 4), North), Path(Position(2, 3), East)], 8).next == [Path(Position(2, 4), West)]
    ensures Wave(Walk(m), [Path(Position(3, 4), North), Path(Position(2, 3), East)], 8).found == Some(8)
  {
    var p := [Path(Position(3, 4), North), Path(Position(2, 3), East)];
    assert NextTile(m, Position(3, 4), North) == Some(Path(Position(2, 4), West));
    assert WaveUpTo(Walk(m), p, 8, 1) == WaveState(map[][Position(3, 4) := 7][Position(2, 4) := 8], [Path(Position(2, 4), West)], None);
    assert NextTile(m, Position(2, 3), East) == Some(Path(Position(2, 4), South));
    assert WaveUpTo(Walk(m), p, 8, 2) == WaveState(map[][Position(3, 4) := 7][Position(2, 4) := 8][Position(2, 3) := 7], [Path(Position(2, 4), West)], Some(8));
  }

  /** The walkers meet after 8 steps. */
  lemma ComplexFarthest(m: PipeMap)
    requires m == PipeMap(["..F7.", ".FJ|.", "SJ.L7", "|F--J", "LJ..."], Position(2, 0))
    ensures Waves(Walk(m), StartPaths(m.start), 0, 7) == Done(Some(8))
  {
    ComplexWave1(m);
    ComplexWave2(m);
    ComplexWave3(m);
    ComplexWave4(m);
    ComplexWave5(m);
    ComplexWave6(m);
    ComplexWave7(m);
    ComplexWave8(m);
    assert Waves(Walk(m), [Path(Position(3, 4), North), Path(Position(2, 3), East)], 7, 0) == Done(Some(8));
    assert Waves(Walk(m), [Path(Position(3, 3), East), Path(Position(1, 3), South)], 6, 1) == Done(Some(8));
    assert Waves(Walk(m), [Path(Position(3, 2), East), Path(Position(0, 3), South)], 5, 2) == Done(Some(8));
    assert Waves(Walk(m), [Path(Position(3, 1), East), Path(Position(0, 2), East)], 4, 3) == Done(Some(8));
    assert Waves(Walk(m), [Path(Position(4, 1), North), Path(Position(1, 2), North)], 3, 4) == Done(Some(8));
    assert Waves(Walk(m), [Path(Position(4, 0), East), Path(Position(1, 1), East)], 2, 5) == Done(Some(8));
    assert Waves(Walk(m), [Path(Position(3, 0), South), Path(Position(2, 1), North)], 1, 6) == Done(Some(8));
    assert Waves(Walk(m), [Path(Position(2, 0), North), Path(Position(2, 0), South), Path(Position(2, 0), East), Path(Position(2, 0), West)], 0, 7) == Done(Some(8));
  }
}
