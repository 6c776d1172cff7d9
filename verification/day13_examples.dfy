/** The two patterns of the day 13 unit tests, worked line by line: the
    smudge count of every candidate mirror, and from them the scores with
    no smudge and with one. */
module Day13Examples {
  import opened Common
  import opened Grids
  import opened Day13

  /** One more line pair around the mirror after line `idx` adds its
      mismatches to the count. */
  lemma PairStep(g: Grid, idx: nat, k: nat, before: nat, a: string, b: string, n: nat, m: nat)
    requires idx + 1 < |g| && k < Reach(|g|, idx)
    requires g[idx - k] == a && g[idx + k + 1] == b && |a| == n == |b|
    requires SmudgesUpTo(g, idx, k) == before && MismatchesUpTo(a, b, n) == m
    ensures SmudgesUpTo(g, idx, k + 1) == before + m
  {
  }

  /** Pattern a of the unit test, and its columns. */
  const PatternA: Grid := ["#.##..##.", "..#.##.#.", "##......#", "##......#", "..#.##.#.", "..##..##.", "#.#.##.#."]
  const PatternAColumns: Grid := ["#.##..#", "..##...", "##..###", "#....#.", ".#..#.#", ".#..#.#", "#....#.", "##..###", "..##..."]

  lemma ColumnsA()
    ensures Columns(PatternA) == PatternAColumns
  {
    ColumnsAPart0();
    ColumnsAPart1();
    ColumnsAPart2();
  }

  lemma ColumnsAPart0()
    ensures forall c :: 0 <= c < 3 ==> Columns(PatternA)[c] == PatternAColumns[c]
  {
    var cs := Columns(PatternA);
    assert cs[0] == "#.##..#";
    assert cs[1] == "..##...";
    assert cs[2] == "##..###";
  }

  lemma ColumnsAPart1()
    ensures forall c :: 3 <= c < 6 ==> Columns(PatternA)[c] == PatternAColumns[c]
  {
    var cs := Columns(PatternA);
    assert cs[3] == "#....#.";
    assert cs[4] == ".#..#.#";
    assert cs[5] == ".#..#.#";
  }

  lemma ColumnsAPart2()
    ensures forall c :: 6 <= c < 9 ==> Columns(PatternA)[c] == PatternAColumns[c]
  {
    var cs := Columns(PatternA);
    assert cs[6] == "#....#.";
    assert cs[7] == "##..###";
    assert cs[8] == "..##...";
  }

  lemma ARowSmudges0(g: Grid)
    requires g == PatternA
    ensures Smudges(g, 0) == 5
  {
    PairStep(g, 0, 0, 0, "#.##..##.", "..#.##.#.", 9, 5);
  }

  lemma ARowSmudges1(g: Grid)
    requires g == PatternA
    ensures Smudges(g, 1) == 13
  {
    PairStep(g, 1, 0, 0, "..#.##.#.", "##......#", 9, 7);
    PairStep(g, 1, 1, 7, "#.##..##.", "##......#", 9, 6);
  }

  lemma ARowSmudges2(g: Grid)
    requires g == PatternA
    ensures Smudges(g, 2) == 1
  {
    PairStep(g, 2, 0, 0, "##......#", "##......#", 9, 0);
    PairStep(g, 2, 1, 0, "..#.##.#.", "..#.##.#.", 9, 0);
    PairStep(g, 2, 2, 0, "#.##..##.", "..##..##.", 9, 1);
  }

  lemma ARowSmudges3(g: Grid)
    requires g == PatternA
    ensures Smudges(g, 3) == 15
  {
    PairStep(g, 3, 0, 0, "##......#", "..#.##.#.", 9, 7);
    PairStep(g, 3, 1, 7, "##......#", "..##..##.", 9, 7);
    PairStep(g, 3, 2, 14, "..#.##.#.", "#.#.##.#.", 9, 1);
  }

  lemma ARowSmudges4(g: Grid)
    requires g == PatternA
    ensures Smudges(g, 4) == 10
  {
    PairStep(g, 4, 0, 0, "..#.##.#.", "..##..##.", 9, 4);
    PairStep(g, 4, 1, 4, "##......#", "#.#.##.#.", 9, 6);
  }

  lemma ARowSmudges5(g: Grid)
    requires g == PatternA
    ensures Smudges(g, 5) == 5
  {
    PairStep(g, 5, 0, 0, "..##..##.", "#.#.##.#.", 9, 5);
  }

  lemma AColumnSmudges0(g: Grid)
    requires g == PatternAColumns
    ensures Smudges(g, 0) == 2
  {
    PairStep(g, 0, 0, 0, "#.##..#", "..##...", 7, 2);
  }

  lemma AColumnSmudges1(g: Grid)
    requires g == PatternAColumns
    ensures Smudges(g, 1) == 11
  {
    PairStep(g, 1, 0, 0, "..##...", "##..###", 7, 7);
    PairStep(g, 1, 1, 7, "#.##..#", "#....#.", 7, 4);
  }

  lemma AColumnSmudges2(g: Grid)
    requires g == PatternAColumns
    ensures Smudges(g, 2) == 13
  {
    PairStep(g, 2, 0, 0, "##..###", "#....#.", 7, 3);
    PairStep(g, 2, 1, 3, "..##...", ".#..#.#", 7, 5);
    PairStep(g, 2, 2, 8, "#.##..#", ".#..#.#", 7, 5);
  }

  lemma AColumnSmudges3(g: Grid)
    requires g == PatternAColumns
    ensures Smudges(g, 3) == 16
  {
    PairStep(g, 3, 0, 0, "#....#.", ".#..#.#", 7, 5);
    PairStep(g, 3, 1, 5, "##..###", ".#..#.#", 7, 2);
    PairStep(g, 3, 2, 7, "..##...", "#....#.", 7, 4);
    PairStep(g, 3, 3, 11, "#.##..#", "##..###", 7, 5);
  }

  lemma AColumnSmudges4(g: Grid)
    requires g == PatternAColumns
    ensures Smudges(g, 4) == 0
  {
    PairStep(g, 4, 0, 0, ".#..#.#", ".#..#.#", 7, 0);
    PairStep(g, 4, 1, 0, "#....#.", "#....#.", 7, 0);
    PairStep(g, 4, 2, 0, "##..###", "##..###", 7, 0);
    PairStep(g, 4, 3, 0, "..##...", "..##...", 7, 0);
  }

  lemma AColumnSmudges5(g: Grid)
    requires g == PatternAColumns
    ensures Smudges(g, 5) == 11
  {
    PairStep(g, 5, 0, 0, ".#..#.#", "#....#.", 7, 5);
    PairStep(g, 5, 1, 5, ".#..#.#", "##..###", 7, 2);
    PairStep(g, 5, 2, 7, "#....#.", "..##...", 7, 4);
  }

  lemma AColumnSmudges6(g: Grid)
    requires g == PatternAColumns
    ensures Smudges(g, 6) == 8
  {
    PairStep(g, 6, 0, 0, "#....#.", "##..###", 7, 3);
    PairStep(g, 6, 1, 3, ".#..#.#", "..##...", 7, 5);
  }

  lemma AColumnSmudges7(g: Grid)
    requires g == PatternAColumns
    ensures Smudges(g, 7) == 7
  {
    PairStep(g, 7, 0, 0, "##..###", "..##...", 7, 7);
  }

  /** Pattern b of the unit test, and its columns. */
  const PatternB: Grid := ["#...##..#", "#....#..#", "..##..###", "#####.##.", "#####.##.", "..##..###", "#....#..#"]
  const PatternBColumns: Grid := ["##.##.#", "...##..", "..####.", "..####.", "#..##..", "##....#", "..####.", "..####.", "###..##"]

  lemma ColumnsB()
    ensures Columns(PatternB) == PatternBColumns
  {
    ColumnsBPart0();
    ColumnsBPart1();
    ColumnsBPart2();
  }

  lemma ColumnsBPart0()
    ensures forall c :: 0 <= c < 3 ==> Columns(PatternB)[c] == PatternBColumns[c]
  {
    var cs := Columns(PatternB);
    assert cs[0] == "##.##.#";
    assert cs[1] == "...##..";
    assert cs[2] == "..####.";
  }

  lemma ColumnsBPart1()
    ensures forall c :: 3 <= c < 6 ==> Columns(PatternB)[c] == PatternBColumns[c]
  {
    var cs := Columns(PatternB);
    assert cs[3] == "..####.";
    assert cs[4] == "#..##..";
    assert cs[5] == "##....#";
  }

  lemma ColumnsBPart2()
    ensures forall c :: 6 <= c < 9 ==> Columns(PatternB)[c] == PatternBColumns[c]
  {
    var cs := Columns(PatternB);
    assert cs[6] == "..####.";
    assert cs[7] == "..####.";
    assert cs[8] == "###..##";
  }

  lemma BRowSmudges0(g: Grid)
    requires g == PatternB
    ensures Smudges(g, 0) == 1
  {
    PairStep(g, 0, 0, 0, "#...##..#", "#....#..#", 9, 1);
  }

  lemma BRowSmudges1(g: Grid)
    requires g == PatternB
    ensures Smudges(g, 1) == 13
  {
    PairStep(g, 1, 0, 0, "#....#..#", "..##..###", 9, 6);
    PairStep(g, 1, 1, 6, "#...##..#", "#####.##.", 9, 7);
  }

  lemma BRowSmudges2(g: Grid)
    requires g == PatternB
    ensures Smudges(g, 2) == 19
  {
    PairStep(g, 2, 0, 0, "..##..###", "#####.##.", 9, 4);
    PairStep(g, 2, 1, 4, "#....#..#", "#####.##.", 9, 8);
    PairStep(g, 2, 2, 12, "#...##..#", "..##..###", 9, 7);
  }

  lemma BRowSmudges3(g: Grid)
    requires g == PatternB
    ensures Smudges(g, 3) == 0
  {
    PairStep(g, 3, 0, 0, "#####.##.", "#####.##.", 9, 0);
    PairStep(g, 3, 1, 0, "..##..###", "..##..###", 9, 0);
    PairStep(g, 3, 2, 0, "#....#..#", "#....#..#", 9, 0);
  }

  lemma BRowSmudges4(g: Grid)
    requires g == PatternB
    ensures Smudges(g, 4) == 12
  {
    PairStep(g, 4, 0, 0, "#####.##.", "..##..###", 9, 4);
    PairStep(g, 4, 1, 4, "#####.##.", "#....#..#", 9, 8);
  }

  lemma BRowSmudges5(g: Grid)
    requires g == PatternB
    ensures Smudges(g, 5) == 6
  {
    PairStep(g, 5, 0, 0, "..##..###", "#....#..#", 9, 6);
  }

  lemma BColumnSmudges0(g: Grid)
    requires g == PatternBColumns
    ensures Smudges(g, 0) == 3
  {
    PairStep(g, 0, 0, 0, "##.##.#", "...##..", 7, 3);
  }

  lemma BColumnSmudges1(g: Grid)
    requires g == PatternBColumns
    ensures Smudges(g, 1) == 7
  {
    PairStep(g, 1, 0, 0, "...##..", "..####.", 7, 2);
    PairStep(g, 1, 1, 2, "##.##.#", "..####.", 7, 5);
  }

  lemma BColumnSmudges2(g: Grid)
    requires g == PatternBColumns
    ensures Smudges(g, 2) == 3
  {
    PairStep(g, 2, 0, 0, "..####.", "..####.", 7, 0);
    PairStep(g, 2, 1, 0, "...##..", "#..##..", 7, 1);
    PairStep(g, 2, 2, 1, "##.##.#", "##....#", 7, 2);
  }

  lemma BColumnSmudges3(g: Grid)
    requires g == PatternBColumns
    ensures Smudges(g, 3) == 17
  {
    PairStep(g, 3, 0, 0, "..####.", "#..##..", 7, 3);
    PairStep(g, 3, 1, 3, "..####.", "##....#", 7, 7);
    PairStep(g, 3, 2, 10, "...##..", "..####.", 7, 2);
    PairStep(g, 3, 3, 12, "##.##.#", "..####.", 7, 5);
  }

  lemma BColumnSmudges4(g: Grid)
    requires g == PatternBColumns
    ensures Smudges(g, 4) == 11
  {
    PairStep(g, 4, 0, 0, "#..##..", "##....#", 7, 4);
    PairStep(g, 4, 1, 4, "..####.", "..####.", 7, 0);
    PairStep(g, 4, 2, 4, "..####.", "..####.", 7, 0);
    PairStep(g, 4, 3, 4, "...##..", "###..##", 7, 7);
  }

  lemma BColumnSmudges5(g: Grid)
    requires g == PatternBColumns
    ensures Smudges(g, 5) == 15
  {
    PairStep(g, 5, 0, 0, "##....#", "..####.", 7, 7);
    PairStep(g, 5, 1, 7, "#..##..", "..####.", 7, 3);
    PairStep(g, 5, 2, 10, "..####.", "###..##", 7, 5);
  }

  lemma BColumnSmudges6(g: Grid)
    requires g == PatternBColumns
    ensures Smudges(g, 6) == 2
  {
    PairStep(g, 6, 0, 0, "..####.", "..####.", 7, 0);
    PairStep(g, 6, 1, 0, "##....#", "###..##", 7, 2);
  }

  lemma BColumnSmudges7(g: Grid)
    requires g == PatternBColumns
    ensures Smudges(g, 7) == 5
  {
    PairStep(g, 7, 0, 0, "..####.", "###..##", 7, 5);
  }

  /** The row mirrors of pattern a, without and with one smudge. */
  lemma ARowReflections()
    ensures FindReflection(PatternA, 0) == Some(0) && FindReflection(PatternA, 1) == Some(3)
  {
    ARowSmudges0(PatternA);
    ARowSmudges1(PatternA);
    ARowSmudges2(PatternA);
    ARowSmudges3(PatternA);
    ARowSmudges4(PatternA);
    ARowSmudges5(PatternA);
    assert FlagSum(Reflections(PatternA, 0), 1) == 0;
    assert FlagSum(Reflections(PatternA, 0), 2) == 0;
    assert FlagSum(Reflections(PatternA, 0), 3) == 0;
    assert FlagSum(Reflections(PatternA, 0), 4) == 0;
    assert FlagSum(Reflections(PatternA, 0), 5) == 0;
    assert FlagSum(Reflections(PatternA, 0), 6) == 0;
    assert FlagSum(Reflections(PatternA, 1), 1) == 0;
    assert FlagSum(Reflections(PatternA, 1), 2) == 0;
    assert FlagSum(Reflections(PatternA, 1), 3) == 3;
    assert FlagSum(Reflections(PatternA, 1), 4) == 3;
    assert FlagSum(Reflections(PatternA, 1), 5) == 3;
    assert FlagSum(Reflections(PatternA, 1), 6) == 3;
  }

  /** The column mirrors of pattern a, without and with one smudge. */
  lemma AColumnReflections()
    ensures FindReflection(PatternAColumns, 0) == Some(5) && FindReflection(PatternAColumns, 1) == Some(0)
  {
    AColumnSmudges0(PatternAColumns);
    AColumnSmudges1(PatternAColumns);
    AColumnSmudges2(PatternAColumns);
    AColumnSmudges3(PatternAColumns);
    AColumnSmudges4(PatternAColumns);
    AColumnSmudges5(PatternAColumns);
    AColumnSmudges6(PatternAColumns);
    AColumnSmudges7(PatternAColumns);
    assert FlagSum(Reflections(PatternAColumns, 0), 1) == 0;
    assert FlagSum(Reflections(PatternAColumns, 0), 2) == 0;
    assert FlagSum(Reflections(PatternAColumns, 0), 3) == 0;
    assert FlagSum(Reflections(PatternAColumns, 0), 4) == 0;
    assert FlagSum(Reflections(PatternAColumns, 0), 5) == 5;
    assert FlagSum(Reflections(PatternAColumns, 0), 6) == 5;
    assert FlagSum(Reflections(PatternAColumns, 0), 7) == 5;
    assert FlagSum(Reflections(PatternAColumns, 0), 8) == 5;
    assert FlagSum(Reflections(PatternAColumns, 1), 1) == 0;
    assert FlagSum(Reflections(PatternAColumns, 1), 2) == 0;
    assert FlagSum(Reflections(PatternAColumns, 1), 3) == 0;
    assert FlagSum(Reflections(PatternAColumns, 1), 4) == 0;
    assert FlagSum(Reflections(PatternAColumns, 1), 5) == 0;
    assert FlagSum(Reflections(PatternAColumns, 1), 6) == 0;
    assert FlagSum(Reflections(PatternAColumns, 1), 7) == 0;
    assert FlagSum(Reflections(PatternAColumns, 1), 8) == 0;
  }

  /** The row mirrors of pattern b, without and with one smudge. */
  lemma BRowReflections()
    ensures FindReflection(PatternB, 0) == Some(4) && FindReflection(PatternB, 1) == Some(1)
  {
    BRowSmudges0(PatternB);
    BRowSmudges1(PatternB);
    BRowSmudges2(PatternB);
    BRowSmudges3(PatternB);
    BRowSmudges4(PatternB);
    BRowSmudges5(PatternB);
    assert FlagSum(Reflections(PatternB, 0), 1) == 0;
    assert FlagSum(Reflections(PatternB, 0), 2) == 0;
    assert FlagSum(Reflections(PatternB, 0), 3) == 0;
    assert FlagSum(Reflections(PatternB, 0), 4) == 4;
    assert FlagSum(Reflections(PatternB, 0), 5) == 4;
    assert FlagSum(Reflections(PatternB, 0), 6) == 4;
    assert FlagSum(Reflections(PatternB, 1), 1) == 1;
    assert FlagSum(Reflections(PatternB, 1), 2) == 1;
    assert FlagSum(Reflections(PatternB, 1), 3) == 1;
    assert FlagSum(Reflections(PatternB, 1), 4) == 1;
    assert FlagSum(Reflections(PatternB, 1), 5) == 1;
    assert FlagSum(Reflections(PatternB, 1), 6) == 1;
  }

  /** The column mirrors of pattern b, without and with one smudge. */
  lemma BColumnReflections()
    ensures FindReflection(PatternBColumns, 0) == Some(0) && FindReflection(PatternBColumns, 1) == Some(0)
  {
    BColumnSmudges0(PatternBColumns);
    BColumnSmudges1(PatternBColumns);
    BColumnSmudges2(PatternBColumns);
    BColumnSmudges3(PatternBColumns);
    BColumnSmudges4(PatternBColumns);
    BColumnSmudges5(PatternBColumns);
    BColumnSmudges6(PatternBColumns);
    BColumnSmudges7(PatternBColumns);
    assert FlagSum(Reflections(PatternBColumns, 0), 1) == 0;
    assert FlagSum(Reflections(PatternBColumns, 0), 2) == 0;
    assert FlagSum(Reflections(PatternBColumns, 0), 3) == 0;
    assert FlagSum(Reflections(PatternBColumns, 0), 4) == 0;
    assert FlagSum(Reflections(PatternBColumns, 0), 5) == 0;
    assert FlagSum(Reflections(PatternBColumns, 0), 6) == 0;
    assert FlagSum(Reflections(PatternBColumns, 0), 7) == 0;
    assert FlagSum(Reflections(PatternBColumns, 0), 8) == 0;
    assert FlagSum(Reflections(PatternBColumns, 1), 1) == 0;
    assert FlagSum(Reflections(PatternBColumns, 1), 2) == 0;
    assert FlagSum(Reflections(PatternBColumns, 1), 3) == 0;
    assert FlagSum(Reflections(PatternBColumns, 1), 4) == 0;
    assert FlagSum(Reflections(PatternBColumns, 1), 5) == 0;
    assert FlagSum(Reflections(PatternBColumns, 1), 6) == 0;
    assert FlagSum(Reflections(PatternBColumns, 1), 7) == 0;
    assert FlagSum(Reflections(PatternBColumns, 1), 8) == 0;
  }

  /** Pattern a scores 5 without a smudge. */
  lemma ScoreA0()
    ensures Score(Pattern(PatternA, 0)) == Some(5)
  {
    ColumnsA();
    ARowReflections();
    AColumnReflections();
  }

  /** Pattern a scores 300 with one smudge. */
  lemma ScoreA1()
    ensures Score(Pattern(PatternA, 1)) == Some(300)
  {
    ColumnsA();
    ARowReflections();
    AColumnReflections();
  }

  /** Pattern b scores 400 without a smudge. */
  lemma ScoreB0()
    ensures Score(Pattern(PatternB, 0)) == Some(400)
  {
    ColumnsB();
    BRowReflections();
    BColumnReflections();
  }

  /** Pattern b scores 100 with one smudge. */
  lemma ScoreB1()
    ensures Score(Pattern(PatternB, 1)) == Some(100)
  {
    ColumnsB();
    BRowReflections();
    BColumnReflections();
  }
}
