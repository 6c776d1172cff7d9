/** Day 3: an engine schematic.  Every maximal run of digits in a line is
    a possible part number and every '*' a possible gear; a part counts
    when a symbol lies next to it, and a gear whose neighbourhood touches
    exactly two counted parts contributes their product. */
module Day3 {
  import opened Common
  import opened Text

  datatype Part = Part(value: nat, row: nat, cols: (nat, nat))

  datatype Gear = Gear(row: nat, col: nat)

  // ---------------------------------------------------------------------
  // Tokenising one line

  /** `a .. b` is a maximal run of digits of `s`. */
  ghost predicate IsRun(s: string, a: nat, b: nat) {
    a < b <= |s|
    && (forall k :: a <= k < b ==> IsDigit(s[k]))
    && (a == 0 || !IsDigit(s[a - 1]))
    && (b == |s| || !IsDigit(s[b]))
  }

  /** The value of the digits `s[a..b]`, read left to right as
      `u32::from_str_radix` does. */
  function RunValue(s: string, a: nat, b: nat): nat
    requires a <= b <= |s|
    decreases b - a
  {
    if b == a then 0 else RunValue(s, a, b - 1) * 10 + (if IsDigit(s[b - 1]) then DigitValue(s[b - 1]) else 0)
  }

  lemma {:induction false} RunValueIsDigitsValue(s: string, a: nat, b: nat)
    requires a <= b <= |s| && AllDigits(s[a..b])
    ensures RunValue(s, a, b) == DigitsValue(s[a..b])
  {
    if b > a {
      assert s[a..b][..b - 1 - a] == s[a..b - 1];
      RunValueIsDigitsValue(s, a, b - 1);
    }
  }

  /** The part a run of digits makes. */
  function RunPart(s: string, row: nat, a: nat, b: nat): (p: Part)
    requires a <= b <= |s|
    ensures p.row == row && p.cols == (a, b)
  {
    Part(RunValue(s, a, b), row, (a, b))
  }

  /** The loop of `parse_line` from index `i` on, given the start of the
      digit run being read (if any): the parts and gears it still finds. */
  function ScanFrom(s: string, row: nat, i: nat, start: Option<nat>): (seq<Part>, seq<Gear>)
    requires i <= |s|
    requires start.Some? ==> start.value <= i
    decreases |s| - i
  {
    if i == |s| then
      (if start.Some? then [RunPart(s, row, start.value, |s|)] else [], [])
    else if IsDigit(s[i]) && start.None? then
      WithGear(s, row, i, ScanFrom(s, row, i + 1, Some(i)))
    else if !IsDigit(s[i]) && start.Some? then
      var rest := ScanFrom(s, row, i + 1, None);
      WithGear(s, row, i, ([RunPart(s, row, start.value, i)] + rest.0, rest.1))
    else
      WithGear(s, row, i, ScanFrom(s, row, i + 1, start))
  }

  /** A '*' at `i` puts a gear in front of the ones found after it. */
  function WithGear(s: string, row: nat, i: nat, found: (seq<Part>, seq<Gear>)): (seq<Part>, seq<Gear>)
    requires i < |s|
  {
    (found.0, if s[i] == '*' then [Gear(row, i)] + found.1 else found.1)
  }

  /** `parse_line`. */
  function ParseLine(s: string, row: nat): (seq<Part>, seq<Gear>) {
    ScanFrom(s, row, 0, None)
  }

  /** Where a scan may start: a run being read is all digits and begins
      after a non-digit; otherwise the previous character is no digit. */
  ghost predicate Ready(s: string, i: nat, start: Option<nat>)
    requires i <= |s|
  {
    if start.Some? then
      start.value < i && (forall k :: start.value <= k < i ==> IsDigit(s[k]))
      && (start.value == 0 || !IsDigit(s[start.value - 1]))
    else
      i == 0 || !IsDigit(s[i - 1])
  }

  /** The parts are maximal digit runs of `s` starting at or after `lo`,
      left to right and apart, carrying their row and digits' value. */
  ghost predicate RunsFrom(s: string, row: nat, parts: seq<Part>, lo: nat) {
    (forall k :: 0 <= k < |parts| ==>
       parts[k].row == row && lo <= parts[k].cols.0 && IsRun(s, parts[k].cols.0, parts[k].cols.1))
    && (forall k :: 0 <= k < |parts| ==> parts[k].value == RunValue(s, parts[k].cols.0, parts[k].cols.1))
    && (forall k :: 0 <= k < |parts| - 1 ==> parts[k].cols.1 < parts[k + 1].cols.0)
  }

  predicate DigitAt(s: string, j: nat) {
    j < |s| && IsDigit(s[j])
  }

  /** Every digit of `s` at or after `lo` lies in one of the parts. */
  ghost predicate CoversFrom(s: string, parts: seq<Part>, lo: nat) {
    forall j: nat :: lo <= j && DigitAt(s, j) ==>
      exists k :: 0 <= k < |parts| && parts[k].cols.0 <= j < parts[k].cols.1
  }

  /** A closed run followed by the runs after it. */
  lemma PrependRun(s: string, row: nat, a: nat, i: nat, rest: seq<Part>)
    requires a < i < |s| && !IsDigit(s[i])
    requires (forall k :: a <= k < i ==> IsDigit(s[k])) && (a == 0 || !IsDigit(s[a - 1]))
    requires RunsFrom(s, row, rest, i + 1) && CoversFrom(s, rest, i + 1)
    ensures RunsFrom(s, row, [RunPart(s, row, a, i)] + rest, a)
    ensures CoversFrom(s, [RunPart(s, row, a, i)] + rest, a)
  {
    var p := RunPart(s, row, a, i);
    var ps := [p] + rest;
    assert ps[0] == p;
    assert IsRun(s, a, i);
    forall k | 0 <= k < |ps|
      ensures ps[k].row == row && a <= ps[k].cols.0 && IsRun(s, ps[k].cols.0, ps[k].cols.1)
      ensures ps[k].value == RunValue(s, ps[k].cols.0, ps[k].cols.1)
    {
      if k > 0 {
        assert ps[k] == rest[k - 1];
      }
    }
    forall k | 0 <= k < |ps| - 1
      ensures ps[k].cols.1 < ps[k + 1].cols.0
    {
      if k > 0 {
        assert ps[k] == rest[k - 1] && ps[k + 1] == rest[k];
      } else {
        assert ps[1] == rest[0];
      }
    }
    forall j: nat | a <= j && DigitAt(s, j)
      ensures exists k :: 0 <= k < |ps| && ps[k].cols.0 <= j < ps[k].cols.1
    {
      if j < i {
        assert ps[0].cols.0 <= j < ps[0].cols.1;
      } else {
        assert j != i;
        var k :| 0 <= k < |rest| && rest[k].cols.0 <= j < rest[k].cols.1;
        assert ps[k + 1] == rest[k];
      }
    }
  }

  /** The run reaching the end of the line. */
  lemma FinalRun(s: string, row: nat, a: nat)
    requires a < |s| && (forall k :: a <= k < |s| ==> IsDigit(s[k])) && (a == 0 || !IsDigit(s[a - 1]))
    ensures RunsFrom(s, row, [RunPart(s, row, a, |s|)], a)
    ensures CoversFrom(s, [RunPart(s, row, a, |s|)], a)
  {
    var ps := [RunPart(s, row, a, |s|)];
    forall j: nat | a <= j && DigitAt(s, j)
      ensures exists k :: 0 <= k < |ps| && ps[k].cols.0 <= j < ps[k].cols.1
    {
      assert ps[0].cols.0 <= j < ps[0].cols.1;
    }
  }

  /** One step of the scan, as far as the parts go. */
  lemma PartsStep(s: string, row: nat, i: nat, start: Option<nat>)
    requires i < |s| && (start.Some? ==> start.value <= i)
    ensures ScanFrom(s, row, i, start).0 ==
      if !IsDigit(s[i]) && start.Some? then [RunPart(s, row, start.value, i)] + ScanFrom(s, row, i + 1, None).0
      else ScanFrom(s, row, i + 1, NextStart(s, i, start)).0
  {
  }

  /** A non-digit adds nothing to cover. */
  lemma CoversPastNonDigit(s: string, parts: seq<Part>, i: nat)
    requires i < |s| && !IsDigit(s[i]) && CoversFrom(s, parts, i + 1)
    ensures CoversFrom(s, parts, i)
  {
    assert !DigitAt(s, i);
  }

  /** The parts a scan finds are exactly the maximal digit runs from where
      it starts. */
  lemma {:induction false} ScanFromParts(s: string, row: nat, i: nat, start: Option<nat>)
    requires i <= |s| && (start.Some? ==> start.value <= i)
    requires Ready(s, i, start)
    ensures RunsFrom(s, row, ScanFrom(s, row, i, start).0, if start.Some? then start.value else i)
    ensures CoversFrom(s, ScanFrom(s, row, i, start).0, if start.Some? then start.value else i)
    decreases |s| - i
  {
    if i == |s| {
      if start.Some? {
        FinalRun(s, row, start.value);
      }
    } else {
      var next := NextStart(s, i, start);
      ReadyNext(s, i, start);
      ScanFromParts(s, row, i + 1, next);
      PartsStep(s, row, i, start);
      if !IsDigit(s[i]) && start.Some? {
        PrependRun(s, row, start.value, i, ScanFrom(s, row, i + 1, None).0);
      } else if start.None? && !IsDigit(s[i]) {
        CoversPastNonDigit(s, ScanFrom(s, row, i + 1, None).0, i);
      }
    }
  }

  /** The scan's state stays consistent with the line. */
  lemma ReadyNext(s: string, i: nat, start: Option<nat>)
    requires i < |s| && (start.Some? ==> start.value <= i) && Ready(s, i, start)
    ensures Ready(s, i + 1, NextStart(s, i, start))
  {
  }

  /** The gears are the '*' positions from `lo` on, left to right. */
  ghost predicate StarsFrom(s: string, row: nat, gears: seq<Gear>, lo: nat) {
    (forall k :: 0 <= k < |gears| ==>
       gears[k].row == row && lo <= gears[k].col < |s| && s[gears[k].col] == '*')
    && (forall k :: 0 <= k < |gears| - 1 ==> gears[k].col < gears[k + 1].col)
    && (forall j: nat :: lo <= j && StarAt(s, j) ==> exists k :: 0 <= k < |gears| && gears[k].col == j)
  }

  predicate StarAt(s: string, j: nat) {
    j < |s| && s[j] == '*'
  }

  /** The state the scan moves to after index `i`. */
  function NextStart(s: string, i: nat, start: Option<nat>): (n: Option<nat>)
    requires i < |s| && (start.Some? ==> start.value <= i)
    ensures n.Some? ==> n.value <= i + 1
  {
    if IsDigit(s[i]) && start.None? then Some(i)
    else if !IsDigit(s[i]) && start.Some? then None
    else start
  }

  /** One step of the scan, as far as the gears go. */
  lemma GearsStep(s: string, row: nat, i: nat, start: Option<nat>)
    requires i < |s| && (start.Some? ==> start.value <= i)
    ensures ScanFrom(s, row, i, start).1 == WithGear(s, row, i, ScanFrom(s, row, i + 1, NextStart(s, i, start))).1
  {
  }

  lemma {:induction false} ScanFromGears(s: string, row: nat, i: nat, start: Option<nat>)
    requires i <= |s| && (start.Some? ==> start.value <= i)
    ensures StarsFrom(s, row, ScanFrom(s, row, i, start).1, i)
    decreases |s| - i
  {
    if i < |s| {
      var next := NextStart(s, i, start);
      ScanFromGears(s, row, i + 1, next);
      GearsStep(s, row, i, start);
      StarBefore(s, row, i, ScanFrom(s, row, i + 1, next).1);
    }
  }

  lemma StarBefore(s: string, row: nat, i: nat, rest: seq<Gear>)
    requires i < |s| && StarsFrom(s, row, rest, i + 1)
    ensures StarsFrom(s, row, if s[i] == '*' then [Gear(row, i)] + rest else rest, i)
  {
    if s[i] != '*' {
      assert !StarAt(s, i);
    } else {
      var gs := [Gear(row, i)] + rest;
      forall k | 0 <= k < |gs|
        ensures gs[k].row == row && i <= gs[k].col < |s| && s[gs[k].col] == '*'
      {
        if k > 0 {
          assert gs[k] == rest[k - 1];
        }
      }
      forall k | 0 <= k < |gs| - 1
        ensures gs[k].col < gs[k + 1].col
      {
        assert gs[k + 1] == rest[k];
        if k > 0 {
          assert gs[k] == rest[k - 1];
        }
      }
      forall j: nat | i <= j && StarAt(s, j)
        ensures exists k :: 0 <= k < |gs| && gs[k].col == j
      {
        if j == i {
          assert gs[0].col == j;
        } else {
          var k :| 0 <= k < |rest| && rest[k].col == j;
          assert gs[k + 1].col == j;
        }
      }
    }
  }

  /** `parse_line` finds every maximal digit run of the line as a part
      carrying its value, row and half-open columns, left to right and
      apart, and every '*' as a gear, left to right. */
  lemma ParseLineFinds(s: string, row: nat)
    ensures RunsFrom(s, row, ParseLine(s, row).0, 0)
    ensures CoversFrom(s, ParseLine(s, row).0, 0)
    ensures StarsFrom(s, row, ParseLine(s, row).1, 0)
  {
    ScanFromParts(s, row, 0, None);
    ScanFromGears(s, row, 0, None);
  }

  /** The three lines of the `parse_line` unit test. */
  lemma ParseLineExamples()
    ensures ParseLine("123", 0) == ([Part(123, 0, (0, 3))], [])
    ensures ParseLine(".123..456...", 0) == ([Part(123, 0, (1, 4)), Part(456, 0, (6, 9))], [])
  {
    assert ScanFrom(".123..456...", 0, 6, None).0 == [RunPart(".123..456...", 0, 6, 9)];
    assert ScanFrom(".123..456...", 0, 0, None).0 == [RunPart(".123..456...", 0, 1, 4)] + ScanFrom(".123..456...", 0, 6, None).0;
    assert ScanFrom(".123..456...", 0, 0, None).1 == [];
    assert RunPart(".123..456...", 0, 6, 9) == Part(456, 0, (6, 9));
    assert RunPart(".123..456...", 0, 1, 4) == Part(123, 0, (1, 4));
    var r := ParseLine(".123..456...", 0);
    assert r.0 == [Part(123, 0, (1, 4)), Part(456, 0, (6, 9))];
    assert r == (r.0, r.1);
  }

  /** A line with a symbol, two '*' and a run at the very end. */
  lemma ParseLineGearsExample()
    ensures ParseLine("1.123.$456..**.4", 0) ==
      ([Part(1, 0, (0, 1)), Part(123, 0, (2, 5)), Part(456, 0, (7, 10)), Part(4, 0, (15, 16))], [Gear(0, 12), Gear(0, 13)])
  {
    assert ScanFrom("1.123.$456..**.4", 0, 11, None).0 == [RunPart("1.123.$456..**.4", 0, 15, 16)];
    assert ScanFrom("1.123.$456..**.4", 0, 6, None).0 == [RunPart("1.123.$456..**.4", 0, 7, 10)] + ScanFrom("1.123.$456..**.4", 0, 11, None).0;
    assert ScanFrom("1.123.$456..**.4", 0, 2, None).0 == [RunPart("1.123.$456..**.4", 0, 2, 5)] + ScanFrom("1.123.$456..**.4", 0, 6, None).0;
    assert ScanFrom("1.123.$456..**.4", 0, 0, None).0 == [RunPart("1.123.$456..**.4", 0, 0, 1)] + ScanFrom("1.123.$456..**.4", 0, 2, None).0;
    assert ScanFrom("1.123.$456..**.4", 0, 11, None).1 == [Gear(0, 12), Gear(0, 13)];
    assert ScanFrom("1.123.$456..**.4", 0, 0, None).1 == ScanFrom("1.123.$456..**.4", 0, 11, None).1;
    assert RunPart("1.123.$456..**.4", 0, 0, 1) == Part(1, 0, (0, 1));
    assert RunPart("1.123.$456..**.4", 0, 2, 5) == Part(123, 0, (2, 5));
    assert RunPart("1.123.$456..**.4", 0, 7, 10) == Part(456, 0, (7, 10));
    assert RunPart("1.123.$456..**.4", 0, 15, 16) == Part(4, 0, (15, 16));
    var r := ParseLine("1.123.$456..**.4", 0);
    assert r.0 == [Part(1, 0, (0, 1)), Part(123, 0, (2, 5)), Part(456, 0, (7, 10)), Part(4, 0, (15, 16))];
    assert r.1 == [Gear(0, 12), Gear(0, 13)];
    assert r == (r.0, r.1);
  }

  // ---------------------------------------------------------------------
  // The schematic

  /** A symbol is anything but '.' and a digit. */
  predicate IsSymbol(c: char) {
    c != '.' && !IsDigit(c)
  }

  /** The possible parts of rows `0 .. n`, row by row. */
  function PossibleParts(lines: seq<string>, n: nat): (ps: seq<Part>)
    requires n <= |lines|
    ensures forall k :: 0 <= k < |ps| ==>
      ps[k].row < n && IsRun(lines[ps[k].row], ps[k].cols.0, ps[k].cols.1)
      && ps[k].value == RunValue(lines[ps[k].row], ps[k].cols.0, ps[k].cols.1)
  {
    if n == 0 then []
    else
      ParseLineFinds(lines[n - 1], n - 1);
      PossibleParts(lines, n - 1) + ParseLine(lines[n - 1], n - 1).0
  }

  /** The possible gears of rows `0 .. n`, row by row. */
  function PossibleGears(lines: seq<string>, n: nat): (gs: seq<Gear>)
    requires n <= |lines|
    ensures forall k :: 0 <= k < |gs| ==>
      gs[k].row < n && gs[k].col < |lines[gs[k].row]| && lines[gs[k].row][gs[k].col] == '*'
  {
    if n == 0 then []
    else
      ParseLineFinds(lines[n - 1], n - 1);
      PossibleGears(lines, n - 1) + ParseLine(lines[n - 1], n - 1).1
  }

  /** `x` is at most one away from `lo .. hi`. */
  predicate Near(x: nat, lo: nat, hi: nat) {
    lo <= x + 1 && x <= hi
  }

  /** The indices next to `lo .. hi`: one before (none below zero) up to
      one after, cut off at `n`, the number of lines, for rows and columns
      alike. */
  function Around(lo: nat, hi: nat, n: nat): (w: (nat, nat))
    ensures w.1 <= n
    ensures forall x: nat :: w.0 <= x < w.1 <==> x < n && Near(x, lo, hi)
  {
    (if lo == 0 then 0 else lo - 1, if hi + 1 < n then hi + 1 else n)
  }

  /** The column loop of one row: `Some(true)` at the first symbol,
      `None` when it indexes past the end of the line first (the `unwrap`
      panics), `Some(false)` when it runs out of columns. */
  function ScanCols(line: string, c: nat, hi: nat): (r: Option<bool>)
    decreases hi - c
    ensures r == Some(true) <==> exists x :: c <= x < hi && x < |line| && IsSymbol(line[x])
    ensures r == None <==>
      c < hi && |line| < hi && forall x :: c <= x < |line| ==> !IsSymbol(line[x])
  {
    if hi <= c then Some(false)
    else if |line| <= c then None
    else if IsSymbol(line[c]) then Some(true)
    else ScanCols(line, c + 1, hi)
  }

  /** The row loop, which stops at the first row whose column loop finds
      a symbol or panics. */
  function ScanRows(lines: seq<string>, r: nat, rhi: nat, clo: nat, chi: nat): Option<bool>
    requires rhi <= |lines|
    decreases rhi - r
  {
    if rhi <= r then Some(false)
    else match ScanCols(lines[r], clo, chi)
      case None => None
      case Some(true) => Some(true)
      case Some(false) => ScanRows(lines, r + 1, rhi, clo, chi)
  }

  lemma {:induction false} ScanRowsLongLines(lines: seq<string>, r: nat, rhi: nat, clo: nat, chi: nat)
    requires rhi <= |lines|
    requires forall y :: r <= y < rhi ==> chi <= |lines[y]|
    ensures ScanRows(lines, r, rhi, clo, chi) ==
      Some(exists y, x :: r <= y < rhi && clo <= x < chi && IsSymbol(lines[y][x]))
    decreases rhi - r
  {
    if r < rhi {
      ScanRowsLongLines(lines, r + 1, rhi, clo, chi);
    }
  }

  /** Whether `parse_schematic` counts the part, or `None` if looking
      around it panics. */
  function Counted(lines: seq<string>, p: Part): Option<bool> {
    var rows := Around(p.row, p.row + 1, |lines|);
    var cols := Around(p.cols.0, p.cols.1, |lines|);
    ScanRows(lines, rows.0, rows.1, cols.0, cols.1)
  }

  /** A symbol touches the part, diagonals included. */
  ghost predicate Adjacent(lines: seq<string>, p: Part) {
    exists y, x :: 0 <= y < |lines| && 0 <= x < |lines[y]|
      && p.row <= y + 1 && y <= p.row + 1 && p.cols.0 <= x + 1 && x <= p.cols.1
      && IsSymbol(lines[y][x])
  }

  /** Every line is as long as there are lines. */
  ghost predicate Square(lines: seq<string>) {
    forall y :: 0 <= y < |lines| ==> |lines[y]| == |lines|
  }

  /** On a square schematic a part counts exactly when a symbol touches it. */
  lemma CountedSquare(lines: seq<string>, p: Part)
    requires Square(lines)
    ensures Counted(lines, p) == Some(Adjacent(lines, p))
  {
    var rows := Around(p.row, p.row + 1, |lines|);
    var cols := Around(p.cols.0, p.cols.1, |lines|);
    ScanRowsLongLines(lines, rows.0, rows.1, cols.0, cols.1);
    if Adjacent(lines, p) {
      var y, x :| 0 <= y < |lines| && 0 <= x < |lines[y]|
        && p.row <= y + 1 && y <= p.row + 1 && p.cols.0 <= x + 1 && x <= p.cols.1
        && IsSymbol(lines[y][x]);
      assert rows.0 <= y < rows.1 && cols.0 <= x < cols.1;
    }
  }

  /** The column window is cut off at the number of lines, so a symbol
      right of a part on a line longer than that is not seen. */
  lemma CountedWideLine()
    ensures Counted(["1*"], Part(1, 0, (0, 1))) == Some(false)
    ensures Adjacent(["1*"], Part(1, 0, (0, 1)))
  {
    assert IsSymbol(["1*"][0][1]);
  }

  /** A line shorter than the number of lines makes the column loop index
      past its end. */
  lemma CountedShortLine()
    ensures Counted(["1", "."], Part(1, 0, (0, 1))) == None
  {
  }

  /** The first loop of `parse_schematic`: the sum of the counted parts'
      values and the counted parts, or `None` if any part panics. */
  function CountParts(lines: seq<string>, ps: seq<Part>): (r: Option<(nat, seq<Part>)>)
    ensures r.Some? <==> forall k :: 0 <= k < |ps| ==> Counted(lines, ps[k]).Some?
    ensures r.Some? ==> forall q :: q in r.value.1 <==> q in ps && Counted(lines, q) == Some(true)
  {
    if ps == [] then Some((0, []))
    else
      var last := ps[|ps| - 1];
      match CountParts(lines, ps[..|ps| - 1])
      case None => None
      case Some(acc) =>
        match Counted(lines, last)
        case None => None
        case Some(true) => Some((acc.0 + last.value, acc.1 + [last]))
        case Some(false) => Some(acc)
  }

  function Values(ps: seq<Part>): (vs: seq<int>)
    ensures |vs| == |ps| && forall k :: 0 <= k < |ps| ==> vs[k] == ps[k].value
  {
    if ps == [] then [] else Values(ps[..|ps| - 1]) + [ps[|ps| - 1].value]
  }

  /** The part sum is the sum of the counted parts' values. */
  lemma {:induction false} CountPartsSum(lines: seq<string>, ps: seq<Part>)
    requires CountParts(lines, ps).Some?
    ensures CountParts(lines, ps).value.0 == Sum(Values(CountParts(lines, ps).value.1))
  {
    if ps != [] {
      var init := ps[..|ps| - 1];
      CountPartsSum(lines, init);
      var acc := CountParts(lines, init).value;
      if Counted(lines, ps[|ps| - 1]) == Some(true) {
        assert Values(acc.1 + [ps[|ps| - 1]]) == Values(acc.1) + [ps[|ps| - 1].value];
        SumAppend(Values(acc.1), [ps[|ps| - 1].value]);
      }
    }
  }

  // ---------------------------------------------------------------------
  // Gears

  /** The part covers column `c` of row `r`. */
  predicate Covers(p: Part, r: nat, c: nat) {
    p.row == r && p.cols.0 <= c < p.cols.1
  }

  /** `true_parts.iter().find(...)`: the first part covering the cell. */
  function FindPart(ps: seq<Part>, r: nat, c: nat): (o: Option<Part>)
    ensures o.Some? ==> o.value in ps && Covers(o.value, r, c)
    ensures o.None? <==> forall k :: 0 <= k < |ps| ==> !Covers(ps[k], r, c)
  {
    if ps == [] then None
    else if Covers(ps[0], r, c) then Some(ps[0])
    else FindPart(ps[1..], r, c)
  }

  /** The part found is the first one covering the cell. */
  lemma {:induction false} FindPartFirst(ps: seq<Part>, r: nat, c: nat)
    requires FindPart(ps, r, c).Some?
    ensures exists k :: 0 <= k < |ps| && ps[k] == FindPart(ps, r, c).value
                        && forall j :: 0 <= j < k ==> !Covers(ps[j], r, c)
  {
    if !Covers(ps[0], r, c) {
      FindPartFirst(ps[1..], r, c);
      var k :| 0 <= k < |ps[1..]| && ps[1..][k] == FindPart(ps, r, c).value
                && forall j :: 0 <= j < k ==> !Covers(ps[1..][j], r, c);
      assert ps[k + 1] == ps[1..][k];
      forall j | 0 <= j < k + 1
        ensures !Covers(ps[j], r, c)
      {
        if j > 0 {
          assert ps[j] == ps[1..][j - 1];
        }
      }
    }
  }

  /** Append the part found, unless already there. */
  function AddNew(acc: seq<Part>, o: Option<Part>): seq<Part> {
    match o
    case None => acc
    case Some(p) => if p in acc then acc else acc + [p]
  }

  /** No part listed twice. */
  ghost predicate NoDup(ps: seq<Part>) {
    forall i, j :: 0 <= i < j < |ps| ==> ps[i] != ps[j]
  }

  /** The column loop around a gear in row `r`. */
  function NeighboursCols(ps: seq<Part>, r: nat, c: nat, chi: nat, acc: seq<Part>): seq<Part>
    decreases chi - c
  {
    if chi <= c then acc
    else NeighboursCols(ps, r, c + 1, chi, AddNew(acc, FindPart(ps, r, c)))
  }

  /** Some column in `lo .. hi` of row `r` finds `q`. */
  ghost predicate FoundIn(ps: seq<Part>, r: nat, lo: nat, hi: nat, q: Part) {
    exists x: nat :: lo <= x < hi && FindPart(ps, r, x) == Some(q)
  }

  lemma FoundInStep(ps: seq<Part>, r: nat, lo: nat, hi: nat, q: Part)
    requires lo < hi
    ensures FoundIn(ps, r, lo, hi, q) <==> FindPart(ps, r, lo) == Some(q) || FoundIn(ps, r, lo + 1, hi, q)
  {
    if FoundIn(ps, r, lo, hi, q) && FindPart(ps, r, lo) != Some(q) {
      var x: nat :| lo <= x < hi && FindPart(ps, r, x) == Some(q);
      assert lo + 1 <= x;
    }
  }

  /** The column loop adds exactly the parts found in its columns. */
  lemma {:induction false} NeighboursColsHas(ps: seq<Part>, r: nat, c: nat, chi: nat, acc: seq<Part>, q: Part)
    ensures q in NeighboursCols(ps, r, c, chi, acc) <==> q in acc || FoundIn(ps, r, c, chi, q)
    decreases chi - c
  {
    if c < chi {
      var next := AddNew(acc, FindPart(ps, r, c));
      NeighboursColsHas(ps, r, c + 1, chi, next, q);
      FoundInStep(ps, r, c, chi, q);
    }
  }

  /** The row loop around a gear. */
  function NeighboursRows(ps: seq<Part>, r: nat, rhi: nat, clo: nat, chi: nat, acc: seq<Part>): seq<Part>
    decreases rhi - r
  {
    if rhi <= r then acc
    else NeighboursRows(ps, r + 1, rhi, clo, chi, NeighboursCols(ps, r, clo, chi, acc))
  }

  /** Some cell of rows `lo .. hi` and columns `clo .. chi` finds `q`. */
  ghost predicate FoundAround(ps: seq<Part>, lo: nat, hi: nat, clo: nat, chi: nat, q: Part) {
    exists y: nat :: lo <= y < hi && FoundIn(ps, y, clo, chi, q)
  }

  lemma FoundAroundStep(ps: seq<Part>, lo: nat, hi: nat, clo: nat, chi: nat, q: Part)
    requires lo < hi
    ensures FoundAround(ps, lo, hi, clo, chi, q) <==>
            FoundIn(ps, lo, clo, chi, q) || FoundAround(ps, lo + 1, hi, clo, chi, q)
  {
    if FoundAround(ps, lo, hi, clo, chi, q) && !FoundIn(ps, lo, clo, chi, q) {
      var y: nat :| lo <= y < hi && FoundIn(ps, y, clo, chi, q);
      assert lo + 1 <= y;
    }
  }

  /** The row loop adds exactly the parts found in its window. */
  lemma {:induction false} NeighboursRowsHas(ps: seq<Part>, r: nat, rhi: nat, clo: nat, chi: nat, acc: seq<Part>, q: Part)
    ensures q in NeighboursRows(ps, r, rhi, clo, chi, acc) <==> q in acc || FoundAround(ps, r, rhi, clo, chi, q)
    decreases rhi - r
  {
    if r < rhi {
      var next := NeighboursCols(ps, r, clo, chi, acc);
      assert NeighboursRows(ps, r, rhi, clo, chi, acc) == NeighboursRows(ps, r + 1, rhi, clo, chi, next);
      NeighboursRowsHas(ps, r + 1, rhi, clo, chi, next, q);
      NeighboursColsHas(ps, r, clo, chi, acc, q);
      FoundAroundStep(ps, r, rhi, clo, chi, q);
    }
  }

  /** The distinct counted parts around the gear, `n` being the number of
      lines. */
  function Neighbours(ps: seq<Part>, g: Gear, n: nat): seq<Part> {
    var rows := Around(g.row, g.row + 1, n);
    var cols := Around(g.col, g.col + 1, n);
    NeighboursRows(ps, rows.0, rows.1, cols.0, cols.1, [])
  }

  /** The gear's ratio: the product of its neighbours when there are
      exactly two, nothing otherwise. */
  function GearRatio(ps: seq<Part>, g: Gear, n: nat): (ratio: nat)
    ensures ratio != 0 ==> |Neighbours(ps, g, n)| == 2
    ensures |Neighbours(ps, g, n)| == 2 ==> ratio == Neighbours(ps, g, n)[0].value * Neighbours(ps, g, n)[1].value
  {
    var nb := Neighbours(ps, g, n);
    if |nb| == 2 then nb[0].value * nb[1].value else 0
  }

  function GearRatios(ps: seq<Part>, gs: seq<Gear>, n: nat): (rs: seq<int>)
    ensures |rs| == |gs| && forall k :: 0 <= k < |gs| ==> rs[k] >= 0
  {
    if gs == [] then [] else GearRatios(ps, gs[..|gs| - 1], n) + [GearRatio(ps, gs[|gs| - 1], n)]
  }

  /** No two parts of a row overlap. */
  ghost predicate RowDisjoint(ps: seq<Part>) {
    forall i, j ::
      (0 <= i < |ps| && 0 <= j < |ps| && ps[i].row == ps[j].row
       && ps[i].cols.0 < ps[j].cols.1 && ps[j].cols.0 < ps[i].cols.1) ==> ps[i] == ps[j]
  }

  /** Some cell of the part lies in the gear's window of `n` rows and
      columns. */
  ghost predicate Touches(q: Part, g: Gear, n: nat) {
    exists y: nat, x: nat :: y < n && x < n && Near(y, g.row, g.row + 1) && Near(x, g.col, g.col + 1)
                            && Covers(q, y, x)
  }

  /** When no two parts overlap, the part found at a cell is the one
      covering it. */
  lemma FindOnly(ps: seq<Part>, r: nat, c: nat, q: Part)
    requires RowDisjoint(ps)
    requires q in ps && Covers(q, r, c)
    ensures FindPart(ps, r, c) == Some(q)
  {
    var o := FindPart(ps, r, c);
    var i :| 0 <= i < |ps| && ps[i] == q;
    assert o.Some?;
    var j :| 0 <= j < |ps| && ps[j] == o.value;
    assert Covers(ps[j], r, c);
    assert ps[i] == ps[j];
  }

  /** The rows and columns a gear's neighbours are looked for in. */
  ghost predicate FoundNear(ps: seq<Part>, g: Gear, n: nat, q: Part) {
    var rows := Around(g.row, g.row + 1, n);
    var cols := Around(g.col, g.col + 1, n);
    FoundAround(ps, rows.0, rows.1, cols.0, cols.1, q)
  }

  lemma NeighboursHas(ps: seq<Part>, g: Gear, n: nat, q: Part)
    ensures q in Neighbours(ps, g, n) <==> FoundNear(ps, g, n, q)
  {
    var rows := Around(g.row, g.row + 1, n);
    var cols := Around(g.col, g.col + 1, n);
    NeighboursRowsHas(ps, rows.0, rows.1, cols.0, cols.1, [], q);
  }

  /** A part touching the gear is found around it when no two parts
      overlap: the first part covering its cell is the part itself. */
  lemma TouchingIsFound(ps: seq<Part>, g: Gear, n: nat, q: Part)
    requires RowDisjoint(ps)
    requires q in ps && Touches(q, g, n)
    ensures FoundNear(ps, g, n, q)
  {
    var rows := Around(g.row, g.row + 1, n);
    var cols := Around(g.col, g.col + 1, n);
    var y: nat, x: nat :| y < n && x < n && Near(y, g.row, g.row + 1) && Near(x, g.col, g.col + 1) && Covers(q, y, x);
    FindOnly(ps, y, x, q);
    assert rows.0 <= y < rows.1 && cols.0 <= x < cols.1;
    assert FoundIn(ps, y, cols.0, cols.1, q);
  }

  /** Whatever is found around the gear is a part touching it. */
  lemma FoundIsTouching(ps: seq<Part>, g: Gear, n: nat, q: Part)
    requires FoundNear(ps, g, n, q)
    ensures q in ps && Touches(q, g, n)
  {
    var rows := Around(g.row, g.row + 1, n);
    var cols := Around(g.col, g.col + 1, n);
    var y: nat :| rows.0 <= y < rows.1 && FoundIn(ps, y, cols.0, cols.1, q);
    var x: nat :| cols.0 <= x < cols.1 && FindPart(ps, y, x) == Some(q);
    assert q in ps && Covers(q, y, x);
    assert y < n && Near(y, g.row, g.row + 1);
    assert x < n && Near(x, g.col, g.col + 1);
  }

  /** When no two parts overlap, the neighbours of a gear are the parts
      touching its window. */
  lemma NeighboursTouching(ps: seq<Part>, g: Gear, n: nat, q: Part)
    requires RowDisjoint(ps)
    ensures q in Neighbours(ps, g, n) <==> q in ps && Touches(q, g, n)
  {
    NeighboursHas(ps, g, n, q);
    if FoundNear(ps, g, n, q) {
      FoundIsTouching(ps, g, n, q);
    }
    if q in ps && Touches(q, g, n) {
      TouchingIsFound(ps, g, n, q);
    }
  }

  /** Adding a part only when absent keeps the list free of repeats. */
  lemma AddNewDistinct(acc: seq<Part>, o: Option<Part>)
    requires NoDup(acc)
    ensures NoDup(AddNew(acc, o))
  {
  }

  lemma {:induction false} NeighboursColsDistinct(ps: seq<Part>, r: nat, c: nat, chi: nat, acc: seq<Part>)
    requires NoDup(acc)
    ensures NoDup(NeighboursCols(ps, r, c, chi, acc))
    decreases chi - c
  {
    if c < chi {
      AddNewDistinct(acc, FindPart(ps, r, c));
      NeighboursColsDistinct(ps, r, c + 1, chi, AddNew(acc, FindPart(ps, r, c)));
    }
  }

  lemma {:induction false} NeighboursRowsDistinct(ps: seq<Part>, r: nat, rhi: nat, clo: nat, chi: nat, acc: seq<Part>)
    requires NoDup(acc)
    ensures NoDup(NeighboursRows(ps, r, rhi, clo, chi, acc))
    decreases rhi - r
  {
    if r < rhi {
      NeighboursColsDistinct(ps, r, clo, chi, acc);
      NeighboursRowsDistinct(ps, r + 1, rhi, clo, chi, NeighboursCols(ps, r, clo, chi, acc));
    }
  }

  /** The neighbours of a gear are listed once each. */
  lemma NeighboursDistinct(ps: seq<Part>, g: Gear, n: nat)
    ensures NoDup(Neighbours(ps, g, n))
  {
    var rows := Around(g.row, g.row + 1, n);
    var cols := Around(g.col, g.col + 1, n);
    NeighboursRowsDistinct(ps, rows.0, rows.1, cols.0, cols.1, []);
  }

  /** Parts read off one line lie strictly left to right. */
  lemma {:induction false} RunsApart(s: string, row: nat, parts: seq<Part>, lo: nat, i: nat, j: nat)
    requires RunsFrom(s, row, parts, lo) && i < j < |parts|
    ensures parts[i].cols.1 < parts[j].cols.0
    decreases j - i
  {
    if i + 1 < j {
      RunsApart(s, row, parts, lo, i + 1, j);
      assert IsRun(s, parts[i + 1].cols.0, parts[i + 1].cols.1);
    }
  }

  /** No two parts of one line overlap. */
  lemma LineDisjoint(s: string, row: nat)
    ensures RowDisjoint(ParseLine(s, row).0)
  {
    var ps := ParseLine(s, row).0;
    ParseLineFinds(s, row);
    forall i, j | 0 <= i < |ps| && 0 <= j < |ps|
      ensures (ps[i].row == ps[j].row && ps[i].cols.0 < ps[j].cols.1 && ps[j].cols.0 < ps[i].cols.1) ==> ps[i] == ps[j]
    {
      if i < j {
        RunsApart(s, row, ps, 0, i, j);
      } else if j < i {
        RunsApart(s, row, ps, 0, j, i);
      }
    }
  }

  /** No two possible parts of the schematic overlap. */
  lemma {:induction false} PossiblePartsDisjoint(lines: seq<string>, n: nat)
    requires n <= |lines|
    ensures RowDisjoint(PossibleParts(lines, n))
  {
    if n > 0 {
      PossiblePartsDisjoint(lines, n - 1);
      LineDisjoint(lines[n - 1], n - 1);
      ParseLineFinds(lines[n - 1], n - 1);
      var init := PossibleParts(lines, n - 1);
      var line := ParseLine(lines[n - 1], n - 1).0;
      var ps := PossibleParts(lines, n);
      assert ps == init + line;
      forall i, j | 0 <= i < |ps| && 0 <= j < |ps|
        ensures (ps[i].row == ps[j].row && ps[i].cols.0 < ps[j].cols.1 && ps[j].cols.0 < ps[i].cols.1) ==> ps[i] == ps[j]
      {
        if i < |init| && j < |init| {
          assert ps[i] == init[i] && ps[j] == init[j];
        } else if |init| <= i && |init| <= j {
          assert ps[i] == line[i - |init|] && ps[j] == line[j - |init|];
        } else if i < |init| {
          assert ps[i] == init[i] && ps[j] == line[j - |init|];
          assert ps[i].row != ps[j].row;
        } else {
          assert ps[j] == init[j] && ps[i] == line[i - |init|];
          assert ps[i].row != ps[j].row;
        }
      }
    }
  }

  /** Every digit of the schematic lies in a possible part. */
  lemma {:induction false} PossiblePartsCover(lines: seq<string>, n: nat, y: nat, x: nat)
    requires n <= |lines| && y < n && DigitAt(lines[y], x)
    ensures exists k :: 0 <= k < |PossibleParts(lines, n)| && Covers(PossibleParts(lines, n)[k], y, x)
  {
    var init := PossibleParts(lines, n - 1);
    var line := ParseLine(lines[n - 1], n - 1).0;
    assert PossibleParts(lines, n) == init + line;
    if y < n - 1 {
      PossiblePartsCover(lines, n - 1, y, x);
      var k :| 0 <= k < |init| && Covers(init[k], y, x);
      assert PossibleParts(lines, n)[k] == init[k];
    } else {
      ParseLineFinds(lines[n - 1], n - 1);
      var k :| 0 <= k < |line| && line[k].cols.0 <= x < line[k].cols.1;
      assert PossibleParts(lines, n)[|init| + k] == line[k];
    }
  }

  /** Dropping parts keeps them apart. */
  lemma DisjointSubset(ps: seq<Part>, qs: seq<Part>)
    requires RowDisjoint(ps) && forall k :: 0 <= k < |qs| ==> qs[k] in ps
    ensures RowDisjoint(qs)
  {
    forall i, j | 0 <= i < |qs| && 0 <= j < |qs|
      ensures (qs[i].row == qs[j].row && qs[i].cols.0 < qs[j].cols.1 && qs[j].cols.0 < qs[i].cols.1) ==> qs[i] == qs[j]
    {
      var a :| 0 <= a < |ps| && ps[a] == qs[i];
      var b :| 0 <= b < |ps| && ps[b] == qs[j];
    }
  }

  /** Three distinct parts cannot all be one of two. */
  lemma ThirdOther(s: seq<Part>, a: Part, b: Part)
    requires NoDup(s) && |s| >= 3
    ensures exists k :: 0 <= k < |s| && s[k] != a && s[k] != b
  {
    if s[0] != a && s[0] != b {
    } else if s[1] != a && s[1] != b {
    } else {
      assert s[2] != s[0] && s[2] != s[1];
    }
  }

  /** A gear touched by exactly two distinct parts has their product as
      its ratio. */
  lemma GearRatioOfTwo(ps: seq<Part>, g: Gear, n: nat, a: Part, b: Part)
    requires RowDisjoint(ps)
    requires a in ps && b in ps && a != b && Touches(a, g, n) && Touches(b, g, n)
    requires forall q :: q in ps && Touches(q, g, n) ==> q == a || q == b
    ensures GearRatio(ps, g, n) == a.value * b.value
  {
    var nb := Neighbours(ps, g, n);
    NeighboursTouching(ps, g, n, a);
    NeighboursTouching(ps, g, n, b);
    NeighboursDistinct(ps, g, n);
    forall k | 0 <= k < |nb|
      ensures nb[k] == a || nb[k] == b
    {
      NeighboursTouching(ps, g, n, nb[k]);
    }
    var i :| 0 <= i < |nb| && nb[i] == a;
    var j :| 0 <= j < |nb| && nb[j] == b;
    if |nb| >= 3 {
      ThirdOther(nb, a, b);
      assert false;
    }
    assert i != j;
    assert nb == [a, b] || nb == [b, a];
  }

  /** A non-zero ratio means exactly two distinct parts touch the gear,
      and the ratio is their product. */
  lemma GearRatioTouching(ps: seq<Part>, g: Gear, n: nat)
    requires RowDisjoint(ps) && GearRatio(ps, g, n) != 0
    ensures exists a, b :: a in ps && b in ps && a != b && Touches(a, g, n) && Touches(b, g, n)
              && (forall q :: q in ps && Touches(q, g, n) ==> q == a || q == b)
              && GearRatio(ps, g, n) == a.value * b.value
  {
    var nb := Neighbours(ps, g, n);
    NeighboursDistinct(ps, g, n);
    var a, b := nb[0], nb[1];
    NeighboursTouching(ps, g, n, a);
    NeighboursTouching(ps, g, n, b);
    forall q | q in ps && Touches(q, g, n)
      ensures q == a || q == b
    {
      NeighboursTouching(ps, g, n, q);
    }
  }

  /** The neighbours of any gear are the counted parts touching it. */
  lemma SchematicNeighbours(lines: seq<string>, g: Gear, q: Part)
    requires CountParts(lines, PossibleParts(lines, |lines|)).Some?
    ensures var counted := CountParts(lines, PossibleParts(lines, |lines|)).value.1;
            q in Neighbours(counted, g, |lines|) <==> q in counted && Touches(q, g, |lines|)
  {
    var ps := PossibleParts(lines, |lines|);
    var counted := CountParts(lines, ps).value.1;
    PossiblePartsDisjoint(lines, |lines|);
    DisjointSubset(ps, counted);
    NeighboursTouching(counted, g, |lines|, q);
  }

  /** A square schematic never makes the part loop index past a line. */
  lemma SquareNeverPanics(input: string)
    requires Square(Lines(input))
    ensures ParseSchematic(input).Some?
  {
    var lines := Lines(input);
    var ps := PossibleParts(lines, |lines|);
    forall k | 0 <= k < |ps|
      ensures Counted(lines, ps[k]).Some?
    {
      CountedSquare(lines, ps[k]);
    }
  }

  /** `parse_schematic`: the sum of the counted parts' values and the sum
      of the gear ratios, or `None` if counting panics. */
  function ParseSchematic(input: string): (r: Option<(nat, nat)>)
  {
    var lines := Lines(input);
    var n := |lines|;
    match CountParts(lines, PossibleParts(lines, n))
    case None => None
    case Some(counted) =>
      SumNonNegative(GearRatios(counted.1, PossibleGears(lines, n), n));
      Some((counted.0, Sum(GearRatios(counted.1, PossibleGears(lines, n), n))))
  }

  /** The solution answers unless counting a possible part reads past a
      line; part 1 is then the sum of the values of the parts next to a
      symbol, and part 2 the sum of the gear ratios over those parts. */
  lemma ParseSchematicSpec(input: string)
    ensures var lines := Lines(input); var ps := PossibleParts(lines, |lines|);
            ParseSchematic(input).Some? <==> forall k :: 0 <= k < |ps| ==> Counted(lines, ps[k]).Some?
    ensures var lines := Lines(input); var ps := PossibleParts(lines, |lines|);
            ParseSchematic(input).Some? ==>
              var counted := CountParts(lines, ps).value.1;
              (forall q :: q in counted <==> q in ps && Counted(lines, q) == Some(true)) &&
              ParseSchematic(input).value.0 == Sum(Values(counted)) &&
              ParseSchematic(input).value.1 == Sum(GearRatios(counted, PossibleGears(lines, |lines|), |lines|))
  {
    var lines := Lines(input);
    var ps := PossibleParts(lines, |lines|);
    if CountParts(lines, ps).Some? {
      CountPartsSum(lines, ps);
    }
  }
}
