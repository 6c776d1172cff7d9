/** Day 12: rows of springs, each '#' (damaged), '.' (operational) or '?'
    (unknown), with the sizes of the damaged groups; the number of ways to
    fill in the unknowns so that the groups come out right. */
module Day12 {
  import opened Common
  import opened Text

  /** The group sizes the scan finds from index `i` on, with `counter`
      '#'s already seen: '#' extends the current group, '.' closes it if
      it is open, every other character is skipped, and an open group is
      closed at the end. */
  function RunsFrom(s: string, i: nat, counter: nat): seq<nat>
    requires i <= |s|
    decreases |s| - i
  {
    if i == |s| then (if counter > 0 then [counter] else [])
    else if s[i] == '#' then RunsFrom(s, i + 1, counter + 1)
    else if s[i] == '.' && counter > 0 then [counter] + RunsFrom(s, i + 1, 0)
    else RunsFrom(s, i + 1, counter)
  }

  /** The groups of a row without unknowns. */
  function Runs(s: string): seq<nat> {
    RunsFrom(s, 0, 0)
  }

  /** The number of unknowns. */
  function CountQ(s: string): (n: nat)
    ensures n <= |s|
  {
    if s == [] then 0 else CountQ(s[..|s| - 1]) + (if s[|s| - 1] == '?' then 1 else 0)
  }

  /** The first unknown, if any. */
  function FirstQ(s: string): (r: Option<nat>)
    ensures r.Some? ==> r.value < |s| && s[r.value] == '?' && forall j :: 0 <= j < r.value ==> s[j] != '?'
    ensures r.None? <==> forall j :: 0 <= j < |s| ==> s[j] != '?'
  {
    if s == [] then None
    else if s[0] == '?' then Some(0)
    else match FirstQ(s[1..])
      case None => None
      case Some(i) => Some(i + 1)
  }

  lemma {:induction false} CountQNone(s: string)
    ensures CountQ(s) == 0 <==> forall j :: 0 <= j < |s| ==> s[j] != '?'
  {
    if s != [] {
      CountQNone(s[..|s| - 1]);
      assert forall j :: 0 <= j < |s| - 1 ==> s[..|s| - 1][j] == s[j];
    }
  }

  /** Filling in an unknown removes one unknown. */
  lemma {:induction false} CountQFill(s: string, i: nat, c: char)
    requires i < |s| && s[i] == '?' && c != '?'
    ensures CountQ(s[i := c]) + 1 == CountQ(s)
  {
    if i < |s| - 1 {
      assert s[i := c][..|s| - 1] == s[..|s| - 1][i := c];
      CountQFill(s[..|s| - 1], i, c);
    } else {
      assert s[i := c][..|s| - 1] == s[..|s| - 1];
    }
  }

  /** `find_possible_arrangements`: at the first unknown, the count for a
      '.' there plus the count for a '#' there; with no unknown left, 1 if
      the groups match and 0 otherwise. */
  function Arrangements(s: string, groups: seq<nat>): nat
    decreases CountQ(s)
  {
    match FirstQ(s)
    case None => if Runs(s) == groups then 1 else 0
    case Some(i) =>
      CountQFill(s, i, '.');
      CountQFill(s, i, '#');
      Arrangements(s[i := '.'], groups) + Arrangements(s[i := '#'], groups)
  }

  // ---------------------------------------------------------------------
  // What the count means

  /** A row without unknowns has one arrangement exactly when its groups
      are the wanted ones. */
  lemma ArrangementsKnown(s: string, groups: seq<nat>)
    requires forall j :: 0 <= j < |s| ==> s[j] != '?'
    ensures Arrangements(s, groups) == 1 <==> Runs(s) == groups
    ensures Arrangements(s, groups) == 0 <==> Runs(s) != groups
  {
  }

  /** At most two choices per unknown. */
  lemma {:induction false} ArrangementsBound(s: string, groups: seq<nat>)
    ensures Arrangements(s, groups) <= Pow(2, CountQ(s))
    decreases CountQ(s)
  {
    match FirstQ(s)
    case None =>
      CountQNone(s);
    case Some(i) =>
      CountQFill(s, i, '.');
      CountQFill(s, i, '#');
      ArrangementsAtFirst(s, groups, i);
      ArrangementsBound(s[i := '.'], groups);
      ArrangementsBound(s[i := '#'], groups);
      assert Pow(2, CountQ(s)) == 2 * Pow(2, CountQ(s) - 1);
  }

  /** Branching on ANY unknown, not only the first, splits the count the
      same way: the count does not depend on the order the unknowns are
      filled in. */
  lemma {:induction false} ArrangementsSplitAnywhere(s: string, groups: seq<nat>, i: nat)
    requires i < |s| && s[i] == '?'
    ensures Arrangements(s, groups) == Arrangements(s[i := '.'], groups) + Arrangements(s[i := '#'], groups)
    decreases CountQ(s)
  {
    var j := FirstQ(s).value;
    if j != i {
      assert j < i;
      var dot, hash := s[j := '.'], s[j := '#'];
      CountQFill(s, j, '.');
      CountQFill(s, j, '#');
      ArrangementsAtFirst(s, groups, j);
      ArrangementsSplitAnywhere(dot, groups, i);
      ArrangementsSplitAnywhere(hash, groups, i);
      FirstAfterFill(s, j, i, '.');
      FirstAfterFill(s, j, i, '#');
      ArrangementsAtFirst(s[i := '.'], groups, j);
      ArrangementsAtFirst(s[i := '#'], groups, j);
      UpdatesCommute(s, i, '.', j, '.');
      UpdatesCommute(s, i, '.', j, '#');
      UpdatesCommute(s, i, '#', j, '.');
      UpdatesCommute(s, i, '#', j, '#');
    }
  }

  lemma UpdatesCommute(s: string, i: nat, a: char, j: nat, b: char)
    requires i < |s| && j < |s| && i != j
    ensures s[i := a][j := b] == s[j := b][i := a]
  {
  }

  /** The count splits at the first unknown. */
  lemma ArrangementsAtFirst(s: string, groups: seq<nat>, j: nat)
    requires FirstQ(s) == Some(j)
    ensures Arrangements(s, groups) == Arrangements(s[j := '.'], groups) + Arrangements(s[j := '#'], groups)
  {
  }

  /** Filling a later unknown leaves the first one first. */
  lemma FirstAfterFill(s: string, j: nat, i: nat, c: char)
    requires FirstQ(s) == Some(j) && j < i < |s|
    ensures FirstQ(s[i := c]) == Some(j)
  {
    var t := s[i := c];
    assert t[j] == '?';
    assert forall k :: 0 <= k < j ==> t[k] == s[k];
    match FirstQ(t)
    case None =>
    case Some(k) =>
      assert k == j;
  }

  // ---------------------------------------------------------------------
  // The fillings of a row

  /** `f` is the row `s` with every unknown filled in as '.' or '#' and
      every other character kept. */
  ghost predicate IsFilling(s: string, f: string) {
    |f| == |s| && forall k :: 0 <= k < |s| ==> if s[k] == '?' then f[k] == '.' || f[k] == '#' else f[k] == s[k]
  }

  /** Every row of `fs` with `c` added at its end. */
  function Appended(fs: seq<string>, c: char): (r: seq<string>)
    ensures |r| == |fs| && forall k :: 0 <= k < |fs| ==> r[k] == fs[k] + [c]
  {
    if fs == [] then [] else [fs[0] + [c]] + Appended(fs[1..], c)
  }

  /** The fillings of `s`, one choice per unknown. */
  function Fillings(s: string): seq<string>
    decreases |s|
  {
    if s == [] then [[]]
    else
      var rest := Fillings(s[..|s| - 1]);
      var c := s[|s| - 1];
      if c == '?' then Appended(rest, '.') + Appended(rest, '#') else Appended(rest, c)
  }

  /** The characters a filling may hold where the row holds `c`. */
  predicate Allowed(c: char, x: char) {
    if c == '?' then x == '.' || x == '#' else x == c
  }

  /** The rows `Appended` lists are the rows of `fs`, each extended. */
  lemma AppendedMember(fs: seq<string>, c: char, f: string)
    ensures f in Appended(fs, c) <==> |f| > 0 && f[|f| - 1] == c && f[..|f| - 1] in fs
  {
    if f in Appended(fs, c) {
      var m :| 0 <= m < |fs| && Appended(fs, c)[m] == f;
      assert f[..|f| - 1] == fs[m];
    }
    if |f| > 0 && f[|f| - 1] == c && f[..|f| - 1] in fs {
      var m :| 0 <= m < |fs| && fs[m] == f[..|f| - 1];
      assert Appended(fs, c)[m] == f;
    }
  }

  /** A row is listed for `s` exactly when it ends in a character allowed
      by the last one of `s` and the rest is listed for the rest of `s`. */
  lemma FillingsLast(s: string, f: string)
    requires s != []
    ensures f in Fillings(s) <==>
              |f| > 0 && Allowed(s[|s| - 1], f[|f| - 1]) && f[..|f| - 1] in Fillings(s[..|s| - 1])
  {
    var rest := Fillings(s[..|s| - 1]);
    AppendedMember(rest, '.', f);
    AppendedMember(rest, '#', f);
    AppendedMember(rest, s[|s| - 1], f);
  }

  /** A filling is a filling of the row without its last character,
      extended by an allowed character. */
  lemma FillingLast(s: string, f: string)
    requires s != []
    ensures IsFilling(s, f) <==>
              |f| == |s| && Allowed(s[|s| - 1], f[|f| - 1]) && IsFilling(s[..|s| - 1], f[..|f| - 1])
  {
    var p := s[..|s| - 1];
    if |f| == |s| {
      var g := f[..|f| - 1];
      assert forall k :: 0 <= k < |p| ==> g[k] == f[k] && p[k] == s[k];
    }
  }

  /** `Fillings` lists exactly the fillings of the row. */
  lemma {:induction false} FillingsSpec(s: string, f: string)
    ensures f in Fillings(s) <==> IsFilling(s, f)
    decreases |s|
  {
    if s == [] {
      assert IsFilling(s, f) <==> f == [];
    } else {
      FillingsLast(s, f);
      FillingLast(s, f);
      if |f| > 0 {
        FillingsSpec(s[..|s| - 1], f[..|f| - 1]);
      }
    }
  }

  /** There are two fillings per unknown. */
  lemma {:induction false} FillingsCount(s: string)
    ensures |Fillings(s)| == Pow(2, CountQ(s))
    decreases |s|
  {
    if s != [] {
      var p, c := s[..|s| - 1], s[|s| - 1];
      FillingsCount(p);
      assert CountQ(s) == CountQ(p) + (if c == '?' then 1 else 0);
      if c == '?' {
        assert Pow(2, CountQ(s)) == 2 * Pow(2, CountQ(p));
        assert |Fillings(s)| == |Appended(Fillings(p), '.')| + |Appended(Fillings(p), '#')|;
      } else {
        assert |Fillings(s)| == |Appended(Fillings(p), c)|;
      }
    }
  }

  /** The fillings of `s` at an unknown are those of the row with a '.'
      there and those of the row with a '#' there. */
  lemma FillingSplit(s: string, i: nat, f: string)
    requires i < |s| && s[i] == '?'
    ensures IsFilling(s, f) <==> IsFilling(s[i := '.'], f) || IsFilling(s[i := '#'], f)
    ensures !(IsFilling(s[i := '.'], f) && IsFilling(s[i := '#'], f))
  {
    if IsFilling(s, f) {
      if f[i] == '.' {
        assert IsFilling(s[i := '.'], f);
      } else {
        assert IsFilling(s[i := '#'], f);
      }
    }
    if IsFilling(s[i := '.'], f) || IsFilling(s[i := '#'], f) {
      assert forall k :: 0 <= k < |s| && k != i ==> s[i := '.'][k] == s[k] && s[i := '#'][k] == s[k];
    }
  }

  /** The fillings of `s` whose groups are the wanted ones. */
  function Matching(s: string, groups: seq<nat>): set<string> {
    set f | f in Fillings(s) && Runs(f) == groups
  }

  /** At an unknown the matching fillings split into two disjoint sets. */
  lemma MatchingSplit(s: string, groups: seq<nat>, i: nat)
    requires i < |s| && s[i] == '?'
    ensures Matching(s, groups) == Matching(s[i := '.'], groups) + Matching(s[i := '#'], groups)
    ensures Matching(s[i := '.'], groups) !! Matching(s[i := '#'], groups)
  {
    var dot, hash := s[i := '.'], s[i := '#'];
    forall f
      ensures f in Matching(s, groups) <==> f in Matching(dot, groups) || f in Matching(hash, groups)
      ensures !(f in Matching(dot, groups) && f in Matching(hash, groups))
    {
      FillingsSpec(s, f);
      FillingsSpec(dot, f);
      FillingsSpec(hash, f);
      FillingSplit(s, i, f);
    }
  }

  /** A row without unknowns is its own only filling. */
  lemma KnownMatching(s: string, groups: seq<nat>)
    requires forall j :: 0 <= j < |s| ==> s[j] != '?'
    ensures Matching(s, groups) == if Runs(s) == groups then {s} else {}
  {
    forall f
      ensures f in Matching(s, groups) <==> f == s && Runs(s) == groups
    {
      FillingsSpec(s, f);
      if IsFilling(s, f) {
        assert f == s;
      }
    }
  }

  /** `find_possible_arrangements` counts the fillings of the row whose
      groups are the wanted ones. */
  lemma {:induction false} ArrangementsCountsFillings(s: string, groups: seq<nat>)
    ensures Arrangements(s, groups) == |Matching(s, groups)|
    decreases CountQ(s)
  {
    match FirstQ(s)
    case None =>
      KnownMatching(s, groups);
    case Some(i) =>
      CountQFill(s, i, '.');
      CountQFill(s, i, '#');
      ArrangementsAtFirst(s, groups, i);
      ArrangementsCountsFillings(s[i := '.'], groups);
      ArrangementsCountsFillings(s[i := '#'], groups);
      MatchingSplit(s, groups, i);
  }

  /** `n` damaged springs. */
  function Hashes(n: nat): (s: string)
    ensures |s| == n && forall k :: 0 <= k < n ==> s[k] == '#'
  {
    if n == 0 then [] else Hashes(n - 1) + ['#']
  }

  /** The row with exactly the given groups, one '.' between them. */
  function Render(groups: seq<nat>): string {
    if groups == [] then []
    else if |groups| == 1 then Hashes(groups[0])
    else Hashes(groups[0]) + "." + Render(groups[1..])
  }

  lemma {:induction false} RunsFromHashes(t: string, n: nat, counter: nat, rest: string)
    requires t == Hashes(n) + rest
    ensures RunsFrom(t, 0, counter) == RunsFrom(rest, 0, counter + n)
    decreases n
  {
    if n == 0 {
      assert t == rest;
    } else {
      assert Hashes(n) == Hashes(n - 1) + ['#'];
      assert t[0] == '#';
      assert RunsFrom(t, 0, counter) == RunsFrom(t, 1, counter + 1);
      var t' := Hashes(n - 1) + rest;
      assert t[1..] == t';
      RunsShift(t, 1, counter + 1);
      RunsFromHashes(t', n - 1, counter + 1, rest);
    }
  }

  /** Scanning a suffix is scanning the whole row from where it starts. */
  lemma {:induction false} RunsShift(t: string, k: nat, counter: nat)
    requires k <= |t|
    ensures RunsFrom(t, k, counter) == RunsFrom(t[k..], 0, counter)
    decreases |t| - k
  {
    if k < |t| {
      RunsShift(t, k + 1, counter);
      RunsShift(t, k + 1, 0);
      RunsShift(t, k + 1, counter + 1);
      var u := t[k..];
      assert u[1..] == t[k + 1..];
      RunsShift(u, 1, counter);
      RunsShift(u, 1, 0);
      RunsShift(u, 1, counter + 1);
    }
  }

  /** A character other than '#' and '.' changes nothing in the scan: the
      groups are those of the row with it deleted, so it does not even
      separate two runs of '#'. */
  lemma {:induction false} RunsIgnoresOther(s: string, i: nat, k: nat, counter: nat)
    requires k <= i < |s| && s[i] != '#' && s[i] != '.'
    ensures RunsFrom(s, k, counter) == RunsFrom(s[..i] + s[i + 1..], k, counter)
    decreases i - k
  {
    var t := s[..i] + s[i + 1..];
    if k == i {
      assert RunsFrom(s, i, counter) == RunsFrom(s, i + 1, counter);
      RunsShift(s, i + 1, counter);
      RunsShift(t, i, counter);
      assert t[i..] == s[i + 1..];
    } else {
      assert t[k] == s[k];
      RunsIgnoresOther(s, i, k + 1, counter);
      RunsIgnoresOther(s, i, k + 1, counter + 1);
      RunsIgnoresOther(s, i, k + 1, 0);
    }
  }

  /** A rendered row has exactly the groups it was rendered from. */
  lemma {:induction false} RunsOfRender(groups: seq<nat>)
    requires forall k :: 0 <= k < |groups| ==> groups[k] > 0
    ensures Runs(Render(groups)) == groups
    decreases |groups|
  {
    if |groups| == 1 {
      RunsFromHashes(Render(groups), groups[0], 0, []);
    } else if |groups| > 1 {
      var rest := "." + Render(groups[1..]);
      RunsFromHashes(Render(groups), groups[0], 0, rest);
      assert rest[1..] == Render(groups[1..]);
      RunsShift(rest, 1, 0);
      RunsOfRender(groups[1..]);
      assert groups == [groups[0]] + groups[1..];
    }
  }

  // ---------------------------------------------------------------------
  // Lines

  /** `process_line`: the row, a space, then comma-separated group sizes;
      `None` where `split_once` finds no space or a size does not parse.
      With at most two choices per unknown the count never exceeds
      2 to the power of the line's length. */
  function ProcessLine(line: string): (r: Option<nat>)
    ensures r.Some? ==> r.value <= Pow(2, |line|)
  {
    match SplitOnce(line, " ")
    case None => None
    case Some((springs, spec)) =>
      var words := Split(Trim(spec), ",");
      match AllSome(seq(|words|, k requires 0 <= k < |words| => ParseNat(words[k])))
      case None => None
      case Some(groups) =>
        ArrangementsBound(springs, groups);
        PowMonotone(2, CountQ(springs), |line|);
        Some(Arrangements(springs, groups))
  }

  /** `sum_possible_arrangements`: the counts of all lines added up;
      `None` if any line panics. */
  function SumArrangements(input: string): Option<nat>
  {
    var lines := Lines(input);
    match AllSome(seq(|lines|, k requires 0 <= k < |lines| => ProcessLine(lines[k])))
    case None => None
    case Some(counts) =>
      SumNonNegative(counts);
      Some(Sum(counts))
  }

  /** The sum is defined exactly when every line is. */
  lemma SumArrangementsDefined(input: string)
    ensures SumArrangements(input).Some? <==>
            forall k :: 0 <= k < |Lines(input)| ==> ProcessLine(Lines(input)[k]).Some?
  {
    var lines := Lines(input);
    var opts := seq(|lines|, k requires 0 <= k < |lines| => ProcessLine(lines[k]));
    assert forall k :: 0 <= k < |lines| ==> opts[k] == ProcessLine(lines[k]);
  }

  /** A defined sum adds up the lines' counts. */
  lemma SumArrangementsCounts(input: string)
    ensures SumArrangements(input).Some? ==>
            exists counts: seq<nat> :: |counts| == |Lines(input)|
              && (forall k :: 0 <= k < |counts| ==> ProcessLine(Lines(input)[k]) == Some(counts[k]))
              && SumArrangements(input).value == Sum(counts)
  {
    var lines := Lines(input);
    var opts := seq(|lines|, k requires 0 <= k < |lines| => ProcessLine(lines[k]));
    if AllSome(opts).Some? {
      var counts := AllSome(opts).value;
      assert forall k :: 0 <= k < |counts| ==> ProcessLine(lines[k]) == Some(counts[k]);
    }
  }

  /** A line that parses counts the fillings of the springs before its
      first space whose groups are the comma-separated sizes after it. */
  lemma ProcessLineSpec(line: string)
    ensures ProcessLine(line).Some? ==>
              exists springs, spec, groups :: line == springs + " " + spec
                && (forall j: nat :: !OccursAt(springs, " ", j))
                && |groups| == |Split(Trim(spec), ",")|
                && (forall k :: 0 <= k < |groups| ==> ParseNat(Split(Trim(spec), ",")[k]) == Some(groups[k]))
                && ProcessLine(line).value == Arrangements(springs, groups)
                && ProcessLine(line).value == |Matching(springs, groups)|
  {
    if ProcessLine(line).Some? {
      var (springs, spec) := SplitOnce(line, " ").value;
      var words := Split(Trim(spec), ",");
      var opts := seq(|words|, k requires 0 <= k < |words| => ParseNat(words[k]));
      var groups := AllSome(opts).value;
      assert forall k :: 0 <= k < |groups| ==> ParseNat(words[k]) == Some(groups[k]);
      assert ProcessLine(line).value == Arrangements(springs, groups);
      ArrangementsCountsFillings(springs, groups);
    }
  }

  /** A row of the unit test with no unknowns. */
  lemma KnownRowExample()
    ensures Arrangements("#.#.###", [1, 1, 3]) == 1
  {
    assert Runs("#.#.###") == [1, 1, 3];
  }

  /** One unknown, one way to fill it. */
  lemma OneWayExample()
    ensures Arrangements("#?", [2]) == 1
  {
    assert FirstQ("#?") == Some(1);
    ArrangementsAtFirst("#?", [2], 1);
    assert "#?"[1 := '.'] == "#.";
    assert "#?"[1 := '#'] == "##";
    assert Runs("#.") == [1];
    assert Runs("##") == [2];
  }

  /** Two unknowns, either of which may hold the one damaged spring. */
  lemma TwoWaysExample()
    ensures Arrangements("?.?", [1]) == 2
  {
    assert FirstQ("?.?") == Some(0);
    ArrangementsAtFirst("?.?", [1], 0);
    assert "?.?"[0 := '.'] == "..?";
    assert "?.?"[0 := '#'] == "#.?";
    TwoWaysLeft();
    TwoWaysRight();
  }

  lemma TwoWaysLeft()
    ensures Arrangements("..?", [1]) == 1
  {
    assert FirstQ("..?") == Some(2);
    ArrangementsAtFirst("..?", [1], 2);
    assert "..?"[2 := '.'] == "...";
    assert "..?"[2 := '#'] == "..#";
    assert Runs("...") == [] && Runs("..#") == [1];
  }

  lemma TwoWaysRight()
    ensures Arrangements("#.?", [1]) == 1
  {
    assert FirstQ("#.?") == Some(2);
    ArrangementsAtFirst("#.?", [1], 2);
    assert "#.?"[2 := '.'] == "#..";
    assert "#.?"[2 := '#'] == "#.#";
    assert Runs("#..") == [1] && Runs("#.#") == [1, 1];
  }
}
