/** Day 5: seeds are pushed through a chain of remapping stages.  Each
    stage is a list of rules "dest source len" that move the half-open
    source interval [source, source + len) to [dest, dest + len); values
    no rule covers keep their number.  Part 1 maps single seeds, part 2
    maps whole seed intervals at once. */
module Day5 {
  import opened Common
  import opened Text
  import opened SortedMaps

  /** One line "dest source len" of a mapping block. */
  datatype Rule = Rule(dest: nat, source: nat, len: nat)

  /** `Range<u64>`: the half-open interval [start, end). */
  datatype Range = Range(start: nat, end: nat)

  /** A stage as the solution's `BTreeMap<u64, (u64, u64)>`: source start
      to (dest, len), in ascending source order. */
  type MapTree = seq<Entry<(nat, nat)>>

  predicate Covers(r: Rule, x: int) {
    r.source <= x < r.source + r.len
  }

  predicate InRange(x: int, r: Range) {
    r.start <= x < r.end
  }

  predicate WellFormed(r: Range) {
    r.start <= r.end
  }

  function Length(r: Range): nat
    requires WellFormed(r)
  {
    r.end - r.start
  }

  function TotalLength(rs: seq<Range>): nat
    requires forall i :: 0 <= i < |rs| ==> WellFormed(rs[i])
  {
    if |rs| == 0 then 0 else TotalLength(rs[..|rs| - 1]) + Length(rs[|rs| - 1])
  }

  lemma {:induction false} TotalLengthAppend(a: seq<Range>, b: seq<Range>)
    requires forall i :: 0 <= i < |a| ==> WellFormed(a[i])
    requires forall i :: 0 <= i < |b| ==> WellFormed(b[i])
    ensures forall i :: 0 <= i < |a + b| ==> WellFormed((a + b)[i])
    ensures TotalLength(a + b) == TotalLength(a) + TotalLength(b)
    decreases |b|
  {
    if |b| == 0 {
      assert a + b == a;
    } else {
      assert (a + b)[..|a + b| - 1] == a + b[..|b| - 1];
      TotalLengthAppend(a, b[..|b| - 1]);
    }
  }

  // ---------------------------------------------------------------------
  // Scalar lookup (part 1)

  /** `find_map_dest`: the first rule, in list order, whose source interval
      holds `x` moves it; with no such rule `x` is unchanged.  The two
      lemmas below state this. */
  function FindMapDest(x: nat, rules: seq<Rule>): nat {
    if |rules| == 0 then x
    else if Covers(rules[0], x) then rules[0].dest + (x - rules[0].source)
    else FindMapDest(x, rules[1..])
  }

  /** The first covering rule decides, whatever the later rules say. */
  lemma {:induction false} FindMapDestFirstMatch(x: nat, rules: seq<Rule>, i: nat)
    requires i < |rules| && Covers(rules[i], x)
    requires forall j :: 0 <= j < i ==> !Covers(rules[j], x)
    ensures FindMapDest(x, rules) == rules[i].dest + (x - rules[i].source)
  {
    if i > 0 {
      assert !Covers(rules[0], x);
      assert forall j :: 0 <= j < i - 1 ==> rules[1..][j] == rules[j + 1];
      FindMapDestFirstMatch(x, rules[1..], i - 1);
    }
  }

  /** A value no rule covers keeps its number. */
  lemma {:induction false} FindMapDestNoMatch(x: nat, rules: seq<Rule>)
    requires forall i :: 0 <= i < |rules| ==> !Covers(rules[i], x)
    ensures FindMapDest(x, rules) == x
  {
    if |rules| > 0 {
      assert !Covers(rules[0], x);
      assert forall j :: 0 <= j < |rules| - 1 ==> rules[1..][j] == rules[j + 1];
      FindMapDestNoMatch(x, rules[1..]);
    }
  }

  /** The unit-test table of `find_map_dest`. */
  lemma FindMapDestExamples()
    ensures FindMapDest(99, [Rule(50, 98, 2), Rule(52, 50, 48)]) == 51
    ensures FindMapDest(53, [Rule(50, 98, 2), Rule(52, 50, 48)]) == 55
    ensures FindMapDest(15, [Rule(50, 98, 2), Rule(52, 50, 48)]) == 15
  {
  }

  /** A seed through every stage in order (the part-1 fold). */
  function Location(x: nat, stages: seq<seq<Rule>>): nat
    decreases |stages|
  {
    if |stages| == 0 then x else Location(FindMapDest(x, stages[0]), stages[1..])
  }

  // ---------------------------------------------------------------------
  // Interval splitting exactly as `find_mapped_ranges` does it

  /** The fold state `ReduceRanges`. */
  datatype Reduce = Reduce(found: seq<Range>, remaining: Option<Range>)

  /** The four-way split of the remainder against one rule's source
      interval [cs, ce), decided by whether that interval holds the
      remainder's start and its (exclusive) end.  A piece is found exactly
      when one of the two ends lies in the rule, and it is then the overlap
      of the remainder with the rule; what is left is the remainder's part
      beyond the rule's end when the start was held, and its part before
      the rule's start otherwise.  Nothing is left only when both ends lie
      in the rule.  No length is lost. */
  function SplitAgainst(rem: Range, cs: nat, ce: nat): (r: (Option<Range>, Option<Range>))
    requires WellFormed(rem)
    ensures r.0.Some? <==> (cs <= rem.start < ce || cs <= rem.end < ce)
    ensures r.0.Some? ==> r.0.value == Range(Max(rem.start, cs), Min(rem.end, ce))
    ensures r.1.None? <==> (cs <= rem.start < ce && cs <= rem.end < ce)
    ensures r.0.Some? && r.1.Some? ==> r.1.value == if cs <= rem.start then Range(ce, rem.end) else Range(rem.start, cs)
    ensures r.0.Some? ==> WellFormed(r.0.value) && cs <= r.0.value.start && r.0.value.end <= ce
    ensures r.1.Some? ==> WellFormed(r.1.value)
    ensures (if r.0.Some? then Length(r.0.value) else 0) + (if r.1.Some? then Length(r.1.value) else 0)
            == Length(rem)
    ensures r.0.None? ==> r.1 == Some(rem)
  {
    var containsStart := cs <= rem.start < ce;
    var containsEnd := cs <= rem.end < ce;
    if containsStart && containsEnd then (Some(rem), None)
    else if containsStart then (Some(Range(rem.start, ce)), Some(Range(ce, rem.end)))
    else if containsEnd then (Some(Range(cs, rem.end)), Some(Range(rem.start, cs)))
    else (None, Some(rem))
  }

  /** The rule's translation of a piece of its source interval. */
  function Translate(piece: Range, dest: nat, cs: nat): Range
    requires cs <= piece.start && cs <= piece.end
  {
    Range(dest + (piece.start - cs), dest + (piece.end - cs))
  }

  /** One step of the fold: the remainder is split against one rule and the
      found piece is moved by that rule. */
  function MapStep(acc: Reduce, e: Entry<(nat, nat)>): (r: Reduce)
    requires acc.remaining.Some? ==> WellFormed(acc.remaining.value)
    ensures r.remaining.Some? ==> WellFormed(r.remaining.value)
  {
    match acc.remaining
    case None => acc
    case Some(rem) =>
      var cs := e.key;
      var ce := e.key + e.value.1;
      var split := SplitAgainst(rem, cs, ce);
      var found := match split.0
        case Some(piece) => acc.found + [Translate(piece, e.value.0, cs)]
        case None => acc.found;
      Reduce(found, split.1)
  }

  function FoldRules(acc: Reduce, es: seq<Entry<(nat, nat)>>): (r: Reduce)
    requires acc.remaining.Some? ==> WellFormed(acc.remaining.value)
    ensures r.remaining.Some? ==> WellFormed(r.remaining.value)
    decreases |es|
  {
    if |es| == 0 then acc else FoldRules(MapStep(acc, es[0]), es[1..])
  }

  /** Once the remainder is used up, the remaining rules change nothing. */
  lemma {:induction false} FoldRulesDone(found: seq<Range>, es: seq<Entry<(nat, nat)>>)
    ensures FoldRules(Reduce(found, None), es) == Reduce(found, None)
    decreases |es|
  {
    if |es| > 0 {
      FoldRulesDone(found, es[1..]);
    }
  }

  /** Lengths in the fold state: found pieces plus what is left. */
  function StateLength(acc: Reduce): nat
    requires forall i :: 0 <= i < |acc.found| ==> WellFormed(acc.found[i])
    requires acc.remaining.Some? ==> WellFormed(acc.remaining.value)
  {
    TotalLength(acc.found) + (if acc.remaining.Some? then Length(acc.remaining.value) else 0)
  }

  lemma {:induction false} FoldRulesConserves(acc: Reduce, es: seq<Entry<(nat, nat)>>)
    requires forall i :: 0 <= i < |acc.found| ==> WellFormed(acc.found[i])
    requires acc.remaining.Some? ==> WellFormed(acc.remaining.value)
    ensures var r := FoldRules(acc, es);
            (forall i :: 0 <= i < |r.found| ==> WellFormed(r.found[i]))
            && StateLength(r) == StateLength(acc)
    decreases |es|
  {
    if |es| > 0 {
      var next := MapStep(acc, es[0]);
      if acc.remaining.Some? {
        var split := SplitAgainst(acc.remaining.value, es[0].key, es[0].key + es[0].value.1);
        if split.0.Some? {
          TotalLengthAppend(acc.found, [next.found[|next.found| - 1]]);
          assert next.found == acc.found + [next.found[|next.found| - 1]];
        }
      }
      FoldRulesConserves(next, es[1..]);
    }
  }

  /** `find_mapped_ranges`: only rules whose source start lies below the
      input's end are consulted, in ascending source order; the translated
      pieces come first and the leftover remainder, possibly empty, last.
      No length is gained or lost. */
  function FindMappedRanges(input: Range, tree: MapTree): (out: seq<Range>)
    requires Sorted(tree)
    requires WellFormed(input)
    ensures |out| >= 1
    ensures forall i :: 0 <= i < |out| ==> WellFormed(out[i])
    ensures TotalLength(out) == Length(input)
  {
    var result := FoldRules(Reduce([], Some(input)), Below(tree, input.end));
    FoldRulesConserves(Reduce([], Some(input)), Below(tree, input.end));
    FoundNonEmptyOrRemaining(Reduce([], Some(input)), Below(tree, input.end));
    match result.remaining
    case Some(rest) =>
      TotalLengthAppend(result.found, [rest]);
      result.found + [rest]
    case None => result.found
  }

  lemma {:induction false} FoundNonEmptyOrRemaining(acc: Reduce, es: seq<Entry<(nat, nat)>>)
    requires acc.remaining.Some? ==> WellFormed(acc.remaining.value)
    requires |acc.found| > 0 || acc.remaining.Some?
    ensures var r := FoldRules(acc, es); |r.found| > 0 || r.remaining.Some?
    ensures |FoldRules(acc, es).found| >= |acc.found|
    decreases |es|
  {
    if |es| > 0 {
      FoundNonEmptyOrRemaining(MapStep(acc, es[0]), es[1..]);
    }
  }

  /** `y` is where rule `e` sends some stretch of `input` lying inside the
      rule's source interval. */
  ghost predicate MovedBy(y: Range, input: Range, e: Entry<(nat, nat)>) {
    exists piece: Range :: Within(piece, input) && WellFormed(piece)
                           && e.key <= piece.start && piece.end <= e.key + e.value.1
                           && y == Translate(piece, e.value.0, e.key)
  }

  /** `y` is the translation of a stretch of `input` by a rule of the
      tree consulted for it (its source start lies below the input's
      end). */
  ghost predicate FromTree(y: Range, input: Range, tree: MapTree) {
    exists k :: 0 <= k < |tree| && tree[k].key < input.end && MovedBy(y, input, tree[k])
  }

  /** Every piece the fold finds is some consulted rule's translation of
      a stretch of the input, and the remainder stays inside the input. */
  lemma {:induction false} FoldRulesPieces(acc: Reduce, es: seq<Entry<(nat, nat)>>, input: Range, tree: MapTree)
    requires acc.remaining.Some? ==> WellFormed(acc.remaining.value) && Within(acc.remaining.value, input)
    requires forall j :: 0 <= j < |es| ==> es[j] in tree && es[j].key < input.end
    requires forall i :: 0 <= i < |acc.found| ==> FromTree(acc.found[i], input, tree)
    ensures FoldRules(acc, es).remaining.Some? ==> Within(FoldRules(acc, es).remaining.value, input)
    ensures forall i :: 0 <= i < |FoldRules(acc, es).found| ==> FromTree(FoldRules(acc, es).found[i], input, tree)
    decreases |es|
  {
    if |es| > 0 {
      var e := es[0];
      var next := MapStep(acc, e);
      if acc.remaining.Some? {
        var rem := acc.remaining.value;
        var split := SplitAgainst(rem, e.key, e.key + e.value.1);
        if split.0.Some? {
          var piece := split.0.value;
          var k :| 0 <= k < |tree| && tree[k] == e;
          assert MovedBy(next.found[|next.found| - 1], input, tree[k]) by {
            assert Within(piece, input);
          }
          assert forall i :: 0 <= i < |acc.found| ==> next.found[i] == acc.found[i];
        }
      }
      FoldRulesPieces(next, es[1..], input, tree);
    }
  }

  /** `find_mapped_ranges` as written: every output interval but the last
      is a consulted rule's translation (shifted by dest - source) of a
      stretch of the input; the last one is either that too or the
      leftover, a stretch of the input passed on unmoved. */
  lemma FindMappedRangesPieces(input: Range, tree: MapTree)
    requires Sorted(tree) && WellFormed(input)
    ensures var out := FindMappedRanges(input, tree);
            forall i :: 0 <= i < |out| ==>
              FromTree(out[i], input, tree) || (i == |out| - 1 && Within(out[i], input))
  {
    var es := Below(tree, input.end);
    FoldRulesPieces(Reduce([], Some(input)), es, input, tree);
    var r := FoldRules(Reduce([], Some(input)), es);
    var out := FindMappedRanges(input, tree);
    assert forall i :: 0 <= i < |r.found| ==> out[i] == r.found[i];
  }

  /** The unit test of `find_mapped_ranges`. */
  lemma FindMappedRangesExample()
    ensures FindMappedRanges(Range(50, 99), [Entry(50, (52, 20)), Entry(98, (50, 2))])
            == [Range(52, 72), Range(50, 51), Range(70, 98)]
  {
    var tree := [Entry(50, (52, 20)), Entry(98, (50, 2))];
    assert Below(tree, 99) == tree;
  }

  /** A rule whose source interval lies strictly inside the remainder holds
      neither of its ends, so the remainder passes through unmoved although
      the scalar lookup moves the values in the middle. */
  lemma RuleInsideRangeIsIgnored()
    ensures FindMappedRanges(Range(50, 99), [Entry(60, (0, 5))]) == [Range(50, 99)]
    ensures FindMapDest(62, [Rule(0, 60, 5)]) == 2
  {
    assert Below([Entry(60, (0, 5))], 99) == [Entry(60, (0, 5))];
  }

  /** A rule that ends exactly where the range ends does not "contain" the
      exclusive end, so an empty leftover is appended whose start is below
      every mapped value. */
  lemma EmptyLeftoverAtRuleEnd()
    ensures FindMappedRanges(Range(0, 10), [Entry(0, (100, 10))]) == [Range(100, 110), Range(10, 10)]
  {
    var tree := [Entry(0, (100, 10))];
    assert Below(tree, 10) == tree;
    FoldOneRule();
    assert [Range(100, 110)] + [Range(10, 10)] == [Range(100, 110), Range(10, 10)];
  }

  lemma FoldOneRule()
    ensures FoldRules(Reduce([], Some(Range(0, 10))), [Entry(0, (100, 10))])
            == Reduce([Range(100, 110)], Some(Range(10, 10)))
  {
    var tree := [Entry(0, (100, 10))];
    var step := MapStep(Reduce([], Some(Range(0, 10))), tree[0]);
    assert step == Reduce([Range(100, 110)], Some(Range(10, 10)));
    assert tree[1..] == [];
  }

  // ---------------------------------------------------------------------
  // Interval mapping that agrees with the scalar lookup

  /** A piece of an input interval and the interval the stage sends it to. */
  datatype Piece = Piece(pre: Range, image: Range)

  function RuleOf(e: Entry<(nat, nat)>): Rule {
    Rule(e.value.0, e.key, e.value.1)
  }

  function RulesOf(tree: MapTree): (rules: seq<Rule>)
    ensures |rules| == |tree|
    ensures forall i :: 0 <= i < |tree| ==> rules[i] == RuleOf(tree[i])
  {
    seq(|tree|, i requires 0 <= i < |tree| => RuleOf(tree[i]))
  }

  /** The scalar lookup against a stage held as a tree. */
  function Lookup(x: nat, tree: MapTree): nat {
    FindMapDest(x, RulesOf(tree))
  }

  /** Each rule's source interval ends before the next rule's begins. */
  ghost predicate Disjoint(tree: MapTree) {
    forall i, j :: 0 <= i < j < |tree| ==> tree[i].key + tree[i].value.1 <= tree[j].key
  }

  lemma LookupCovered(x: nat, tree: MapTree, i: nat)
    requires Disjoint(tree) && i < |tree| && Covers(RuleOf(tree[i]), x)
    ensures Lookup(x, tree) == tree[i].value.0 + (x - tree[i].key)
  {
    var rules := RulesOf(tree);
    assert forall j :: 0 <= j < i ==> !Covers(rules[j], x);
    FindMapDestFirstMatch(x, rules, i);
  }

  lemma LookupUncovered(x: nat, tree: MapTree)
    requires forall i :: 0 <= i < |tree| ==> !Covers(RuleOf(tree[i]), x)
    ensures Lookup(x, tree) == x
  {
    var rules := RulesOf(tree);
    assert forall i :: 0 <= i < |rules| ==> !Covers(rules[i], x);
    FindMapDestNoMatch(x, rules);
  }

  /** The interval is cut at every rule boundary inside it; the cut pieces
      covered by a rule are moved by it, the others keep their numbers, and
      empty pieces are never produced. */
  function MapPieces(rem: Range, tree: MapTree): (ps: seq<Piece>)
    requires WellFormed(rem)
    ensures forall i :: 0 <= i < |ps| ==>
              ps[i].pre.start < ps[i].pre.end && ps[i].image.start <= ps[i].image.end
              && ps[i].image.end - ps[i].image.start == ps[i].pre.end - ps[i].pre.start
    decreases |tree|
  {
    if rem.end <= rem.start then []
    else if |tree| == 0 then [Piece(rem, rem)]
    else
      var cs := tree[0].key;
      var ce := cs + tree[0].value.1;
      var dest := tree[0].value.0;
      if ce <= rem.start || rem.end <= cs then MapPieces(rem, tree[1..])
      else
        var lo := Max(cs, rem.start);
        var hi := Min(ce, rem.end);
        var gap := if rem.start < lo then [Piece(Range(rem.start, lo), Range(rem.start, lo))] else [];
        var moved := if lo < hi then [Piece(Range(lo, hi), Range(dest + (lo - cs), dest + (hi - cs)))] else [];
        gap + moved + MapPieces(Range(hi, rem.end), tree[1..])
  }

  /** Entry `e` moves nothing inside `rem`. */
  ghost predicate Avoids(e: Entry<(nat, nat)>, rem: Range) {
    rem.end <= rem.start || e.key + e.value.1 <= rem.start || rem.end <= e.key
  }

  /** A piece lies inside `rem` and its image is where the scalar lookup
      sends each of its values. */
  ghost predicate Faithful(p: Piece, rem: Range, tree: MapTree) {
    Within(p.pre, rem) && Moves(p, tree)
  }

  predicate Within(r: Range, outer: Range) {
    outer.start <= r.start && r.end <= outer.end
  }

  /** A non-empty piece whose image is where the scalar lookup sends each
      of its values. */
  ghost predicate Moves(p: Piece, tree: MapTree) {
    p.pre.start < p.pre.end
    && p.image.start <= p.image.end && p.image.end - p.image.start == p.pre.end - p.pre.start
    && forall x: nat :: InRange(x, p.pre) ==> Lookup(x, tree) == p.image.start + (x - p.pre.start)
  }

  lemma FaithfulConcat(gap: seq<Piece>, moved: seq<Piece>, tail: seq<Piece>, rem: Range, rest: Range, tree: MapTree)
    requires forall i :: 0 <= i < |gap| ==> Faithful(gap[i], rem, tree)
    requires forall i :: 0 <= i < |moved| ==> Faithful(moved[i], rem, tree)
    requires forall i :: 0 <= i < |tail| ==> Faithful(tail[i], rest, tree)
    requires Within(rest, rem)
    ensures forall i :: 0 <= i < |gap + moved + tail| ==> Faithful((gap + moved + tail)[i], rem, tree)
  {
    var ps := gap + moved + tail;
    forall i | 0 <= i < |ps|
      ensures Faithful(ps[i], rem, tree)
    {
      if i < |gap| {
        assert ps[i] == gap[i];
      } else if i < |gap| + |moved| {
        assert ps[i] == moved[i - |gap|];
      } else {
        assert ps[i] == tail[i - |gap| - |moved|];
        assert Faithful(tail[i - |gap| - |moved|], rest, tree);
      }
    }
  }

  lemma CoveredConcat(x: int, gap: seq<Piece>, moved: seq<Piece>, tail: seq<Piece>)
    requires CoveredBy(x, gap) || CoveredBy(x, moved) || CoveredBy(x, tail)
    ensures CoveredBy(x, gap + moved + tail)
  {
    var ps := gap + moved + tail;
    if CoveredBy(x, gap) {
      var j :| 0 <= j < |gap| && InRange(x, gap[j].pre);
      assert ps[j] == gap[j];
    } else if CoveredBy(x, moved) {
      var j :| 0 <= j < |moved| && InRange(x, moved[j].pre);
      assert ps[|gap| + j] == moved[j];
    } else {
      var j :| 0 <= j < |tail| && InRange(x, tail[j].pre);
      assert ps[|gap| + |moved| + j] == tail[j];
    }
  }

  ghost predicate CoveredBy(x: int, ps: seq<Piece>) {
    exists i :: 0 <= i < |ps| && InRange(x, ps[i].pre)
  }

  lemma GapIsUnmoved(x: nat, tree: MapTree, k: nat, rem: Range)
    requires Disjoint(tree) && k < |tree|
    requires forall i :: 0 <= i < k ==> Avoids(tree[i], rem)
    requires rem.start <= x < rem.end && x < tree[k].key
    ensures Lookup(x, tree) == x
  {
    forall i | 0 <= i < |tree|
      ensures !Covers(RuleOf(tree[i]), x)
    {
      if i < k {
        assert Avoids(tree[i], rem);
      } else if i > k {
        assert tree[k].key + tree[k].value.1 <= tree[i].key;
      }
    }
    LookupUncovered(x, tree);
  }

  /** The theorem behind the corrected mapping: the pieces of `rem` lie
      inside it, cover every value of it, and move each value exactly as
      the scalar lookup does, provided the rules before position `k` move
      nothing inside `rem`. */
  lemma {:induction false} MapPiecesCorrect(rem: Range, tree: MapTree, k: nat)
    requires WellFormed(rem) && Disjoint(tree) && k <= |tree|
    requires forall i :: 0 <= i < k ==> Avoids(tree[i], rem)
    ensures var ps := MapPieces(rem, tree[k..]);
            (forall i :: 0 <= i < |ps| ==> Faithful(ps[i], rem, tree))
            && (forall x: nat :: InRange(x, rem) ==> CoveredBy(x, ps))
    decreases |tree| - k, 1
  {
    if rem.end <= rem.start {
    } else if k == |tree| {
      NoRulesLeft(rem, tree);
    } else if tree[k].key + tree[k].value.1 <= rem.start || rem.end <= tree[k].key {
      SkipAvoidingRule(rem, tree, k);
      MapPiecesCorrect(rem, tree, k + 1);
    } else {
      OverlapPieces(rem, tree, k);
    }
  }

  /** A rule that avoids `rem` contributes no piece. */
  lemma SkipAvoidingRule(rem: Range, tree: MapTree, k: nat)
    requires WellFormed(rem) && k < |tree| && rem.start < rem.end
    requires tree[k].key + tree[k].value.1 <= rem.start || rem.end <= tree[k].key
    ensures Avoids(tree[k], rem)
    ensures MapPieces(rem, tree[k..]) == MapPieces(rem, tree[k + 1..])
  {
    assert tree[k..][1..] == tree[k + 1..];
  }

  lemma NoRulesLeft(rem: Range, tree: MapTree)
    requires rem.start < rem.end
    requires forall i :: 0 <= i < |tree| ==> Avoids(tree[i], rem)
    ensures var ps := MapPieces(rem, tree[|tree|..]);
            (forall i :: 0 <= i < |ps| ==> Faithful(ps[i], rem, tree))
            && (forall x: nat :: InRange(x, rem) ==> CoveredBy(x, ps))
  {
    var ps := MapPieces(rem, tree[|tree|..]);
    assert ps == [Piece(rem, rem)];
    forall x: nat | InRange(x, rem)
      ensures Lookup(x, tree) == x && CoveredBy(x, ps)
    {
      forall i | 0 <= i < |tree|
        ensures !Covers(RuleOf(tree[i]), x)
      {
        assert Avoids(tree[i], rem);
      }
      LookupUncovered(x, tree);
      assert InRange(x, ps[0].pre);
    }
  }

  /** The step where rule `k` meets the interval: the gap before it, the
      piece it moves and the pieces of the rest are each faithful. */
  lemma {:induction false} OverlapPieces(rem: Range, tree: MapTree, k: nat)
    requires WellFormed(rem) && rem.start < rem.end && Disjoint(tree) && k < |tree|
    requires forall i :: 0 <= i < k ==> Avoids(tree[i], rem)
    requires rem.start < tree[k].key + tree[k].value.1 && tree[k].key < rem.end
    ensures var ps := MapPieces(rem, tree[k..]);
            (forall i :: 0 <= i < |ps| ==> Faithful(ps[i], rem, tree))
            && (forall x: nat :: InRange(x, rem) ==> CoveredBy(x, ps))
    decreases |tree| - k, 0
  {
    var cs := tree[k].key;
    var ce := cs + tree[k].value.1;
    var dest := tree[k].value.0;
    var t := tree[k..];
    assert t[0] == tree[k];
    assert t[1..] == tree[k + 1..];
    var lo := Max(cs, rem.start);
    var hi := Min(ce, rem.end);
    var gap := if rem.start < lo then [Piece(Range(rem.start, lo), Range(rem.start, lo))] else [];
    var moved := if lo < hi then [Piece(Range(lo, hi), Range(dest + (lo - cs), dest + (hi - cs)))] else [];
    var rest := Range(hi, rem.end);
    var tail := MapPieces(rest, tree[k + 1..]);
    assert forall i :: 0 <= i < k + 1 ==> Avoids(tree[i], rest);
    MapPiecesCorrect(rest, tree, k + 1);
    OverlapShape(rem, t);
    if rem.start < lo {
      GapFaithful(rem, tree, k);
    }
    if lo < hi {
      MovedFaithful(rem, tree, k);
    }
    AssemblePieces(MapPieces(rem, t), gap, moved, tail, rem, lo, hi, tree);
  }

  /** Gap, moved piece and tail together tile `rem` faithfully. */
  lemma AssemblePieces(ps: seq<Piece>, gap: seq<Piece>, moved: seq<Piece>, tail: seq<Piece>,
                       rem: Range, lo: nat, hi: nat, tree: MapTree)
    requires ps == gap + moved + tail
    requires rem.start <= lo <= hi <= rem.end
    requires forall i :: 0 <= i < |gap| ==> Faithful(gap[i], rem, tree)
    requires forall i :: 0 <= i < |moved| ==> Faithful(moved[i], rem, tree)
    requires forall i :: 0 <= i < |tail| ==> Faithful(tail[i], Range(hi, rem.end), tree)
    requires rem.start < lo ==> |gap| == 1 && gap[0].pre == Range(rem.start, lo)
    requires lo < hi ==> |moved| == 1 && moved[0].pre == Range(lo, hi)
    requires forall x: nat :: InRange(x, Range(hi, rem.end)) ==> CoveredBy(x, tail)
    ensures forall i :: 0 <= i < |ps| ==> Faithful(ps[i], rem, tree)
    ensures forall x: nat :: InRange(x, rem) ==> CoveredBy(x, ps)
  {
    FaithfulConcat(gap, moved, tail, rem, Range(hi, rem.end), tree);
    forall x: nat | InRange(x, rem)
      ensures CoveredBy(x, ps)
    {
      if x < lo {
        assert InRange(x, gap[0].pre);
      } else if x < hi {
        assert InRange(x, moved[0].pre);
      } else {
        assert InRange(x, Range(hi, rem.end));
      }
      CoveredConcat(x, gap, moved, tail);
    }
  }

  /** How `MapPieces` cuts an interval against a first rule that meets it. */
  lemma OverlapShape(rem: Range, t: MapTree)
    requires WellFormed(rem) && rem.start < rem.end && |t| > 0
    requires rem.start < t[0].key + t[0].value.1 && t[0].key < rem.end
    ensures var cs := t[0].key;
            var ce := cs + t[0].value.1;
            var dest := t[0].value.0;
            var lo := Max(cs, rem.start);
            var hi := Min(ce, rem.end);
            MapPieces(rem, t)
            == (if rem.start < lo then [Piece(Range(rem.start, lo), Range(rem.start, lo))] else [])
               + (if lo < hi then [Piece(Range(lo, hi), Range(dest + (lo - cs), dest + (hi - cs)))] else [])
               + MapPieces(Range(hi, rem.end), t[1..])
  {
  }

  lemma GapFaithful(rem: Range, tree: MapTree, k: nat)
    requires Disjoint(tree) && k < |tree|
    requires forall i :: 0 <= i < k ==> Avoids(tree[i], rem)
    requires rem.start < tree[k].key < rem.end
    ensures Faithful(Piece(Range(rem.start, tree[k].key), Range(rem.start, tree[k].key)), rem, tree)
  {
    forall x: nat | rem.start <= x < tree[k].key
      ensures Lookup(x, tree) == x
    {
      GapIsUnmoved(x, tree, k, rem);
    }
  }

  lemma MovedFaithful(rem: Range, tree: MapTree, k: nat)
    requires Disjoint(tree) && k < |tree|
    requires Max(tree[k].key, rem.start) < Min(tree[k].key + tree[k].value.1, rem.end)
    ensures var cs := tree[k].key;
            var lo := Max(cs, rem.start);
            var hi := Min(cs + tree[k].value.1, rem.end);
            Faithful(Piece(Range(lo, hi), Range(tree[k].value.0 + (lo - cs), tree[k].value.0 + (hi - cs))), rem, tree)
  {
    var cs := tree[k].key;
    var lo := Max(cs, rem.start);
    var hi := Min(cs + tree[k].value.1, rem.end);
    forall x: nat | lo <= x < hi
      ensures Lookup(x, tree) == tree[k].value.0 + (x - cs)
    {
      LookupCovered(x, tree, k);
    }
  }

  // ---------------------------------------------------------------------
  // A stage over many intervals, and the chain of stages

  function Images(ps: seq<Piece>): (rs: seq<Range>)
    ensures |rs| == |ps|
    ensures forall i :: 0 <= i < |ps| ==> rs[i] == ps[i].image
  {
    seq(|ps|, i requires 0 <= i < |ps| => ps[i].image)
  }

  ghost predicate Hit(y: int, rs: seq<Range>) {
    exists i :: 0 <= i < |rs| && InRange(y, rs[i])
  }

  lemma HitAppend(y: int, a: seq<Range>, b: seq<Range>)
    ensures Hit(y, a + b) <==> Hit(y, a) || Hit(y, b)
  {
    if Hit(y, a + b) {
      var i :| 0 <= i < |a + b| && InRange(y, (a + b)[i]);
      if i < |a| {
        assert a[i] == (a + b)[i];
      } else {
        assert b[i - |a|] == (a + b)[i];
      }
    }
    if Hit(y, a) {
      var i :| 0 <= i < |a| && InRange(y, a[i]);
      assert (a + b)[i] == a[i];
    }
    if Hit(y, b) {
      var i :| 0 <= i < |b| && InRange(y, b[i]);
      assert (a + b)[|a| + i] == b[i];
    }
  }

  /** The corrected stage applied to each interval in turn (`flat_map`);
      every interval it yields is non-empty. */
  function MapStage(ranges: seq<Range>, tree: MapTree): (out: seq<Range>)
    requires forall i :: 0 <= i < |ranges| ==> WellFormed(ranges[i])
    ensures forall i :: 0 <= i < |out| ==> out[i].start < out[i].end
  {
    if |ranges| == 0 then []
    else
      var head := Images(MapPieces(ranges[0], tree));
      var tail := MapStage(ranges[1..], tree);
      assert forall i :: 0 <= i < |head| ==> (head + tail)[i] == head[i];
      assert forall i :: |head| <= i < |head + tail| ==> (head + tail)[i] == tail[i - |head|];
      head + tail
  }

  /** Every value of the input intervals is sent into the output. */
  lemma {:induction false} MapStageForward(ranges: seq<Range>, tree: MapTree, x: nat)
    requires forall i :: 0 <= i < |ranges| ==> WellFormed(ranges[i])
    requires Disjoint(tree)
    requires Hit(x, ranges)
    ensures Hit(Lookup(x, tree), MapStage(ranges, tree))
    decreases |ranges|
  {
    var head := Images(MapPieces(ranges[0], tree));
    var tail := MapStage(ranges[1..], tree);
    HitAppend(Lookup(x, tree), head, tail);
    if InRange(x, ranges[0]) {
      var ps := MapPieces(ranges[0], tree);
      assert tree[0..] == tree;
      MapPiecesCorrect(ranges[0], tree, 0);
      assert CoveredBy(x, ps);
      var j :| 0 <= j < |ps| && InRange(x, ps[j].pre);
      assert Faithful(ps[j], ranges[0], tree);
      assert InRange(Lookup(x, tree), head[j]);
    } else {
      var i :| 0 <= i < |ranges| && InRange(x, ranges[i]);
      assert ranges[1..][i - 1] == ranges[i];
      MapStageForward(ranges[1..], tree, x);
    }
  }

  /** Every value of the output is the image of a value of the input. */
  lemma {:induction false} MapStageBackward(ranges: seq<Range>, tree: MapTree, y: nat)
    requires forall i :: 0 <= i < |ranges| ==> WellFormed(ranges[i])
    requires Disjoint(tree)
    requires Hit(y, MapStage(ranges, tree))
    ensures exists x: nat :: Hit(x, ranges) && Lookup(x, tree) == y
    decreases |ranges|
  {
    var head := Images(MapPieces(ranges[0], tree));
    var tail := MapStage(ranges[1..], tree);
    HitAppend(y, head, tail);
    if Hit(y, head) {
      var ps := MapPieces(ranges[0], tree);
      assert tree[0..] == tree;
      MapPiecesCorrect(ranges[0], tree, 0);
      assert MapPieces(ranges[0], tree[0..]) == ps;
      assert forall i :: 0 <= i < |ps| ==> Faithful(ps[i], ranges[0], tree);
      var j :| 0 <= j < |head| && InRange(y, head[j]);
      assert Faithful(ps[j], ranges[0], tree);
      var x: nat := ps[j].pre.start + (y - ps[j].image.start);
      assert InRange(x, ps[j].pre);
      assert InRange(x, ranges[0]);
      assert Hit(x, ranges) && Lookup(x, tree) == y;
    } else {
      MapStageBackward(ranges[1..], tree, y);
      var x: nat :| Hit(x, ranges[1..]) && Lookup(x, tree) == y;
      var i :| 0 <= i < |ranges[1..]| && InRange(x, ranges[1..][i]);
      assert ranges[i + 1] == ranges[1..][i];
      assert Hit(x, ranges);
    }
  }

  /** The intervals after every stage, starting from the seed intervals. */
  function Pipeline(ranges: seq<Range>, trees: seq<MapTree>): (out: seq<Range>)
    requires forall i :: 0 <= i < |ranges| ==> WellFormed(ranges[i])
    ensures forall i :: 0 <= i < |out| ==> WellFormed(out[i])
    decreases |trees|
  {
    if |trees| == 0 then ranges else Pipeline(MapStage(ranges, trees[0]), trees[1..])
  }

  /** The scalar lookup through every stage. */
  function LocationIn(x: nat, trees: seq<MapTree>): nat
    decreases |trees|
  {
    if |trees| == 0 then x else LocationIn(Lookup(x, trees[0]), trees[1..])
  }

  ghost predicate AllDisjoint(trees: seq<MapTree>) {
    forall i :: 0 <= i < |trees| ==> Disjoint(trees[i])
  }

  lemma {:induction false} PipelineForward(ranges: seq<Range>, trees: seq<MapTree>, x: nat)
    requires forall i :: 0 <= i < |ranges| ==> WellFormed(ranges[i])
    requires AllDisjoint(trees)
    requires Hit(x, ranges)
    ensures Hit(LocationIn(x, trees), Pipeline(ranges, trees))
    decreases |trees|
  {
    if |trees| > 0 {
      assert Disjoint(trees[0]);
      MapStageForward(ranges, trees[0], x);
      assert forall i :: 0 <= i < |trees[1..]| ==> trees[1..][i] == trees[i + 1];
      PipelineForward(MapStage(ranges, trees[0]), trees[1..], Lookup(x, trees[0]));
    }
  }

  lemma {:induction false} PipelineBackward(ranges: seq<Range>, trees: seq<MapTree>, y: nat)
    requires forall i :: 0 <= i < |ranges| ==> WellFormed(ranges[i])
    requires AllDisjoint(trees)
    requires Hit(y, Pipeline(ranges, trees))
    ensures exists x: nat :: Hit(x, ranges) && LocationIn(x, trees) == y
    decreases |trees|
  {
    if |trees| == 0 {
      assert Hit(y, ranges) && LocationIn(y, trees) == y;
    } else {
      var mid := MapStage(ranges, trees[0]);
      assert forall i :: 0 <= i < |trees[1..]| ==> trees[1..][i] == trees[i + 1];
      PipelineBackward(mid, trees[1..], y);
      var x1: nat :| Hit(x1, mid) && LocationIn(x1, trees[1..]) == y;
      assert Disjoint(trees[0]);
      MapStageBackward(ranges, trees[0], x1);
      var x0: nat :| Hit(x0, ranges) && Lookup(x0, trees[0]) == x1;
      assert LocationIn(x0, trees) == y;
    }
  }

  /** The starts of the non-empty intervals, in order. */
  function NonEmptyStarts(rs: seq<Range>): (starts: seq<int>)
    ensures forall k :: 0 <= k < |starts| ==> exists i :: 0 <= i < |rs| && rs[i].start < rs[i].end && starts[k] == rs[i].start
    ensures forall i :: 0 <= i < |rs| && rs[i].start < rs[i].end ==> rs[i].start in starts
  {
    if |rs| == 0 then []
    else
      var rest := NonEmptyStarts(rs[1..]);
      assert forall i :: 1 <= i < |rs| ==> rs[i] == rs[1..][i - 1];
      forall k | 0 <= k < |rest|
        ensures exists i :: 0 <= i < |rs| && rs[i].start < rs[i].end && rest[k] == rs[i].start
      {
        var i :| 0 <= i < |rs[1..]| && rs[1..][i].start < rs[1..][i].end && rest[k] == rs[1..][i].start;
        assert rs[i + 1] == rs[1..][i];
      }
      if rs[0].start < rs[0].end then [rs[0].start] + rest else rest
  }

  /** The lowest value reached by the seed intervals after every stage;
      `None` when the intervals hold no value at all. */
  function LowestLocation(ranges: seq<Range>, trees: seq<MapTree>): Option<nat>
    requires forall i :: 0 <= i < |ranges| ==> WellFormed(ranges[i])
  {
    var starts := NonEmptyStarts(Pipeline(ranges, trees));
    if |starts| == 0 then None
    else
      var m := MinOf(starts);
      assert m >= 0 by {
        var k :| 0 <= k < |starts| && starts[k] == m;
      }
      Some(m)
  }

  /** The interval computation finds exactly the least location of any
      single seed value: it is reached by some seed, no seed goes lower, and
      there is no answer only when there is no seed value. */
  lemma LowestLocationCorrect(ranges: seq<Range>, trees: seq<MapTree>)
    requires forall i :: 0 <= i < |ranges| ==> WellFormed(ranges[i])
    requires AllDisjoint(trees)
    ensures var r := LowestLocation(ranges, trees);
            && (r.Some? ==> exists x: nat :: Hit(x, ranges) && LocationIn(x, trees) == r.value)
            && (r.Some? ==> forall x: nat :: Hit(x, ranges) ==> r.value <= LocationIn(x, trees))
            && (r.None? <==> forall x: nat :: !Hit(x, ranges))
  {
    var out := Pipeline(ranges, trees);
    var starts := NonEmptyStarts(out);
    forall x: nat | Hit(x, ranges)
      ensures |starts| > 0 && MinOf(starts) <= LocationIn(x, trees)
    {
      PipelineForward(ranges, trees, x);
      var j :| 0 <= j < |out| && InRange(LocationIn(x, trees), out[j]);
      assert out[j].start in starts;
    }
    if |starts| > 0 {
      var m := MinOf(starts);
      var k :| 0 <= k < |starts| && starts[k] == m;
      var i :| 0 <= i < |out| && out[i].start < out[i].end && m == out[i].start;
      assert Hit(m, out);
      PipelineBackward(ranges, trees, m);
    }
  }

  // ---------------------------------------------------------------------
  // From rule lists to trees

  function EntryOf(r: Rule): Entry<(nat, nat)> {
    Entry(r.source, (r.dest, r.len))
  }

  /** `map_trees`: a stage's rules keyed by their source start. */
  function TreeOf(rules: seq<Rule>): (tree: MapTree)
    ensures Sorted(tree)
    ensures forall e :: e in tree ==> exists i :: 0 <= i < |rules| && e == EntryOf(rules[i])
  {
    var pairs := seq(|rules|, i requires 0 <= i < |rules| => EntryOf(rules[i]));
    var tree := FromEntries(pairs);
    FromEntriesSubset(pairs);
    assert forall e :: e in tree ==> e in pairs;
    tree
  }

  /** Rules of one stage have distinct sources and non-overlapping source
      intervals, as the puzzle input promises. */
  ghost predicate Separate(rules: seq<Rule>) {
    forall i, j :: 0 <= i < |rules| && 0 <= j < |rules| && i != j ==>
      rules[i].source != rules[j].source
      && (rules[i].source + rules[i].len <= rules[j].source
          || rules[j].source + rules[j].len <= rules[i].source)
  }

  lemma TreeOfDisjoint(rules: seq<Rule>)
    requires Separate(rules)
    ensures Disjoint(TreeOf(rules))
  {
    var tree := TreeOf(rules);
    forall a, b | 0 <= a < b < |tree|
      ensures tree[a].key + tree[a].value.1 <= tree[b].key
    {
      assert tree[a] in tree && tree[b] in tree;
      var p :| 0 <= p < |rules| && tree[a] == EntryOf(rules[p]);
      var q :| 0 <= q < |rules| && tree[b] == EntryOf(rules[q]);
      assert tree[a].key < tree[b].key;
    }
  }

  /** With separate rules the tree lookup is the list lookup of part 1. */
  lemma TreeLookupAgrees(rules: seq<Rule>, x: nat)
    requires Separate(rules)
    ensures Lookup(x, TreeOf(rules)) == FindMapDest(x, rules)
  {
    if i :| 0 <= i < |rules| && Covers(rules[i], x) {
      TreeLookupCovered(rules, x, i);
    } else {
      TreeLookupUncovered(rules, x);
    }
  }

  lemma TreeLookupCovered(rules: seq<Rule>, x: nat, i: nat)
    requires Separate(rules)
    requires i < |rules| && Covers(rules[i], x)
    ensures Lookup(x, TreeOf(rules)) == FindMapDest(x, rules)
  {
    var tree := TreeOf(rules);
    TreeOfDisjoint(rules);
    OnlyCover(rules, x, i);
    FindMapDestFirstMatch(x, rules, i);
    var a := TreeHasRule(rules, i);
    LookupCovered(x, tree, a);
  }

  /** Separate rules never cover the same value. */
  lemma OnlyCover(rules: seq<Rule>, x: nat, i: nat)
    requires Separate(rules)
    requires i < |rules| && Covers(rules[i], x)
    ensures forall j :: 0 <= j < |rules| && j != i ==> !Covers(rules[j], x)
  {
  }

  /** Every rule of a stage with distinct sources reaches the tree. */
  lemma TreeHasRule(rules: seq<Rule>, i: nat) returns (a: nat)
    requires Separate(rules)
    requires i < |rules|
    ensures a < |TreeOf(rules)| && TreeOf(rules)[a] == EntryOf(rules[i])
  {
    var pairs := seq(|rules|, j requires 0 <= j < |rules| => EntryOf(rules[j]));
    assert forall j :: i < j < |pairs| ==> pairs[j].key != pairs[i].key;
    FromEntriesLastWins(pairs, i);
    var tree := FromEntries(pairs);
    assert tree == TreeOf(rules);
    assert Entry(rules[i].source, (rules[i].dest, rules[i].len)) in tree;
    a :| 0 <= a < |tree| && tree[a] == EntryOf(rules[i]);
  }

  lemma TreeLookupUncovered(rules: seq<Rule>, x: nat)
    requires forall i :: 0 <= i < |rules| ==> !Covers(rules[i], x)
    ensures Lookup(x, TreeOf(rules)) == FindMapDest(x, rules)
  {
    var tree := TreeOf(rules);
    FindMapDestNoMatch(x, rules);
    forall a | 0 <= a < |tree|
      ensures !Covers(RuleOf(tree[a]), x)
    {
      assert tree[a] in tree;
      var p :| 0 <= p < |rules| && tree[a] == EntryOf(rules[p]);
    }
    LookupUncovered(x, tree);
  }

  function TreesOf(stages: seq<seq<Rule>>): (trees: seq<MapTree>)
    ensures |trees| == |stages|
    ensures forall i :: 0 <= i < |stages| ==> trees[i] == TreeOf(stages[i])
  {
    seq(|stages|, i requires 0 <= i < |stages| => TreeOf(stages[i]))
  }

  ghost predicate AllSeparate(stages: seq<seq<Rule>>) {
    forall i :: 0 <= i < |stages| ==> Separate(stages[i])
  }

  /** The chain of tree lookups is the chain of list lookups of part 1. */
  lemma {:induction false} LocationAgrees(x: nat, stages: seq<seq<Rule>>)
    requires AllSeparate(stages)
    ensures AllDisjoint(TreesOf(stages))
    ensures LocationIn(x, TreesOf(stages)) == Location(x, stages)
    decreases |stages|
  {
    var trees := TreesOf(stages);
    forall i | 0 <= i < |stages|
      ensures Disjoint(trees[i])
    {
      TreeOfDisjoint(stages[i]);
    }
    if |stages| > 0 {
      TreeLookupAgrees(stages[0], x);
      assert trees[1..] == TreesOf(stages[1..]);
      assert forall i :: 0 <= i < |stages[1..]| ==> stages[1..][i] == stages[i + 1];
      LocationAgrees(FindMapDest(x, stages[0]), stages[1..]);
    }
  }

  // ---------------------------------------------------------------------
  // The two answers

  /** Part 1: the lowest location of any listed seed. */
  function Part1(seeds: seq<nat>, stages: seq<seq<Rule>>): (r: Option<nat>)
    ensures r.None? <==> |seeds| == 0
    ensures r.Some? ==> exists i :: 0 <= i < |seeds| && r.value == Location(seeds[i], stages)
    ensures r.Some? ==> forall i :: 0 <= i < |seeds| ==> r.value <= Location(seeds[i], stages)
  {
    if |seeds| == 0 then None
    else
      var locations := seq(|seeds|, i requires 0 <= i < |seeds| => Location(seeds[i], stages) as int);
      var m := MinOf(locations);
      assert forall i :: 0 <= i < |seeds| ==> locations[i] == Location(seeds[i], stages);
      assert exists i :: 0 <= i < |seeds| && locations[i] == m;
      Some(m)
  }

  /** The seed numbers read as (start, length) pairs; a trailing odd
      number is ignored, as `step_by(2).zip(...)` does. */
  function SeedRanges(seeds: seq<nat>): (rs: seq<Range>)
    ensures |rs| == |seeds| / 2
    ensures forall i :: 0 <= i < |rs| ==> rs[i] == Range(seeds[2 * i], seeds[2 * i] + seeds[2 * i + 1])
  {
    seq(|seeds| / 2, i requires 0 <= i < |seeds| / 2 => Range(seeds[2 * i], seeds[2 * i] + seeds[2 * i + 1]))
  }

  /** Part 2 with the corrected interval mapping. */
  function Part2(seeds: seq<nat>, stages: seq<seq<Rule>>): Option<nat> {
    LowestLocation(SeedRanges(seeds), TreesOf(stages))
  }

  /** Part 2 is the lowest location of any seed value inside the seed
      intervals, the same answer as running part 1 on every such value. */
  lemma Part2Lowest(seeds: seq<nat>, stages: seq<seq<Rule>>)
    requires AllSeparate(stages)
    ensures var r := Part2(seeds, stages);
            && (r.Some? ==> exists x: nat :: Hit(x, SeedRanges(seeds)) && Location(x, stages) == r.value)
            && (r.Some? ==> forall x: nat :: Hit(x, SeedRanges(seeds)) ==> r.value <= Location(x, stages))
            && (r.None? <==> forall x: nat :: !Hit(x, SeedRanges(seeds)))
  {
    var trees := TreesOf(stages);
    LocationAgrees(0, stages);
    LowestLocationCorrect(SeedRanges(seeds), trees);
    forall x: nat
      ensures LocationIn(x, trees) == Location(x, stages)
    {
      LocationAgrees(x, stages);
    }
  }

  // ---------------------------------------------------------------------
  // Part 2 as the solution computes it

  function MapStageAsWritten(ranges: seq<Range>, tree: MapTree): (out: seq<Range>)
    requires Sorted(tree)
    requires forall i :: 0 <= i < |ranges| ==> WellFormed(ranges[i])
    ensures forall i :: 0 <= i < |out| ==> WellFormed(out[i])
    ensures |ranges| > 0 ==> |out| > 0
  {
    if |ranges| == 0 then []
    else
      var head := FindMappedRanges(ranges[0], tree);
      var tail := MapStageAsWritten(ranges[1..], tree);
      assert forall i :: 0 <= i < |head| ==> (head + tail)[i] == head[i];
      assert forall i :: |head| <= i < |head + tail| ==> (head + tail)[i] == tail[i - |head|];
      head + tail
  }

  function PipelineAsWritten(ranges: seq<Range>, trees: seq<MapTree>): (out: seq<Range>)
    requires forall i :: 0 <= i < |trees| ==> Sorted(trees[i])
    requires forall i :: 0 <= i < |ranges| ==> WellFormed(ranges[i])
    ensures forall i :: 0 <= i < |out| ==> WellFormed(out[i])
    ensures |ranges| > 0 ==> |out| > 0
    decreases |trees|
  {
    if |trees| == 0 then ranges
    else PipelineAsWritten(MapStageAsWritten(ranges, trees[0]), trees[1..])
  }

  function Starts(rs: seq<Range>): (xs: seq<nat>)
    ensures |xs| == |rs|
    ensures forall i :: 0 <= i < |rs| ==> xs[i] == rs[i].start
  {
    seq(|rs|, i requires 0 <= i < |rs| => rs[i].start)
  }

  /** The least start of a non-empty list of naturals. */
  function LeastOf(xs: seq<nat>): (m: nat)
    requires |xs| > 0
    ensures m in xs
    ensures forall i :: 0 <= i < |xs| ==> m <= xs[i]
  {
    if |xs| == 1 then xs[0]
    else
      var rest := LeastOf(xs[1..]);
      assert forall i :: 1 <= i < |xs| ==> xs[i] == xs[1..][i - 1];
      if xs[0] <= rest then xs[0] else rest
  }

  /** Part 2 exactly as written: every seed interval is pushed through the
      stages with `find_mapped_ranges`, and the least start of the
      resulting intervals, empty ones included, is taken. */
  function Part2AsWritten(seeds: seq<nat>, stages: seq<seq<Rule>>): Option<nat> {
    var trees := TreesOf(stages);
    var rs := SeedRanges(seeds);
    if |rs| == 0 then None
    else
      Some(LeastOf(seq(|rs|, i requires 0 <= i < |rs| => LeastOf(Starts(PipelineAsWritten([rs[i]], trees))))))
  }

  /** Part 2 answers `v` when some seed value lands at `v` and none lands
      lower. */
  lemma Part2Is(seeds: seq<nat>, stages: seq<seq<Rule>>, v: nat, x0: nat)
    requires AllSeparate(stages)
    requires Hit(x0, SeedRanges(seeds)) && Location(x0, stages) == v
    requires forall x: nat :: Hit(x, SeedRanges(seeds)) ==> v <= Location(x, stages)
    ensures Part2(seeds, stages) == Some(v)
  {
    Part2Lowest(seeds, stages);
  }

  lemma OneRuleTree(r: Rule)
    ensures TreesOf([[r]]) == [[Entry(r.source, (r.dest, r.len))]]
  {
    var pairs := seq(1, i requires 0 <= i < 1 => EntryOf([r][i]));
    assert pairs == [EntryOf(r)];
    assert FromEntries(pairs) == Insert(FromEntries(pairs[..0]), r.source, (r.dest, r.len));
  }

  /** With one seed interval, part 2 as written is the least start of
      what the pipeline makes of it. */
  lemma Part2AsWrittenOne(seeds: seq<nat>, stages: seq<seq<Rule>>, out: seq<Range>)
    requires |SeedRanges(seeds)| == 1
    requires PipelineAsWritten([SeedRanges(seeds)[0]], TreesOf(stages)) == out
    requires |out| > 0
    ensures Part2AsWritten(seeds, stages) == Some(LeastOf(Starts(out)))
  {
    var rs := SeedRanges(seeds);
    assert [rs[0]] == rs;
    var firsts := seq(|rs|, i requires 0 <= i < |rs| => LeastOf(Starts(PipelineAsWritten([rs[i]], TreesOf(stages)))));
    assert firsts == [LeastOf(Starts(out))];
  }

  lemma EmptyLeftoverPipeline()
    ensures PipelineAsWritten([Range(0, 10)], TreesOf([[Rule(100, 0, 10)]])) == [Range(100, 110), Range(10, 10)]
  {
    var tree := [Entry(0, (100, 10))];
    OneRuleTree(Rule(100, 0, 10));
    EmptyLeftoverAtRuleEnd();
    assert MapStageAsWritten([Range(0, 10)], tree) == [Range(100, 110), Range(10, 10)];
  }

  /** The example of the next lemma as the solution computes it: the empty
      leftover's start 10 wins. */
  lemma EmptyLeftoverAsWritten()
    ensures Part2AsWritten([0, 10], [[Rule(100, 0, 10)]]) == Some(10)
  {
    assert SeedRanges([0, 10]) == [Range(0, 10)];
    EmptyLeftoverPipeline();
    Part2AsWrittenOne([0, 10], [[Rule(100, 0, 10)]], [Range(100, 110), Range(10, 10)]);
    assert Starts([Range(100, 110), Range(10, 10)]) == [100, 10];
    assert LeastOf([100, 10]) == 10;
  }

  /** The same example with the corrected mapping: the lowest location is
      100, where seed 0 lands. */
  lemma EmptyLeftoverCorrected()
    ensures forall x: nat :: x < 10 ==> Location(x, [[Rule(100, 0, 10)]]) == 100 + x
    ensures Part2([0, 10], [[Rule(100, 0, 10)]]) == Some(100)
  {
    var stages := [[Rule(100, 0, 10)]];
    forall x: nat | x < 10
      ensures Location(x, stages) == 100 + x
    {
      FindMapDestFirstMatch(x, stages[0], 0);
    }
    assert SeedRanges([0, 10]) == [Range(0, 10)];
    assert InRange(0, SeedRanges([0, 10])[0]);
    forall x: nat | Hit(x, SeedRanges([0, 10]))
      ensures 100 <= Location(x, stages)
    {
      assert InRange(x, Range(0, 10));
    }
    Part2Is([0, 10], stages, 100, 0);
  }

  /** A seed interval that a rule moves entirely: the solution also keeps
      the empty leftover at the rule's end, whose start 10 is no location of
      any seed, while every seed value really lands at 100 or above. */
  lemma EmptyLeftoverLowersPart2()
    ensures Part2AsWritten([0, 10], [[Rule(100, 0, 10)]]) == Some(10)
    ensures forall x: nat :: x < 10 ==> Location(x, [[Rule(100, 0, 10)]]) == 100 + x
    ensures Part2([0, 10], [[Rule(100, 0, 10)]]) == Some(100)
  {
    EmptyLeftoverAsWritten();
    EmptyLeftoverCorrected();
  }

  // ---------------------------------------------------------------------
  // Reading the almanac

  /** One rule line, `splitn(3, " ")` followed by three parses.  A line
      with a further space leaves it inside the third piece, which then
      does not parse, so exactly three space-separated numbers are
      accepted. */
  function ParseRule(line: string): Option<Rule> {
    var items := Split(line, " ");
    if |items| != 3 then None
    else
      match (ParseNat(items[0]), ParseNat(items[1]), ParseNat(items[2]))
      case (Some(dest), Some(source), Some(len)) => Some(Rule(dest, source, len))
      case _ => None
  }

  function FormatRule(r: Rule): string {
    NatToString(r.dest) + " " + NatToString(r.source) + " " + NatToString(r.len)
  }

  /** A rule written out is read back unchanged. */
  lemma ParseRuleOfFormatRule(r: Rule)
    ensures ParseRule(FormatRule(r)) == Some(r)
  {
    var a, b, c := NatToString(r.dest), NatToString(r.source), NatToString(r.len);
    NatToStringHasNo(r.dest, ' ');
    NatToStringHasNo(r.source, ' ');
    NatToStringHasNo(r.len, ' ');
    JoinThree(a, b, c, " ");
    SplitOfJoin([a, b, c], " ", 0);
    ParseNatOfNatToString(r.dest);
    ParseNatOfNatToString(r.source);
    ParseNatOfNatToString(r.len);
    ParseRuleOfFields(FormatRule(r), a, b, c, r);
  }

  lemma ParseRuleOfFields(line: string, a: string, b: string, c: string, r: Rule)
    requires Split(line, " ") == [a, b, c]
    requires ParseNat(a) == Some(r.dest) && ParseNat(b) == Some(r.source) && ParseNat(c) == Some(r.len)
    ensures ParseRule(line) == Some(r)
  {
  }

  /** All lines parse, or the whole block is rejected. */
  function ParseRules(lines: seq<string>): (r: Option<seq<Rule>>)
    ensures r.Some? ==> |r.value| == |lines|
    ensures r.Some? ==> forall i :: 0 <= i < |lines| ==> ParseRule(lines[i]) == Some(r.value[i])
    ensures r.None? <==> exists i :: 0 <= i < |lines| && ParseRule(lines[i]).None?
  {
    AllSome(seq(|lines|, i requires 0 <= i < |lines| => ParseRule(lines[i])))
  }

  /** A mapping block: its title line is skipped. */
  function ParseBlock(block: string): Option<seq<Rule>> {
    var lines := Lines(block);
    if |lines| == 0 then Some([]) else ParseRules(lines[1..])
  }

  function ParseBlocks(blocks: seq<string>): (r: Option<seq<seq<Rule>>>)
    ensures r.Some? ==> |r.value| == |blocks|
    ensures r.Some? ==> forall i :: 0 <= i < |blocks| ==> ParseBlock(blocks[i]) == Some(r.value[i])
    ensures r.None? <==> exists i :: 0 <= i < |blocks| && ParseBlock(blocks[i]).None?
  {
    AllSome(seq(|blocks|, i requires 0 <= i < |blocks| => ParseBlock(blocks[i])))
  }

  function ParseNats(words: seq<string>): (r: Option<seq<nat>>)
    ensures r.Some? ==> |r.value| == |words|
    ensures r.Some? ==> forall i :: 0 <= i < |words| ==> ParseNat(words[i]) == Some(r.value[i])
    ensures r.None? <==> exists i :: 0 <= i < |words| && ParseNat(words[i]).None?
  {
    AllSome(seq(|words|, i requires 0 <= i < |words| => ParseNat(words[i])))
  }

  /** The seed line: the numbers after the first ": ". */
  function ParseSeeds(line: string): Option<seq<nat>> {
    match SplitOnce(line, ": ")
    case None => None
    case Some((_, rest)) => ParseNats(Words(rest))
  }

  function NatStrings(ns: seq<nat>): (ws: seq<string>)
    ensures |ws| == |ns|
    ensures forall i :: 0 <= i < |ns| ==> ws[i] == NatToString(ns[i])
  {
    seq(|ns|, i requires 0 <= i < |ns| => NatToString(ns[i]))
  }

  function FormatSeeds(seeds: seq<nat>): string {
    "seeds: " + Unwords(NatStrings(seeds))
  }

  /** A seed line written out is read back unchanged. */
  lemma ParseSeedsOfFormatSeeds(seeds: seq<nat>)
    ensures ParseSeeds(FormatSeeds(seeds)) == Some(seeds)
  {
    var line := FormatSeeds(seeds);
    var ws := NatStrings(seeds);
    assert OccursAt(line, ": ", 5);
    forall j: nat | j < 5
      ensures !OccursAt(line, ": ", j)
    {
      assert line[j] != ':';
    }
    SplitOnceAt(line, ": ", 5);
    assert SplitOnce(line, ": ") == Some((line[..5], line[7..]));
    assert line[7..] == Unwords(ws);
    forall k | 0 <= k < |ws|
      ensures |ws[k]| > 0 && NoWhitespace(ws[k])
    {
      var w := NatToString(seeds[k]);
      assert AllDigits(w);
      assert forall i :: 0 <= i < |w| ==> IsDigit(w[i]);
    }
    WordsOfUnwords(ws);
    forall i | 0 <= i < |ws|
      ensures ParseNat(ws[i]) == Some(seeds[i])
    {
      ParseNatOfNatToString(seeds[i]);
    }
    ParseNatsExact(ws, seeds);
  }

  lemma ParseNatsExact(ws: seq<string>, ns: seq<nat>)
    requires |ws| == |ns|
    requires forall i :: 0 <= i < |ws| ==> ParseNat(ws[i]) == Some(ns[i])
    ensures ParseNats(ws) == Some(ns)
  {
    var r := ParseNats(ws);
    assert r.Some?;
    assert forall i :: 0 <= i < |ws| ==> r.value[i] == ns[i];
    assert r.value == ns;
  }

  /** The almanac as the solution reads it: the seed numbers after the
      first ": " of the text before the first blank line, and after it one
      block of rules per blank-line-separated part, title lines skipped;
      `None` where a `split_once`, an `expect` or a parse aborts. */
  function ReadAlmanac(input: string): Option<(seq<nat>, seq<seq<Rule>>)> {
    match SplitOnce(input, "\n\n")
    case None => None
    case Some((seedLine, maps)) =>
      match (ParseSeeds(seedLine), ParseBlocks(Split(maps, "\n\n")))
      case (Some(seeds), Some(stages)) => Some((seeds, stages))
      case _ => None
  }

  /** Both answers, when both exist. */
  function Both(a: Option<nat>, b: Option<nat>): (r: Option<(nat, nat)>)
    ensures r.Some? <==> a.Some? && b.Some?
    ensures r.Some? ==> r.value == (a.value, b.value)
  {
    if a.Some? && b.Some? then Some((a.value, b.value)) else None
  }

  /** `find_best_location` as written: part 1 over the listed seeds and
      part 2 with `find_mapped_ranges`; `None` where the solution aborts. */
  function FindBestLocation(input: string): (r: Option<(nat, nat)>)
    ensures r.Some? ==> ReadAlmanac(input).Some? && |ReadAlmanac(input).value.0| >= 2
  {
    match ReadAlmanac(input)
    case None => None
    case Some((seeds, stages)) => Both(Part1(seeds, stages), Part2AsWritten(seeds, stages))
  }

  /** On a readable almanac the solution answers exactly when there are at
      least two seed numbers: part 1 is the lowest location of a listed
      seed, part 2 the least start of what the stages make of the seed
      intervals, empty leftovers included. */
  lemma FindBestLocationSpec(input: string, seeds: seq<nat>, stages: seq<seq<Rule>>)
    requires ReadAlmanac(input) == Some((seeds, stages))
    ensures FindBestLocation(input).Some? <==> |seeds| >= 2
    ensures FindBestLocation(input).Some? ==>
              var best := FindBestLocation(input).value;
              (exists i :: 0 <= i < |seeds| && best.0 == Location(seeds[i], stages)) &&
              (forall i :: 0 <= i < |seeds| ==> best.0 <= Location(seeds[i], stages)) &&
              Part2AsWritten(seeds, stages) == Some(best.1)
  {
  }

  /** `find_best_location` with the corrected interval mapping. */
  function FindBestLocationCorrected(input: string): (r: Option<(nat, nat)>)
    ensures r.Some? ==> ReadAlmanac(input).Some? && |ReadAlmanac(input).value.0| >= 1
  {
    match ReadAlmanac(input)
    case None => None
    case Some((seeds, stages)) => Both(Part1(seeds, stages), Part2(seeds, stages))
  }

  /** With the corrected mapping, and rules whose sources neither repeat
      nor overlap, part 2 is the lowest location of any seed value in the
      seed intervals, and there is an answer exactly when some interval
      is non-empty. */
  lemma FindBestLocationCorrectedSpec(input: string, seeds: seq<nat>, stages: seq<seq<Rule>>)
    requires ReadAlmanac(input) == Some((seeds, stages)) && AllSeparate(stages)
    ensures FindBestLocationCorrected(input).Some? <==> exists x: nat :: Hit(x, SeedRanges(seeds))
    ensures FindBestLocationCorrected(input).Some? ==>
              var best := FindBestLocationCorrected(input).value;
              (forall i :: 0 <= i < |seeds| ==> best.0 <= Location(seeds[i], stages)) &&
              (exists x: nat :: Hit(x, SeedRanges(seeds)) && best.1 == Location(x, stages)) &&
              (forall x: nat :: Hit(x, SeedRanges(seeds)) ==> best.1 <= Location(x, stages))
  {
    Part2Lowest(seeds, stages);
    if exists x: nat :: Hit(x, SeedRanges(seeds)) {
      var x: nat :| Hit(x, SeedRanges(seeds));
      var i :| 0 <= i < |SeedRanges(seeds)| && InRange(x, SeedRanges(seeds)[i]);
      assert |seeds| >= 2;
    }
  }
}
