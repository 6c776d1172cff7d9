/** Day 19: parts rated on four categories pass through named workflows of
    rules; each rule either sends the part on, accepts it or rejects it.
    The answer is the total rating of the accepted parts. */
module Day19 {
  import opened Common
  import opened Text

  /** A part's four ratings. */
  datatype Part = Part(x: nat, m: nat, a: nat, s: nat)

  /** The rating of the category a rule names; any other letter panics. */
  function Rating(p: Part, c: char): (r: Option<nat>)
    ensures r.Some? <==> c in "xmas"
  {
    if c == 'x' then Some(p.x)
    else if c == 'm' then Some(p.m)
    else if c == 'a' then Some(p.a)
    else if c == 's' then Some(p.s)
    else None
  }

  function Total(p: Part): nat {
    p.x + p.m + p.a + p.s
  }

  // ---------------------------------------------------------------------
  // Parts

  /** `HashMap::from_iter` over `name=value` pairs: a later pair for the
      same name replaces an earlier one. */
  function Fields(pairs: seq<(string, string)>): (f: map<string, string>)
    ensures forall k :: k in f <==> exists i :: 0 <= i < |pairs| && pairs[i].0 == k
  {
    if pairs == [] then map[]
    else
      var init := Fields(pairs[..|pairs| - 1]);
      assert forall i :: 0 <= i < |pairs| - 1 ==> pairs[..|pairs| - 1][i] == pairs[i];
      init[pairs[|pairs| - 1].0 := pairs[|pairs| - 1].1]
  }

  /** Each comma-separated piece split at its first `=`; a piece without
      one panics. */
  function FieldPairs(pieces: seq<string>): (r: Option<seq<(string, string)>>)
    ensures r.Some? ==> |r.value| == |pieces|
  {
    if pieces == [] then Some([])
    else
      match (SplitOnce(pieces[0], "="), FieldPairs(pieces[1..]))
      case (Some(pair), Some(rest)) => Some([pair] + rest)
      case _ => None
  }

  /** `Part::from`: the text between the first and last character is split
      at commas into `name=value` fields; `x`, `m`, `a` and `s` must each
      be present and parse. Slicing a text shorter than two characters
      panics. */
  function ParsePart(value: string): (r: Option<Part>)
    ensures r.Some? ==> |value| >= 2
  {
    if |value| < 2 then None
    else
      match FieldPairs(Split(value[1..|value| - 1], ","))
      case None => None
      case Some(pairs) =>
        var f := Fields(pairs);
        if "x" in f && "m" in f && "a" in f && "s" in f then
          match (ParseNat(f["x"]), ParseNat(f["m"]), ParseNat(f["a"]), ParseNat(f["s"]))
          case (Some(x), Some(m), Some(a), Some(s)) => Some(Part(x, m, a, s))
          case _ => None
        else None
  }

  /** Fields written `name=value`. */
  function FieldTexts(pairs: seq<(string, string)>): (r: seq<string>)
    ensures |r| == |pairs|
  {
    if pairs == [] then [] else [pairs[0].0 + "=" + pairs[0].1] + FieldTexts(pairs[1..])
  }

  lemma {:induction false} FieldTextsAt(pairs: seq<(string, string)>, j: nat)
    requires j < |pairs|
    ensures FieldTexts(pairs)[j] == pairs[j].0 + "=" + pairs[j].1
    decreases j
  {
    if j > 0 {
      FieldTextsAt(pairs[1..], j - 1);
    }
  }

  /** Written fields whose names hold no `=` split back into the fields. */
  lemma {:induction false} FieldPairsOfTexts(pairs: seq<(string, string)>)
    requires forall i :: 0 <= i < |pairs| ==> '=' !in pairs[i].0
    ensures FieldPairs(FieldTexts(pairs)) == Some(pairs)
    decreases |pairs|
  {
    if pairs != [] {
      var rest := pairs[1..];
      SplitOnceOfGlued(pairs[0].0, "=", pairs[0].1, 0);
      assert FieldTexts(pairs) == [pairs[0].0 + "=" + pairs[0].1] + FieldTexts(rest);
      assert FieldTexts(pairs)[1..] == FieldTexts(rest);
      forall i | 0 <= i < |rest|
        ensures '=' !in rest[i].0
      {
        assert rest[i] == pairs[i + 1];
      }
      FieldPairsOfTexts(rest);
      assert [pairs[0]] + rest == pairs;
    }
  }

  /** A part's four fields as name and value. */
  function PartPairs(p: Part): seq<(string, string)> {
    [("x", NatToString(p.x)), ("m", NatToString(p.m)), ("a", NatToString(p.a)), ("s", NatToString(p.s))]
  }

  /** A part as the puzzle writes it, `{x=787,m=2655,a=1222,s=2876}`. */
  function PartText(p: Part): string {
    "{" + Join(FieldTexts(PartPairs(p)), ",") + "}"
  }

  lemma NoSeparatorInNumber(n: nat, c: char)
    requires !IsDigit(c)
    ensures c !in NatToString(n)
  {
    var s := NatToString(n);
    assert AllDigits(s);
  }

  /** The fields of a written part split at commas. */
  lemma PartFieldsSplit(p: Part)
    ensures Split(Join(FieldTexts(PartPairs(p)), ","), ",") == FieldTexts(PartPairs(p))
  {
    var pairs := PartPairs(p);
    var texts := FieldTexts(pairs);
    NoSeparatorInNumber(p.x, ',');
    NoSeparatorInNumber(p.m, ',');
    NoSeparatorInNumber(p.a, ',');
    NoSeparatorInNumber(p.s, ',');
    forall j | 0 <= j < |pairs|
      ensures ',' !in texts[j]
    {
      FieldTextsAt(pairs, j);
      assert j == 0 || j == 1 || j == 2 || j == 3;
    }
    SplitOfJoin(texts, ",", 0);
  }

  /** The four distinct names map to their values. */
  lemma PartPairsFields(p: Part)
    ensures Fields(PartPairs(p)) == map["x" := NatToString(p.x), "m" := NatToString(p.m),
                                        "a" := NatToString(p.a), "s" := NatToString(p.s)]
  {
    var pairs := PartPairs(p);
    assert pairs[..1][..0] == [];
    assert Fields(pairs[..1]) == map["x" := NatToString(p.x)];
    assert pairs[..2][..1] == pairs[..1];
    assert Fields(pairs[..2]) == map["x" := NatToString(p.x), "m" := NatToString(p.m)];
    assert pairs[..3][..2] == pairs[..2];
    assert Fields(pairs[..3]) == map["x" := NatToString(p.x), "m" := NatToString(p.m), "a" := NatToString(p.a)];
    assert pairs[..4] == pairs;
  }

  /** A written part parses back to itself. */
  lemma ParsePartOfText(p: Part)
    ensures ParsePart(PartText(p)) == Some(p)
  {
    PartTextPairs(p);
    PartFieldsParse(p);
    ParsePartOfFields(PartText(p), PartPairs(p), p);
  }

  /** A text whose fields give every category's rating parses to that part. */
  lemma ParsePartOfFields(value: string, pairs: seq<(string, string)>, p: Part)
    requires |value| >= 2 && FieldPairs(Split(value[1..|value| - 1], ",")) == Some(pairs)
    requires FieldsRate(Fields(pairs), p)
    ensures ParsePart(value) == Some(p)
  {
  }

  /** Every category's field holds the number of that rating. */
  predicate FieldsRate(f: map<string, string>, p: Part) {
    "x" in f && "m" in f && "a" in f && "s" in f &&
    ParseNat(f["x"]) == Some(p.x) && ParseNat(f["m"]) == Some(p.m) &&
    ParseNat(f["a"]) == Some(p.a) && ParseNat(f["s"]) == Some(p.s)
  }

  /** A part's written fields give its ratings. */
  lemma PartFieldsParse(p: Part)
    ensures FieldsRate(Fields(PartPairs(p)), p)
  {
    PartPairsFields(p);
    var f := Fields(PartPairs(p));
    assert "x" != "m" && "x" != "a" && "x" != "s" && "m" != "a" && "m" != "s" && "a" != "s";
    ParseNatOfNatToString(p.x);
    assert "x" in f && ParseNat(f["x"]) == Some(p.x);
    ParseNatOfNatToString(p.m);
    assert "m" in f && ParseNat(f["m"]) == Some(p.m);
    ParseNatOfNatToString(p.a);
    assert "a" in f && ParseNat(f["a"]) == Some(p.a);
    ParseNatOfNatToString(p.s);
    assert "s" in f && ParseNat(f["s"]) == Some(p.s);
  }

  /** Between its braces a written part splits into its fields. */
  lemma PartTextPairs(p: Part)
    ensures var text := PartText(p);
            |text| >= 2 && FieldPairs(Split(text[1..|text| - 1], ",")) == Some(PartPairs(p))
  {
    var text := PartText(p);
    var pairs := PartPairs(p);
    assert text[1..|text| - 1] == Join(FieldTexts(pairs), ",");
    PartFieldsSplit(p);
    forall i | 0 <= i < |pairs|
      ensures '=' !in pairs[i].0
    {
      assert i == 0 || i == 1 || i == 2 || i == 3;
    }
    FieldPairsOfTexts(pairs);
  }

  // ---------------------------------------------------------------------
  // Workflows

  /** `str::replace(c, "")`: the text without any `c`. */
  function Without(s: string, c: char): (r: string)
    ensures c !in r && |r| <= |s|
    ensures forall d :: d != c ==> (d in r <==> d in s)
  {
    if s == [] then []
    else (if s[0] == c then [] else [s[0]]) + Without(s[1..], c)
  }

  lemma {:induction false} WithoutAbsent(s: string, c: char)
    requires c !in s
    ensures Without(s, c) == s
  {
    if s != [] {
      WithoutAbsent(s[1..], c);
    }
  }

  lemma {:induction false} WithoutAppend(s: string, t: string, c: char)
    ensures Without(s + t, c) == Without(s, c) + Without(t, c)
  {
    if s != [] {
      WithoutAppend(s[1..], t, c);
      assert (s + t)[1..] == s[1..] + t;
    } else {
      assert s + t == t;
    }
  }

  /** A workflow line, `px{a<2006:qkq,m>2090:A,rfg}`: the name before the
      first `{`, then the rule texts between commas once every `}` is
      removed. A line without `{` panics. */
  function ParseWorkflow(line: string): (r: Option<(string, seq<string>)>)
    ensures r.Some? ==> '{' !in r.value.0 && |r.value.1| >= 1
    ensures r.None? <==> '{' !in line
  {
    var cut := SplitOnce(line, "{");
    CharNotContained(line, '{');
    if cut.None? then None
    else
      CharNotContained(cut.value.0, '{');
      Some((cut.value.0, Split(Without(cut.value.1, '}'), ",")))
  }

  /** A one-character separator is contained exactly where the character
      occurs. */
  lemma CharNotContained(s: string, c: char)
    ensures !Contains(s, [c]) <==> c !in s
  {
    forall j: nat
      ensures OccursAt(s, [c], j) <==> j < |s| && s[j] == c
    {
      OccursAtChar(s, c, j);
    }
    if c in s {
      var j :| 0 <= j < |s| && s[j] == c;
      assert OccursAt(s, [c], j);
    }
  }

  /** A workflow as the puzzle writes it. */
  function WorkflowText(name: string, rules: seq<string>): string
    requires |rules| >= 1
  {
    name + "{" + Join(rules, ",") + "}"
  }

  /** A written workflow parses back to its name and rules, when the name
      holds no `{` and the rules no comma or `}`. */
  lemma ParseWorkflowOfText(name: string, rules: seq<string>)
    requires |rules| >= 1 && '{' !in name
    requires forall k :: 0 <= k < |rules| ==> ',' !in rules[k] && '}' !in rules[k]
    ensures ParseWorkflow(WorkflowText(name, rules)) == Some((name, rules))
  {
    var body := Join(rules, ",");
    SplitOnceOfGlued(name, "{", body + "}", 0);
    assert WorkflowText(name, rules) == name + "{" + (body + "}");
    JoinAvoids(rules, ",", '}');
    WithoutAppend(body, "}", '}');
    WithoutAbsent(body, '}');
    assert Without("}", '}') == [];
    assert body + [] == body;
    SplitOfJoin(rules, ",", 0);
  }

  /** A character in none of the parts nor the separator is not in their
      join. */
  lemma {:induction false} JoinAvoids(parts: seq<string>, sep: string, c: char)
    requires |parts| >= 1 && c !in sep
    requires forall k :: 0 <= k < |parts| ==> c !in parts[k]
    ensures c !in Join(parts, sep)
  {
    if |parts| > 1 {
      JoinAvoids(parts[1..], sep, c);
    }
  }

  type Workflows = map<string, seq<string>>

  /** `HashMap::from_iter` over the workflow lines: a later line with the
      same name replaces an earlier one. */
  function ParseWorkflows(lines: seq<string>): (r: Option<Workflows>)
    ensures r.Some? <==> forall k :: 0 <= k < |lines| ==> '{' in lines[k]
  {
    if lines == [] then Some(map[])
    else
      var init := lines[..|lines| - 1];
      assert forall k :: 0 <= k < |lines| - 1 ==> lines[k] == init[k];
      match (ParseWorkflows(init), ParseWorkflow(lines[|lines| - 1]))
      case (Some(wfs), Some((name, rules))) => Some(wfs[name := rules])
      case (None, _) =>
        assert exists k :: 0 <= k < |init| && '{' !in init[k];
        None
      case (_, None) => None
  }

  /** The last line naming a workflow gives its rules. */
  lemma {:induction false} ParseWorkflowsLastWins(lines: seq<string>, k: nat)
    requires ParseWorkflows(lines).Some? && k < |lines|
    requires forall j :: k < j < |lines| ==> ParseWorkflow(lines[j]).value.0 != ParseWorkflow(lines[k]).value.0
    ensures ParseWorkflow(lines[k]).value.0 in ParseWorkflows(lines).value &&
            ParseWorkflows(lines).value[ParseWorkflow(lines[k]).value.0] == ParseWorkflow(lines[k]).value.1
  {
    if k < |lines| - 1 {
      var init := lines[..|lines| - 1];
      assert init[k] == lines[k];
      forall j | k < j < |init|
        ensures ParseWorkflow(init[j]).value.0 != ParseWorkflow(init[k]).value.0
      {
        assert init[j] == lines[j];
      }
      ParseWorkflowsLastWins(init, k);
    }
  }

  // ---------------------------------------------------------------------
  // The system

  datatype System = System(parts: seq<Part>, workflows: Workflows)

  /** Every part line parsed; one that fails panics. */
  function ParseParts(lines: seq<string>): (r: Option<seq<Part>>)
    ensures r.Some? ==> |r.value| == |lines|
  {
    if lines == [] then Some([])
    else
      match (ParsePart(lines[0]), ParseParts(lines[1..]))
      case (Some(p), Some(ps)) => Some([p] + ps)
      case _ => None
  }

  /** The parts parse exactly when every line does. */
  lemma {:induction false} ParsePartsSome(lines: seq<string>)
    ensures ParseParts(lines).Some? <==> forall k :: 0 <= k < |lines| ==> ParsePart(lines[k]).Some?
  {
    if lines != [] {
      var rest := lines[1..];
      ParsePartsSome(rest);
      assert forall k :: 1 <= k < |lines| ==> lines[k] == rest[k - 1];
    }
  }

  /** Each parsed part comes from the line in its place. */
  lemma {:induction false} ParsePartsAt(lines: seq<string>, k: nat)
    requires ParseParts(lines).Some? && k < |lines|
    ensures |ParseParts(lines).value| == |lines| && ParsePart(lines[k]).Some? &&
            ParseParts(lines).value[k] == ParsePart(lines[k]).value
    decreases k
  {
    ParsePartsCons(lines);
    if k > 0 {
      var rest := lines[1..];
      ParsePartsAt(rest, k - 1);
      assert rest[k - 1] == lines[k];
      assert ParseParts(lines).value[k] == ParseParts(rest).value[k - 1];
    }
  }

  lemma ParsePartsCons(lines: seq<string>)
    requires ParseParts(lines).Some? && |lines| > 0
    ensures ParsePart(lines[0]).Some? && ParseParts(lines[1..]).Some?
    ensures ParseParts(lines).value == [ParsePart(lines[0]).value] + ParseParts(lines[1..]).value
  {
  }

  /** `PartSystem::from`: the workflow lines, a blank line, the part
      lines. Input without a blank line panics. */
  function ParseSystem(input: string): (r: Option<System>)
    ensures r.Some? ==>
              exists wf, ps :: input == wf + "\n\n" + ps &&
                               ParseParts(Lines(ps)) == Some(r.value.parts) &&
                               ParseWorkflows(Lines(wf)) == Some(r.value.workflows)
    ensures r.Some? <==> (Contains(input, "\n\n") &&
                          ParseWorkflows(Lines(SplitOnce(input, "\n\n").value.0)).Some? &&
                          ParseParts(Lines(SplitOnce(input, "\n\n").value.1)).Some?)
    ensures r.Some? ==> (forall j: nat :: !OccursAt(SplitOnce(input, "\n\n").value.0, "\n\n", j)) &&
                        ParseWorkflows(Lines(SplitOnce(input, "\n\n").value.0)) == Some(r.value.workflows) &&
                        ParseParts(Lines(SplitOnce(input, "\n\n").value.1)) == Some(r.value.parts)
  {
    match SplitOnce(input, "\n\n")
    case None => None
    case Some((wf, ps)) =>
      match (ParseParts(Lines(ps)), ParseWorkflows(Lines(wf)))
      case (Some(parts), Some(wfs)) => Some(System(parts, wfs))
      case _ => None
  }

  // ---------------------------------------------------------------------
  // Rules

  /** What one rule makes of a part: not this rule, go to a target, or a
      panic on a malformed condition. */
  datatype Verdict = Pass | Send(target: string) | Malformed

  /** One rule of `evalutate_workflow`'s `find_map`: text without `:` sends
      the part to that text; otherwise the condition before the first `:`
      is a category letter, `<` or `>`, and a number. The number is read
      before the letter and the comparison are checked; each failure
      panics. */
  function ApplyRule(rule: string, p: Part): (v: Verdict)
    ensures v.Send? ==> exists pre :: rule == pre + v.target
  {
    match SplitOnce(rule, ":")
    case None =>
      assert rule == [] + rule;
      Send(rule)
    case Some((cond, target)) =>
      assert rule == (cond + ":") + target;
      if |cond| < 2 then Malformed
      else
        match (ParseNat(cond[2..]), Rating(p, cond[0]))
        case (Some(limit), Some(value)) =>
          if cond[1] == '>' then (if value > limit then Send(target) else Pass)
          else if cond[1] == '<' then (if value < limit then Send(target) else Pass)
          else Malformed
        case _ => Malformed
  }

  /** A one-character separator occurs exactly when the character does. */
  lemma ContainsChar(s: string, c: char)
    ensures Contains(s, [c]) <==> c in s
  {
    if c in s {
      var i :| 0 <= i < |s| && s[i] == c;
      assert OccursAt(s, [c], i);
    }
    if Contains(s, [c]) {
      var i: nat :| OccursAt(s, [c], i);
      assert s[i] == s[i..i + 1][0];
    }
  }

  /** A condition the closure cannot evaluate: too short for a letter and
      a comparison, a letter that is no category, a comparison other than
      '<' or '>', or no number after them. */
  predicate BadCondition(cond: string) {
    |cond| < 2 || cond[0] !in "xmas" || cond[1] !in "<>" || ParseNat(cond[2..]).None?
  }

  /** A rule without ':' always sends the part to its text; a rule with
      one panics exactly when the condition before its first ':' is bad. */
  lemma ApplyRuleMalformed(rule: string, p: Part)
    ensures SplitOnce(rule, ":").Some? <==> ':' in rule
    ensures ':' !in rule ==> ApplyRule(rule, p) == Send(rule)
    ensures ApplyRule(rule, p) == Malformed <==>
              SplitOnce(rule, ":").Some? && BadCondition(SplitOnce(rule, ":").value.0)
  {
    ContainsChar(rule, ':');
  }

  /** What each rule of a workflow makes of a part. */
  function Verdicts(rules: seq<string>, p: Part): (vs: seq<Verdict>)
    ensures |vs| == |rules|
  {
    if rules == [] then [] else [ApplyRule(rules[0], p)] + Verdicts(rules[1..], p)
  }

  lemma {:induction false} VerdictsAppend(rules: seq<string>, more: seq<string>, p: Part)
    ensures Verdicts(rules + more, p) == Verdicts(rules, p) + Verdicts(more, p)
    decreases |rules|
  {
    if rules == [] {
      assert rules + more == more;
    } else {
      assert (rules + more)[0] == rules[0] && (rules + more)[1..] == rules[1..] + more;
      VerdictsAppend(rules[1..], more, p);
    }
  }

  /** Each verdict is that of the rule in its place. */
  lemma {:induction false} VerdictsAt(rules: seq<string>, p: Part, i: nat)
    requires i < |rules|
    ensures Verdicts(rules, p)[i] == ApplyRule(rules[i], p)
    decreases i
  {
    if i > 0 {
      VerdictsAt(rules[1..], p, i - 1);
    }
  }

  /** `find_map`: the first verdict that is not `Pass` decides; `Pass`
      when every rule passes. */
  function FirstVerdict(vs: seq<Verdict>): Verdict {
    if vs == [] then Pass
    else if vs[0].Pass? then FirstVerdict(vs[1..])
    else vs[0]
  }

  /** The verdict is that of the first rule that does not pass, after
      rules that all pass; and it is `Pass` exactly when every rule
      passes. */
  lemma {:induction false} FirstVerdictSpec(vs: seq<Verdict>)
    ensures FirstVerdict(vs).Pass? <==> forall k :: 0 <= k < |vs| ==> vs[k].Pass?
    ensures !FirstVerdict(vs).Pass? ==>
              exists k :: 0 <= k < |vs| && FirstVerdict(vs) == vs[k] && forall j :: 0 <= j < k ==> vs[j].Pass?
  {
    if vs != [] {
      FirstVerdictSpec(vs[1..]);
      assert forall k :: 1 <= k < |vs| ==> vs[k] == vs[1..][k - 1];
      if vs[0].Pass? && !FirstVerdict(vs).Pass? {
        var k :| 0 <= k < |vs[1..]| && FirstVerdict(vs[1..]) == vs[1..][k] &&
                 forall j :: 0 <= j < k ==> vs[1..][j].Pass?;
        assert FirstVerdict(vs) == vs[k + 1];
      }
      if !vs[0].Pass? {
        assert FirstVerdict(vs) == vs[0];
      }
    }
  }

  lemma {:induction false} FirstVerdictOfAppend(vs: seq<Verdict>, more: seq<Verdict>)
    requires !FirstVerdict(vs).Pass?
    ensures FirstVerdict(vs + more) == FirstVerdict(vs)
  {
    assert (vs + more)[0] == vs[0];
    if vs[0].Pass? {
      assert (vs + more)[1..] == vs[1..] + more;
      FirstVerdictOfAppend(vs[1..], more);
    }
  }

  /** The rule `find_map` stops at decides: rules after it are never
      looked at, so a malformed rule there does no harm. */
  lemma FirstVerdictStops(rules: seq<string>, more: seq<string>, p: Part)
    requires !FirstVerdict(Verdicts(rules, p)).Pass?
    ensures FirstVerdict(Verdicts(rules + more, p)) == FirstVerdict(Verdicts(rules, p))
  {
    VerdictsAppend(rules, more, p);
    FirstVerdictOfAppend(Verdicts(rules, p), Verdicts(more, p));
  }

  /** A rule as a structure: a strict comparison of one category with a
      number, or the unconditional last rule. */
  datatype Rule = Test(category: char, less: bool, limit: nat, target: string) | Always(target: string)

  /** What a rule means for a part. */
  function Decide(r: Rule, p: Part): Verdict
    requires r.Test? ==> r.category in "xmas"
  {
    match r
    case Always(t) => Send(t)
    case Test(c, less, limit, t) =>
      var value := Rating(p, c).value;
      if (less && value < limit) || (!less && value > limit) then Send(t) else Pass
  }

  /** A rule as the puzzle writes it, `a<2006:qkq` or `rfg`. */
  function RuleText(r: Rule): string {
    match r
    case Always(t) => t
    case Test(c, less, limit, t) => [c] + [if less then '<' else '>'] + NatToString(limit) + ":" + t
  }

  /** A written rule means what it says: the comparison is strict, on the
      named category, and an unconditional rule (without `:`) sends the
      part on. */
  lemma ApplyRuleOfText(r: Rule, p: Part)
    requires r.Test? ==> r.category in "xmas"
    requires r.Always? ==> ':' !in r.target
    ensures ApplyRule(RuleText(r), p) == Decide(r, p)
  {
    match r
    case Always(t) =>
      AbsentCharNotContained(t, ":", 0);
    case Test(c, less, limit, t) =>
      var cond := [c] + [if less then '<' else '>'] + NatToString(limit);
      NoSeparatorInNumber(limit, ':');
      assert ':' !in cond;
      SplitOnceOfGlued(cond, ":", t, 0);
      assert RuleText(r) == cond + ":" + t;
      assert cond[2..] == NatToString(limit);
      ParseNatOfNatToString(limit);
  }

  /** A condition on a letter that is no category panics. */
  lemma UnknownCategory(c: char, less: bool, limit: nat, t: string, p: Part)
    requires c !in "xmas" && c != ':'
    ensures ApplyRule(RuleText(Test(c, less, limit, t)), p) == Malformed
  {
    var cond := [c] + [if less then '<' else '>'] + NatToString(limit);
    NoSeparatorInNumber(limit, ':');
    assert ':' !in cond;
    SplitOnceOfGlued(cond, ":", t, 0);
    assert RuleText(Test(c, less, limit, t)) == cond + ":" + t;
    assert cond[2..] == NatToString(limit);
    ParseNatOfNatToString(limit);
  }

  // ---------------------------------------------------------------------
  // Evaluation

  /** `evalutate_workflow` with at most `fuel` hops to another workflow: a
      missing workflow panics, so does one whose rules all pass or one
      with a malformed rule it reaches; `A` accepts, `R` rejects, any
      other target is the next workflow. */
  function Evaluate(wfs: Workflows, name: string, p: Part, fuel: nat): (r: Run<bool>)
    ensures r.Done? ==> name in wfs
    decreases fuel
  {
    if name !in wfs then Panic
    else
      match FirstVerdict(Verdicts(wfs[name], p))
      case Pass => Panic
      case Malformed => Panic
      case Send(t) =>
        if t == "A" then Done(true)
        else if t == "R" then Done(false)
        else if fuel == 0 then OutOfFuel
        else Evaluate(wfs, t, p, fuel - 1)
  }

  /** `route` is the chain of workflows a part passes through, each sending
      it to the next, the last accepting or rejecting it. */
  ghost predicate Route(wfs: Workflows, p: Part, route: seq<string>, accept: bool)
    decreases |route|
  {
    |route| >= 1 && route[0] in wfs &&
    if |route| == 1 then FirstVerdict(Verdicts(wfs[route[0]], p)) == Send(Decision(accept))
    else Hop(wfs, p, route[0], route[1]) && Route(wfs, p, route[1..], accept)
  }

  /** Workflow `from` sends the part on to workflow `to`. */
  ghost predicate Hop(wfs: Workflows, p: Part, from: string, to: string)
    requires from in wfs
  {
    FirstVerdict(Verdicts(wfs[from], p)) == Send(to) && to != "A" && to != "R"
  }

  /** The target that accepts or rejects. */
  function Decision(accept: bool): string {
    if accept then "A" else "R"
  }

  /** A finished evaluation followed a route from the named workflow. */
  lemma {:induction false} EvaluateRoute(wfs: Workflows, name: string, p: Part, fuel: nat) returns (route: seq<string>)
    requires Evaluate(wfs, name, p, fuel).Done?
    ensures Route(wfs, p, route, Evaluate(wfs, name, p, fuel).result) && |route| <= fuel + 1 && route[0] == name
    decreases fuel
  {
    var t := FirstVerdict(Verdicts(wfs[name], p)).target;
    if t == "A" || t == "R" {
      route := [name];
    } else {
      var rest := EvaluateRoute(wfs, t, p, fuel - 1);
      route := [name] + rest;
      assert route[1..] == rest && route[1] == rest[0];
    }
  }

  /** And a route is followed by evaluation with enough fuel. */
  lemma {:induction false} RouteEvaluates(wfs: Workflows, p: Part, route: seq<string>, accept: bool, fuel: nat)
    requires Route(wfs, p, route, accept) && |route| <= fuel + 1
    ensures Evaluate(wfs, route[0], p, fuel) == Done(accept)
    decreases |route|
  {
    if |route| > 1 {
      EvaluateHop(wfs, p, route[0], route[1], fuel);
      RouteEvaluates(wfs, p, route[1..], accept, fuel - 1);
    } else {
      EvaluateDecision(wfs, p, route[0], accept, fuel);
    }
  }

  /** One hop costs one unit of fuel. */
  lemma EvaluateHop(wfs: Workflows, p: Part, from: string, to: string, fuel: nat)
    requires from in wfs && Hop(wfs, p, from, to) && fuel > 0
    ensures Evaluate(wfs, from, p, fuel) == Evaluate(wfs, to, p, fuel - 1)
  {
  }

  /** A workflow that sends the part to `A` or `R` decides it. */
  lemma EvaluateDecision(wfs: Workflows, p: Part, name: string, accept: bool, fuel: nat)
    requires name in wfs && FirstVerdict(Verdicts(wfs[name], p)) == Send(Decision(accept))
    ensures Evaluate(wfs, name, p, fuel) == Done(accept)
  {
  }

  /** More fuel changes no evaluation that finished. */
  lemma {:induction false} EvaluateFuel(wfs: Workflows, name: string, p: Part, fuel: nat, more: nat)
    requires fuel <= more && Evaluate(wfs, name, p, fuel).Done?
    ensures Evaluate(wfs, name, p, more) == Evaluate(wfs, name, p, fuel)
  {
    var route := EvaluateRoute(wfs, name, p, fuel);
    RouteEvaluates(wfs, p, route, Evaluate(wfs, name, p, fuel).result, more);
  }

  /** `is_part_accepted`: evaluation starts at `in`. */
  function IsAccepted(wfs: Workflows, p: Part, fuel: nat): Run<bool> {
    Evaluate(wfs, "in", p, fuel)
  }

  /** A part is accepted (or rejected) within `fuel` hops exactly when a
      route of at most `fuel + 1` workflows from `in` accepts (or rejects)
      it. */
  lemma IsAcceptedRoute(wfs: Workflows, p: Part, fuel: nat, accept: bool)
    ensures IsAccepted(wfs, p, fuel) == Done(accept) <==>
              exists route :: Route(wfs, p, route, accept) && |route| <= fuel + 1 && route[0] == "in"
  {
    if IsAccepted(wfs, p, fuel) == Done(accept) {
      var route := EvaluateRoute(wfs, "in", p, fuel);
    }
    if exists route :: Route(wfs, p, route, accept) && |route| <= fuel + 1 && route[0] == "in" {
      var route :| Route(wfs, p, route, accept) && |route| <= fuel + 1 && route[0] == "in";
      RouteEvaluates(wfs, p, route, accept, fuel);
    }
  }

  /** The evaluation of every part, in order. */
  function Outcomes(wfs: Workflows, parts: seq<Part>, fuel: nat): (r: seq<Run<bool>>)
    ensures |r| == |parts|
  {
    if parts == [] then [] else [IsAccepted(wfs, parts[0], fuel)] + Outcomes(wfs, parts[1..], fuel)
  }

  lemma {:induction false} OutcomesAppend(wfs: Workflows, a: seq<Part>, b: seq<Part>, fuel: nat)
    ensures Outcomes(wfs, a + b, fuel) == Outcomes(wfs, a, fuel) + Outcomes(wfs, b, fuel)
    decreases |a|
  {
    if a == [] {
      assert a + b == b;
    } else {
      assert (a + b)[0] == a[0] && (a + b)[1..] == a[1..] + b;
      OutcomesAppend(wfs, a[1..], b, fuel);
    }
  }

  /** The total rating of the parts whose outcome is acceptance, in
      order; the first part whose evaluation panics or runs out of fuel
      decides the whole. */
  function Tally(parts: seq<Part>, outcomes: seq<Run<bool>>): (r: Run<nat>)
    requires |parts| == |outcomes|
    ensures r.Done? <==> forall i :: 0 <= i < |outcomes| ==> outcomes[i].Done?
  {
    if parts == [] then Done(0)
    else
      assert forall i :: 1 <= i < |outcomes| ==> outcomes[i] == outcomes[1..][i - 1];
      match outcomes[0]
      case Panic => Panic
      case OutOfFuel => OutOfFuel
      case Done(accepted) =>
        match Tally(parts[1..], outcomes[1..])
        case Done(rest) => Done((if accepted then Total(parts[0]) else 0) + rest)
        case OutOfFuel => OutOfFuel
        case Panic => Panic
  }

  /** The tally of two lists of parts is the sum of theirs. */
  lemma {:induction false} TallyAppend(a: seq<Part>, oa: seq<Run<bool>>, b: seq<Part>, ob: seq<Run<bool>>)
    requires |a| == |oa| && |b| == |ob|
    requires Tally(a, oa).Done? && Tally(b, ob).Done?
    ensures Tally(a + b, oa + ob) == Done(Tally(a, oa).result + Tally(b, ob).result)
    decreases |a|
  {
    if a == [] {
      assert a + b == b && oa + ob == ob;
    } else {
      assert (a + b)[0] == a[0] && (a + b)[1..] == a[1..] + b;
      assert (oa + ob)[0] == oa[0] && (oa + ob)[1..] == oa[1..] + ob;
      assert Tally(a[1..], oa[1..]).Done?;
      TallyAppend(a[1..], oa[1..], b, ob);
    }
  }

  /** One part counts its total exactly when it is accepted. */
  lemma TallyOne(p: Part, o: Run<bool>)
    requires o.Done?
    ensures Tally([p], [o]) == Done(if o.result then Total(p) else 0)
  {
    assert [p][1..] == [] && [o][1..] == [];
  }

  /** `sum_accepted_parts` on a list of parts. */
  function SumOver(wfs: Workflows, parts: seq<Part>, fuel: nat): Run<nat> {
    Tally(parts, Outcomes(wfs, parts, fuel))
  }

  /** The accepted total of two lists of parts is the sum of theirs. */
  lemma SumOverAppend(wfs: Workflows, a: seq<Part>, b: seq<Part>, fuel: nat)
    requires SumOver(wfs, a, fuel).Done? && SumOver(wfs, b, fuel).Done?
    ensures SumOver(wfs, a + b, fuel) == Done(SumOver(wfs, a, fuel).result + SumOver(wfs, b, fuel).result)
  {
    SumOverAppendFinishes(wfs, a, b, fuel);
    assert SumOver(wfs, a + b, fuel).result == SumOver(wfs, a, fuel).result + SumOver(wfs, b, fuel).result by {
      SumOverValue(wfs, a, fuel);
      SumOverValue(wfs, b, fuel);
      SumOverValue(wfs, a + b, fuel);
      AcceptedRatingsAppend(wfs, a, b, fuel);
      SumAppend(AcceptedRatings(wfs, a, fuel), AcceptedRatings(wfs, b, fuel));
    }
  }

  lemma SumOverAppendFinishes(wfs: Workflows, a: seq<Part>, b: seq<Part>, fuel: nat)
    requires SumOver(wfs, a, fuel).Done? && SumOver(wfs, b, fuel).Done?
    ensures SumOver(wfs, a + b, fuel).Done?
  {
    SumOverFinish(wfs, a, fuel);
    SumOverFinish(wfs, b, fuel);
    SumOverFinish(wfs, a + b, fuel);
    AllFinishAppend(wfs, a, b, fuel);
  }

  /** `SumOverSpec`'s finishing condition, named. */
  lemma SumOverFinish(wfs: Workflows, parts: seq<Part>, fuel: nat)
    ensures SumOver(wfs, parts, fuel).Done? <==> AllFinish(wfs, parts, fuel)
  {
    SumOverSpec(wfs, parts, fuel);
  }

  /** `SumOverSpec`'s value, for a sum that finishes. */
  lemma SumOverValue(wfs: Workflows, parts: seq<Part>, fuel: nat)
    requires SumOver(wfs, parts, fuel).Done?
    ensures SumOver(wfs, parts, fuel).result == Sum(AcceptedRatings(wfs, parts, fuel))
  {
    SumOverSpec(wfs, parts, fuel);
  }

  /** A part counts exactly when it is accepted, and the sum finishes
      exactly when every part's evaluation does. */
  lemma SumOverOne(wfs: Workflows, p: Part, fuel: nat)
    requires IsAccepted(wfs, p, fuel).Done?
    ensures SumOver(wfs, [p], fuel) == Done(if IsAccepted(wfs, p, fuel).result then Total(p) else 0)
  {
    assert Outcomes(wfs, [p], fuel) == [IsAccepted(wfs, p, fuel)];
    TallyOne(p, IsAccepted(wfs, p, fuel));
  }

  /** A part's total rating when it is accepted, 0 otherwise. */
  function Credit(wfs: Workflows, p: Part, fuel: nat): int {
    if IsAccepted(wfs, p, fuel) == Done(true) then Total(p) as int else 0
  }

  /** Each part's `Credit`, in order. */
  function AcceptedRatings(wfs: Workflows, parts: seq<Part>, fuel: nat): (rs: seq<int>)
    ensures |rs| == |parts|
  {
    if parts == [] then [] else [Credit(wfs, parts[0], fuel)] + AcceptedRatings(wfs, parts[1..], fuel)
  }

  /** The `i`-th accepted rating is the `i`-th part's credit. */
  lemma {:induction false} AcceptedRatingsAt(wfs: Workflows, parts: seq<Part>, fuel: nat, i: nat)
    requires i < |parts|
    ensures AcceptedRatings(wfs, parts, fuel)[i] == Credit(wfs, parts[i], fuel)
    decreases i
  {
    if i > 0 {
      AcceptedRatingsAt(wfs, parts[1..], fuel, i - 1);
    }
  }

  /** The sum finishes exactly when every part's evaluation does, and is
      then the total rating of the accepted parts. */
  lemma {:induction false} SumOverSpec(wfs: Workflows, parts: seq<Part>, fuel: nat)
    ensures SumOver(wfs, parts, fuel).Done? <==> forall i :: 0 <= i < |parts| ==> IsAccepted(wfs, parts[i], fuel).Done?
    ensures SumOver(wfs, parts, fuel).Done? ==> SumOver(wfs, parts, fuel).result == Sum(AcceptedRatings(wfs, parts, fuel))
    decreases |parts|
  {
    if parts != [] {
      var rest := parts[1..];
      SumOverSpec(wfs, rest, fuel);
      SumOverCons(wfs, parts, fuel);
      AllFinishCons(wfs, parts, fuel);
      assert SumOver(wfs, parts, fuel).Done? <==> AllFinish(wfs, parts, fuel);
      if SumOver(wfs, parts, fuel).Done? {
        SumCons(AcceptedRatings(wfs, parts, fuel)[0], AcceptedRatings(wfs, rest, fuel));
      }
    }
  }

  /** Every part's evaluation finishes. */
  predicate AllFinish(wfs: Workflows, parts: seq<Part>, fuel: nat) {
    forall i :: 0 <= i < |parts| ==> IsAccepted(wfs, parts[i], fuel).Done?
  }

  lemma AllFinishCons(wfs: Workflows, parts: seq<Part>, fuel: nat)
    requires parts != []
    ensures AllFinish(wfs, parts, fuel) <==> IsAccepted(wfs, parts[0], fuel).Done? && AllFinish(wfs, parts[1..], fuel)
  {
    assert forall i :: 1 <= i < |parts| ==> parts[i] == parts[1..][i - 1];
  }

  lemma AllFinishAppend(wfs: Workflows, a: seq<Part>, b: seq<Part>, fuel: nat)
    ensures AllFinish(wfs, a + b, fuel) <==> AllFinish(wfs, a, fuel) && AllFinish(wfs, b, fuel)
  {
    assert forall i :: 0 <= i < |a| ==> (a + b)[i] == a[i];
    assert forall i :: 0 <= i < |b| ==> (a + b)[|a| + i] == b[i];
  }

  lemma {:induction false} AcceptedRatingsAppend(wfs: Workflows, a: seq<Part>, b: seq<Part>, fuel: nat)
    ensures AcceptedRatings(wfs, a + b, fuel) == AcceptedRatings(wfs, a, fuel) + AcceptedRatings(wfs, b, fuel)
    decreases |a|
  {
    if a == [] {
      assert a + b == b;
    } else {
      assert (a + b)[0] == a[0] && (a + b)[1..] == a[1..] + b;
      AcceptedRatingsAppend(wfs, a[1..], b, fuel);
    }
  }

  /** The first part's evaluation and the sum over the rest decide the sum. */
  lemma SumOverCons(wfs: Workflows, parts: seq<Part>, fuel: nat)
    requires parts != []
    ensures SumOver(wfs, parts, fuel).Done? <==>
              IsAccepted(wfs, parts[0], fuel).Done? && SumOver(wfs, parts[1..], fuel).Done?
    ensures SumOver(wfs, parts, fuel).Done? ==>
              SumOver(wfs, parts, fuel).result == AcceptedRatings(wfs, parts, fuel)[0] + SumOver(wfs, parts[1..], fuel).result
  {
    var outs := Outcomes(wfs, parts, fuel);
    assert outs[0] == IsAccepted(wfs, parts[0], fuel) && outs[1..] == Outcomes(wfs, parts[1..], fuel);
  }

  /** The `i`-th outcome is the `i`-th part's evaluation. */
  lemma {:induction false} OutcomesAt(wfs: Workflows, parts: seq<Part>, fuel: nat, i: nat)
    requires i < |parts|
    ensures Outcomes(wfs, parts, fuel)[i] == IsAccepted(wfs, parts[i], fuel)
    decreases i
  {
    if i > 0 {
      OutcomesAt(wfs, parts[1..], fuel, i - 1);
    }
  }

  /** `sum_accepted_parts`. */
  function SumAcceptedParts(sys: System, fuel: nat): Run<nat> {
    SumOver(sys.workflows, sys.parts, fuel)
  }

  /** Part 1 on the puzzle text; a parse failure panics.  An answer is the
      total rating of the parts accepted from `in`. */
  function Part1(input: string, fuel: nat): (r: Run<nat>)
    ensures ParseSystem(input).None? ==> r.Panic?
    ensures r.Done? ==> ParseSystem(input).Some?
    ensures r.Done? ==>
              var sys := ParseSystem(input).value;
              (forall i :: 0 <= i < |sys.parts| ==> IsAccepted(sys.workflows, sys.parts[i], fuel).Done?) &&
              r.result == Sum(AcceptedRatings(sys.workflows, sys.parts, fuel))
  {
    match ParseSystem(input)
    case None => Panic
    case Some(sys) =>
      SumOverSpec(sys.workflows, sys.parts, fuel);
      SumAcceptedParts(sys, fuel)
  }
}
