/** Day 2: cube games.  A game line lists rounds separated by "; ", each
    a ", "-separated list of draws "<amount> <colour>"; the game keeps the
    largest amount seen of each of red, green and blue.  Part 1 adds the
    ids of games possible with 12 red, 13 green and 14 blue cubes; part 2
    adds the products of the three maxima. */
module Day2 {
  import opened Common
  import opened Text

  datatype Game = Game(id: nat, maxBlue: nat, maxRed: nat, maxGreen: nat, power: nat)

  /** One "<amount> <colour>" draw. */
  datatype Draw = Draw(amount: nat, colour: string)

  /** The three running maxima of `parse_game`. */
  datatype Maxima = Maxima(red: nat, green: nat, blue: nat)

  // ---------------------------------------------------------------------
  // Maxima per colour

  /** One iteration of the inner loop: only "red", "green" and "blue"
      raise their maximum; any other colour is ignored. */
  function Observe(m: Maxima, d: Draw): Maxima {
    if d.colour == "red" then (if d.amount > m.red then m.(red := d.amount) else m)
    else if d.colour == "green" then (if d.amount > m.green then m.(green := d.amount) else m)
    else if d.colour == "blue" then (if d.amount > m.blue then m.(blue := d.amount) else m)
    else m
  }

  /** The loops over all draws, in order, from all-zero maxima. */
  function Tally(draws: seq<Draw>): Maxima {
    if |draws| == 0 then Maxima(0, 0, 0) else Observe(Tally(draws[..|draws| - 1]), draws[|draws| - 1])
  }

  function Component(m: Maxima, colour: string): nat {
    if colour == "red" then m.red else if colour == "green" then m.green else m.blue
  }

  /** `m` is the largest amount drawn of `colour`, or 0 if it never is. */
  ghost predicate IsMaximum(draws: seq<Draw>, colour: string, m: nat) {
    && (forall i :: 0 <= i < |draws| && draws[i].colour == colour ==> draws[i].amount <= m)
    && (m == 0 || exists i :: 0 <= i < |draws| && draws[i].colour == colour && draws[i].amount == m)
  }

  /** Each of the three maxima is the largest amount of its colour. */
  lemma {:induction false} TallyIsMaximum(draws: seq<Draw>, colour: string)
    requires colour == "red" || colour == "green" || colour == "blue"
    ensures IsMaximum(draws, colour, Component(Tally(draws), colour))
  {
    if |draws| > 0 {
      var n := |draws| - 1;
      var init := draws[..n];
      TallyIsMaximum(init, colour);
      assert forall i :: 0 <= i < n ==> draws[i] == init[i];
      var before := Component(Tally(init), colour);
      var after := Component(Tally(draws), colour);
      if after != before {
        assert draws[n].colour == colour && draws[n].amount == after;
      } else if before != 0 {
        var i :| 0 <= i < n && init[i].colour == colour && init[i].amount == before;
        assert draws[i].colour == colour && draws[i].amount == before;
      }
    }
  }

  /** A draw of any other colour changes nothing. */
  lemma OtherColoursIgnored(draws: seq<Draw>, d: Draw)
    requires d.colour != "red" && d.colour != "green" && d.colour != "blue"
    ensures Tally(draws + [d]) == Tally(draws)
  {
    assert (draws + [d])[..|draws|] == draws;
  }

  /** The product of the three maxima. */
  function Power(m: Maxima): nat {
    var blueGreen: nat := m.blue * m.green;
    blueGreen * m.red
  }

  // ---------------------------------------------------------------------
  // Reading a game

  /** "<amount> <colour>", split at the first space. */
  function ParseDraw(s: string): Option<Draw> {
    match SplitOnce(s, " ")
    case None => None
    case Some((amount, colour)) =>
      match ParseNat(amount)
      case None => None
      case Some(n) => Some(Draw(n, colour))
  }

  /** The draws of one round. */
  function ParseRound(round: string): Option<seq<Draw>> {
    var items := Split(round, ", ");
    AllSome(seq(|items|, i requires 0 <= i < |items| => ParseDraw(items[i])))
  }

  /** The draws of all rounds, in order. */
  function ParseRounds(rounds: seq<string>): Option<seq<Draw>> {
    if |rounds| == 0 then Some([])
    else
      match (ParseRound(rounds[0]), ParseRounds(rounds[1..]))
      case (Some(first), Some(rest)) => Some(first + rest)
      case _ => None
  }

  /** `parse_game`: "Game <id>: <rounds>"; the id is the text after the
      first space, not trimmed; a missing piece or bad number aborts. */
  function ParseGame(line: string): Option<Game> {
    match SplitOnce(line, ": ")
    case None => None
    case Some((head, rounds)) =>
      match SplitOnce(head, " ")
      case None => None
      case Some((_, idText)) =>
        match ParseNat(idText)
        case None => None
        case Some(id) =>
          match ParseRounds(Split(rounds, "; "))
          case None => None
          case Some(draws) =>
            var m := Tally(draws);
            Some(Game(id, m.blue, m.red, m.green, Power(m)))
  }

  // ---------------------------------------------------------------------
  // Writing a game

  /** A colour word as the puzzle writes it: no spaces, commas or
      semicolons. */
  predicate PlainWord(w: string) {
    ' ' !in w && ',' !in w && ';' !in w
  }

  function FormatDraw(d: Draw): string {
    NatToString(d.amount) + " " + d.colour
  }

  function FormatRound(draws: seq<Draw>): string
    requires |draws| >= 1
  {
    Join(seq(|draws|, i requires 0 <= i < |draws| => FormatDraw(draws[i])), ", ")
  }

  function FormatRounds(rounds: seq<seq<Draw>>): string
    requires |rounds| >= 1
    requires forall i :: 0 <= i < |rounds| ==> |rounds[i]| >= 1
  {
    Join(seq(|rounds|, i requires 0 <= i < |rounds| => FormatRound(rounds[i])), "; ")
  }

  function FormatGame(id: nat, rounds: seq<seq<Draw>>): string
    requires |rounds| >= 1
    requires forall i :: 0 <= i < |rounds| ==> |rounds[i]| >= 1
  {
    "Game " + NatToString(id) + ": " + FormatRounds(rounds)
  }

  function Flatten(rounds: seq<seq<Draw>>): seq<Draw> {
    if |rounds| == 0 then [] else rounds[0] + Flatten(rounds[1..])
  }

  ghost predicate WellWritten(rounds: seq<seq<Draw>>) {
    && |rounds| >= 1
    && (forall i :: 0 <= i < |rounds| ==> |rounds[i]| >= 1)
    && (forall i, j :: 0 <= i < |rounds| && 0 <= j < |rounds[i]| ==> PlainWord(rounds[i][j].colour))
  }

  lemma {:induction false} JoinLacks(parts: seq<string>, sep: string, c: char)
    requires |parts| >= 1 && c !in sep
    requires forall j :: 0 <= j < |parts| ==> c !in parts[j]
    ensures c !in Join(parts, sep)
  {
    if |parts| > 1 {
      JoinLacks(parts[1..], sep, c);
    }
  }

  lemma FormatDrawLacks(d: Draw, c: char)
    requires c == ',' || c == ';'
    requires PlainWord(d.colour)
    ensures c !in FormatDraw(d)
  {
    assert AllDigits(NatToString(d.amount));
  }

  /** A written draw reads back. */
  lemma ParseDrawOfFormat(d: Draw)
    requires PlainWord(d.colour)
    ensures ParseDraw(FormatDraw(d)) == Some(d)
  {
    var a := NatToString(d.amount);
    assert AllDigits(a);
    SplitOnceOfGlued(a, " ", d.colour, 0);
    ParseNatOfNatToString(d.amount);
  }

  /** A written round reads back. */
  lemma ParseRoundOfFormat(draws: seq<Draw>)
    requires |draws| >= 1
    requires forall j :: 0 <= j < |draws| ==> PlainWord(draws[j].colour)
    ensures ParseRound(FormatRound(draws)) == Some(draws)
  {
    var items := seq(|draws|, i requires 0 <= i < |draws| => FormatDraw(draws[i]));
    forall j | 0 <= j < |items|
      ensures ',' !in items[j]
    {
      FormatDrawLacks(draws[j], ',');
    }
    SplitOfJoin(items, ", ", 0);
    var parsed := seq(|items|, i requires 0 <= i < |items| => ParseDraw(items[i]));
    forall j | 0 <= j < |items|
      ensures parsed[j] == Some(draws[j])
    {
      ParseDrawOfFormat(draws[j]);
    }
    var r := AllSome(parsed);
    assert r.Some? && r.value == draws;
  }

  /** Written rounds read back as all their draws, in order. */
  lemma {:induction false} ParseRoundsOfFormat(rounds: seq<seq<Draw>>)
    requires WellWritten(rounds)
    ensures ParseRounds(Split(FormatRounds(rounds), "; ")) == Some(Flatten(rounds))
  {
    var texts := seq(|rounds|, i requires 0 <= i < |rounds| => FormatRound(rounds[i]));
    forall j | 0 <= j < |texts|
      ensures ';' !in texts[j]
    {
      var items := seq(|rounds[j]|, i requires 0 <= i < |rounds[j]| => FormatDraw(rounds[j][i]));
      forall i | 0 <= i < |items|
        ensures ';' !in items[i]
      {
        FormatDrawLacks(rounds[j][i], ';');
      }
      JoinLacks(items, ", ", ';');
    }
    SplitOfJoin(texts, "; ", 0);
    ParseRoundsEach(rounds, texts);
  }

  lemma {:induction false} ParseRoundsEach(rounds: seq<seq<Draw>>, texts: seq<string>)
    requires |texts| == |rounds|
    requires forall i :: 0 <= i < |rounds| ==> |rounds[i]| >= 1
    requires forall i, j :: 0 <= i < |rounds| && 0 <= j < |rounds[i]| ==> PlainWord(rounds[i][j].colour)
    requires forall i :: 0 <= i < |rounds| ==> texts[i] == FormatRound(rounds[i])
    ensures ParseRounds(texts) == Some(Flatten(rounds))
  {
    if |rounds| > 0 {
      ParseRoundOfFormat(rounds[0]);
      ParseRoundsEach(rounds[1..], texts[1..]);
    }
  }

  /** The head "Game <id>" of a written game reads back as its id. */
  lemma GameHeadOfFormat(id: nat, rest: string)
    ensures var head := "Game " + NatToString(id);
            && SplitOnce(head + ": " + rest, ": ") == Some((head, rest))
            && SplitOnce(head, " ") == Some(("Game", NatToString(id)))
            && ParseNat(NatToString(id)) == Some(id)
  {
    var idText := NatToString(id);
    var head := "Game " + idText;
    assert AllDigits(idText);
    assert ':' !in head by {
      assert forall i :: 5 <= i < |head| ==> head[i] == idText[i - 5];
    }
    SplitOnceOfGlued(head, ": ", rest, 0);
    assert head == "Game" + " " + idText;
    SplitOnceOfGlued("Game", " ", idText, 0);
    ParseNatOfNatToString(id);
  }

  /** A written game is read back with the maxima of all its draws. */
  lemma ParseGameOfFormat(id: nat, rounds: seq<seq<Draw>>)
    requires WellWritten(rounds)
    ensures var m := Tally(Flatten(rounds));
            ParseGame(FormatGame(id, rounds)) == Some(Game(id, m.blue, m.red, m.green, m.blue * m.green * m.red))
  {
    var head := "Game " + NatToString(id);
    assert FormatGame(id, rounds) == head + ": " + FormatRounds(rounds);
    GameHeadOfFormat(id, FormatRounds(rounds));
    ParseRoundsOfFormat(rounds);
  }

  /** The rounds of the first example game, "3 blue, 4 red; 1 red,
      2 green, 6 blue; 2 green". */
  function FirstGameRounds(): seq<seq<Draw>> {
    [[Draw(3, "blue"), Draw(4, "red")],
     [Draw(1, "red"), Draw(2, "green"), Draw(6, "blue")],
     [Draw(2, "green")]]
  }

  /** The first example game: maxima 6 blue, 4 red and 2 green, power 48. */
  lemma FirstGameExample()
    ensures WellWritten(FirstGameRounds())
    ensures ParseGame(FormatGame(1, FirstGameRounds())) == Some(Game(1, 6, 4, 2, 48))
  {
    FirstGameParts(FirstGameRounds());
  }

  lemma FirstGameParts(rounds: seq<seq<Draw>>)
    requires rounds == FirstGameRounds()
    ensures WellWritten(rounds)
    ensures ParseGame(FormatGame(1, rounds)) == Some(Game(1, 6, 4, 2, 48))
  {
    FirstGameWellWritten(rounds);
    ParseGameOfFormat(1, rounds);
    FirstGameFlat(rounds);
    FirstGameDraws(Flatten(rounds));
  }

  lemma FirstGameWellWritten(rounds: seq<seq<Draw>>)
    requires rounds == FirstGameRounds()
    ensures WellWritten(rounds)
  {
  }

  lemma FirstGameFlat(rounds: seq<seq<Draw>>)
    requires rounds == FirstGameRounds()
    ensures Flatten(rounds) == [Draw(3, "blue"), Draw(4, "red"), Draw(1, "red"), Draw(2, "green"), Draw(6, "blue"), Draw(2, "green")]
  {
    assert rounds[1..][1..][1..] == [];
    assert Flatten(rounds) == rounds[0] + rounds[1] + rounds[2];
  }

  lemma FirstGameDraws(draws: seq<Draw>)
    requires draws == [Draw(3, "blue"), Draw(4, "red"), Draw(1, "red"), Draw(2, "green"), Draw(6, "blue"), Draw(2, "green")]
    ensures Tally(draws) == Maxima(4, 2, 6)
  {
    assert draws[..1] == [Draw(3, "blue")];
    assert Tally(draws[..1]) == Maxima(0, 0, 3) by { assert draws[..1][..0] == []; }
    assert draws[..2][..1] == draws[..1];
    assert Tally(draws[..2]) == Maxima(4, 0, 3);
    assert draws[..3][..2] == draws[..2];
    assert Tally(draws[..3]) == Maxima(4, 0, 3);
    assert draws[..4][..3] == draws[..3];
    assert Tally(draws[..4]) == Maxima(4, 2, 3);
    assert draws[..5][..4] == draws[..4];
    assert Tally(draws[..5]) == Maxima(4, 2, 6);
    assert draws[..5] == draws[..|draws| - 1];
  }

  // ---------------------------------------------------------------------
  // Both sums

  /** Possible with 12 red, 13 green and 14 blue cubes. */
  predicate Possible(g: Game) {
    g.maxRed <= 12 && g.maxGreen <= 13 && g.maxBlue <= 14
  }

  /** The loop of `sum_games` over parsed games. */
  function Sums(games: seq<Game>): (r: (nat, nat))
    decreases |games|
  {
    if |games| == 0 then (0, 0)
    else
      var before := Sums(games[..|games| - 1]);
      var g := games[|games| - 1];
      (before.0 + (if Possible(g) then g.id else 0), before.1 + g.power)
  }

  /** Part 1 is at most the sum of all ids, with equality when every game
      is possible; part 2 adds every power regardless. */
  lemma {:induction false} SumsBounds(games: seq<Game>)
    ensures Sums(games).0 <= Sum(seq(|games|, i requires 0 <= i < |games| => games[i].id as int))
    ensures (forall i :: 0 <= i < |games| ==> Possible(games[i])) ==>
              Sums(games).0 == Sum(seq(|games|, i requires 0 <= i < |games| => games[i].id as int))
    ensures Sums(games).1 == Sum(seq(|games|, i requires 0 <= i < |games| => games[i].power as int))
  {
    if |games| > 0 {
      var n := |games| - 1;
      SumsBounds(games[..n]);
      assert seq(|games|, i requires 0 <= i < |games| => games[i].id as int)[..n]
          == seq(n, i requires 0 <= i < n => games[..n][i].id as int);
      assert seq(|games|, i requires 0 <= i < |games| => games[i].power as int)[..n]
          == seq(n, i requires 0 <= i < n => games[..n][i].power as int);
    }
  }

  /** A game adds its id to part 1 exactly when it is possible. */
  lemma SumsStep(games: seq<Game>, g: Game)
    ensures Sums(games + [g]).0 == Sums(games).0 + (if Possible(g) then g.id else 0)
    ensures Sums(games + [g]).1 == Sums(games).1 + g.power
  {
    assert (games + [g])[..|games|] == games;
  }

  /** `sum_games`: both sums over the lines, or nothing if a line does not
      parse. */
  function SumGames(input: string): Option<(nat, nat)> {
    var lines := Lines(input);
    match AllSome(seq(|lines|, i requires 0 <= i < |lines| => ParseGame(lines[i])))
    case None => None
    case Some(games) => Some(Sums(games))
  }

  /** A game's id when it is possible, 0 otherwise, game by game. */
  function PossibleIds(games: seq<Game>): (ids: seq<int>)
    ensures |ids| == |games|
  {
    seq(|games|, i requires 0 <= i < |games| => if Possible(games[i]) then games[i].id as int else 0)
  }

  /** Part 1 is the sum of the ids of the possible games. */
  lemma {:induction false} SumsPossible(games: seq<Game>)
    ensures Sums(games).0 == Sum(PossibleIds(games))
  {
    if |games| > 0 {
      var n := |games| - 1;
      SumsPossible(games[..n]);
      assert PossibleIds(games)[..n] == PossibleIds(games[..n]);
      SumAppend(PossibleIds(games)[..n], [PossibleIds(games)[n]]);
      assert PossibleIds(games) == PossibleIds(games)[..n] + [PossibleIds(games)[n]];
    }
  }

  /** The line splits at its first ": " into a head whose text after its
      first space is the game's id, and rounds whose draws give the game
      the largest amount drawn of each colour, with their product as
      power. */
  ghost predicate Describes(line: string, g: Game) {
    g.power == g.maxRed * g.maxGreen * g.maxBlue && SplitOnce(line, ": ").Some? &&
    var (head, rounds) := SplitOnce(line, ": ").value;
    SplitOnce(head, " ").Some? && ParseNat(SplitOnce(head, " ").value.1) == Some(g.id) &&
    exists draws :: ParseRounds(Split(rounds, "; ")) == Some(draws)
      && IsMaximum(draws, "red", g.maxRed) && IsMaximum(draws, "green", g.maxGreen)
      && IsMaximum(draws, "blue", g.maxBlue)
  }

  lemma PowerIsProduct(m: Maxima)
    ensures Power(m) == m.red * m.green * m.blue
  {
    assert m.blue * m.green * m.red == m.red * m.green * m.blue;
  }

  /** A line parses exactly when some game describes it, and then the
      parsed game does. */
  lemma ParseGameSpec(line: string)
    ensures ParseGame(line).Some? ==> Describes(line, ParseGame(line).value)
    ensures ParseGame(line).None? <==> forall g :: !Describes(line, g)
  {
    if ParseGame(line).Some? {
      ParseGameDescribes(line);
    } else {
      forall g
        ensures !Describes(line, g)
      {
        if Describes(line, g) {
          DescribedParses(line, g);
        }
      }
    }
  }

  lemma ParseGameDescribes(line: string)
    requires ParseGame(line).Some?
    ensures Describes(line, ParseGame(line).value)
  {
    var (head, rounds) := SplitOnce(line, ": ").value;
    var idText := SplitOnce(head, " ").value.1;
    var id := ParseNat(idText).value;
    var draws := ParseRounds(Split(rounds, "; ")).value;
    var m := Tally(draws);
    assert ParseGame(line) == Some(Game(id, m.blue, m.red, m.green, Power(m)));
    TallyIsMaximum(draws, "red");
    TallyIsMaximum(draws, "green");
    TallyIsMaximum(draws, "blue");
    PowerIsProduct(m);
  }

  lemma DescribedParses(line: string, g: Game)
    requires Describes(line, g)
    ensures ParseGame(line).Some?
  {
    var (head, rounds) := SplitOnce(line, ": ").value;
    assert ParseNat(SplitOnce(head, " ").value.1).Some?;
    assert ParseRounds(Split(rounds, "; ")).Some?;
  }

  /** Each game's power, game by game. */
  function Powers(games: seq<Game>): (ps: seq<int>)
    ensures |ps| == |games|
  {
    seq(|games|, i requires 0 <= i < |games| => games[i].power as int)
  }

  /** The games read from the lines, one per line. */
  ghost predicate GamesOf(lines: seq<string>, games: seq<Game>) {
    |games| == |lines| && forall i :: 0 <= i < |games| ==> ParseGame(lines[i]) == Some(games[i])
  }

  /** `sum_games` answers exactly when every line parses; part 1 then adds
      the ids of the possible games and part 2 the powers of all of them. */
  lemma SumGamesSpec(input: string)
    ensures SumGames(input).None? <==> exists i :: 0 <= i < |Lines(input)| && ParseGame(Lines(input)[i]).None?
    ensures SumGames(input).Some? ==>
              exists games :: GamesOf(Lines(input), games)
                && SumGames(input).value == (Sum(PossibleIds(games)), Sum(Powers(games)))
  {
    var lines := Lines(input);
    ParsedGames(lines);
    var parsed := AllSome(seq(|lines|, i requires 0 <= i < |lines| => ParseGame(lines[i])));
    if parsed.Some? {
      SumsParts(parsed.value);
    }
  }

  /** The lines parse together exactly when each parses, into their games. */
  lemma ParsedGames(lines: seq<string>)
    ensures var parsed := AllSome(seq(|lines|, i requires 0 <= i < |lines| => ParseGame(lines[i])));
            (parsed.None? <==> exists i :: 0 <= i < |lines| && ParseGame(lines[i]).None?) &&
            (parsed.Some? ==> GamesOf(lines, parsed.value))
  {
    var parsed := seq(|lines|, i requires 0 <= i < |lines| => ParseGame(lines[i]));
    assert forall i :: 0 <= i < |lines| ==> parsed[i] == ParseGame(lines[i]);
  }

  /** Both sums, as sums over the games. */
  lemma SumsParts(games: seq<Game>)
    ensures Sums(games) == (Sum(PossibleIds(games)), Sum(Powers(games)))
  {
    SumsPossible(games);
    SumsBounds(games);
    assert Powers(games) == seq(|games|, i requires 0 <= i < |games| => games[i].power as int);
  }

  /** The five example games: part 1 is 8 and part 2 is 2286. */
  lemma ExampleSums()
    ensures Sums([Game(1, 6, 4, 2, 48), Game(2, 4, 1, 3, 12), Game(3, 6, 20, 13, 1560),
                  Game(4, 15, 14, 3, 630), Game(5, 2, 6, 3, 36)]) == (8, 2286)
  {
    var gs := [Game(1, 6, 4, 2, 48), Game(2, 4, 1, 3, 12), Game(3, 6, 20, 13, 1560),
               Game(4, 15, 14, 3, 630), Game(5, 2, 6, 3, 36)];
    assert gs[..1][..0] == [];
    assert Sums(gs[..1]) == (1, 48);
    assert gs[..2][..1] == gs[..1];
    assert Sums(gs[..2]) == (3, 60);
    assert gs[..3][..2] == gs[..2];
    assert Sums(gs[..3]) == (3, 1620);
    assert gs[..4][..3] == gs[..3];
    assert Sums(gs[..4]) == (3, 2250);
    assert gs[..4] == gs[..|gs| - 1];
  }
}
