/** Day 4: scratchcards.  A card lists winning numbers and the numbers
    owned; its matches are the owned numbers that win, and it scores
    2^(matches - 1) points.  In part 2 each card wins copies of the
    `matches` cards that follow its id, once for every copy held. */
module Day4 {
  import opened Common
  import opened Text

  datatype CardScore = CardScore(id: nat, matches: nat, powerScore: nat)

  // ---------------------------------------------------------------------
  // Scoring one card

  /** How many owned numbers are winning numbers; an owned number that
      occurs twice counts twice. */
  function Matches(owned: seq<nat>, winning: seq<nat>): (m: nat)
    ensures m <= |owned|
  {
    if |owned| == 0 then 0
    else Matches(owned[..|owned| - 1], winning) + (if owned[|owned| - 1] in winning then 1 else 0)
  }

  /** The positions of the owned list that hold a winning number. */
  ghost function WinningPositions(owned: seq<nat>, winning: seq<nat>): set<nat> {
    set i: nat | i < |owned| && owned[i] in winning
  }

  /** The match count is the number of owned positions holding a winning
      number. */
  lemma {:induction false} MatchesCountsPositions(owned: seq<nat>, winning: seq<nat>)
    ensures Matches(owned, winning) == |WinningPositions(owned, winning)|
  {
    if |owned| > 0 {
      var n := |owned| - 1;
      var init := owned[..n];
      MatchesCountsPositions(init, winning);
      var before := WinningPositions(init, winning);
      var after := WinningPositions(owned, winning);
      if owned[n] in winning {
        assert after == before + {n};
        assert n !in before;
      } else {
        assert after == before;
      }
    }
  }

  /** Every owned number wins exactly when the count is the owned length,
      and none wins exactly when it is zero. */
  lemma {:induction false} MatchesExtremes(owned: seq<nat>, winning: seq<nat>)
    ensures Matches(owned, winning) == |owned| <==> forall i :: 0 <= i < |owned| ==> owned[i] in winning
    ensures Matches(owned, winning) == 0 <==> forall i :: 0 <= i < |owned| ==> owned[i] !in winning
  {
    if |owned| > 0 {
      var n := |owned| - 1;
      MatchesExtremes(owned[..n], winning);
      assert forall i :: 0 <= i < n ==> owned[i] == owned[..n][i];
    }
  }

  /** `power_score`: nothing for no match, else one point doubled for each
      further match. */
  function PowerScore(matches: nat): (p: nat)
    ensures p == 0 <==> matches == 0
  {
    if matches == 0 then 0 else Pow(2, matches - 1)
  }

  lemma PowerScoreDoubles(matches: nat)
    ensures PowerScore(1) == 1
    ensures matches >= 1 ==> PowerScore(matches + 1) == 2 * PowerScore(matches)
  {
  }

  /** `score_card`: "Card <id>: <winning> | <owned>".  The id is the text
      after the first space of the description, trimmed; any piece that
      is missing or does not parse aborts. */
  function ScoreCard(line: string): Option<CardScore> {
    match SplitOnce(line, ": ")
    case None => None
    case Some((description, contents)) =>
      match SplitOnce(description, " ")
      case None => None
      case Some((_, idText)) =>
        match ParseNat(Trim(idText))
        case None => None
        case Some(id) =>
          match SplitOnce(contents, " | ")
          case None => None
          case Some((winningText, ownedText)) =>
            match (ParseNats(winningText), ParseNats(ownedText))
            case (Some(winning), Some(owned)) =>
              var m := Matches(owned, winning);
              Some(CardScore(id, m, PowerScore(m)))
            case _ => None
  }

  function FormatCard(id: nat, winning: seq<nat>, owned: seq<nat>): string {
    "Card " + NatToString(id) + ": " + NatsToString(winning) + " | " + NatsToString(owned)
  }

  /** The card read piece by piece. */
  lemma ScoreCardPieces(line: string, description: string, contents: string, skipped: string,
                        idText: string, winningText: string, ownedText: string,
                        id: nat, winning: seq<nat>, owned: seq<nat>)
    requires SplitOnce(line, ": ") == Some((description, contents))
    requires SplitOnce(description, " ") == Some((skipped, idText))
    requires ParseNat(Trim(idText)) == Some(id)
    requires SplitOnce(contents, " | ") == Some((winningText, ownedText))
    requires ParseNats(winningText) == Some(winning) && ParseNats(ownedText) == Some(owned)
    ensures var m := Matches(owned, winning);
            ScoreCard(line) == Some(CardScore(id, m, PowerScore(m)))
  {
  }

  /** The head "Card <id>: " of a written card reads back as its id. */
  lemma CardHeadOfFormat(id: nat, contents: string)
    ensures var description := "Card " + NatToString(id);
            && SplitOnce(description + ": " + contents, ": ") == Some((description, contents))
            && SplitOnce(description, " ") == Some(("Card", NatToString(id)))
            && ParseNat(Trim(NatToString(id))) == Some(id)
  {
    var idText := NatToString(id);
    var description := "Card " + idText;
    CardHeadHasNoColon(idText);
    SplitOnceOfGlued(description, ": ", contents, 0);
    CardIdOfFormat(id);
  }

  lemma CardIdOfFormat(id: nat)
    ensures SplitOnce("Card " + NatToString(id), " ") == Some(("Card", NatToString(id)))
    ensures ParseNat(Trim(NatToString(id))) == Some(id)
  {
    var idText := NatToString(id);
    assert "Card " + idText == "Card" + " " + idText;
    SplitOnceOfGlued("Card", " ", idText, 0);
    assert AllDigits(idText);
    TrimOfWord(idText);
    ParseNatOfNatToString(id);
  }

  lemma CardHeadHasNoColon(idText: string)
    requires AllDigits(idText)
    ensures ':' !in "Card " + idText
  {
    var description := "Card " + idText;
    assert forall i :: 5 <= i < |description| ==> description[i] == idText[i - 5];
  }

  /** The two written number lists read back on either side of " | ". */
  lemma CardContentsOfFormat(winning: seq<nat>, owned: seq<nat>)
    ensures SplitOnce(NatsToString(winning) + " | " + NatsToString(owned), " | ")
            == Some((NatsToString(winning), NatsToString(owned)))
    ensures ParseNats(NatsToString(winning)) == Some(winning)
    ensures ParseNats(NatsToString(owned)) == Some(owned)
  {
    NatsToStringHasNo(winning, '|');
    SplitOnceOfGlued(NatsToString(winning), " | ", NatsToString(owned), 1);
    ParseNatsOfNatsToString(winning);
    ParseNatsOfNatsToString(owned);
  }

  /** A card written out is scored from the numbers it was written with. */
  lemma ScoreCardOfFormat(id: nat, winning: seq<nat>, owned: seq<nat>)
    ensures var m := Matches(owned, winning);
            ScoreCard(FormatCard(id, winning, owned)) == Some(CardScore(id, m, PowerScore(m)))
  {
    var description := "Card " + NatToString(id);
    var contents := NatsToString(winning) + " | " + NatsToString(owned);
    assert FormatCard(id, winning, owned) == description + ": " + contents;
    CardHeadOfFormat(id, contents);
    CardContentsOfFormat(winning, owned);
    ScoreCardPieces(FormatCard(id, winning, owned), description, contents, "Card", NatToString(id),
                    NatsToString(winning), NatsToString(owned), id, winning, owned);
  }

  /** The numbers of the first card of the puzzle's example. */
  const FirstOwned: seq<nat> := [83, 86, 6, 31, 17, 9, 48, 53]
  const FirstWinning: seq<nat> := [41, 48, 83, 86, 17]

  /** The first card of the puzzle's example: four of its numbers win,
      worth eight points. */
  lemma FirstCardExample()
    ensures Matches([83, 86, 6, 31, 17, 9, 48, 53], [41, 48, 83, 86, 17]) == 4
    ensures PowerScore(4) == 8
  {
    FirstCardFront();
    MatchesStep(FirstOwned, FirstWinning, 5, 2);
    MatchesStep(FirstOwned, FirstWinning, 6, 3);
    MatchesStep(FirstOwned, FirstWinning, 7, 3);
    MatchesStep(FirstOwned, FirstWinning, 8, 4);
    assert FirstOwned[..8] == FirstOwned;
  }

  /** Two of the first four numbers of that card win. */
  lemma FirstCardFront()
    ensures Matches(FirstOwned[..4], FirstWinning) == 2
  {
    assert FirstOwned[..0] == [];
    MatchesStep(FirstOwned, FirstWinning, 1, 0);
    MatchesStep(FirstOwned, FirstWinning, 2, 1);
    MatchesStep(FirstOwned, FirstWinning, 3, 2);
    MatchesStep(FirstOwned, FirstWinning, 4, 2);
  }

  /** One more owned number is counted when it is a winning one. */
  lemma MatchesStep(owned: seq<nat>, winning: seq<nat>, k: nat, m: nat)
    requires 0 < k <= |owned| && Matches(owned[..k - 1], winning) == m
    ensures Matches(owned[..k], winning) == m + (if owned[k - 1] in winning then 1 else 0)
  {
    assert owned[..k][..k - 1] == owned[..k - 1];
  }

  // ---------------------------------------------------------------------
  // Part 1

  function PowerScores(cards: seq<CardScore>): (ps: seq<int>)
    ensures |ps| == |cards|
    ensures forall i :: 0 <= i < |cards| ==> ps[i] == cards[i].powerScore
  {
    seq(|cards|, i requires 0 <= i < |cards| => cards[i].powerScore as int)
  }

  /** Part 1: the points of all cards. */
  function Part1(cards: seq<CardScore>): int {
    Sum(PowerScores(cards))
  }

  /** Part 1 adds up over a split of the cards. */
  lemma Part1Append(a: seq<CardScore>, b: seq<CardScore>)
    ensures Part1(a + b) == Part1(a) + Part1(b)
  {
    assert PowerScores(a + b) == PowerScores(a) + PowerScores(b);
    SumAppend(PowerScores(a), PowerScores(b));
  }

  // ---------------------------------------------------------------------
  // Part 2: copies held, keyed by card id

  /** The `HashMap` from card id to copies held, as an association list. */
  type Copies = seq<(nat, nat)>

  /** Copies of card `id` held so far; an id never touched holds none. */
  function Held(acc: Copies, id: nat): nat {
    if |acc| == 0 then 0 else if acc[0].0 == id then acc[0].1 else Held(acc[1..], id)
  }

  /** The total number of copies held, over all ids. */
  function Total(acc: Copies): nat {
    if |acc| == 0 then 0 else acc[0].1 + Total(acc[1..])
  }

  /** `entry(id)` set to `n`: the entry for `id` is overwritten, or a new
      one is added. */
  function Put(acc: Copies, id: nat, n: nat): Copies {
    if |acc| == 0 then [(id, n)]
    else if acc[0].0 == id then [(id, n)] + acc[1..]
    else [acc[0]] + Put(acc[1..], id, n)
  }

  /** Setting a key's count sets that key only. */
  lemma {:induction false} PutHeld(acc: Copies, id: nat, n: nat, k: nat)
    ensures Held(Put(acc, id, n), k) == if k == id then n else Held(acc, k)
  {
    var r := Put(acc, id, n);
    if |acc| > 0 && acc[0].0 != id {
      PutHeld(acc[1..], id, n, k);
      assert r[1..] == Put(acc[1..], id, n);
    } else if |acc| > 0 {
      assert r[1..] == acc[1..];
    }
  }

  /** Setting a key's count changes the total by the difference. */
  lemma {:induction false} PutTotal(acc: Copies, id: nat, n: nat)
    ensures Total(Put(acc, id, n)) + Held(acc, id) == Total(acc) + n
  {
    var r := Put(acc, id, n);
    if |acc| > 0 && acc[0].0 != id {
      PutTotal(acc[1..], id, n);
      assert r[1..] == Put(acc[1..], id, n);
    } else if |acc| > 0 {
      assert r[1..] == acc[1..];
    }
  }

  /** `entry(id).and_modify(|x| *x += d).or_insert(d)`. */
  function Credit(acc: Copies, id: nat, d: nat): Copies {
    Put(acc, id, Held(acc, id) + d)
  }

  /** The inner loop: ids `from .. from + n` each gain `copies`. */
  function CopyForward(acc: Copies, from: nat, n: nat, copies: nat): Copies
    decreases n
  {
    if n == 0 then acc else CopyForward(Credit(acc, from, copies), from + 1, n - 1, copies)
  }

  /** Exactly the ids `from .. from + n` gain `copies` each. */
  lemma {:induction false} CopyForwardHeld(acc: Copies, from: nat, n: nat, copies: nat, k: nat)
    ensures Held(CopyForward(acc, from, n, copies), k)
            == if from <= k < from + n then Held(acc, k) + copies else Held(acc, k)
    decreases n
  {
    if n > 0 {
      PutHeld(acc, from, Held(acc, from) + copies, k);
      CopyForwardHeld(Credit(acc, from, copies), from + 1, n - 1, copies, k);
    }
  }

  lemma {:induction false} CopyForwardTotal(acc: Copies, from: nat, n: nat, copies: nat)
    ensures Total(CopyForward(acc, from, n, copies)) == Total(acc) + n * copies
    decreases n
  {
    if n > 0 {
      PutTotal(acc, from, Held(acc, from) + copies);
      CopyForwardTotal(Credit(acc, from, copies), from + 1, n - 1, copies);
      assert n * copies == (n - 1) * copies + copies;
    }
  }

  /** The copies of a card once it is reached: those won earlier plus the
      original. */
  function CopiesOf(acc: Copies, card: CardScore): (n: nat)
    ensures n >= 1
  {
    Held(acc, card.id) + 1
  }

  /** One step of the part-2 fold. */
  function Process(acc: Copies, card: CardScore): Copies {
    var copies := CopiesOf(acc, card);
    var counted := Put(acc, card.id, copies);
    if card.matches > 0 then CopyForward(counted, card.id + 1, card.matches, copies) else counted
  }

  /** A card's own count goes up by one, each of the next `matches` ids
      gains the card's copies, and nothing else changes. */
  lemma ProcessHeld(acc: Copies, card: CardScore, k: nat)
    ensures Held(Process(acc, card), k)
            == if k == card.id then Held(acc, k) + 1
               else if card.id < k <= card.id + card.matches then Held(acc, k) + CopiesOf(acc, card)
               else Held(acc, k)
  {
    var copies := CopiesOf(acc, card);
    var counted := Put(acc, card.id, copies);
    PutHeld(acc, card.id, copies, k);
    CopyForwardHeld(counted, card.id + 1, card.matches, copies, k);
  }

  /** The total grows by one for the card itself and by its copies for
      each match. */
  lemma ProcessTotal(acc: Copies, card: CardScore)
    ensures Total(Process(acc, card)) == Total(acc) + 1 + card.matches * CopiesOf(acc, card)
  {
    var copies := CopiesOf(acc, card);
    var counted := Put(acc, card.id, copies);
    PutTotal(acc, card.id, copies);
    CopyForwardTotal(counted, card.id + 1, card.matches, copies);
  }

  /** The fold over the cards in order. */
  function Tabulate(cards: seq<CardScore>): Copies {
    if |cards| == 0 then [] else Process(Tabulate(cards[..|cards| - 1]), cards[|cards| - 1])
  }

  /** Part 2: every copy held, including copies of ids past the last card. */
  function Part2(cards: seq<CardScore>): nat {
    Total(Tabulate(cards))
  }

  /** Every card is held at least once, and the total grows with matches. */
  lemma {:induction false} Part2AtLeastCards(cards: seq<CardScore>)
    ensures Part2(cards) >= |cards|
  {
    if |cards| > 0 {
      var init := cards[..|cards| - 1];
      Part2AtLeastCards(init);
      ProcessTotal(Tabulate(init), cards[|cards| - 1]);
    }
  }

  /** What each card adds to the pile: itself once, and its copies once
      for each of its matches. */
  function Gains(cards: seq<CardScore>): (gs: seq<int>)
    ensures |gs| == |cards|
  {
    seq(|cards|, i requires 0 <= i < |cards| => 1 + cards[i].matches * CopiesOf(Tabulate(cards[..i]), cards[i]))
  }

  /** Part 2 is the sum of what each card adds, each card counted with
      the copies of it held when it is reached. */
  lemma {:induction false} Part2Gains(cards: seq<CardScore>)
    ensures Part2(cards) == Sum(Gains(cards))
  {
    if |cards| > 0 {
      var n := |cards| - 1;
      var init := cards[..n];
      Part2Gains(init);
      ProcessTotal(Tabulate(init), cards[n]);
      forall i | 0 <= i < n
        ensures Gains(cards)[i] == Gains(init)[i]
      {
        assert cards[..i] == init[..i];
      }
      assert Gains(cards) == Gains(init) + [Gains(cards)[n]];
      SumAppend(Gains(init), [Gains(cards)[n]]);
      assert Sum([Gains(cards)[n]]) == Sum([]) + Gains(cards)[n];
    }
  }

  /** A card whose matches point past the last card still wins those
      copies: one card with two matches holds three cards in all. */
  lemma CopiesPastLastCard()
    ensures Part2([CardScore(1, 2, 2)]) == 3
  {
    var card := CardScore(1, 2, 2);
    assert [card][..0] == [];
    ProcessTotal([], card);
  }

  /** The puzzle's six example cards, as ids with their match counts. */
  function ExampleCards(): seq<CardScore> {
    [CardScore(1, 4, 8), CardScore(2, 2, 2), CardScore(3, 2, 2),
     CardScore(4, 1, 1), CardScore(5, 0, 0), CardScore(6, 0, 0)]
  }

  /** The example's points add up to 13. */
  lemma ExamplePart1()
    ensures Part1(ExampleCards()) == 13
  {
    var ps := PowerScores(ExampleCards());
    assert ps == [8, 2, 2, 1, 0, 0];
    assert Sum([8]) == 8 by { assert [8][..0] == []; }
    assert Sum([8, 2]) == 10 by { assert [8, 2][..1] == [8]; }
    assert Sum([8, 2, 2]) == 12 by { assert [8, 2, 2][..2] == [8, 2]; }
    assert Sum([8, 2, 2, 1]) == 13 by { assert [8, 2, 2, 1][..3] == [8, 2, 2]; }
    assert Sum([8, 2, 2, 1, 0]) == 13 by { assert [8, 2, 2, 1, 0][..4] == [8, 2, 2, 1]; }
    assert ps[..5] == [8, 2, 2, 1, 0];
  }

  /** One fold step seen from the copies already held. */
  lemma StepFacts(cards: seq<CardScore>, n: nat)
    requires 0 < n <= |cards|
    ensures Tabulate(cards[..n]) == Process(Tabulate(cards[..n - 1]), cards[n - 1])
  {
    assert cards[..n][..n - 1] == cards[..n - 1];
  }

  /** The copies held after the first two example cards. */
  lemma ExampleFirstTwo(cs: seq<CardScore>)
    requires cs == ExampleCards()
    ensures var t := Tabulate(cs[..2]);
            Total(t) == 10 && Held(t, 3) == 3 && Held(t, 4) == 3 && Held(t, 5) == 1 && Held(t, 6) == 0
  {
    var t0 := Tabulate(cs[..0]);
    assert cs[..0] == [];
    StepFacts(cs, 1);
    var t1 := Tabulate(cs[..1]);
    ProcessTotal(t0, cs[0]);
    ProcessHeld(t0, cs[0], 2);
    ProcessHeld(t0, cs[0], 3);
    ProcessHeld(t0, cs[0], 4);
    ProcessHeld(t0, cs[0], 5);
    ProcessHeld(t0, cs[0], 6);
    assert Total(t1) == 5 && Held(t1, 2) == 1;
    StepFacts(cs, 2);
    ProcessTotal(t1, cs[1]);
    ProcessHeld(t1, cs[1], 3);
    ProcessHeld(t1, cs[1], 4);
    ProcessHeld(t1, cs[1], 5);
    ProcessHeld(t1, cs[1], 6);
  }

  /** The copies held after the first three example cards. */
  lemma ExampleFirstThree(cs: seq<CardScore>)
    requires cs == ExampleCards()
    ensures var t := Tabulate(cs[..3]);
            Total(t) == 19 && Held(t, 4) == 7 && Held(t, 5) == 5 && Held(t, 6) == 0
  {
    ExampleFirstTwo(cs);
    var t2 := Tabulate(cs[..2]);
    StepFacts(cs, 3);
    ProcessTotal(t2, cs[2]);
    ProcessHeld(t2, cs[2], 4);
    ProcessHeld(t2, cs[2], 5);
    ProcessHeld(t2, cs[2], 6);
  }

  /** The copies held after the first four example cards. */
  lemma ExampleFirstFour(cs: seq<CardScore>)
    requires cs == ExampleCards()
    ensures var t := Tabulate(cs[..4]);
            Total(t) == 28 && Held(t, 5) == 13 && Held(t, 6) == 0
  {
    ExampleFirstThree(cs);
    var t3 := Tabulate(cs[..3]);
    StepFacts(cs, 4);
    ProcessTotal(t3, cs[3]);
    ProcessHeld(t3, cs[3], 5);
    ProcessHeld(t3, cs[3], 6);
  }

  /** All six example cards. */
  lemma ExampleSteps(cs: seq<CardScore>)
    requires cs == ExampleCards()
    ensures Total(Tabulate(cs)) == 30
  {
    ExampleFirstFour(cs);
    var t4 := Tabulate(cs[..4]);
    StepFacts(cs, 5);
    var t5 := Tabulate(cs[..5]);
    ProcessTotal(t4, cs[4]);
    ProcessHeld(t4, cs[4], 6);
    assert Total(t5) == 29 && Held(t5, 6) == 0;
    StepFacts(cs, 6);
    ProcessTotal(t5, cs[5]);
    assert cs[..6] == cs;
  }

  /** The example ends with 30 cards: 1, 2, 4, 8, 14 and 1 copies of the
      six cards. */
  lemma ExamplePart2()
    ensures Part2(ExampleCards()) == 30
  {
    ExampleSteps(ExampleCards());
  }

  // ---------------------------------------------------------------------
  // Both parts

  /** Each line read as a card. */
  function ScoreLines(lines: seq<string>): (scored: seq<Option<CardScore>>)
    ensures |scored| == |lines|
    ensures forall i :: 0 <= i < |lines| ==> scored[i] == ScoreCard(lines[i])
  {
    seq(|lines|, i requires 0 <= i < |lines| => ScoreCard(lines[i]))
  }

  /** `score_set`: both answers, or nothing if a line does not parse. */
  function ScoreSet(input: string): (r: Option<(int, nat)>)
    ensures r.Some? ==> r.value.1 >= |Lines(input)|
  {
    match AllSome(ScoreLines(Lines(input)))
    case None => None
    case Some(cards) =>
      Part2AtLeastCards(cards);
      Some((Part1(cards), Part2(cards)))
  }

  /** The cards scored from the lines, one per line. */
  ghost predicate CardsOf(lines: seq<string>, cards: seq<CardScore>) {
    |cards| == |lines| && forall i :: 0 <= i < |cards| ==> ScoreCard(lines[i]) == Some(cards[i])
  }

  /** Reading every line as a card fails exactly when some line is not a
      card, and otherwise gives the cards of the lines. */
  lemma ScoreLinesAll(lines: seq<string>)
    ensures AllSome(ScoreLines(lines)).None? <==> exists i :: 0 <= i < |lines| && ScoreCard(lines[i]).None?
    ensures AllSome(ScoreLines(lines)).Some? ==> CardsOf(lines, AllSome(ScoreLines(lines)).value)
  {
  }

  /** `score_set` fails exactly when some line is not a card. */
  lemma ScoreSetFails(input: string)
    ensures ScoreSet(input).None? <==> exists i :: 0 <= i < |Lines(input)| && ScoreCard(Lines(input)[i]).None?
  {
    ScoreLinesAll(Lines(input));
  }

  /** Both answers for scored cards, stated through a witness. */
  lemma CardsAnswer(lines: seq<string>, cards: seq<CardScore>, v: (int, nat))
    requires CardsOf(lines, cards) && v == (Part1(cards), Part2(cards))
    ensures exists cs :: CardsOf(lines, cs)
              && v == (Sum(PowerScores(cs)), Total(Tabulate(cs))) && v.1 == Sum(Gains(cs))
  {
    Part2Gains(cards);
  }

  /** When `score_set` answers, part 1 is the sum of the cards' power
      scores and part 2 the number of copies held once every card has been
      processed in order, which is what the cards add one by one. */
  lemma ScoreSetValue(input: string)
    ensures ScoreSet(input).Some? ==>
              exists cards :: CardsOf(Lines(input), cards)
                && ScoreSet(input).value == (Sum(PowerScores(cards)), Total(Tabulate(cards)))
                && ScoreSet(input).value.1 == Sum(Gains(cards))
  {
    var lines := Lines(input);
    var parsed := AllSome(ScoreLines(lines));
    ScoreLinesAll(lines);
    if parsed.Some? {
      var cards := parsed.value;
      assert ScoreSet(input) == Some((Part1(cards), Part2(cards)));
      CardsAnswer(lines, cards, ScoreSet(input).value);
    }
  }

  /** `score_set` answers exactly when every line is a card; part 1 is then
      the sum of the cards' power scores and part 2 the number of copies
      held once every card has been processed in order, which is what
      the cards add one by one. */
  lemma ScoreSetSpec(input: string)
    ensures ScoreSet(input).None? <==> exists i :: 0 <= i < |Lines(input)| && ScoreCard(Lines(input)[i]).None?
    ensures ScoreSet(input).Some? ==>
              exists cards :: CardsOf(Lines(input), cards)
                && ScoreSet(input).value == (Sum(PowerScores(cards)), Total(Tabulate(cards)))
                && ScoreSet(input).value.1 == Sum(Gains(cards))
  {
    ScoreSetFails(input);
    ScoreSetValue(input);
  }
}
