/** Day 7: Camel Cards. A hand's type comes from folding over its sorted
    card-count groups (with jokers added to the largest group); its score
    puts the type above a base-100 positional value of the cards; the
    winnings weight each bid by the rank of its score. */
module Day7 {
  import opened Common
  import opened Text
  import opened SortedMaps

  // ---------------------------------------------------------------------
  // Card counts (the solution's `HashMap<char, u8>`)
  // ---------------------------------------------------------------------

  /** An association list from card to how often it occurs. */
  type Counts = seq<(char, nat)>

  ghost predicate DistinctKeys(cs: Counts) {
    forall i, j :: 0 <= i < j < |cs| ==> cs[i].0 != cs[j].0
  }

  ghost predicate Positive(cs: Counts) {
    forall i :: 0 <= i < |cs| ==> cs[i].1 > 0
  }

  function KeySet(cs: Counts): (ks: set<char>)
    ensures forall i :: 0 <= i < |cs| ==> cs[i].0 in ks
  {
    if |cs| == 0 then {} else {cs[0].0} + KeySet(cs[1..])
  }

  /** The counts alone, in the list's order (`counts.values()`). */
  function Values(cs: Counts): (vs: seq<nat>)
    ensures |vs| == |cs|
    ensures forall i :: 0 <= i < |cs| ==> vs[i] == cs[i].1
  {
    seq(|cs|, i requires 0 <= i < |cs| => cs[i].1)
  }

  /** The count of a card, 0 when it is absent. */
  function CountOf(cs: Counts, c: char): (n: nat)
    ensures c !in KeySet(cs) ==> n == 0
  {
    if |cs| == 0 then 0
    else if cs[0].0 == c then cs[0].1
    else CountOf(cs[1..], c)
  }

  lemma {:induction false} KeySetMember(cs: Counts, c: char)
    requires c in KeySet(cs)
    ensures exists i :: 0 <= i < |cs| && cs[i].0 == c
  {
    if cs[0].0 != c {
      KeySetMember(cs[1..], c);
      var i :| 0 <= i < |cs[1..]| && cs[1..][i].0 == c;
      assert cs[i + 1].0 == c;
    }
  }

  lemma {:induction false} KeySetNotMember(cs: Counts, c: char)
    requires forall i :: 0 <= i < |cs| ==> cs[i].0 != c
    ensures c !in KeySet(cs)
  {
    if |cs| > 0 {
      KeySetNotMember(cs[1..], c);
    }
  }

  /** With distinct keys, the first key does not occur again. */
  lemma HeadKeyUnique(cs: Counts)
    requires DistinctKeys(cs) && |cs| > 0
    ensures cs[0].0 !in KeySet(cs[1..])
  {
    KeySetNotMember(cs[1..], cs[0].0);
  }

  lemma {:induction false} CountOfAt(cs: Counts, i: nat)
    requires DistinctKeys(cs) && i < |cs|
    ensures CountOf(cs, cs[i].0) == cs[i].1
  {
    if i > 0 {
      CountOfAt(cs[1..], i - 1);
    }
  }

  /** With distinct keys there are as many keys as entries. */
  lemma {:induction false} KeySetSize(cs: Counts)
    requires DistinctKeys(cs)
    ensures |KeySet(cs)| == |cs|
  {
    if |cs| > 0 {
      KeySetSize(cs[1..]);
      HeadKeyUnique(cs);
    }
  }

  lemma {:induction false} SumValuesCons(cs: Counts)
    requires |cs| > 0
    ensures Sum(Values(cs)) == cs[0].1 + Sum(Values(cs[1..]))
  {
    assert Values(cs) == [cs[0].1] + Values(cs[1..]);
    SumCons(cs[0].1, Values(cs[1..]));
  }

  /** One step of the count fold: `entry(c).and_modify(+1).or_insert(1)`. */
  function Bump(cs: Counts, c: char): (r: Counts)
    ensures CountOf(r, c) == CountOf(cs, c) + 1
    ensures forall d :: d != c ==> CountOf(r, d) == CountOf(cs, d)
    ensures KeySet(r) == KeySet(cs) + {c}
  {
    if |cs| == 0 then [(c, 1)]
    else if cs[0].0 == c then
      var r := [(c, cs[0].1 + 1)] + cs[1..];
      assert r[1..] == cs[1..];
      r
    else
      var r := [cs[0]] + Bump(cs[1..], c);
      assert r[1..] == Bump(cs[1..], c);
      r
  }

  /** Bumping keeps the keys distinct and the counts positive. */
  lemma {:induction false} BumpKeeps(cs: Counts, c: char)
    requires DistinctKeys(cs) && Positive(cs)
    ensures DistinctKeys(Bump(cs, c)) && Positive(Bump(cs, c))
  {
    if |cs| > 0 && cs[0].0 != c {
      var rest := Bump(cs[1..], c);
      BumpKeeps(cs[1..], c);
      assert Bump(cs, c) == [cs[0]] + rest;
      HeadKeyUnique(cs);
      forall i | 0 <= i < |rest|
        ensures rest[i].0 != cs[0].0
      {
        assert rest[i].0 in KeySet(rest);
      }
    }
  }

  /** Bumping adds one card to the total. */
  lemma {:induction false} BumpSum(cs: Counts, c: char)
    ensures Sum(Values(Bump(cs, c))) == Sum(Values(cs)) + 1
  {
    var r := Bump(cs, c);
    if |cs| == 0 {
      assert Values(r) == [1];
      assert Sum([1]) == Sum([]) + 1;
    } else if cs[0].0 == c {
      assert r[1..] == cs[1..];
      SumValuesCons(r);
      SumValuesCons(cs);
    } else {
      BumpSum(cs[1..], c);
      assert r[1..] == Bump(cs[1..], c);
      SumValuesCons(r);
      SumValuesCons(cs);
    }
  }

  /** The fold of `Bump` over the cards. */
  function Tally(cards: string): Counts {
    if |cards| == 0 then [] else Bump(Tally(cards[..|cards| - 1]), cards[|cards| - 1])
  }

  /** The tally has one entry per distinct card, and its counts are
      positive and add up to the hand's length. */
  lemma {:induction false} TallyShape(cards: string)
    ensures DistinctKeys(Tally(cards)) && Positive(Tally(cards))
    ensures Sum(Values(Tally(cards))) == |cards|
  {
    if |cards| > 0 {
      var init := cards[..|cards| - 1];
      TallyShape(init);
      BumpKeeps(Tally(init), cards[|cards| - 1]);
      BumpSum(Tally(init), cards[|cards| - 1]);
    }
  }

  /** The tally counts every card: its keys are the hand's cards and each
      holds how often the card occurs. */
  lemma {:induction false} TallyCounts(cards: string)
    ensures forall c :: CountOf(Tally(cards), c) == multiset(cards)[c]
    ensures KeySet(Tally(cards)) == set c | c in cards
  {
    if |cards| > 0 {
      var init := cards[..|cards| - 1];
      var last := cards[|cards| - 1];
      TallyCounts(init);
      assert cards == init + [last];
      assert multiset(cards) == multiset(init) + multiset{last};
    }
  }

  /** `HashMap::remove`: the list without the entry for `k`. */
  function RemoveKey(cs: Counts, k: char): (r: Counts)
    ensures CountOf(r, k) == 0
    ensures DistinctKeys(cs) ==> forall d :: d != k ==> CountOf(r, d) == CountOf(cs, d)
    ensures KeySet(r) == KeySet(cs) - {k}
  {
    if |cs| == 0 then []
    else if cs[0].0 == k then RemoveKey(cs[1..], k)
    else
      var r := [cs[0]] + RemoveKey(cs[1..], k);
      assert r[1..] == RemoveKey(cs[1..], k);
      r
  }

  /** Removal keeps distinct keys and positive counts. */
  lemma {:induction false} RemoveKeyKeeps(cs: Counts, k: char)
    requires DistinctKeys(cs) && Positive(cs)
    ensures DistinctKeys(RemoveKey(cs, k)) && Positive(RemoveKey(cs, k))
  {
    if |cs| > 0 {
      RemoveKeyKeeps(cs[1..], k);
    }
    if |cs| > 0 && cs[0].0 != k {
      var rest := RemoveKey(cs[1..], k);
      assert RemoveKey(cs, k) == [cs[0]] + rest;
      HeadKeyUnique(cs);
      forall i | 0 <= i < |rest|
        ensures rest[i].0 != cs[0].0
      {
        assert rest[i].0 in KeySet(rest);
      }
    }
  }

  /** Removal takes the removed count off the total. */
  lemma {:induction false} RemoveKeySum(cs: Counts, k: char)
    requires DistinctKeys(cs)
    ensures Sum(Values(RemoveKey(cs, k))) + CountOf(cs, k) == Sum(Values(cs))
  {
    if |cs| > 0 {
      RemoveKeySum(cs[1..], k);
      SumValuesCons(cs);
      HeadKeyUnique(cs);
      if cs[0].0 != k {
        var r := RemoveKey(cs, k);
        assert r[1..] == RemoveKey(cs[1..], k);
        SumValuesCons(r);
      }
    }
  }

  /** A string of one repeated character holds it as often as its length. */
  lemma {:induction false} AllSame(s: string, c: char)
    requires forall i :: 0 <= i < |s| ==> s[i] == c
    ensures multiset(s)[c] == |s|
  {
    if |s| > 0 {
      AllSame(s[1..], c);
      assert s == [s[0]] + s[1..];
    }
  }

  // ---------------------------------------------------------------------
  // Sorting the counts (`Vec::sort`)
  // ---------------------------------------------------------------------

  ghost predicate Ascending(s: seq<nat>) {
    forall i, j :: 0 <= i < j < |s| ==> s[i] <= s[j]
  }

  function InsertAscending(x: nat, s: seq<nat>): (r: seq<nat>)
    requires Ascending(s)
    ensures Ascending(r)
    ensures multiset(r) == multiset(s) + multiset{x}
    ensures r[0] == if |s| == 0 || x <= s[0] then x else s[0]
  {
    if |s| == 0 then [x]
    else if x <= s[0] then [x] + s
    else
      var rest := InsertAscending(x, s[1..]);
      assert s == [s[0]] + s[1..];
      assert s[0] <= rest[0];
      [s[0]] + rest
  }

  lemma {:induction false} InsertAscendingSum(x: nat, s: seq<nat>)
    requires Ascending(s)
    ensures Sum(InsertAscending(x, s)) == Sum(s) + x
  {
    if |s| == 0 {
      assert Sum([x]) == Sum([]) + x;
    } else if x <= s[0] {
      SumCons(x, s);
    } else {
      InsertAscendingSum(x, s[1..]);
      assert s == [s[0]] + s[1..];
      SumCons(s[0], InsertAscending(x, s[1..]));
      SumCons(s[0], s[1..]);
    }
  }

  /** Insertion sort: an ascending permutation of the counts. */
  function SortAscending(xs: seq<nat>): (r: seq<nat>)
    ensures Ascending(r)
    ensures multiset(r) == multiset(xs)
  {
    if |xs| == 0 then []
    else
      assert xs == [xs[0]] + xs[1..];
      InsertAscending(xs[0], SortAscending(xs[1..]))
  }

  /** Sorting keeps the total. */
  lemma {:induction false} SortAscendingSum(xs: seq<nat>)
    ensures Sum(SortAscending(xs)) == Sum(xs)
  {
    if |xs| > 0 {
      var sorted := SortAscending(xs[1..]);
      SortAscendingSum(xs[1..]);
      InsertAscendingSum(xs[0], sorted);
      SortAscendingFront(xs);
      SumFront(xs);
    }
  }

  lemma SortAscendingFront(xs: seq<nat>)
    requires |xs| > 0
    ensures SortAscending(xs) == InsertAscending(xs[0], SortAscending(xs[1..]))
  {
  }

  // ---------------------------------------------------------------------
  // Hand type
  // ---------------------------------------------------------------------

  /** One step of the type fold, case for case:
      0 high card, 1 one pair, 2 two pairs, 3 three of a kind,
      4 full house, 5 four of a kind, 6 five of a kind. */
  function KindStep(acc: nat, count: nat): (r: nat)
    ensures acc <= 6 ==> r <= 6
  {
    if acc == 0 && count == 2 then 1
    else if acc == 1 && count == 2 then 2
    else if acc == 0 && count == 3 then 3
    else if acc == 3 && count == 2 then 4
    else if acc == 1 && count == 3 then 4
    else if count == 4 then 5
    else if count == 5 then 6
    else acc
  }

  /** `elements.iter().fold(0, ...)`. */
  function FoldKind(acc: nat, counts: seq<nat>): (r: nat)
    ensures acc <= 6 ==> r <= 6
    decreases |counts|
  {
    if |counts| == 0 then acc else FoldKind(KindStep(acc, counts[0]), counts[1..])
  }

  /** The type a hand should get from the number of distinct groups and
      the size of the largest one. */
  function Kind(groups: nat, top: nat): (r: nat)
    ensures r <= 6
  {
    if groups <= 1 then 6
    else if groups == 2 then (if top >= 4 then 5 else 4)
    else if groups == 3 then (if top >= 3 then 3 else 2)
    else if groups == 4 then 1
    else 0
  }

  /** `counts.remove(&'J').unwrap_or(0)` when jokers are wild, else 0. */
  function JokerCount(cards: string, jokers: bool): nat {
    if jokers then CountOf(Tally(cards), 'J') else 0
  }

  /** The counts left to form groups once the jokers are taken out. */
  function Rest(cards: string, jokers: bool): Counts {
    if jokers then RemoveKey(Tally(cards), 'J') else Tally(cards)
  }

  /** The jokers are the hand's 'J' cards when they are wild; the rest
      holds exactly the grouped cards with their multiplicities. */
  lemma RestFacts(cards: string, jokers: bool)
    ensures JokerCount(cards, jokers) == if jokers then multiset(cards)['J'] else 0
    ensures var rest := Rest(cards, jokers);
            DistinctKeys(rest) && Positive(rest)
            && KeySet(rest) == Groups(cards, jokers)
            && (forall c :: c in Groups(cards, jokers) ==> CountOf(rest, c) == multiset(cards)[c])
            && Sum(Values(rest)) + JokerCount(cards, jokers) == |cards|
  {
    TallyShape(cards);
    TallyCounts(cards);
    if jokers {
      RemoveKeyKeeps(Tally(cards), 'J');
      RemoveKeySum(Tally(cards), 'J');
    }
  }

  /** `last + joker_count` pushed back after the other groups. */
  function JoinJokers(sorted: seq<nat>, j: nat): (f: seq<nat>)
    requires |sorted| > 0
    ensures |f| == |sorted|
  {
    sorted[..|sorted| - 1] + [sorted[|sorted| - 1] + j]
  }

  /** `parse_hand`; None where the solution's `split_last().expect`
      aborts because no counts are left. */
  function ParseHand(cards: string, jokers: bool): (r: Option<nat>)
    ensures r.Some? ==> r.value <= 6
  {
    var j := JokerCount(cards, jokers);
    if j == 5 then Some(6)
    else
      var sorted := SortAscending(Values(Rest(cards, jokers)));
      if |sorted| == 0 then None
      else Some(FoldKind(0, JoinJokers(sorted, j)))
  }

  /** The hand aborts exactly when every card is a wild joker and there are
      not five of them (this includes the empty hand). */
  lemma ParseHandFails(cards: string, jokers: bool)
    ensures ParseHand(cards, jokers).None?
            <==> |cards| != 5 && forall i :: 0 <= i < |cards| ==> jokers && cards[i] == 'J'
  {
    var j := JokerCount(cards, jokers);
    var rest := Rest(cards, jokers);
    RestFacts(cards, jokers);
    var sorted := SortAscending(Values(rest));
    KeySetSize(rest);
    SortedLength(Values(rest));
    if forall i :: 0 <= i < |cards| ==> jokers && cards[i] == 'J' {
      if |cards| > 0 {
        AllSame(cards, 'J');
      }
      assert j == |cards|;
      assert Groups(cards, jokers) == {};
      assert |sorted| == 0;
      assert ParseHand(cards, jokers).None? <==> j != 5;
    } else {
      var i :| 0 <= i < |cards| && !(jokers && cards[i] == 'J');
      assert cards[i] in Groups(cards, jokers);
      assert |sorted| > 0;
      assert ParseHand(cards, jokers).Some?;
    }
  }

  lemma SortedLength(xs: seq<nat>)
    ensures |SortAscending(xs)| == |xs|
  {
    assert |multiset(SortAscending(xs))| == |multiset(xs)|;
  }

  lemma {:induction false} SumAtLeastLength(f: seq<nat>)
    requires forall i :: 0 <= i < |f| ==> f[i] >= 1
    ensures Sum(f) >= |f|
  {
    if |f| > 0 {
      SumAtLeastLength(f[..|f| - 1]);
    }
  }

  /** Sum of a short sequence, written out. */
  lemma SumOfFive(f: seq<nat>)
    requires 1 <= |f| <= 5
    ensures |f| == 1 ==> Sum(f) == f[0]
    ensures |f| == 2 ==> Sum(f) == f[0] + f[1]
    ensures |f| == 3 ==> Sum(f) == f[0] + f[1] + f[2]
    ensures |f| == 4 ==> Sum(f) == f[0] + f[1] + f[2] + f[3]
    ensures |f| == 5 ==> Sum(f) == f[0] + f[1] + f[2] + f[3] + f[4]
  {
    var p := f[..|f| - 1];
    if |f| > 1 {
      SumOfFive(p);
    } else {
      assert p == [];
    }
  }

  /** Folding the sorted group sizes of a five-card hand gives the type its
      number of groups and largest group call for. */
  lemma PartitionKind(f: seq<nat>)
    requires Ascending(f)
    requires forall i :: 0 <= i < |f| ==> f[i] >= 1
    requires Sum(f) == 5 && |f| > 0
    ensures FoldKind(0, f) == Kind(|f|, f[|f| - 1])
  {
    SumAtLeastLength(f);
    SumOfFive(f);
    if |f| == 1 {
      assert FoldKind(0, f) == FoldKind(KindStep(0, f[0]), f[1..]);
    } else if |f| == 2 {
      assert f[1..][1..] == [];
      if f[0] == 1 {
        assert FoldKind(0, f) == FoldKind(0, f[1..]) == KindStep(0, 4);
      } else {
        assert FoldKind(0, f) == FoldKind(1, f[1..]) == KindStep(1, 3);
      }
    } else if |f| == 3 {
      assert f[1..][1..][1..] == [];
      assert f[1..][1..] == [f[2]];
      if f[1] == 1 {
        assert FoldKind(0, f) == FoldKind(0, f[1..]) == FoldKind(0, [f[2]]);
      } else {
        assert FoldKind(0, f) == FoldKind(0, f[1..]) == FoldKind(1, [f[2]]);
      }
    } else if |f| == 4 {
      assert f[0] == 1 && f[1] == 1 && f[2] == 1 && f[3] == 2;
      assert f[1..][1..][1..] == [f[3]];
      assert FoldKind(0, f) == FoldKind(0, f[1..]) == FoldKind(0, f[1..][1..])
          == FoldKind(0, f[1..][1..][1..]) == KindStep(0, 2);
    } else {
      assert f[0] == 1 && f[1] == 1 && f[2] == 1 && f[3] == 1 && f[4] == 1;
      assert f[1..][1..][1..][1..] == [f[4]];
      assert FoldKind(0, f) == FoldKind(0, f[1..]) == FoldKind(0, f[1..][1..])
          == FoldKind(0, f[1..][1..][1..]) == FoldKind(0, f[1..][1..][1..][1..]) == KindStep(0, 1);
    }
  }

  /** The cards that form groups: every card except jokers when they are
      wild. */
  ghost function Groups(cards: string, jokers: bool): set<char> {
    set c | c in cards && !(jokers && c == 'J')
  }

  /** `t` is the size of the largest group. */
  ghost predicate IsTop(cards: string, jokers: bool, t: nat) {
    (exists c :: c in Groups(cards, jokers) && multiset(cards)[c] == t)
    && forall c :: c in Groups(cards, jokers) ==> multiset(cards)[c] <= t
  }

  /** The type of a five-card hand, as the fold computes it, is the type of
      its group structure with the jokers joined to the largest group. */
  lemma HandKind(cards: string, jokers: bool, t: nat)
    requires |cards| == 5
    requires |Groups(cards, jokers)| == 0 || IsTop(cards, jokers, t)
    ensures ParseHand(cards, jokers) == Some(Kind(|Groups(cards, jokers)|, t + JokerCount(cards, jokers)))
  {
    var j := JokerCount(cards, jokers);
    var groups := |Groups(cards, jokers)|;
    if j == 5 {
      HandKindAllJokers(cards, jokers, groups);
    } else {
      HandKindHasGroups(cards, jokers, groups, j);
      HandKindGrouped(cards, jokers, t, groups, j);
    }
  }

  lemma HandKindAllJokers(cards: string, jokers: bool, groups: nat)
    requires |cards| == 5 && JokerCount(cards, jokers) == 5 && groups == |Groups(cards, jokers)|
    ensures groups == 0 && ParseHand(cards, jokers) == Some(6)
  {
    var rest := Rest(cards, jokers);
    RestFacts(cards, jokers);
    KeySetSize(rest);
    if |rest| > 0 {
      SumValuesCons(rest);
      SumNonNegative(Values(rest[1..]));
    }
  }

  lemma HandKindHasGroups(cards: string, jokers: bool, groups: nat, j: nat)
    requires |cards| == 5 && j == JokerCount(cards, jokers) && j != 5
    requires groups == |Groups(cards, jokers)|
    ensures groups > 0
  {
    var rest := Rest(cards, jokers);
    RestFacts(cards, jokers);
    KeySetSize(rest);
    assert |rest| == 0 ==> Values(rest) == [];
  }

  lemma HandKindGrouped(cards: string, jokers: bool, t: nat, groups: nat, j: nat)
    requires |cards| == 5 && j == JokerCount(cards, jokers) && j != 5
    requires IsTop(cards, jokers, t) && groups == |Groups(cards, jokers)|
    ensures ParseHand(cards, jokers) == Some(Kind(groups, t + j))
  {
    var rest := Rest(cards, jokers);
    RestFacts(cards, jokers);
    KeySetSize(rest);
    var sorted := SortAscending(Values(rest));
    SortAscendingSum(Values(rest));
    SortedLength(Values(rest));
    RestTop(cards, jokers, rest, sorted, t);
    SortedPositive(rest, sorted);
    KindOfSorted(sorted, j, groups, t);
    ParseHandShape(cards, jokers);
  }

  lemma ParseHandShape(cards: string, jokers: bool)
    requires JokerCount(cards, jokers) != 5
    requires |SortAscending(Values(Rest(cards, jokers)))| > 0
    ensures ParseHand(cards, jokers)
            == Some(FoldKind(0, JoinJokers(SortAscending(Values(Rest(cards, jokers))), JokerCount(cards, jokers))))
  {
  }

  /** The type fold over ascending positive group sizes of five cards, with
      the jokers joined to the largest. */
  lemma KindOfSorted(sorted: seq<nat>, j: nat, groups: nat, top: nat)
    requires Ascending(sorted) && |sorted| == groups > 0
    requires forall i :: 0 <= i < |sorted| ==> sorted[i] >= 1
    requires Sum(sorted) + j == 5 && sorted[|sorted| - 1] == top
    ensures FoldKind(0, JoinJokers(sorted, j)) == Kind(groups, top + j)
  {
    JokersJoinLast(sorted, j);
    PartitionKind(JoinJokers(sorted, j));
  }

  lemma SortedPositive(rest: Counts, sorted: seq<nat>)
    requires Positive(rest) && multiset(sorted) == multiset(Values(rest))
    ensures forall i :: 0 <= i < |sorted| ==> sorted[i] >= 1
  {
    forall i | 0 <= i < |sorted|
      ensures sorted[i] >= 1
    {
      assert sorted[i] in multiset(Values(rest));
      var k :| 0 <= k < |Values(rest)| && Values(rest)[k] == sorted[i];
    }
  }

  /** Adding the jokers to the largest group keeps the sizes ascending and
      positive, and brings their total to five. */
  lemma JokersJoinLast(sorted: seq<nat>, j: nat)
    requires Ascending(sorted) && |sorted| > 0
    requires forall i :: 0 <= i < |sorted| ==> sorted[i] >= 1
    requires Sum(sorted) + j == 5
    ensures var f := JoinJokers(sorted, j);
            Ascending(f) && (forall i :: 0 <= i < |f| ==> f[i] >= 1) && Sum(f) == 5
            && f[|f| - 1] == sorted[|sorted| - 1] + j
  {
    var init := sorted[..|sorted| - 1];
    var last := sorted[|sorted| - 1];
    assert sorted == init + [last];
    SumAppend(init, [last]);
    SumAppend(init, [last + j]);
    assert Sum([last]) == Sum([]) + last;
    assert Sum([last + j]) == Sum([]) + last + j;
  }

  /** The largest group size is the last of the sorted counts. */
  lemma RestTop(cards: string, jokers: bool, rest: Counts, sorted: seq<nat>, t: nat)
    requires DistinctKeys(rest) && Positive(rest)
    requires KeySet(rest) == Groups(cards, jokers)
    requires forall c :: c in Groups(cards, jokers) ==> CountOf(rest, c) == multiset(cards)[c]
    requires Ascending(sorted) && multiset(sorted) == multiset(Values(rest)) && |sorted| > 0
    requires IsTop(cards, jokers, t)
    ensures sorted[|sorted| - 1] == t
  {
    RestTopAtMost(cards, jokers, rest, sorted, t);
    RestTopAtLeast(cards, jokers, rest, sorted, t);
  }

  /** Every sorted count is a group's count, so none exceeds the top. */
  lemma RestTopAtMost(cards: string, jokers: bool, rest: Counts, sorted: seq<nat>, t: nat)
    requires DistinctKeys(rest) && Positive(rest)
    requires KeySet(rest) == Groups(cards, jokers)
    requires forall c :: c in Groups(cards, jokers) ==> CountOf(rest, c) == multiset(cards)[c]
    requires multiset(sorted) == multiset(Values(rest)) && |sorted| > 0
    requires IsTop(cards, jokers, t)
    ensures sorted[|sorted| - 1] <= t
  {
    var last := sorted[|sorted| - 1];
    assert last in multiset(Values(rest));
    var k :| 0 <= k < |rest| && Values(rest)[k] == last;
    assert rest[k].0 in KeySet(rest);
    CountOfAt(rest, k);
  }

  /** The top group's count is among the sorted counts, all of them at
      most the last. */
  lemma RestTopAtLeast(cards: string, jokers: bool, rest: Counts, sorted: seq<nat>, t: nat)
    requires DistinctKeys(rest) && Positive(rest)
    requires KeySet(rest) == Groups(cards, jokers)
    requires forall c :: c in Groups(cards, jokers) ==> CountOf(rest, c) == multiset(cards)[c]
    requires Ascending(sorted) && multiset(sorted) == multiset(Values(rest)) && |sorted| > 0
    requires IsTop(cards, jokers, t)
    ensures t <= sorted[|sorted| - 1]
  {
    var c :| c in Groups(cards, jokers) && multiset(cards)[c] == t;
    KeySetMember(rest, c);
    var m :| 0 <= m < |rest| && rest[m].0 == c;
    CountOfAt(rest, m);
    assert Values(rest)[m] in multiset(sorted);
    var p :| 0 <= p < |sorted| && sorted[p] == Values(rest)[m];
  }

  // ---------------------------------------------------------------------
  // The parse_hand test table
  // ---------------------------------------------------------------------

  /** A hand example from its cards' groups, counts and largest group. */
  lemma HandExample(cards: string, jokers: bool, groups: set<char>, counts: multiset<char>,
                    top: char, t: nat, expected: nat)
    requires |cards| == 5 && Groups(cards, jokers) == groups && multiset(cards) == counts
    requires top in groups && counts[top] == t
    requires forall c :: c in groups ==> counts[c] <= t
    requires Kind(|groups|, t + (if jokers then counts['J'] else 0)) == expected
    ensures ParseHand(cards, jokers) == Some(expected)
  {
    ExampleTop(cards, jokers, groups, counts, top, t);
    HandKind(cards, jokers, t);
  }

  lemma ExampleTop(cards: string, jokers: bool, groups: set<char>, counts: multiset<char>,
                   top: char, t: nat)
    requires Groups(cards, jokers) == groups && multiset(cards) == counts
    requires top in groups && counts[top] == t
    requires forall c :: c in groups ==> counts[c] <= t
    ensures IsTop(cards, jokers, t)
    ensures JokerCount(cards, jokers) == if jokers then counts['J'] else 0
  {
    RestFacts(cards, jokers);
    assert top in Groups(cards, jokers) && multiset(cards)[top] == t;
  }

  lemma ExampleHighCard()
    ensures ParseHand("23456", false) == Some(0)
  {
    ExampleHighCardCards();
    HandExample("23456", false, {'2', '3', '4', '5', '6'}, multiset{'2', '3', '4', '5', '6'}, '2', 1, 0);
  }

  lemma ExampleHighCardCards()
    ensures Groups("23456", false) == {'2', '3', '4', '5', '6'}
    ensures multiset("23456") == multiset{'2', '3', '4', '5', '6'}
  {
    var cards := "23456";
    assert Groups(cards, false) == {'2', '3', '4', '5', '6'};
    assert multiset(cards) == multiset{'2', '3', '4', '5', '6'};
  }

  lemma ExampleOnePair()
    ensures ParseHand("A23A4", false) == Some(1)
  {
    ExampleOnePairCards();
    HandExample("A23A4", false, {'A', '2', '3', '4'}, multiset{'A', 'A', '2', '3', '4'}, 'A', 2, 1);
  }

  lemma ExampleOnePairCards()
    ensures Groups("A23A4", false) == {'A', '2', '3', '4'}
    ensures multiset("A23A4") == multiset{'A', 'A', '2', '3', '4'}
  {
    var cards := "A23A4";
    assert Groups(cards, false) == {'A', '2', '3', '4'};
    assert multiset(cards) == multiset{'A', 'A', '2', '3', '4'};
  }

  lemma ExampleTwoPair()
    ensures ParseHand("23432", false) == Some(2)
  {
    ExampleTwoPairCards();
    HandExample("23432", false, {'2', '3', '4'}, multiset{'2', '2', '3', '3', '4'}, '2', 2, 2);
  }

  lemma ExampleTwoPairCards()
    ensures Groups("23432", false) == {'2', '3', '4'}
    ensures multiset("23432") == multiset{'2', '2', '3', '3', '4'}
  {
    var cards := "23432";
    assert Groups(cards, false) == {'2', '3', '4'};
    assert multiset(cards) == multiset{'2', '2', '3', '3', '4'};
  }

  lemma ExampleThreeOfAKind()
    ensures ParseHand("TTT98", false) == Some(3)
  {
    ExampleThreeOfAKindCards();
    HandExample("TTT98", false, {'T', '9', '8'}, multiset{'T', 'T', 'T', '9', '8'}, 'T', 3, 3);
  }

  lemma ExampleThreeOfAKindCards()
    ensures Groups("TTT98", false) == {'T', '9', '8'}
    ensures multiset("TTT98") == multiset{'T', 'T', 'T', '9', '8'}
  {
    var cards := "TTT98";
    assert Groups(cards, false) == {'T', '9', '8'};
    assert multiset(cards) == multiset{'T', 'T', 'T', '9', '8'};
  }

  lemma ExampleFullHouse()
    ensures ParseHand("23332", false) == Some(4)
  {
    ExampleFullHouseCards();
    HandExample("23332", false, {'2', '3'}, multiset{'2', '2', '3', '3', '3'}, '3', 3, 4);
  }

  lemma ExampleFullHouseCards()
    ensures Groups("23332", false) == {'2', '3'}
    ensures multiset("23332") == multiset{'2', '2', '3', '3', '3'}
  {
    var cards := "23332";
    assert Groups(cards, false) == {'2', '3'};
    assert multiset(cards) == multiset{'2', '2', '3', '3', '3'};
  }

  lemma ExampleFourOfAKind()
    ensures ParseHand("AA8AA", false) == Some(5)
  {
    ExampleFourOfAKindCards();
    HandExample("AA8AA", false, {'A', '8'}, multiset{'A', 'A', 'A', 'A', '8'}, 'A', 4, 5);
  }

  lemma ExampleFourOfAKindCards()
    ensures Groups("AA8AA", false) == {'A', '8'}
    ensures multiset("AA8AA") == multiset{'A', 'A', 'A', 'A', '8'}
  {
    var cards := "AA8AA";
    assert Groups(cards, false) == {'A', '8'};
    assert multiset(cards) == multiset{'A', 'A', 'A', 'A', '8'};
  }

  lemma ExampleFiveOfAKind()
    ensures ParseHand("AAAAA", false) == Some(6)
  {
    ExampleFiveOfAKindCards();
    HandExample("AAAAA", false, {'A'}, multiset{'A', 'A', 'A', 'A', 'A'}, 'A', 5, 6);
  }

  lemma ExampleFiveOfAKindCards()
    ensures Groups("AAAAA", false) == {'A'}
    ensures multiset("AAAAA") == multiset{'A', 'A', 'A', 'A', 'A'}
  {
    var cards := "AAAAA";
    assert Groups(cards, false) == {'A'};
    assert multiset(cards) == multiset{'A', 'A', 'A', 'A', 'A'};
  }

  lemma ExampleJokersTwoPair()
    ensures ParseHand("QJJQ2", true) == Some(5)
  {
    ExampleJokersTwoPairCards();
    HandExample("QJJQ2", true, {'Q', '2'}, multiset{'Q', 'J', 'J', 'Q', '2'}, 'Q', 2, 5);
  }

  lemma ExampleJokersTwoPairCards()
    ensures Groups("QJJQ2", true) == {'Q', '2'}
    ensures multiset("QJJQ2") == multiset{'Q', 'J', 'J', 'Q', '2'}
  {
    var cards := "QJJQ2";
    assert Groups(cards, true) == {'Q', '2'};
    assert multiset(cards) == multiset{'Q', 'J', 'J', 'Q', '2'};
  }

  lemma ExampleJokersThree()
    ensures ParseHand("JKKK2", true) == Some(5)
  {
    ExampleJokersThreeCards();
    HandExample("JKKK2", true, {'K', '2'}, multiset{'J', 'K', 'K', 'K', '2'}, 'K', 3, 5);
  }

  lemma ExampleJokersThreeCards()
    ensures Groups("JKKK2", true) == {'K', '2'}
    ensures multiset("JKKK2") == multiset{'J', 'K', 'K', 'K', '2'}
  {
    var cards := "JKKK2";
    assert Groups(cards, true) == {'K', '2'};
    assert multiset(cards) == multiset{'J', 'K', 'K', 'K', '2'};
  }

  /** The solution's tables of hand types, without and with jokers. */
  lemma ParseHandExamples()
    ensures ParseHand("23456", false) == Some(0) && ParseHand("A23A4", false) == Some(1)
    ensures ParseHand("23432", false) == Some(2) && ParseHand("TTT98", false) == Some(3)
    ensures ParseHand("23332", false) == Some(4) && ParseHand("AA8AA", false) == Some(5)
    ensures ParseHand("AAAAA", false) == Some(6)
    ensures ParseHand("QJJQ2", true) == Some(5) && ParseHand("JKKK2", true) == Some(5)
  {
    ExampleHighCard();
    ExampleOnePair();
    ExampleTwoPair();
    ExampleThreeOfAKind();
    ExampleFullHouse();
    ExampleFourOfAKind();
    ExampleFiveOfAKind();
    ExampleJokersTwoPair();
    ExampleJokersThree();
  }

  // ---------------------------------------------------------------------
  // Card values and the positional score
  // ---------------------------------------------------------------------

  /** `card_value`; None where `to_digit(10).unwrap()` aborts. */
  function CardValue(card: char, jokers: bool): (v: Option<nat>)
    ensures v.Some? ==> v.value <= 14
    ensures v.None? <==> !IsDigit(card) && card !in "TJQKA"
  {
    if card == 'T' then Some(10)
    else if card == 'J' then (if jokers then Some(1) else Some(11))
    else if card == 'Q' then Some(12)
    else if card == 'K' then Some(13)
    else if card == 'A' then Some(14)
    else if IsDigit(card) then Some(DigitValue(card))
    else None
  }

  /** Wild jokers change the value of 'J' and of no other card. */
  lemma JokersOnlyChangeJ(card: char)
    ensures CardValue(card, true) != CardValue(card, false) <==> card == 'J'
  {
  }

  /** With the puzzle's cards, a wild joker is the weakest card and the
      picture cards rank T < J < Q < K < A without jokers. */
  lemma CardOrder(card: char)
    requires card in "23456789TQKA"
    ensures CardValue('J', true).value < CardValue(card, true).value
    ensures CardValue('T', false).value < CardValue('J', false).value < CardValue('Q', false).value
            < CardValue('K', false).value < CardValue('A', false).value
    ensures IsDigit(card) ==> CardValue(card, false).value < CardValue('T', false).value
  {
  }

  /** The solution's card value tables, without and with jokers. */
  lemma CardValueExamples()
    ensures CardValue('2', false) == Some(2) && CardValue('3', false) == Some(3)
    ensures CardValue('9', false) == Some(9) && CardValue('T', false) == Some(10)
    ensures CardValue('J', false) == Some(11) && CardValue('Q', false) == Some(12)
    ensures CardValue('K', false) == Some(13) && CardValue('A', false) == Some(14)
    ensures CardValue('J', true) == Some(1) && CardValue('9', true) == Some(9)
  {
    assert DigitValue('2') == 2 && DigitValue('3') == 3 && DigitValue('9') == 9;
  }

  /** The values of all cards of a hand, or None if one has none. */
  function CardValues(hand: string, jokers: bool): (r: Option<seq<nat>>)
    ensures r.Some? ==> |r.value| == |hand|
    ensures r.Some? ==> forall i :: 0 <= i < |hand| ==> CardValue(hand[i], jokers) == Some(r.value[i])
    ensures r.None? <==> exists i :: 0 <= i < |hand| && CardValue(hand[i], jokers).None?
  {
    if |hand| == 0 then Some([])
    else
      assert forall i :: 1 <= i < |hand| ==> hand[i] == hand[1..][i - 1];
      match (CardValue(hand[0], jokers), CardValues(hand[1..], jokers))
      case (Some(v), Some(rest)) => Some([v] + rest)
      case _ => None
  }

  /** `hand.chars().rev().enumerate().fold(...)`: the card `k` places from
      the right is worth its value times 100^k. */
  function RevPlaceFold(vs: seq<nat>, k: nat, score: nat): nat
    requires k <= |vs|
    decreases |vs| - k
  {
    if k == |vs| then score
    else RevPlaceFold(vs, k + 1, score + vs[|vs| - 1 - k] * Pow(100, k))
  }

  /** The cards read as base-100 digits, most significant first. */
  function PlaceValue(vs: seq<nat>): nat {
    if |vs| == 0 then 0 else vs[0] * Pow(100, |vs| - 1) + PlaceValue(vs[1..])
  }

  lemma PowStep(k: nat)
    ensures Pow(100, k + 1) == 100 * Pow(100, k)
  {
  }

  lemma MulShift(p: nat, v: nat, q: nat)
    ensures (p * 100 + v) * q == p * (100 * q) + v * q
  {
    assert (p * 100 + v) * q == p * 100 * q + v * q;
  }

  /** A digit below the base, times a weight, plus less than the weight,
      stays below the next weight. */
  lemma DigitBound(v: nat, x: nat, p: nat)
    requires v < 100 && x < p
    ensures v * p + x < 100 * p
  {
    assert v * p + p == (v + 1) * p;
    assert (v + 1) * p <= 100 * p;
  }

  /** A smaller leading digit decides the comparison. */
  lemma LeadingDigit(a: nat, b: nat, x: nat, y: nat, p: nat)
    requires a < b && x < p
    ensures a * p + x < b * p + y
  {
    assert a * p + p == (a + 1) * p;
    assert (a + 1) * p <= b * p;
  }

  lemma {:induction false} PlaceValueSnoc(a: seq<nat>, x: nat)
    ensures PlaceValue(a + [x]) == PlaceValue(a) * 100 + x
    decreases |a|
  {
    if |a| == 0 {
      assert a + [x] == [x];
      assert PlaceValue([x]) == x * Pow(100, 0) + PlaceValue([]);
    } else {
      var q := Pow(100, |a| - 1);
      assert (a + [x])[1..] == a[1..] + [x];
      PlaceValueSnoc(a[1..], x);
      PowStep(|a| - 1);
      assert PlaceValue(a + [x]) == a[0] * (100 * q) + PlaceValue(a[1..]) * 100 + x;
      assert a[0] * (100 * q) == (a[0] * q) * 100;
    }
  }

  /** The fold from the right accumulates exactly the positional value of
      the cards not yet visited, scaled by the position reached. */
  lemma {:induction false} RevPlaceFoldIsPlaceValue(vs: seq<nat>, k: nat, score: nat)
    requires k <= |vs|
    ensures RevPlaceFold(vs, k, score) == score + PlaceValue(vs[..|vs| - k]) * Pow(100, k)
    decreases |vs| - k
  {
    if k < |vs| {
      var n := |vs|;
      var v := vs[n - 1 - k];
      var q := Pow(100, k);
      RevPlaceFoldIsPlaceValue(vs, k + 1, score + v * q);
      assert vs[..n - k] == vs[..n - k - 1] + [v];
      PlaceValueSnoc(vs[..n - k - 1], v);
      PowStep(k);
      MulShift(PlaceValue(vs[..n - k - 1]), v, q);
    } else {
      assert vs[..0] == [];
    }
  }

  ghost predicate Digits100(vs: seq<nat>) {
    forall i :: 0 <= i < |vs| ==> vs[i] < 100
  }

  lemma {:induction false} PlaceValueBound(vs: seq<nat>)
    requires Digits100(vs)
    ensures PlaceValue(vs) < Pow(100, |vs|)
    decreases |vs|
  {
    if |vs| > 0 {
      PlaceValueBound(vs[1..]);
      PowStep(|vs| - 1);
      DigitBound(vs[0], PlaceValue(vs[1..]), Pow(100, |vs| - 1));
    }
  }

  /** Comparing card by card from the left. */
  predicate LexLess(a: seq<nat>, b: seq<nat>)
    decreases |a|
  {
    |a| > 0 && |b| > 0 && (a[0] < b[0] || (a[0] == b[0] && LexLess(a[1..], b[1..])))
  }

  /** For hands of equal length, the positional value orders hands exactly
      as comparing their cards from the left does. */
  lemma {:induction false} PlaceValueOrder(a: seq<nat>, b: seq<nat>)
    requires |a| == |b| && Digits100(a) && Digits100(b)
    ensures PlaceValue(a) < PlaceValue(b) <==> LexLess(a, b)
    decreases |a|
  {
    if |a| > 0 {
      var p := Pow(100, |a| - 1);
      PlaceValueBound(a[1..]);
      PlaceValueBound(b[1..]);
      if a[0] < b[0] {
        LeadingDigit(a[0], b[0], PlaceValue(a[1..]), PlaceValue(b[1..]), p);
      } else if a[0] > b[0] {
        LeadingDigit(b[0], a[0], PlaceValue(b[1..]), PlaceValue(a[1..]), p);
      } else {
        PlaceValueOrder(a[1..], b[1..]);
      }
    }
  }

  /** `100_u64.pow(6)`, the weight of the hand type. */
  const TypeWeight: nat := 1_000_000_000_000

  lemma TypeWeightIsPow()
    ensures TypeWeight == Pow(100, 6)
  {
    assert Pow(100, 2) == 10_000;
    assert Pow(100, 4) == 100 * (100 * Pow(100, 2));
    assert Pow(100, 6) == 100 * (100 * Pow(100, 4));
  }

  /** The score of a hand: type times 100^6 plus its positional value. */
  function Score(hand: string, jokers: bool): Option<nat> {
    Weigh(ParseHand(hand, jokers), CardValues(hand, jokers))
  }

  function Weigh(kind: Option<nat>, values: Option<seq<nat>>): Option<nat> {
    match (kind, values)
    case (Some(k), Some(vs)) => Some(k * TypeWeight + RevPlaceFold(vs, 0, 0))
    case _ => None
  }

  lemma WeighParts(kind: Option<nat>, values: Option<seq<nat>>)
    ensures Weigh(kind, values).Some? <==> kind.Some? && values.Some?
    ensures Weigh(kind, values).Some? ==>
              Weigh(kind, values).value == kind.value * TypeWeight + PlaceValue(values.value)
  {
    if kind.Some? && values.Some? {
      var vs := values.value;
      RevPlaceFoldIsPlaceValue(vs, 0, 0);
      assert vs[..|vs|] == vs;
      assert Pow(100, 0) == 1;
    }
  }

  /** A hand scores when it has a type and every card has a value; the
      score is then the type in the seventh base-100 digit above the cards'
      positional value. */
  lemma ScoreParts(hand: string, jokers: bool)
    ensures Score(hand, jokers).Some? <==> ParseHand(hand, jokers).Some? && CardValues(hand, jokers).Some?
    ensures Score(hand, jokers).Some? ==> Digits100(CardValues(hand, jokers).value)
    ensures Score(hand, jokers).Some? ==>
              Score(hand, jokers).value
              == ParseHand(hand, jokers).value * TypeWeight + PlaceValue(CardValues(hand, jokers).value)
  {
    WeighParts(ParseHand(hand, jokers), CardValues(hand, jokers));
  }

  /** Between five-card hands, a higher type always wins, and hands of
      the same type are ordered by their cards from the left. */
  lemma ScoreOrder(h1: string, h2: string, jokers: bool)
    requires |h1| == 5 && |h2| == 5
    requires Score(h1, jokers).Some? && Score(h2, jokers).Some?
    ensures ParseHand(h1, jokers).value < ParseHand(h2, jokers).value
            ==> Score(h1, jokers).value < Score(h2, jokers).value
    ensures ParseHand(h1, jokers).value == ParseHand(h2, jokers).value
            ==> (Score(h1, jokers).value < Score(h2, jokers).value
                 <==> LexLess(CardValues(h1, jokers).value, CardValues(h2, jokers).value))
  {
    ScoreParts(h1, jokers);
    ScoreParts(h2, jokers);
    var v1 := CardValues(h1, jokers).value;
    var v2 := CardValues(h2, jokers).value;
    var k1 := ParseHand(h1, jokers).value;
    var k2 := ParseHand(h2, jokers).value;
    PlaceValueBound(v1);
    PlaceValueBound(v2);
    PowMonotone(100, 5, 6);
    TypeWeightIsPow();
    if k1 < k2 {
      LeadingDigit(k1, k2, PlaceValue(v1), PlaceValue(v2), TypeWeight);
    }
    PlaceValueOrder(v1, v2);
  }

  // ---------------------------------------------------------------------
  // Winnings
  // ---------------------------------------------------------------------

  /** One input line "hand bid"; None where the solution's `unwrap`s abort. */
  function ParseBid(line: string): Option<(string, nat)> {
    match SplitOnce(line, " ")
    case None => None
    case Some((hand, bid)) =>
      match ParseNat(bid)
      case None => None
      case Some(n) => Some((hand, n))
  }

  /** A hand without spaces and its bid printed after one space read back
      as that hand and bid. */
  lemma ParseBidOfLine(hand: string, bid: nat)
    requires ' ' !in hand
    ensures ParseBid(hand + " " + NatToString(bid)) == Some((hand, bid))
  {
    var line := hand + " " + NatToString(bid);
    assert OccursAt(line, " ", |hand|);
    forall j: nat | j < |hand|
      ensures !OccursAt(line, " ", j)
    {
      OccursAtChar(line, ' ', j);
      assert line[j] == hand[j];
    }
    SplitOnceAt(line, " ", |hand|);
    assert line[..|hand|] == hand;
    assert line[|hand| + 1..] == NatToString(bid);
    ParseNatOfNatToString(bid);
  }

  function ParseBids(lines: seq<string>): (r: Option<seq<(string, nat)>>)
    ensures r.Some? ==> |r.value| == |lines|
    ensures r.Some? ==> forall i :: 0 <= i < |lines| ==> ParseBid(lines[i]) == Some(r.value[i])
    ensures r.None? <==> exists i :: 0 <= i < |lines| && ParseBid(lines[i]).None?
  {
    var parsed := seq(|lines|, i requires 0 <= i < |lines| => ParseBid(lines[i]));
    AllSome(parsed)
  }

  /** Each bid keyed by its hand's score, in input order. */
  function ScoredBids(bids: seq<(string, nat)>, jokers: bool): (r: Option<seq<Entry<(string, nat)>>>)
    ensures r.Some? ==> |r.value| == |bids|
    ensures r.Some? ==> forall i :: 0 <= i < |bids| ==>
              Score(bids[i].0, jokers) == Some(r.value[i].key) && r.value[i].value == bids[i]
    ensures r.None? <==> exists i :: 0 <= i < |bids| && Score(bids[i].0, jokers).None?
  {
    var scores := seq(|bids|, i requires 0 <= i < |bids| => Score(bids[i].0, jokers));
    match AllSome(scores)
    case None => None
    case Some(ss) => Some(seq(|bids|, i requires 0 <= i < |bids| => Entry(ss[i], bids[i])))
  }

  /** `.values().enumerate().fold(0, acc + bid * (index + 1))`. */
  function WinningsFrom(m: seq<Entry<(string, nat)>>, k: nat, acc: nat): nat
    requires k <= |m|
    decreases |m| - k
  {
    if k == |m| then acc else WinningsFrom(m, k + 1, acc + m[k].value.1 * (k + 1))
  }

  /** `sum_winnings`. */
  function SumWinnings(input: string, jokers: bool): Option<nat> {
    match ParseBids(Lines(input))
    case None => None
    case Some(bids) =>
      match ScoredBids(bids, jokers)
      case None => None
      case Some(entries) => Some(WinningsFrom(FromEntries(entries), 0, 0))
  }

  /** In a map sorted by score, an entry's position is the number of
      entries with a lower score. */
  lemma RankIsPosition<V>(m: seq<Entry<V>>, i: nat)
    requires Sorted(m) && i < |m|
    ensures |Below(m, m[i].key)| == i
  {
    var r := Below(m, m[i].key);
    assert |r| > 0 ==> r[|r| - 1] == m[|r| - 1];
    assert i > 0 ==> m[i - 1].key < m[i].key;
  }

  /** Each bid times its rank: one plus the number of lower scores. */
  function RankedBids(m: seq<Entry<(string, nat)>>): (ws: seq<int>)
    requires Sorted(m)
    ensures |ws| == |m|
  {
    seq(|m|, i requires 0 <= i < |m| => m[i].value.1 * (|Below(m, m[i].key)| + 1))
  }

  lemma {:induction false} WinningsFromSum(m: seq<Entry<(string, nat)>>, k: nat, acc: nat)
    requires Sorted(m) && k <= |m|
    ensures WinningsFrom(m, k, acc) == acc + Sum(RankedBids(m)[k..])
    decreases |m| - k
  {
    var ws := RankedBids(m);
    if k == |m| {
      assert ws[k..] == [];
    } else {
      RankedBidAt(m, k);
      WinningsFromSum(m, k + 1, acc + m[k].value.1 * (k + 1));
      SumFront(ws[k..]);
      assert ws[k..][1..] == ws[k + 1..];
    }
  }

  /** The bid at position `k` is weighed by rank `k + 1`. */
  lemma RankedBidAt(m: seq<Entry<(string, nat)>>, k: nat)
    requires Sorted(m) && k < |m|
    ensures RankedBids(m)[k] == m[k].value.1 * (k + 1)
  {
    RankIsPosition(m, k);
  }

  /** The winnings are the sum of every bid times its rank in ascending
      score order. */
  lemma WinningsAreRankedBids(m: seq<Entry<(string, nat)>>)
    requires Sorted(m)
    ensures WinningsFrom(m, 0, 0) == Sum(RankedBids(m))
  {
    WinningsFromSum(m, 0, 0);
    assert RankedBids(m)[0..] == RankedBids(m);
  }

  /** `sum_winnings` aborts exactly when some line is not a hand and a bid
      or its hand does not score.  Otherwise the answer is the sum of every
      bid times its rank, the bids keyed by score with a later bid replacing
      an earlier one of the same score. */
  lemma SumWinningsSpec(input: string, jokers: bool)
    ensures SumWinnings(input, jokers).None? <==>
              exists i :: 0 <= i < |Lines(input)| &&
                (ParseBid(Lines(input)[i]).None? || Score(ParseBid(Lines(input)[i]).value.0, jokers).None?)
    ensures SumWinnings(input, jokers).Some? ==>
              exists bids, entries :: ParseBids(Lines(input)) == Some(bids) &&
                ScoredBids(bids, jokers) == Some(entries) &&
                SumWinnings(input, jokers).value == Sum(RankedBids(FromEntries(entries)))
  {
    BidsFail(Lines(input), jokers);
    if SumWinnings(input, jokers).Some? {
      var entries := ScoredBids(ParseBids(Lines(input)).value, jokers).value;
      WinningsAreRankedBids(FromEntries(entries));
    }
  }

  /** The bids fail to parse or to score exactly when some line does. */
  lemma BidsFail(lines: seq<string>, jokers: bool)
    ensures (ParseBids(lines).None? || ScoredBids(ParseBids(lines).value, jokers).None?) <==>
              exists i :: 0 <= i < |lines| &&
                (ParseBid(lines[i]).None? || Score(ParseBid(lines[i]).value.0, jokers).None?)
  {
    match ParseBids(lines)
    case None =>
    case Some(bids) =>
      match ScoredBids(bids, jokers)
      case None =>
        var i :| 0 <= i < |bids| && Score(bids[i].0, jokers).None?;
        assert ParseBid(lines[i]) == Some(bids[i]);
      case Some(entries) =>
        forall i | 0 <= i < |lines|
          ensures ParseBid(lines[i]).Some? && Score(ParseBid(lines[i]).value.0, jokers).Some?
        {
          assert ParseBid(lines[i]) == Some(bids[i]);
        }
  }

  /** A bid whose score no later line repeats keeps its place in the map;
      a later hand with the same score replaces it. */
  lemma LastBidWins(entries: seq<Entry<(string, nat)>>, i: nat)
    requires i < |entries|
    requires forall j :: i < j < |entries| ==> entries[j].key != entries[i].key
    ensures Get(FromEntries(entries), entries[i].key) == Some(entries[i].value)
  {
    FromEntriesLastWins(entries, i);
  }

  /** The same hand twice: only the later bid is ranked. */
  lemma DuplicateHandKeepsLastBid(s: nat, hand: string, b1: nat, b2: nat)
    ensures FromEntries([Entry(s, (hand, b1)), Entry(s, (hand, b2))]) == [Entry(s, (hand, b2))]
    ensures WinningsFrom(FromEntries([Entry(s, (hand, b1)), Entry(s, (hand, b2))]), 0, 0) == b2
  {
    var pairs := [Entry(s, (hand, b1)), Entry(s, (hand, b2))];
    assert pairs[..1] == [Entry(s, (hand, b1))];
    assert pairs[..1][..0] == [];
    assert FromEntries(pairs[..1]) == [Entry(s, (hand, b1))];
  }
}
