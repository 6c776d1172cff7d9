# Advent of Code 2023 solutions, modelled in Dafny

The repository holds one Rust program per puzzle day. Each program reads a
puzzle input and prints the two answers. This project models the puzzle
logic of every day except day 6, and the older solution of day 1 in
`src/day1.rs`. Each day is its own Dafny module. Inputs are strings or
already-split records, and results are unbounded integers. Where an
`unwrap` could fail, the model returns an explicit `None` or `Panic`
result. The program aborts the whole run at that point, so a panic in part 2
also loses the part 1 answer. The model's separate `Part1` and `Part2`
functions each report only their own outcome.

| file | module | models |
|---|---|---|
| `common.dfy` | `Common` | the `Option` and `Run` outcomes, decimal digits, ASCII lower-casing, powers, sums, `min`/`max` |
| `text.dfy` | `Text` | `split`, `split_once`, `split_whitespace` and `trim` over ASCII white space, `lines` and decimal `parse`, each with the law that inverts it |
| `grids.dfy` | `Grids` | rectangular character grids, positions, and the column view (transpose) |
| `sorted_maps.dfy` | `SortedMaps` | `BTreeMap` as a strictly ascending entry list: lookup, insert-replaces, range queries |
| `day01.dfy` | `Day1` | digit and spelled-digit calibration values; the regex becomes a leftmost/rightmost token scan |
| `day01_root.dfy` | `DayOneRoot` | the older calibration loop, including its latch on the first non-zero digit |
| `day02.dfy` | `Day2` | game parsing, per-colour maxima, feasibility and power sums |
| `day03.dfy` | `Day3` | the schematic tokenizer, the neighbourhood test for parts, and gear ratios |
| `day04.dfy` | `Day4` | winning-number matches, points, and copy propagation |
| `day05.dfy` | `Day5` | the almanac: scalar lookup, splitting a range against the rules, and the seed pipeline |
| `day07.dfy` | `Day7` | hand types with and without jokers, card values, the positional score and winnings |
| `day08.dfy` | `Day8` | gcd/lcm, walking the network, and the lcm fold of part 2 |
| `day09.dfy` | `Day9` | difference tables and extrapolation at both ends |
| `day10.dfy`, `day10_examples.dfy` | `Day10`, `Day10Examples` | the pipe table, stepping through the field, and the wave search for the farthest tile |
| `day11.dfy` | `Day11` | cosmic expansion of empty rows and columns, and the pairwise Manhattan sum |
| `day12.dfy` | `Day12` | the brute-force count of spring arrangements |
| `day13.dfy`, `day13_examples.dfy` | `Day13`, `Day13Examples` | mirror lines with an exact smudge count, and the pattern score |
| `day14.dfy` | `Day14` | tiles, tilting the dish north, and the load on the north beams |
| `day15.dfy` | `Day15` | the 8-bit HASH and the sum over the initialization sequence |
| `day16.dfy` | `Day16` | mirrors and splitters stored in per-row and per-column sorted maps, and the beam flood |
| `day17.dfy` | `Day17` | the crucible search with its heap, at most three blocks in a line |
| `day18.dfy` | `Day18` | dig instructions, the shoelace sums, and the lagoon capacity |
| `day19.dfy` | `Day19` | parts, workflows, rule evaluation from `in`, and the sum of accepted ratings |

Loops that the program runs until some condition holds are given a `fuel`
bound. These are the walk of day 8, the waves of day 10, the beam rounds of
day 16, the heap loop of day 17 and the workflow hops of day 19. Most of
them return `Run<T>`. With `Done(x)` the program prints `x`. With
`OutOfFuel` it would still be running after that many steps. With `Panic`
it aborts. Day 8 has its own outcome, in which `Unfinished` plays the part
of `OutOfFuel`. Each of
these loops has a lemma saying that more fuel does not change an outcome
already reached.

## Model

| member | source | states |
|---|---|---|
| `Day1.DigitsOf` | day1/src/main.rs:34 | the filtered characters are all decimal digits, and there are none exactly when the line has no digit |
| `Day1.DigitsOfAppend` | day1/src/main.rs:34 | filtering a concatenation filters each part in order |
| `Day1.CalibrationA` | day1/src/main.rs:33-40 | part-1 value is None exactly when the line has no digit, and below 100 otherwise |
| `Day1.CalibrationAFirstLast` | day1/src/main.rs:33-40 | the value is ten times the digit with no digit before it plus the digit with no digit after it |
| `Day1.DigitsOfFirst` | day1/src/main.rs:36 | `nums.first()` is the digit with no digit before it |
| `Day1.DigitsOfLast` | day1/src/main.rs:36 | `nums.last()` is the digit with no digit after it |
| `Day1.SingleDigitDoubles` | day1/src/main.rs:75-81 | "treb7uchet" is worth 77: a lone digit is both first and last |
| `Day1.FirstExampleLine` | day1/src/main.rs:72-81 | "1abc2" is worth 12 |
| `Day1.SecondExampleLine` | day1/src/main.rs:73-81 | "pqr3stu8vwx" is worth 38 |
| `Day1.ThirdExampleLine` | day1/src/main.rs:74-81 | "a1b2c3d4e5f" is worth 15 |
| `Day1.Part1FoldSums` | day1/src/main.rs:6-12 | the part-1 fold is None exactly when no line has a value, and otherwise the sum of the values that exist |
| `Day1.NonePresentSumsZero` | day1/src/main.rs:9-11 | lines without a value add nothing |
| `Day1.Part1Example` | day1/src/main.rs:84-89 | the four example lines sum to Some(142) |
| `Day1.StringToNumValues` | day1/src/main.rs:19-31 | "one" to "nine" map to 1 to 9 and every printed number maps to itself |
| `Day1.TokenValue` | day1/src/main.rs:44-54 | every token the regular expressions can capture converts to a number from 1 to 9 |
| `Day1.Tokens` | day1/src/main.rs:44-47 | the token table has one entry per position, the token starting there |
| `Day1.FirstSomeSpec` | day1/src/main.rs:44 | the leftmost match: nothing matches before the token found, and nothing at all when none is found |
| `Day1.FirstSomeAt` | day1/src/main.rs:44 | a token with none before it is the one the leftmost match captures |
| `Day1.LastSomeSpec` | day1/src/main.rs:47 | the greedy `.*` leaves the rightmost-starting token: nothing starts after it |
| `Day1.LastSomeAt` | day1/src/main.rs:47 | a token with none after it is the one the greedy match captures |
| `Day1.CalibrateOf` | day1/src/main.rs:53-56 | the value is ten times the first token's number plus the last token's number |
| `Day1.CalibrationBRange` | day1/src/main.rs:44-56 | every part-2 value lies in 11 to 99, since no token stands for 0 |
| `Day1.CalibrationBAt` | day1/src/main.rs:42-59 | the value joins the token with no token before it and the token with no token after it |
| `Day1.CalibrationBNone` | day1/src/main.rs:50-51 | the value is missing (the `unwrap` panics) exactly when no token starts anywhere |
| `Day1.OverlapExample` | day1/src/main.rs:120-127 | overlapping names both count: "abdoneightabd" is worth 18 |
| `Day1.NameAtFirst` | day1/src/main.rs:44 | the name search finds the first name in the alternation that is spelled at the position |
| `Day1.NoTokenBetween` | day1/src/main.rs:44-47 | no token starts at a position holding neither a digit 1 to 9 nor the first letters of a name |
| `Day1.Part2Sums` | day1/src/main.rs:14 | part 2 exists exactly when every line has a token; it is then the sum of every line's `get_calibration_value_b`, between 11 and 99 per line |
| `Day1.DocumentSumParts` | day1/src/main.rs:5-17 | `document_calbration_sum` aborts, returning neither part, exactly when some line has no digit or digit name; otherwise part 1 is missing exactly when no line has a digit and is else the sum of the lines' first-and-last-digit values, and part 2 is the sum of every line's `get_calibration_value_b`, between 11 and 99 per line |
| `DayOneRoot.FirstNonZeroSnoc` | src/day1.rs:15-22 | one more character changes the latched digit only when nothing non-zero has latched yet and the character is a digit 1 to 9 |
| `DayOneRoot.CalibrationValue` | src/day1.rs:11-28 | the loop computes ten times the first non-zero digit plus the last digit, at most 99, 0 for a line without digits |
| `DayOneRoot.DocumentSum` | src/day1.rs:1-9 | the loop adds the values of all lines, at most 99 per line |
| `DayOneRoot.OnlyDigit` | src/day1.rs:15-27 | a line with a single non-zero digit is worth eleven times that digit |
| `DayOneRoot.FirstNonZeroAt` | src/day1.rs:18-20 | the latched digit is the first non-zero digit |
| `DayOneRoot.LastDigitAt` | src/day1.rs:21 | the register keeps the last digit seen |
| `DayOneRoot.LeadingZeroSkipped` | src/day1.rs:18-20 | a 0 never latches, since `0 * 10` keeps the sentinel: "0a7" is worth 77 |
| `DayOneRoot.Examples` | src/day1.rs:36-56 | the example lines are worth 12, 38, 15 and 77, 142 in all |
| `Day2.TallyIsMaximum` | day2/src/main.rs:19-48 | each running maximum is the largest amount drawn of its colour, or 0 when the colour is never drawn |
| `Day2.OtherColoursIgnored` | day2/src/main.rs:46 | a draw of any colour other than red, green or blue leaves the maxima unchanged |
| `Day2.ParseDrawOfFormat` | day2/src/main.rs:25-28 | a written "<amount> <colour>" draw splits at its first space and reads back |
| `Day2.ParseRoundOfFormat` | day2/src/main.rs:24-28 | a round written with ", " between draws reads back as its draws |
| `Day2.ParseRoundsOfFormat` | day2/src/main.rs:23-28 | rounds written with "; " between them read back as all their draws, in order |
| `Day2.GameHeadOfFormat` | day2/src/main.rs:13-17 | "Game <id>: " splits at ": ", then at the space, and the id parses back |
| `Day2.ParseGameOfFormat` | day2/src/main.rs:12-58 | a written game parses to its id, the maxima of all its draws and their product as power |
| `Day2.FirstGameExample` | day2/src/main.rs:100-110 | the first example game has maxima blue 6, red 4, green 2 and power 48 |
| `Day2.SumsBounds` | day2/src/main.rs:60-75 | part 1 is at most the sum of the ids, equal when every game is possible, and part 2 is the sum of all powers |
| `Day2.SumsStep` | day2/src/main.rs:64-72 | a game adds its id to part 1 exactly when red <= 12, green <= 13 and blue <= 14, and always adds its power to part 2 |
| `Day2.SumsPossible` | day2/src/main.rs:64-72 | part 1 is the sum, over the games, of the id of each possible game |
| `Day2.ParseGameSpec` | day2/src/main.rs:12-58 | a line parses exactly when some game describes it: split at its first ": ", the id is the number after the head's first space, the three maxima are the largest amounts drawn of red, green and blue in the rounds (0 for a colour never drawn), and the power is their product |
| `Day2.SumGamesSpec` | day2/src/main.rs:60-75 | `sum_games` answers exactly when every line parses, and then gives the sum of the ids of the possible games and the sum of all powers |
| `Day2.ExampleSums` | day2/src/main.rs:119-131 | the five example games, with the maxima the puzzle lists, give (8, 2286) |
| `Day3.RunValueIsDigitsValue` | day3/src/main.rs:33-34 | a part's value is the decimal value of its digit run |
| `Day3.RunPart` | day3/src/main.rs:35-39 | the part records its row and half-open columns `(start, end)` |
| `Day3.ScanFromParts` | day3/src/main.rs:23-55 | from any consistent scan state, the parts found are exactly the maximal digit runs from there on, left to right |
| `Day3.PrependRun` | day3/src/main.rs:32-41 | a run closed by a non-digit goes in front of the runs found after it |
| `Day3.FinalRun` | day3/src/main.rs:46-55 | a run reaching the end of the line is flushed with end equal to the line length |
| `Day3.ScanFromGears` | day3/src/main.rs:26-28 | the gears found are exactly the '*' positions from there on, left to right |
| `Day3.ParseLineFinds` | day3/src/main.rs:17-58 | `parse_line` yields every maximal digit run as a part, in increasing disjoint column order, and a gear at every '*' and nowhere else |
| `Day3.ParseLineExamples` | day3/src/main.rs:178-244 | "123" gives one part (0,3) and ".123..456..." parts (1,4) and (6,9), without gears |
| `Day3.ParseLineGearsExample` | day3/src/main.rs:178-244 | "1.123.$456..**.4" gives four parts, the last flushed at the line end, and gears at 12 and 13 |
| `Day3.PossibleParts` | day3/src/main.rs:67-72 | the parts of all rows, each with the row it came from |
| `Day3.PossibleGears` | day3/src/main.rs:67-72 | the gears of all rows, each with the row it came from |
| `Day3.Around` | day3/src/main.rs:81-101 | the window is one before (clamped at 0) to one after (clamped at the number of lines) |
| `Day3.ScanCols` | day3/src/main.rs:103-111 | the column loop finds a symbol exactly when one lies in the window, and panics exactly when the window runs past a line with no symbol before its end |
| `Day3.ScanRowsLongLines` | day3/src/main.rs:90-112 | when every line reaches the window, the row loop reports whether any cell of the window holds a symbol |
| `Day3.CountedSquare` | day3/src/main.rs:78-118 | on a square schematic a part counts exactly when a symbol touches it, diagonals included |
| `Day3.CountedWideLine` | day3/src/main.rs:96-99 | the column window is clamped at the number of lines, so on a wide line a touching symbol is missed |
| `Day3.CountedShortLine` | day3/src/main.rs:104-105 | a line shorter than the number of lines makes the `unwrap` at the column lookup panic |
| `Day3.CountParts` | day3/src/main.rs:78-118 | counting panics exactly when some part's lookup panics, and otherwise keeps exactly the parts that count |
| `Day3.CountPartsSum` | day3/src/main.rs:114-117 | the part sum is the sum of the counted parts' values |
| `Day3.FindPart` | day3/src/main.rs:143-145 | the lookup returns a part covering the cell, and none exactly when no part covers it |
| `Day3.FindPartFirst` | day3/src/main.rs:143-145 | the part found is the first one in the list that covers the cell |
| `Day3.NeighboursColsHas` | day3/src/main.rs:142-155 | the column loop adds exactly the parts found in its columns |
| `Day3.NeighboursRowsHas` | day3/src/main.rs:132-156 | the row loop adds exactly the parts found in its window |
| `Day3.NeighboursTouching` | day3/src/main.rs:120-156 | when no two parts overlap, the neighbours of a gear are exactly the parts touching it |
| `Day3.NeighboursDistinct` | day3/src/main.rs:149-151 | a gear's neighbours are listed once each |
| `Day3.GearRatio` | day3/src/main.rs:158-161 | a gear contributes only when it has exactly two neighbours, and then the product of their values |
| `Day3.GearRatioOfTwo` | day3/src/main.rs:120-162 | when no two parts overlap and exactly two distinct parts touch a gear, its ratio is the product of their values |
| `Day3.GearRatioTouching` | day3/src/main.rs:120-162 | a non-zero ratio means exactly two distinct parts touch the gear and the ratio is the product of their values |
| `Day3.LineDisjoint` | day3/src/main.rs:23-55 | no two parts of one line overlap |
| `Day3.PossiblePartsDisjoint` | day3/src/main.rs:61-72 | no two parts of the schematic overlap |
| `Day3.PossiblePartsCover` | day3/src/main.rs:61-72 | every digit of the schematic lies in some part |
| `Day3.SchematicNeighbours` | day3/src/main.rs:120-162 | the neighbours of any gear are exactly the counted parts touching it |
| `Day3.SquareNeverPanics` | day3/src/main.rs:60-165 | on a square schematic `parse_schematic` never panics |
| `Day3.ParseSchematicSpec` | day3/src/main.rs:60-165 | the solution answers exactly when no possible part's window reads past a line; part 1 is the sum of the values of exactly the parts a symbol touches, part 2 the sum of the gear ratios over those parts |
| `Day4.Matches` | day4/src/main.rs:27-33 | the match count is at most the number of owned numbers |
| `Day4.MatchesCountsPositions` | day4/src/main.rs:27-33 | the match count is the number of owned positions holding a winning number, so a repeated owned number counts each time |
| `Day4.MatchesExtremes` | day4/src/main.rs:27-33 | the count equals the owned length exactly when every owned number wins, and is 0 exactly when none does |
| `Day4.PowerScore` | day4/src/main.rs:35-38 | the score is 0 exactly when there is no match |
| `Day4.PowerScoreDoubles` | day4/src/main.rs:35-38 | one match scores 1 and each further match doubles the score, which makes it 2^(matches-1) |
| `Day4.ScoreCardPieces` | day4/src/main.rs:9-45 | a card whose pieces split and parse scores its trimmed id, the match count and its power score |
| `Day4.CardHeadOfFormat` | day4/src/main.rs:10-16 | "Card <id>: " splits at ": ", then at the first space, and the trimmed id parses back |
| `Day4.CardContentsOfFormat` | day4/src/main.rs:18-29 | the two written number lists split at " \| " and each parses back |
| `Day4.ScoreCardOfFormat` | day4/src/main.rs:9-45 | a written card is scored from the numbers it was written with |
| `Day4.FirstCardExample` | day4/src/main.rs:82-89 | card 1 of the example has 4 matches and scores 8 |
| `Day4.PowerScores` | day4/src/main.rs:50 | one power score per card, in order |
| `Day4.Part1Append` | day4/src/main.rs:48-51 | the part-1 sum adds up over any split of the cards |
| `Day4.PutHeld` | day4/src/main.rs:57-61 | setting a card's entry changes that id only |
| `Day4.PutTotal` | day4/src/main.rs:57-61 | setting an entry changes the total by the difference |
| `Day4.CopyForwardHeld` | day4/src/main.rs:60-62 | exactly the ids in the range gain the copies, each once |
| `Day4.CopyForwardTotal` | day4/src/main.rs:60-62 | the inner loop adds the copies once per id in the range |
| `Day4.CopiesOf` | day4/src/main.rs:57 | a card's count once reached is its earlier winnings plus one, so at least one |
| `Day4.ProcessHeld` | day4/src/main.rs:56-66 | a card's own count goes up by one, each of the next `matches` ids gains the card's copies, and nothing else changes |
| `Day4.ProcessTotal` | day4/src/main.rs:56-66 | the total grows by one plus the matches times the card's copies |
| `Day4.Part2AtLeastCards` | day4/src/main.rs:53-68 | part 2 is at least the number of cards |
| `Day4.CopiesPastLastCard` | day4/src/main.rs:60-68 | ids won past the last card are not clamped and still count |
| `Day4.ExamplePart1` | day4/src/main.rs:92-104 | the example's points add up to 13 |
| `Day4.ExamplePart2` | day4/src/main.rs:92-105 | the example ends with 30 cards |
| `Day4.ScoreSet` | day4/src/main.rs:47-71 | when every line parses, part 2 is at least the number of lines; the full meaning is stated by ScoreSetSpec |
| `Day4.Part2Gains` | day4/src/main.rs:53-68 | the number of cards held at the end is the sum, over the cards in order, of one for the card itself plus its matches times the copies of it held when it is reached |
| `Day4.ScoreSetSpec` | day4/src/main.rs:47-71 | `score_set` answers exactly when every line is a card; part 1 is then the sum of the cards' power scores and part 2 the total copies held, which is what the cards add one by one |
| `Day5.FindMapDestFirstMatch` | day5/src/main.rs:8-17 | the first rule in list order whose source interval holds the value moves it by dest - source, whatever the later rules say |
| `Day5.FindMapDestNoMatch` | day5/src/main.rs:18 | a value no rule covers keeps its number |
| `Day5.FindMapDestExamples` | day5/src/main.rs:161-171 | rules (50,98,2) and (52,50,48) send 99 to 51, 53 to 55 and 15 to 15 |
| `Day5.SplitAgainst` | day5/src/main.rs:37-53 | the four cases of the source: a piece is found exactly when the rule's source interval holds the remainder's start or its (exclusive) end, the found piece is the overlap start..end clipped to the rule, the remainder vanishes only when the rule holds both ends, otherwise the leftover is the part after the rule (start held) or before it (end held); no length is lost |
| `Day5.MapStep` | day5/src/main.rs:32-71 | one fold step keeps the remainder a well-formed interval |
| `Day5.FoldRulesDone` | day5/src/main.rs:70 | once no remainder is left, the later rules change nothing |
| `Day5.FoldRulesConserves` | day5/src/main.rs:27-73 | the fold conserves the found length plus the remainder's length |
| `Day5.FindMappedRanges` | day5/src/main.rs:26-82 | the output is non-empty, every piece is well formed, and the lengths add up to the input's length |
| `Day5.FindMappedRangesExample` | day5/src/main.rs:174-183 | rules {50:(52,20), 98:(50,2)} send 50..99 to exactly [52..72, 50..51, 70..98] |
| `Day5.RuleInsideRangeIsIgnored` | day5/src/main.rs:39-52 | a rule strictly inside the remainder holds neither end, so the remainder passes unmoved although the scalar lookup moves its middle |
| `Day5.EmptyLeftoverAtRuleEnd` | day5/src/main.rs:40-46 | a rule ending exactly at the range end does not contain the exclusive end, so an empty leftover 10..10 is appended |
| `Day5.LookupCovered` | day5/src/main.rs:8-17 | the tree lookup moves a covered value by the covering rule's offset |
| `Day5.LookupUncovered` | day5/src/main.rs:18 | the tree lookup keeps a value no rule covers |
| `Day5.MapPiecesCorrect` | day5/src/main.rs:26-82 | corrected split: the pieces lie inside the interval, cover every value of it, and move each value exactly as the scalar lookup does |
| `Day5.OverlapPieces` | day5/src/main.rs:39-61 | against the first rule that meets the interval, the gap before it, the moved piece and the tail together map faithfully |
| `Day5.MapStageForward` | day5/src/main.rs:134-137 | every value of the input intervals has its lookup in the output of the stage |
| `Day5.MapStageBackward` | day5/src/main.rs:134-137 | every value of the output is the lookup of some input value |
| `Day5.PipelineForward` | day5/src/main.rs:132-138 | every seed value reaches its location through all stages |
| `Day5.PipelineBackward` | day5/src/main.rs:132-138 | every value after all stages is the location of some seed value |
| `Day5.NonEmptyStarts` | day5/src/main.rs:139-142 | the starts listed are exactly those of the non-empty intervals |
| `Day5.LowestLocationCorrect` | day5/src/main.rs:126-145 | the interval computation finds the least location of any seed value, and nothing only when there is no seed value |
| `Day5.TreeOf` | day5/src/main.rs:117-124 | inserting the rules keyed by source start gives a sorted tree of the rules' entries |
| `Day5.TreeOfDisjoint` | day5/src/main.rs:117-124 | rules with distinct, non-overlapping sources give a tree whose intervals do not overlap |
| `Day5.TreeLookupAgrees` | day5/src/main.rs:8-19 | with such rules the tree lookup is the list lookup of part 1 |
| `Day5.LocationAgrees` | day5/src/main.rs:113 | the chain of tree lookups is the part-1 fold over the stages |
| `Day5.Part1` | day5/src/main.rs:111-115 | part 1 is the location of some seed and no seed's location is lower; it is missing only without seeds |
| `Day5.SeedRanges` | day5/src/main.rs:126-130 | the seed numbers are read as (start, length) pairs |
| `Day5.Part2Lowest` | day5/src/main.rs:126-145 | corrected part 2 is the lowest location of any seed value in the seed intervals, the same answer as part 1 on every such value |
| `Day5.MapStageAsWritten` | day5/src/main.rs:134-137 | the stage as written maps every interval and never empties a non-empty list |
| `Day5.Part2AsWrittenOne` | day5/src/main.rs:126-145 | with one seed interval, part 2 as written is the least start of what the stages give, empty intervals included |
| `Day5.EmptyLeftoverAsWritten` | day5/src/main.rs:126-145 | as written, seeds 0..10 with rule (100,0,10) give part 2 = 10 |
| `Day5.EmptyLeftoverCorrected` | day5/src/main.rs:126-145 | every seed value of that example lands at 100 or above, and the corrected part 2 is 100 |
| `Day5.EmptyLeftoverLowersPart2` | day5/src/main.rs:40-46 | the empty leftover lowers part 2 below every real location |
| `Day5.ParseRuleOfFormatRule` | day5/src/main.rs:97-106 | a rule line "dest source len" reads back unchanged |
| `Day5.ParseRules` | day5/src/main.rs:95-108 | a block parses exactly when every rule line does, in order |
| `Day5.ParseSeedsOfFormatSeeds` | day5/src/main.rs:87-92 | a seed line "seeds: n1 n2 ..." reads back unchanged |
| `Day5.FoldRulesPieces` | day5/src/main.rs:27-73 | every piece the fold emits is the translation, by its rule's offset, of a part of the input interval that lies inside that rule's source interval, and the remainder stays inside the input |
| `Day5.FindMappedRangesPieces` | day5/src/main.rs:26-82 | each output interval of the as-written mapping is a part of the input inside some rule starting before the input's end, moved by that rule, except the last one, which may be the untouched leftover inside the input |
| `Day5.FindBestLocation` | day5/src/main.rs:84-148 | an answer needs a readable almanac with at least two seed numbers (one seed pair) |
| `Day5.FindBestLocationSpec` | day5/src/main.rs:84-148 | on a readable almanac the solution answers exactly when there are two or more seed numbers; part 1 is the location of a listed seed and no listed seed's location is lower; part 2 is the as-written interval computation, empty leftovers included |
| `Day5.FindBestLocationCorrected` | day5/src/main.rs:84-148 | with the corrected interval mapping an answer still needs a readable almanac with seeds |
| `Day5.FindBestLocationCorrectedSpec` | day5/src/main.rs:126-145 | with the corrected mapping and non-overlapping rules, the solution answers exactly when some seed interval is non-empty, and part 2 is then the location of a seed value in the intervals that no such value undercuts |
| `Day7.Bump` | day7/src/main.rs:8 | counting a card raises its count by one, adds it to the keys and leaves every other count |
| `Day7.TallyShape` | day7/src/main.rs:5-10 | the tally has one positive entry per distinct card and its counts add up to the hand's length |
| `Day7.TallyCounts` | day7/src/main.rs:5-10 | the tally counts every card: its keys are the hand's cards and each count is the card's multiplicity |
| `Day7.RemoveKey` | day7/src/main.rs:13 | removal zeroes the key's count, leaves the others and drops it from the keys |
| `Day7.RestFacts` | day7/src/main.rs:12-15 | the joker count is the number of 'J' cards when jokers are wild and 0 otherwise, and the rest counts every other card |
| `Day7.SortAscending` | day7/src/main.rs:21-23 | the sorted counts are an ascending permutation of the counts |
| `Day7.KindStep` | day7/src/main.rs:32-43 | one step of the type fold stays within 0 to 6 |
| `Day7.ParseHand` | day7/src/main.rs:4-44 | the hand type is always between 0 and 6 |
| `Day7.ParseHandFails` | day7/src/main.rs:25 | `split_last().expect` aborts exactly when every card is a wild joker and there are not five of them |
| `Day7.PartitionKind` | day7/src/main.rs:32-43 | folding the ascending group sizes of five cards gives the type of the number of groups and the largest one |
| `Day7.HandKind` | day7/src/main.rs:4-44 | the type of a five-card hand is that of its group structure with the jokers joined to the largest group; five jokers make five of a kind |
| `Day7.JokersJoinLast` | day7/src/main.rs:25-30 | adding the jokers to the last, largest group keeps the sizes ascending and adds the jokers to the total |
| `Day7.RestTop` | day7/src/main.rs:23-25 | the last sorted count is the largest group |
| `Day7.ParseHandExamples` | day7/src/main.rs:104-129 | the unit-test tables: 23456 0, A23A4 1, 23432 2, TTT98 3, 23332 4, AA8AA 5, AAAAA 6, and with jokers QJJQ2 5 and JKKK2 5 |
| `Day7.CardValue` | day7/src/main.rs:46-56 | card values are at most 14, and a card has none exactly when it is neither a digit nor one of T, J, Q, K, A |
| `Day7.JokersOnlyChangeJ` | day7/src/main.rs:47-50 | wild jokers change the value of 'J' and of no other card |
| `Day7.CardOrder` | day7/src/main.rs:47-55 | a wild joker is the weakest card, and without jokers digits < T < J < Q < K < A |
| `Day7.CardValueExamples` | day7/src/main.rs:132-167 | the unit-test tables of card values, without and with jokers |
| `Day7.CardValues` | day7/src/main.rs:70-76 | every card of the hand gets its value, or the hand has none |
| `Day7.RevPlaceFoldIsPlaceValue` | day7/src/main.rs:70-76 | the fold over the reversed cards weighs each card by 100 to the power of its distance from the right |
| `Day7.PlaceValueBound` | day7/src/main.rs:70-76 | the positional value of n cards below 100 stays below 100^n |
| `Day7.PlaceValueOrder` | day7/src/main.rs:70-76 | for hands of equal length, a lower positional value means a hand that loses card by card from the left |
| `Day7.TypeWeightIsPow` | day7/src/main.rs:78 | the type weight is 100^6 |
| `Day7.ScoreParts` | day7/src/main.rs:68-78 | a hand scores when it has a type and all its cards have values, and the score is type times 100^6 plus the positional value |
| `Day7.ScoreOrder` | day7/src/main.rs:68-78 | between five-card hands a higher type always wins, and hands of equal type are ordered by their cards from the left |
| `Day7.ParseBidOfLine` | day7/src/main.rs:62-63 | a line "hand bid" splits at its first space and the bid reads back |
| `Day7.ScoredBids` | day7/src/main.rs:65-82 | every bid is keyed by its hand's score, in input order, or nothing when a hand does not score |
| `Day7.RankIsPosition` | day7/src/main.rs:84-87 | in the ordered map an entry's index is the number of lower scores |
| `Day7.RankedBidAt` | day7/src/main.rs:87 | the bid at index k is weighed by rank k + 1 |
| `Day7.WinningsAreRankedBids` | day7/src/main.rs:84-87 | the winnings are the sum of every bid times its rank in ascending score order |
| `Day7.SumWinningsSpec` | day7/src/main.rs:58-88 | `sum_winnings` aborts exactly when some line is not a hand, a space and a bid, or its hand does not score; otherwise it sums every bid times its rank, bids keyed by score with the later of two equal scores kept |
| `Day7.LastBidWins` | day7/src/main.rs:80 | a bid whose score no later line repeats keeps its place in the map |
| `Day7.DuplicateHandKeepsLastBid` | day7/src/main.rs:80 | the same hand twice collides in the map and only the later bid is ranked |
| `Day8.GcdDivides` | day8/src/main.rs:30-36 | Euclid's gcd divides both arguments |
| `Day8.GcdGreatest` | day8/src/main.rs:30-36 | every common divisor divides the gcd |
| `Day8.GcdPositive` | day8/src/main.rs:30-36 | the gcd is positive unless both arguments are 0 |
| `Day8.Lcm` | day8/src/main.rs:38-40 | the division by the gcd panics exactly when both arguments are 0 |
| `Day8.LcmCommonMultiple` | day8/src/main.rs:38-40 | `a * b / gcd(a, b)` is a common multiple of a and b |
| `Day8.GcdScale` | day8/src/main.rs:30-36 | scaling both arguments scales the gcd by the same factor |
| `Day8.LcmLeast` | day8/src/main.rs:38-40 | `a * b / gcd(a, b)` divides every common multiple of a and b, so it is the least common multiple |
| `Day8.GcdExamples` | day8/src/main.rs:30-36 | gcd(12, 18) = 6, gcd(7, 0) = 7 and gcd(0, 5) = 5 |
| `Day8.LcmExamples` | day8/src/main.rs:57 | the second example's fold takes lcm(2, 1) = 2 and then lcm(3, 2) = 6 |
| `Day8.Step` | day8/src/main.rs:15-24 | a step exists exactly when the node is known and the cycled instruction is 'L' or 'R', and it follows the left or the right successor accordingly |
| `Day8.Traverse` | day8/src/main.rs:4-28 | an arrival is counted from the steps already taken |
| `Day8.TraverseAtGoal` | day8/src/main.rs:11-13 | where the end condition already fails, the walk returns 0 steps |
| `Day8.FirstStopStep` | day8/src/main.rs:13-24 | stopping after n + 1 steps means taking one step and then stopping after n |
| `Day8.TraverseArrived` | day8/src/main.rs:13-25 | a walk that arrives does so at the first step where the end condition fails |
| `Day8.FirstStopArrives` | day8/src/main.rs:13-25 | with enough fuel the walk arrives at that first step |
| `Day8.TraverseStuck` | day8/src/main.rs:20-23 | an unknown node, an instruction other than L or R, or an empty instruction string makes the walk return None |
| `Day8.TraverseFuel` | day8/src/main.rs:13-25 | more fuel changes nothing once the walk has ended |
| `Day8.TraverseExample` | day8/src/main.rs:71-82 | the first example walks from AAA to ZZZ in 6 steps |
| `Day8.GhostStepsCommonMultiple` | day8/src/main.rs:53-57 | part 2 is a common multiple of every start's step count |
| `Day8.GhostStepsLeast` | day8/src/main.rs:53-57 | part 2 divides every common multiple of the starts' step counts: the lcm fold gives the least one |
| `Day8.StepCountsLeast` | day8/src/main.rs:53-57 | a number that is a multiple of the first stop of every walk from a key ending in 'A' is a multiple of part 2 |
| `Day8.GhostStepsExample` | day8/src/main.rs:85-101 | the second example's part 2 is 6 |
| `Day8.LcmPositive` | day8/src/main.rs:38-40 | the lcm of two positive step counts exists and is positive |
| `Day8.GhostStepsOutcome` | day8/src/main.rs:53-57 | from starts not ending in 'Z', part 2 answers exactly when every walk arrives, the answer is positive, and it panics exactly when a walk gets stuck after all earlier ones arrived |
| `Day8.ParseNode` | day8/src/main.rs:45-49 | a line parses exactly when it contains " = " and, after the first one, a text of at least two characters whose inside (first and last character dropped) contains ", "; the key is the text before the first " = " and the successors are that inside split at its first ", " |
| `Day8.ParseNodeOfLine` | day8/src/main.rs:45-49 | a line "KEY = (LEFT, RIGHT)" reads back as (KEY, (LEFT, RIGHT)) when the key has no '=' and LEFT no ',' |
| `Day8.ParseNetwork` | day8/src/main.rs:45-49 | every line's key is in the network |
| `Day8.ParseNetworkLastWins` | day8/src/main.rs:45-49 | the last line for a key gives its successors |
| `Day8.StepCountsSpec` | day8/src/main.rs:51-59 | when both parts are answered, part 1 is the first step at which the walk from AAA stands on ZZZ (none when it gets stuck) and part 2 is the least common multiple of each start's first step onto a name ending in 'Z': a positive multiple of each, dividing every other common multiple |
| `Day8.FindStepCount` | day8/src/main.rs:42-60 | an input without a blank line or with a malformed node line panics; an answer has the meaning `StepCountsSpec` gives it for the network read from the input, part 2 being the least common multiple of the walks' step counts |
| `Day9.Diffs` | day9/src/main.rs:20-29 | the difference list is one shorter than the readings |
| `Day9.NextPoint` | day9/src/main.rs:19-50 | `next_point` returns a pair exactly when there are at least two readings; with fewer the recursion never ends |
| `Day9.DiffsAppend` | day9/src/main.rs:20-29 | one more reading adds its difference from the last at the end of the difference list |
| `Day9.DiffsPrepend` | day9/src/main.rs:20-29 | a reading in front adds its difference at the front |
| `Day9.ExtrapolateEnd` | day9/src/main.rs:31-47 | the value after the last is the only one that extends every row of the difference table down to its constant row |
| `Day9.ExtrapolateStart` | day9/src/main.rs:31-47 | the value before the first is the only one that extends the table at the front |
| `Day9.ArithmeticExtrapolate` | day9/src/main.rs:31-37 | when all differences are equal, that difference is added at both ends |
| `Day9.ExtrapolateFromDiffs` | day9/src/main.rs:38-47 | a row that is not constant is extended by the values its difference list extrapolates |
| `Day9.NextPointExamples` | day9/src/main.rs:78-91 | the unit-test sequences give (-3, 18), (0, 28) and (5, 68) |
| `Day9.ParseDataset` | day9/src/main.rs:8-15 | one number per whitespace-separated word |
| `Day9.LinePoint` | day9/src/main.rs:54 | a line has a pair exactly when it parses and holds at least two readings |
| `Day9.LinePointExtends` | day9/src/main.rs:54 | a line's pair is the unique extension of its difference table at both ends |
| `Day9.AsAnswer` | day9/src/main.rs:64-67 | `try_into().ok()` keeps a total exactly when it is not negative |
| `Day9.EvaluateDatapointsDefined` | day9/src/main.rs:53-68 | there is an answer exactly when the input has lines and every line has a pair |
| `Day9.EvaluateDatapointsSpec` | day9/src/main.rs:53-68 | an answer pairs, for each line in order, the value after and the value before, and totals them: part 1 the values after, part 2 the values before, each kept only when not negative |
| `Day10.PipeOf` | day10/src/main.rs:18-57 | exactly the six characters `-`, `\|`, `J`, `7`, `L`, `F` are pipes |
| `Day10.PipeTakesTwo` | day10/src/main.rs:18-57 | every pipe takes exactly two headings in and sends them out in two different headings |
| `Day10.PipeReversible` | day10/src/main.rs:18-57 | a pipe walked backwards turns the reverse of its heading out into the reverse of its heading in |
| `Day10.Step` | day10/src/main.rs:76-85 | a step moves to a neighbouring tile and fails only going north from the top row or west from the left column |
| `Day10.StepReverse` | day10/src/main.rs:76-81 | a step can always be taken back |
| `Day10.NextTile` | day10/src/main.rs:71-101 | a walker moves one step onto a tile of the field that is a pipe taking its heading, and leaves with the pipe's heading out |
| `Day10.NextTileRefuses` | day10/src/main.rs:83-98 | a step off the field, onto something that is not a pipe, or into a pipe that does not take the heading yields nothing |
| `Day10.NextTileReversible` | day10/src/main.rs:71-101 | a walker coming back along the same pipe in the reverse heading reaches the same tile and leaves towards where the first walker came from |
| `Day10.FindStartFromSpec` | day10/src/main.rs:113 | the start is found exactly when the field holds an 'S', and it is the first 'S' in row-major order |
| `Day10.ParseMap` | day10/src/main.rs:104-116 | the field is built exactly when the lines form a rectangle holding an 'S'; it is the lines themselves, and the start is the first 'S' in row-major order |
| `Day10.WaveMarks` | day10/src/main.rs:136-152 | in one wave every tile is marked with the wave's count or one less, and so is any answer |
| `Day10.WaveNext` | day10/src/main.rs:138-152 | walkers never split: the next wave has no more walkers than this one, each one step on from a walker of this wave, on a tile marked in this wave |
| `Day10.WaveVisited` | day10/src/main.rs:136-152 | within a wave the marked tiles are exactly those its walkers stood on or stepped to, each marked one less than the wave's count exactly where a walker stood |
| `Day10.WaveFound` | day10/src/main.rs:138-152 | a wave gives an answer exactly when some walker steps onto a tile it stands on or that an earlier walker of the wave reached; the answer is the mark the last such walker reads there |
| `Day10.Successors` | day10/src/main.rs:145-148 | the next wave never outnumbers this one |
| `Day10.WaveNextWalkers` | day10/src/main.rs:135-158 | the next wave is every walker of this one that moved and met no one, one step on, in order |
| `Day10.WaveEnds` | day10/src/main.rs:132-158 | a wave with walkers stops the search exactly when one of its walkers meets another |
| `Day10.Waves` | day10/src/main.rs:132-161 | the search loop never panics |
| `Day10.WavesFuel` | day10/src/main.rs:132-161 | allowing more waves does not change an answer already reached |
| `Day10.WavesAnswer` | day10/src/main.rs:132-161 | an answer lies between the count the search started from and the number of waves it was allowed |
| `Day10.WavesDone` | day10/src/main.rs:132-161 | the loop finishes within the allowed waves exactly when one of them has no walker left or a walker meeting another |
| `Day10.WavesNone` | day10/src/main.rs:132-161 | it finishes without an answer only at a wave with no walker left, no earlier wave having a meeting |
| `Day10.WavesSome` | day10/src/main.rs:132-161 | it answers at the first wave with a meeting, with the mark the last meeting walker of that wave read |
| `Day10.FindFarthestPoint` | day10/src/main.rs:119-162 | the program panics exactly when the input is not a rectangle holding an 'S' |
| `Day10.FindFarthestPointSpec` | day10/src/main.rs:119-162 | on a field, the search from the start in all four headings finishes exactly when some allowed wave has no walker or a meeting; it has no answer when the walkers all stop before any meet, and otherwise answers with the step count the last walker to meet in the first meeting wave read |
| `Day10Examples.SimpleFarthest` | day10/src/main.rs:176-189 | on the simple test field the walkers meet after 4 steps |
| `Day10Examples.ComplexFarthest` | day10/src/main.rs:191-204 | on the complex test field the walkers meet after 8 steps |
| `Day11.CountHashesZero` | day11/src/main.rs:14 | a line counts no galaxy exactly when it holds no '#' |
| `Day11.ExpandLines` | day11/src/main.rs:12-18 | expansion never removes a line |
| `Day11.ShrinkExpand` | day11/src/main.rs:12-18 | each line without a galaxy is doubled in place and every other line is kept once, in order, so expansion can be undone |
| `Day11.ExpandLinesRows` | day11/src/main.rs:12-18 | expansion keeps the first line, adds only copies of existing lines, and loses none |
| `Day11.ExpandLinesRectangular` | day11/src/main.rs:12-21 | the expanded lines are all one length exactly when the input lines were |
| `Day11.ExpandLinesHashes` | day11/src/main.rs:12-18 | expansion adds no galaxy |
| `Day11.ColumnsHashes` | day11/src/main.rs:21-31 | reading the grid by columns keeps its galaxies |
| `Day11.Expand` | day11/src/main.rs:8-36 | `Universe::from` succeeds exactly when the input lines form a rectangle |
| `Day11.ExpandHashes` | day11/src/main.rs:8-36 | the expanded universe holds as many galaxies as the image |
| `Day11.ExpandInPlace` | day11/src/main.rs:8-36 | rows read back give the input, columns read back give the row-expanded grid: every empty row and then every empty column was doubled in place |
| `Day11.RowGalaxiesSpec` | day11/src/main.rs:41-46 | one row lists exactly its '#' cells, one per '#' |
| `Day11.GalaxiesFromSpec` | day11/src/main.rs:41-46 | the rows from a given one on list exactly their '#' cells |
| `Day11.GalaxiesSpec` | day11/src/main.rs:41-46 | the galaxy list holds exactly the '#' cells, once each |
| `Day11.DistanceMetric` | day11/src/main.rs:54 | the distance is zero only from a galaxy to itself and is symmetric |
| `Day11.SumDistancesPairs` | day11/src/main.rs:48-57 | letting each galaxy also meet itself adds nothing: the result is the sum over unordered pairs of distinct galaxies |
| `Day11.PairSumHalf` | day11/src/main.rs:48-57 | that sum is half the sum over ordered pairs, so the order galaxies are listed in does not matter |
| `Day11.Part1` | day11/src/main.rs:62-66 | part 1 has an answer exactly when the image is rectangular |
| `Day11.Part1Spec` | day11/src/main.rs:40-66 | part 1 is half the sum of the Manhattan distances over all ordered pairs of galaxies of the expanded image |
| `Day11.DistancesExample` | day11/src/main.rs:73-91 | the galaxies of the expanded test image are 374 apart in total |
| `Day12.FirstQ` | day12/src/main.rs:28-36 | the scan branches at the first unknown, and there is none exactly when the row holds no '?' |
| `Day12.CountQNone` | day12/src/main.rs:28-36 | no unknown is counted exactly when the row holds no '?' |
| `Day12.CountQFill` | day12/src/main.rs:37-42 | each branch fills one unknown, so the recursion ends |
| `Day12.ArrangementsKnown` | day12/src/main.rs:49-57 | a row without unknowns counts 1 when its groups are the wanted ones and 0 otherwise |
| `Day12.ArrangementsBound` | day12/src/main.rs:22-58 | there are at most two arrangements per unknown |
| `Day12.ArrangementsSplitAnywhere` | day12/src/main.rs:22-58 | the same split holds at any unknown, so the count does not depend on the order the unknowns are filled in |
| `Day12.FillingsSpec` | day12/src/main.rs:36-42 | the enumeration lists exactly the rows obtained by making every '?' a '.' or a '#' and keeping every other character |
| `Day12.FillingsCount` | day12/src/main.rs:36-42 | a row has 2 to the power of its number of '?' fillings |
| `Day12.FillingSplit` | day12/src/main.rs:37-40 | the fillings of a row split, at any '?', into those with a '.' there and those with a '#' there, and no filling is both |
| `Day12.MatchingSplit` | day12/src/main.rs:36-44 | at any '?' the matching fillings are the disjoint union of those of the two rows the recursion branches into |
| `Day12.KnownMatching` | day12/src/main.rs:49-57 | a row without '?' is its own only filling, matching exactly when its groups are the wanted ones |
| `Day12.ArrangementsCountsFillings` | day12/src/main.rs:22-58 | `find_possible_arrangements` returns the number of fillings of the row whose damaged groups are the wanted sizes |
| `Day12.FirstAfterFill` | day12/src/main.rs:36-44 | filling a later unknown leaves the first unknown first |
| `Day12.RunsShift` | day12/src/main.rs:28-51 | scanning from an index is scanning the suffix from its start |
| `Day12.RunsFromHashes` | day12/src/main.rs:30 | a stretch of '#' only adds its length to the open group |
| `Day12.RunsIgnoresOther` | day12/src/main.rs:45 | a character that is neither '#' nor '.' is skipped and does not even separate two groups |
| `Day12.RunsOfRender` | day12/src/main.rs:28-51 | the row drawn from positive group sizes has exactly those groups, so every such list of groups is reachable |
| `Day12.ProcessLine` | day12/src/main.rs:10-20 | a line that parses counts at most 2 to the power of its length |
| `Day12.SumArrangementsDefined` | day12/src/main.rs:1-8 | the sum is defined exactly when every line parses |
| `Day12.SumArrangementsCounts` | day12/src/main.rs:1-8 | a defined sum adds up the count of every line |
| `Day12.ProcessLineSpec` | day12/src/main.rs:10-58 | a line that parses gives the number of fillings of the springs before its first space (every '?' made '.' or '#') whose damaged groups are the comma-separated sizes after it |
| `Day12.KnownRowExample` | day12/src/main.rs:75 | "#.#.###" with groups 1,1,3 has one arrangement |
| `Day12.OneWayExample` | day12/src/main.rs:22-58 | "#?" with group 2 has one arrangement |
| `Day12.TwoWaysExample` | day12/src/main.rs:22-58 | "?.?" with group 1 has two arrangements |
| `Day13.MismatchesZero` | day13/src/main.rs:43 | two lines of one length have no differing cell exactly when they are equal |
| `Day13.MismatchesSymmetric` | day13/src/main.rs:43 | counting differing cells does not depend on which line comes first |
| `Day13.MismatchesUpToOneCell` | day13/src/main.rs:43 | changing one cell (one smudge) changes the count by at most one |
| `Day13.Reach` | day13/src/main.rs:38-42 | the mirror after line `idx` compares as many pairs as the shorter side has lines, and all of them exist |
| `Day13.SmudgesZero` | day13/src/main.rs:32-48 | a mirror has no smudge exactly when every line equals its mirror image on the other side, as far as both sides reach |
| `Day13.PerfectMirror` | day13/src/main.rs:46 | a perfect mirror is a reflection with no smudges allowed and is not one when exactly one smudge is required |
| `Day13.Reflections` | day13/src/main.rs:56-57 | the candidates are exactly the mirror positions `0..total_len - 1`, each flagged by `is_reflection` |
| `Day13.FindReflection` | day13/src/main.rs:50-60 | a sum is produced exactly when there are lines; with none the range `0..total_len - 1` underflows |
| `Day13.FlagSumAtLeast` | day13/src/main.rs:56-59 | every reflecting position adds its line count, so a second reflection always shows in the total |
| `Day13.FindReflectionSingle` | day13/src/main.rs:50-60 | mirrored at exactly one position, the sum is the number of lines before the mirror |
| `Day13.FindReflectionNone` | day13/src/main.rs:50-60 | mirrored nowhere, the sum is zero |
| `Day13.Score` | day13/src/main.rs:62-66 | a score exists exactly when the pattern has rows and columns |
| `Day13.ScoreVertical` | day13/src/main.rs:62-66 | mirrored at one column line and no row line, the score is the number of columns left of it |
| `Day13.ScoreHorizontal` | day13/src/main.rs:62-66 | mirrored at one row line and no column line, the score is a hundred times the rows above it |
| `Day13.ParsePattern` | day13/src/main.rs:11-18 | a pattern parses exactly when its lines are of one length, one row per line, with no smudges |
| `Day13.AllowSmudges` | day13/src/main.rs:27-30 | only the number of smudges changes |
| `Day13.PatternScoreDefined` | day13/src/main.rs:71-79 | a block scores exactly when it is a non-empty rectangle with columns |
| `Day13.BlockScores` | day13/src/main.rs:71-79 | the blocks score together exactly when each is a non-empty rectangle with columns, and then into each block's score |
| `Day13.SolveSpec` | day13/src/main.rs:70-82 | both parts answer exactly when every blank-line separated block is a non-empty rectangle with columns; they are the sums of the blocks' scores without and with one smudge |
| `Day13Examples.ColumnsA` | day13/src/main.rs:34 | the columns of the first test pattern, read top to bottom |
| `Day13Examples.ScoreA0` | day13/src/main.rs:101-103 | the first test pattern scores 5 without smudges |
| `Day13Examples.ScoreA1` | day13/src/main.rs:105-107 | and 300 with one smudge |
| `Day13Examples.ScoreB0` | day13/src/main.rs:122-124 | the second test pattern scores 400 without smudges |
| `Day13Examples.ScoreB1` | day13/src/main.rs:126-128 | and 100 with one smudge |
| `Day14.TileOf` | day14/src/main.rs:12-20 | exactly 'O', '#' and '.' are tiles; anything else panics |
| `Day14.TileRoundTrip` | day14/src/main.rs:12-20 | each tile is read back from its character and no two characters read as the same tile |
| `Day14.Step` | day14/src/main.rs:47-64 | each step of the fold pushes one tile, and the free row it tracks is always one already placed |
| `Day14.StepKeeps` | day14/src/main.rs:47-64 | each step keeps obstacles in place, keeps the rock count overall and north of every obstacle, leaves every rock resting, and keeps the free row at the top of the empty stretch behind it |
| `Day14.RollShape` | day14/src/main.rs:56-60 | a rolling rock lands in the free row and empties its own row, and nothing else moves |
| `Day14.TiltColumnSpec` | day14/src/main.rs:42-67 | a tilted column keeps its obstacles where they were, keeps its rounded rocks overall and north of every obstacle, and has no rounded rock right below an empty tile |
| `Day14.FoldSettled` | day14/src/main.rs:47-64 | on a column where every rock already rests, the fold moves nothing |
| `Day14.TiltColumnIdempotent` | day14/src/main.rs:42-67 | tilting a tilted column changes nothing |
| `Day14.Tilt` | day14/src/main.rs:41-72 | the tilted dish has the same shape |
| `Day14.TiltByColumns` | day14/src/main.rs:42-69 | each column of the tilted dish is the tilted column |
| `Day14.TiltKeepsObstacles` | day14/src/main.rs:53-55 | cube-shaped rocks never move |
| `Day14.TiltIdempotent` | day14/src/main.rs:41-72 | tilting twice is tilting once |
| `Day14.CountRoundedFront` | day14/src/main.rs:79 | a row's rock count is its first tile's plus the rest's |
| `Day14.ColumnLoadsSplit` | day14/src/main.rs:74-81 | the first row's load is its rock count times the dish's height, and the rest of the columns carry the rest |
| `Day14.TotalLoadByColumns` | day14/src/main.rs:74-81 | the load summed row by row from the south equals each rock weighing its distance from the south edge, summed over columns |
| `Day14.ParseDish` | day14/src/main.rs:27-38 | the dish is built exactly when the lines form a rectangle of 'O', '#' and '.'; it has one row per line and each cell is the tile of the character there |
| `Day14.ParseRow` | day14/src/main.rs:30-32 | a line gives one tile per character, and fails exactly when some character is not a tile |
| `Day14.TiltedLoad` | day14/src/main.rs:41-81 | the load after tilting is the load of each column once its rounded rocks have rolled north |
| `Day14.NorthLoadSpec` | day14/src/main.rs:84-90 | part 1 answers exactly when the dish parses, and is then the load of every column after its rocks roll north, each rock weighing its distance from the south edge |
| `Day15.ByteOf` | day15/src/main.rs:5 | the cast to `u8` keeps the low byte of the lower-cased code |
| `Day15.Step` | day15/src/main.rs:6 | one fold step stays below 256 |
| `Day15.Hash` | day15/src/main.rs:3-8 | the hash is always below 256 |
| `Day15.HashFrom` | day15/src/main.rs:4-7 | the fold over the empty string returns its start, and otherwise a byte |
| `Day15.HashFromAppend` | day15/src/main.rs:4-7 | hashing `a + b` continues the fold over `b` from the hash of `a` |
| `Day15.HashFromLast` | day15/src/main.rs:4-7 | the last character takes one step from the hash of the rest |
| `Day15.HashIgnoresCase` | day15/src/main.rs:5 | strings that agree after ASCII lower-casing hash alike |
| `Day15.HashIsPolynomial` | day15/src/main.rs:4-7 | the fold is the polynomial sum of codes times powers of 17, reduced modulo 256 |
| `Day15.Hashes` | day15/src/main.rs:11 | one hash per comma-separated step, in order |
| `Day15.SumHashedAppend` | day15/src/main.rs:10-12 | joining two inputs with a comma adds their sums |
| `Day15.SumHashedSingle` | day15/src/main.rs:10-12 | an input without a comma sums to its own hash |
| `Day15.SumHashed` | day15/src/main.rs:10-12 | the sum is at most 255 per comma-separated step |
| `Day15.HashExample` | day15/src/main.rs:28 | the first example step "rn=1" hashes to 30 |
| `Day16.RowEntriesSpec` | day16/src/main.rs:42-50 | a row map holds exactly the line's tiles other than '.' and '-', each under its column |
| `Day16.ColumnEntriesSpec` | day16/src/main.rs:42-54 | a column map holds exactly the column's tiles other than '.' and '\|', each under its row |
| `Day16.Parse` | day16/src/main.rs:35-59 | parsing succeeds exactly when the input has a newline and no tile a vertical beam sees lies past the first line's width; then there is one row map per line and one column map per character before the first newline, each in key order |
| `Day16.ParseTiles` | day16/src/main.rs:42-56 | horizontal beams see every tile but '.' and '-', vertical beams every tile but '.' and '\|', and a tile past the first line's width is accepted only when it is one a vertical beam ignores |
| `Day16.MirrorLaws` | day16/src/main.rs:167-198 | a mirror undoes its own turn, light runs through it both ways, and it always turns a beam sideways |
| `Day16.TileBeamResult` | day16/src/main.rs:160-223 | a tile sends out at most two beams, all from where it stands |
| `Day16.TileBeamResultKinds` | day16/src/main.rs:199-221 | '\|' sends beams up and down, '-' left and right, whatever hit them, and exactly the tiles other than mirrors and splitters end the beam |
| `Day16.NextStop` | day16/src/main.rs:105-136 | a horizontal beam stops in its row and a vertical one in its column |
| `Day16.FirstAboveRow` | day16/src/main.rs:106-112 | the nearest row-map entry right of a column is the nearest tile of the line there that is neither '.' nor '-' |
| `Day16.ParsedRow` | day16/src/main.rs:42-50 | each parsed row map is built from its line |
| `Day16.NextStopRight` | day16/src/main.rs:106-112 | a beam going right skips every '.' and '-' and stops at the first other tile, or at the last column with the edge marker if there is none |
| `Day16.Segment` | day16/src/main.rs:138-143 | a beam energises exactly the tiles of its column (moving up or down) or its row (moving left or right) from where it starts to where it stops, both ends included |
| `Day16.RoundHistory` | day16/src/main.rs:98-152 | after a round every photon of it is remembered, and no other |
| `Day16.RoundGrows` | day16/src/main.rs:98-152 | a round loses no energised tile, and only photons not followed before send out new ones, at most two each |
| `Day16.Rounds` | day16/src/main.rs:97-157 | the count is at least the number of tiles already energised |
| `Day16.RoundsFuel` | day16/src/main.rs:97-157 | allowing more rounds does not change a count already reached |
| `Day16.CountActivated` | day16/src/main.rs:77-158 | the starting tile is always energised, so the count is at least one |
| `Day16.Flood` | day16/src/main.rs:97-155 | the loop never forgets an energised tile or a followed photon |
| `Day16.FloodFuel` | day16/src/main.rs:97-155 | allowing more rounds does not change a finished loop's outcome |
| `Day16.RoundSpec` | day16/src/main.rs:98-154 | in one round, each photon not followed before has a stop, its path is energised and nothing else is, what it sends on is queued, and every queued photon was sent on by one of them |
| `Day16.FloodSpec` | day16/src/main.rs:97-155 | a finished loop has followed every photon it started with, energised exactly the starting tiles plus the paths of the photons it followed, and followed every photon sent on by a followed photon |
| `Day16.FloodLeast` | day16/src/main.rs:97-155 | the loop follows nothing outside any set of photons that holds its first photons and everything its members send on |
| `Day16.CountActivatedSpec` | day16/src/main.rs:77-158 | the count is the number of tiles that are the entering tile or on the path of a followed photon; the first photons are followed, every followed photon has a stop, and what a followed photon sends on is followed too |
| `Day16.CountActivatedLeast` | day16/src/main.rs:77-158 | the followed photons are the least such set: any set holding the first photons and closed under sending on contains them |
| `Day16.EdgePhotons` | day16/src/main.rs:226-246 | one beam enters at every edge tile, pointing into the contraption: down from the top, up from the bottom, right from the left, left from the right |
| `Day16.Counts` | day16/src/main.rs:248-249 | one count per entering beam, in order |
| `Day16.FindMaxConfigurationSpec` | day16/src/main.rs:225-252 | the best count is the count of some entering beam and at least the count of every one |
| `SortedMaps.Get` | day16/src/main.rs:84-89 | a key found maps to its entry, and a key not found is in no entry |
| `SortedMaps.GetSorted` | day16/src/main.rs:84-89 | in a map with ordered keys each entry is found under its key |
| `SortedMaps.Insert` | day16/src/main.rs:49-53 | insertion keeps the keys in order and adds exactly the new key |
| `SortedMaps.InsertGet` | day16/src/main.rs:49-53 | after insertion the key maps to the new value and every other key keeps its value |
| `SortedMaps.InsertEntries` | day16/src/main.rs:49-53 | insertion adds no entry but the inserted one |
| `SortedMaps.FirstAbove` | day16/src/main.rs:108-109 | `range(k + 1..).next()` finds the entry with the least key above `k`, and nothing when no key is above it |
| `SortedMaps.LastBelow` | day16/src/main.rs:116-118 | `range(..k).rev().next()` finds the entry with the greatest key below `k`, and nothing when no key is below it |
| `SortedMaps.FromEntries` | day7/src/main.rs:65-82 | the map folded from the pairs has ordered keys, exactly the pairs' keys |
| `SortedMaps.FromEntriesSubset` | day7/src/main.rs:65-82 | the folded map holds only entries from its pairs |
| `SortedMaps.FromEntriesLastWins` | day7/src/main.rs:80 | a key holds the value of the last pair inserted under it |
| `SortedMaps.Below` | day7/src/main.rs:84-87 | the entries below a bound are the map's prefix of smaller keys |
| `Day17.ParseCity` | day17/src/main.rs:22-31 | a parsed city has one row per line and one digit per character |
| `Day17.ParseCityOfText` | day17/src/main.rs:22-31 | a city of digits comes back from its text, one row per line |
| `Day17.NodeLeTotal` | day17/src/main.rs:44-46 | the heap order on the tuples is total and transitive and puts less heat first |
| `Day17.MinIndexLeast` | day17/src/main.rs:46-51 | `pop` on the reversed heap finds a node no greater than any other |
| `Day17.PopSpec` | day17/src/main.rs:51 | `pop` takes the least node out of the heap and keeps the others |
| `Day17.MoveSpec` | day17/src/main.rs:67-84 | a move lands on the block it aims at and adds that block's digit to the heat, and is dropped when it would leave the city |
| `Day17.TurnSpec` | day17/src/main.rs:87-110 | a turn enters the next block and is neither straight on nor back |
| `Day17.StraightSpec` | day17/src/main.rs:66-85 | going straight on enters the next block in the same direction, with one more block in the line, after fewer than three |
| `Day17.TurnsSpec` | day17/src/main.rs:87-110 | every turn pushed enters the next block and is neither straight on nor back |
| `Day17.SuccessorsSpec` | day17/src/main.rs:66-110 | every node pushed is one block on, going straight on or turning |
| `Day17.SuccessorsComplete` | day17/src/main.rs:66-110 | every move into the city that is not back, and straight on only after fewer than three blocks, is pushed |
| `Day17.NeverBack` | day17/src/main.rs:87-89 | no push reverses the crucible |
| `Day17.SuccessorsHotter` | day17/src/main.rs:75-107 | no push is cooler than the node it comes from |
| `Day17.SuccessorsValid` | day17/src/main.rs:66-110 | from a valid node every push moves by a unit step and has gone at most three blocks in a line |
| `Day17.Search` | day17/src/main.rs:50-113 | the search loop never panics |
| `Day17.ExpandStep` | day17/src/main.rs:53-110 | expanding a node not seen before keeps `seen` equal to the expanded states, each expanded once, coolest first |
| `Day17.SkipStep` | day17/src/main.rs:53-55 | dropping a node already seen keeps the search invariant |
| `Day17.StepInv` | day17/src/main.rs:50-111 | one pop keeps the invariant, and stopping at the end block gives that node's heat |
| `Day17.SearchSound` | day17/src/main.rs:50-113 | every state is expanded at most once, in order of heat, and an answer is the heat of the last expanded node, on the end block |
| `Day17.SearchRunsBounded` | day17/src/main.rs:50-113 | no expanded node has gone more than three blocks in a line |
| `Day17.SearchFuel` | day17/src/main.rs:50-113 | allowing more pops does not change an outcome already reached |
| `Day17.FindBestPath` | day17/src/main.rs:38-42 | the program panics exactly when the city has no rows or an empty first row |
| `Day17.FindBestPathSpec` | day17/src/main.rs:38-114 | the answer is the heat of an expanded node on the bottom-right block, each state expanded once, coolest first, none more than three blocks into a line |
| `Day17.SmallCity` | day17/src/main.rs:38-114 | on the city 12/34 the search pops the start, right, down, and stops at the end block with heat 6 |
| `Day18.DirectionOf` | day18/src/main.rs:24-30 | exactly "U", "D", "L" and "R" are directions, each a unit step: "U" up a row, "D" down a row, "L" left a column and "R" right a column |
| `Day18.ParseInstruction` | day18/src/main.rs:22-36 | a line fails exactly when it has fewer than three words, an unknown direction, a distance that is not a number or a colour word shorter than three characters; otherwise the direction, distance and colour (the third word without its first two characters and its last) come from those words |
| `Day18.ParsePlan` | day18/src/main.rs:18-40 | the plan holds, in order, the instruction of every line, and fails exactly when some line does |
| `Day18.FoldEndsAt` | day18/src/main.rs:45-60 | after each step the fold stands at the sum of the moves so far and has counted their total length |
| `Day18.DigFoldEndsAt` | day18/src/main.rs:45-60 | the fold ends at the sum of all moves, having counted the whole trench length |
| `Day18.ShoelaceStrips` | day18/src/main.rs:53-55 | on an axis-aligned plan, the shoelace difference plus the product of the current vertex's coordinates is twice the strip area swept so far |
| `Day18.ClosedPlanCapacity` | day18/src/main.rs:44-67 | for a plan that returns to its start the halving is exact and the capacity is the enclosed strip area plus half the trench length plus one |
| `Day18.ParsedAxisAligned` | day18/src/main.rs:24-30 | every parsed move is along a row or a column |
| `Day18.ColourIgnored` | day18/src/main.rs:47 | the colour plays no part in the capacity |
| `Day18.CapacityExample` | day18/src/main.rs:74-96 | the test plan holds 62 cubic metres |
| `Day18.SolveSpec` | day18/src/main.rs:5-12 | an answer exists exactly when every line is an instruction; for a plan that returns to its start it is the strip area enclosed by the trench plus half the trench length plus one |
| `Day19.Rating` | day19/src/main.rs:87-93 | exactly the categories 'x', 'm', 'a' and 's' have a rating; any other letter panics |
| `Day19.Fields` | day19/src/main.rs:22-28 | the field map has exactly the names that appear in the text |
| `Day19.FieldPairs` | day19/src/main.rs:26-27 | every comma-separated piece splits at its '=' into one pair |
| `Day19.ParsePart` | day19/src/main.rs:19-36 | a part parses only from text of at least two characters; its first and last characters are dropped unchecked before the fields are read |
| `Day19.FieldPairsOfTexts` | day19/src/main.rs:26-27 | fields written `name=value`, with no '=' in the name, split back into their pairs |
| `Day19.PartPairsFields` | day19/src/main.rs:22-28 | the four fields of a written part map each name to the decimal text of its rating |
| `Day19.ParsePartOfText` | day19/src/main.rs:19-36 | a part written as `{x=..,m=..,a=..,s=..}` parses back to itself |
| `Day19.ParsePartOfFields` | day19/src/main.rs:19-36 | text whose fields name all four ratings parses to the part with those ratings |
| `Day19.Without` | day19/src/main.rs:57 | `replace("}", "")` removes every '}' and keeps every other character |
| `Day19.WithoutAppend` | day19/src/main.rs:57 | removing '}' works piece by piece |
| `Day19.ParseWorkflow` | day19/src/main.rs:51-63 | a workflow line parses exactly when it holds a '{', and the name before it has none and at least one rule follows |
| `Day19.ParseWorkflowOfText` | day19/src/main.rs:51-63 | a workflow written `name{rule,...,rule}` parses back to its name and rules |
| `Day19.ParseWorkflows` | day19/src/main.rs:51-63 | the workflow lines parse exactly when every one holds a '{' |
| `Day19.ParseWorkflowsLastWins` | day19/src/main.rs:51-63 | a workflow named by no later line keeps its own rules in the map |
| `Day19.ParsePartsSome` | day19/src/main.rs:49 | the part lines parse exactly when every one does |
| `Day19.ParsePartsAt` | day19/src/main.rs:49 | each parsed part comes from the line in its place |
| `Day19.ParseSystem` | day19/src/main.rs:45-67 | the system parses exactly when the input has a blank line and both the workflow lines before the first blank line and the part lines after it parse; its workflows and parts are what those lines give |
| `Day19.ApplyRule` | day19/src/main.rs:76-79 | a rule only ever sends a part to the text at its end, the outcome after its first ':' or the whole rule when it has none |
| `Day19.ApplyRuleMalformed` | day19/src/main.rs:76-99 | a rule without ':' always sends the part to its text; a rule with one panics exactly when the condition before its first ':' is shorter than two characters, starts with a letter other than x, m, a, s, has a comparison other than '<' or '>', or does not end in a number |
| `Day19.VerdictsAt` | day19/src/main.rs:73-107 | each rule of a workflow is judged on its own |
| `Day19.FirstVerdictSpec` | day19/src/main.rs:73-107 | `find_map` finds nothing exactly when every rule passes, and otherwise the verdict of the first rule that does not pass |
| `Day19.FirstVerdictStops` | day19/src/main.rs:73-107 | rules after the first deciding one are never looked at |
| `Day19.ApplyRuleOfText` | day19/src/main.rs:76-106 | a rule written `c<n:t` or `c>n:t` sends the part to `t` exactly when its rating in `c` is below or above `n`, and a rule without a condition always sends it |
| `Day19.UnknownCategory` | day19/src/main.rs:87-93 | a condition on any letter other than x, m, a, s panics |
| `Day19.Evaluate` | day19/src/main.rs:70-115 | an evaluation that finishes started from a workflow that exists |
| `Day19.EvaluateRoute` | day19/src/main.rs:70-115 | a finished evaluation followed a chain of workflows, each sending the part to the next and the last accepting or rejecting it |
| `Day19.RouteEvaluates` | day19/src/main.rs:70-115 | conversely every such chain is followed by evaluation given enough hops |
| `Day19.EvaluateHop` | day19/src/main.rs:112 | a workflow that sends the part on decides as its target does |
| `Day19.EvaluateDecision` | day19/src/main.rs:109-111 | "A" accepts and "R" rejects |
| `Day19.EvaluateFuel` | day19/src/main.rs:70-115 | allowing more hops does not change a decision already reached |
| `Day19.IsAcceptedRoute` | day19/src/main.rs:117-119 | a part is accepted (or rejected) within the hop bound exactly when a route of workflows starting at `in` accepts (or rejects) it |
| `Day19.Tally` | day19/src/main.rs:121-130 | the sum is defined exactly when every part's evaluation finishes |
| `Day19.TallyAppend` | day19/src/main.rs:121-130 | the sum over two runs of parts is the sum of their sums |
| `Day19.SumOverAppend` | day19/src/main.rs:121-130 | the accepted ratings of two lists of parts add up |
| `Day19.SumOverOne` | day19/src/main.rs:125-126 | one part adds its four ratings if accepted and nothing otherwise |
| `Day19.SumOverSpec` | day19/src/main.rs:121-130 | the sum finishes exactly when every part's evaluation does, and is then the total x + m + a + s of exactly the accepted parts |
| `Day19.Part1` | day19/src/main.rs:121-130 | a text that does not parse panics; an answer means every part's evaluation finished and the answer is the total rating of the accepted parts |

## Left out

- Day 6 is not modelled: its answer rests on floating-point `sqrt`, `floor` and `ceil`.
- Command-line handling, file reading, timing and printing are not modelled: `aoc/src/lib.rs`, `src/main.rs`, each day's `main`, and `day2/src/main.rs:77-92`. Each solution's function over the input text is the entry point of its module.
- The progress `println!` calls are dropped: `day12/src/main.rs:5` and `day17/src/main.rs:58,61`.
- Machine-word widths are not modelled. Sums and products are unbounded, so the `u32`/`u64`/`usize` overflow points are not represented. Examples are the `a * b` of the day 8 `lcm` in `u64` (`day8/src/main.rs:39`), the day 1 and `src/day1.rs` totals, the day 2 sums, `checked_pow` in day 4, the day 5 `u64` offsets and sums, the day 11, 12 and 13 `u32` totals, and the day 19 `u64` ratings and sum. Day 15's `u8` cast is modelled exactly, as `% 256`.
- The regular expression of `day1/src/main.rs:43-51` is replaced by a token scan. The first value is the digit or digit name that starts leftmost. The last value is the one that starts rightmost, and overlapping names both count.
- `HashMap`, `HashSet`, `BTreeMap`, `BinaryHeap` and the `Array2D` crate are replaced by sequences, association lists, sorted entry lists and rectangular `seq<seq<char>>` grids. The `BTreeMap` key order is kept where the program depends on it: days 5, 7 and 16.
- Day8.GhostSteps: the order in which a `HashMap` yields its keys ending in 'A' is not modelled. The list of start keys is a parameter. Day8.FindStepCount constrains it through `StartsOf`: the keys ending in 'A', each once.
- Day8.Traverse, Day10.Waves, Day16.Rounds, Day17.Search, Day19.Evaluate: these loops are bounded by fuel. A walk or search that never ends, such as a cycle in the day 8 network or in the day 19 workflows, shows up only as `OutOfFuel` (`Unfinished` in day 8) for every fuel. Termination is not proved.
- Day9.NextPoint: with fewer than two readings the Rust recursion never ends. The model returns `None` there instead of diverging.
- Day3.Counted: the neighbourhood window is clamped by the number of lines for both rows and columns, as the program does. The model states the program's answer only on square schematics and shows the other cases separately. The example schematic's (4361, 467835) is not evaluated.
- Day16.NextStopRight: the nearest-stop property is proved for beams moving right only. Day16.NextStop states for all four directions only that the beam stays in its row or column.
- Day17.FindBestPathSpec: does not state that the answer is the least heat over all legal walks (Dijkstra optimality). It states that states are expanded once in order of heat, and that the answer is the heat of an expanded node on the bottom-right block with at most three blocks in a line.
- Day18.ClosedPlanCapacity: Pick's theorem is not proved. The capacity is related to the strip (shoelace) area of a closed axis-aligned plan plus half the trench plus one, not to a count of lattice cells.
- Day19.ParseSystem: slicing at byte offsets inside non-ASCII text is not modelled. Strings are sequences of characters.
- Inputs are taken to be ASCII. `Text.IsWhitespace` knows only the ASCII white-space characters, while Rust's `split_whitespace` and `trim` also accept Unicode ones. Byte offsets from `find` and `char_indices` are read as character indices, as in `day3/src/main.rs:23`, `day8/src/main.rs:47`, `day12/src/main.rs:39-40`, `day16/src/main.rs:37` and the day 19 slicing. The two readings agree only on ASCII text.
- Day10.Waves: the wave search is stated for any move function `step`. Day10.FindFarthestPoint instantiates it with `Walk(m)`, which is `NextTile` on the parsed field, so its properties hold for the program's own moves.
- Example totals not evaluated, because unfolding the whole puzzle input was too costly for the verifier:
  - day 1 part 2 (281);
  - day 2 parsing of example games 2 to 5 (the sums (8, 2286) are stated over their maxima);
  - day 4 (stated over ids and match counts);
  - day 5 (35 and 46);
  - day 7 (6440 and 5905);
  - day 9 totals (114 and 2);
  - day 10 test fields (stated over the literal grids, not the parsed text);
  - day 11 (374 over the listed galaxies of the expanded image);
  - day 12 rows 2 to 6 and the total 21;
  - day 14 (136);
  - day 15 total (1320);
  - day 16 (46 and 51);
  - day 17 (102; a 2x2 city is evaluated instead);
  - day 19 (19114).

## Findings

| source | as written | input that shows it | evidently intended | confidence | as-written member | corrected member |
|---|---|---|---|---|---|---|
| day5/src/main.rs:39-52 | a rule whose source interval lies strictly inside the remaining range contains neither end, so the whole remainder passes through unmapped | range 50..99 with rule source 60, destination 0, length 5: the output is [50..99], yet seed 62 maps to 2 | split the remainder at both ends of the rule and move the middle piece | not executed | `Day5.RuleInsideRangeIsIgnored` | `Day5.MapPiecesCorrect` |
| day5/src/main.rs:40-46 | `contains(&end)` tests the exclusive end, so a rule ending exactly at the range end leaves an empty leftover `end..end`; its start then counts as a location in part 2 | seeds `0 10` with one rule source 0, destination 100, length 10: part 2 is 10, though every seed lands at 100 or above | no empty leftover; part 2 is the lowest location of any seed in the seed ranges (100 here) | not executed | `Day5.EmptyLeftoverAtRuleEnd` | `Day5.Part2Lowest` |
