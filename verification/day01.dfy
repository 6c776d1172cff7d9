/** Day 1: calibration values.  Part 1 joins the first and last decimal
    digit of a line; part 2 also accepts the spelled-out names "one" to
    "nine", taking the token that starts leftmost and the one that starts
    rightmost (the two regular expressions of the solution, written here
    as explicit scans). */
module Day1 {
  import opened Common
  import opened Text

  // ---------------------------------------------------------------------
  // Part 1: digits only

  /** The digit characters of a line, in order. */
  function DigitsOf(s: string): (ds: seq<char>)
    ensures forall k :: 0 <= k < |ds| ==> IsDigit(ds[k])
    ensures |ds| == 0 <==> forall i :: 0 <= i < |s| ==> !IsDigit(s[i])
  {
    if |s| == 0 then []
    else
      assert forall i :: 1 <= i < |s| ==> s[i] == s[1..][i - 1];
      (if IsDigit(s[0]) then [s[0]] else []) + DigitsOf(s[1..])
  }

  lemma {:induction false} DigitsOfAppend(a: string, b: string)
    ensures DigitsOf(a + b) == DigitsOf(a) + DigitsOf(b)
  {
    if |a| > 0 {
      assert (a + b)[1..] == a[1..] + b;
      DigitsOfAppend(a[1..], b);
    } else {
      assert a + b == b;
    }
  }

  /** `get_calibration_value_a`: the two-character string of the first and
      last digit, parsed; no digit, no value. */
  function CalibrationA(line: string): (r: Option<nat>)
    ensures r.None? <==> forall i :: 0 <= i < |line| ==> !IsDigit(line[i])
    ensures r.Some? ==> r.value < 100
  {
    var ds := DigitsOf(line);
    if |ds| == 0 then None
    else Some(10 * DigitValue(ds[0]) + DigitValue(ds[|ds| - 1]))
  }

  /** The first digit of a line is the digit with no digit before it. */
  lemma {:induction false} DigitsOfFirst(s: string, i: nat)
    requires i < |s| && IsDigit(s[i])
    requires forall k :: 0 <= k < i ==> !IsDigit(s[k])
    ensures |DigitsOf(s)| > 0 && DigitsOf(s)[0] == s[i]
  {
    if i > 0 {
      assert forall k :: 0 <= k < i - 1 ==> s[1..][k] == s[k + 1];
      DigitsOfFirst(s[1..], i - 1);
    }
  }

  /** The last digit of a line is the digit with no digit after it. */
  lemma DigitsOfLast(s: string, j: nat)
    requires j < |s| && IsDigit(s[j])
    requires forall k :: j < k < |s| ==> !IsDigit(s[k])
    ensures |DigitsOf(s)| > 0 && DigitsOf(s)[|DigitsOf(s)| - 1] == s[j]
  {
    var tail := s[j + 1..];
    assert forall k :: 0 <= k < |tail| ==> tail[k] == s[j + 1 + k];
    assert DigitsOf(tail) == [];
    assert s == (s[..j] + [s[j]]) + tail;
    DigitsOfAppend(s[..j] + [s[j]], tail);
    DigitsOfAppend(s[..j], [s[j]]);
    assert DigitsOf([s[j]]) == [s[j]] by {
      assert [s[j]][1..] == [];
    }
  }

  /** The value joins the digit with no digit before it and the digit with
      no digit after it. */
  lemma CalibrationAFirstLast(line: string, i: nat, j: nat)
    requires i < |line| && IsDigit(line[i]) && forall k :: 0 <= k < i ==> !IsDigit(line[k])
    requires j < |line| && IsDigit(line[j]) && forall k :: j < k < |line| ==> !IsDigit(line[k])
    ensures CalibrationA(line) == Some(10 * DigitValue(line[i]) + DigitValue(line[j]))
  {
    DigitsOfFirst(line, i);
    DigitsOfLast(line, j);
  }

  /** A line with a single digit doubles it: "treb7uchet" gives 77. */
  lemma SingleDigitDoubles(line: string)
    requires line == "treb7uchet"
    ensures CalibrationA(line) == Some(77)
  {
    ExampleA(line, 4, 4, 77);
  }

  /** The other example lines give 12, 38 and 15. */
  lemma FirstExampleLine(line: string)
    requires line == "1abc2"
    ensures CalibrationA(line) == Some(12)
  {
    ExampleA(line, 0, 4, 12);
  }

  lemma SecondExampleLine(line: string)
    requires line == "pqr3stu8vwx"
    ensures CalibrationA(line) == Some(38)
  {
    ExampleA(line, 3, 7, 38);
  }

  lemma ThirdExampleLine(line: string)
    requires line == "a1b2c3d4e5f"
    ensures CalibrationA(line) == Some(15)
  {
    ExampleA(line, 1, 9, 15);
  }

  lemma ExampleA(line: string, i: nat, j: nat, v: nat)
    requires i < |line| && IsDigit(line[i]) && forall k :: 0 <= k < i ==> !IsDigit(line[k])
    requires j < |line| && IsDigit(line[j]) && forall k :: j < k < |line| ==> !IsDigit(line[k])
    requires v == 10 * DigitValue(line[i]) + DigitValue(line[j])
    ensures CalibrationA(line) == Some(v)
  {
    CalibrationAFirstLast(line, i, j);
  }

  /** One step of the part-1 fold: a missing value leaves the total, a
      present one starts or extends it. */
  function AddValue(acc: Option<nat>, value: Option<nat>): Option<nat> {
    match value
    case None => acc
    case Some(v) =>
      match acc
      case Some(x) => Some(x + v)
      case None => Some(v)
  }

  function Part1Fold(values: seq<Option<nat>>): Option<nat> {
    if |values| == 0 then None else AddValue(Part1Fold(values[..|values| - 1]), values[|values| - 1])
  }

  /** The present values, added up. */
  function SumPresent(values: seq<Option<nat>>): nat {
    if |values| == 0 then 0
    else SumPresent(values[..|values| - 1]) + (match values[|values| - 1] case Some(v) => v case None => 0)
  }

  /** The fold has no total exactly when no value is present, and then its
      total is the sum of the present values. */
  lemma {:induction false} Part1FoldSums(values: seq<Option<nat>>)
    ensures Part1Fold(values).None? <==> forall i :: 0 <= i < |values| ==> values[i].None?
    ensures Part1Fold(values).Some? ==> Part1Fold(values).value == SumPresent(values)
  {
    if |values| > 0 {
      var n := |values| - 1;
      Part1FoldSums(values[..n]);
      assert forall i :: 0 <= i < n ==> values[i] == values[..n][i];
      if Part1Fold(values[..n]).None? {
        assert SumPresent(values[..n]) == 0 by {
          NonePresentSumsZero(values[..n]);
        }
      }
    }
  }

  lemma {:induction false} NonePresentSumsZero(values: seq<Option<nat>>)
    requires forall i :: 0 <= i < |values| ==> values[i].None?
    ensures SumPresent(values) == 0
  {
    if |values| > 0 {
      NonePresentSumsZero(values[..|values| - 1]);
    }
  }

  /** Every line's part-1 value, in order. */
  function ValuesA(lines: seq<string>): (vs: seq<Option<nat>>)
    ensures |vs| == |lines| && forall i :: 0 <= i < |lines| ==> vs[i] == CalibrationA(lines[i])
  {
    seq(|lines|, i requires 0 <= i < |lines| => CalibrationA(lines[i]))
  }

  function Part1(lines: seq<string>): Option<nat> {
    Part1Fold(ValuesA(lines))
  }

  /** The example document sums to 142. */
  lemma Part1Example(a: string, b: string, c: string, d: string)
    requires a == "1abc2" && b == "pqr3stu8vwx" && c == "a1b2c3d4e5f" && d == "treb7uchet"
    ensures Part1([a, b, c, d]) == Some(142)
  {
    FirstExampleLine(a);
    SecondExampleLine(b);
    ThirdExampleLine(c);
    SingleDigitDoubles(d);
    var vs := [Some(12), Some(38), Some(15), Some(77)];
    Part1OfValues([a, b, c, d], vs);
    ExampleFold(vs);
  }

  lemma Part1OfValues(lines: seq<string>, vs: seq<Option<nat>>)
    requires |vs| == |lines|
    requires forall i :: 0 <= i < |lines| ==> CalibrationA(lines[i]) == vs[i]
    ensures Part1(lines) == Part1Fold(vs)
  {
    assert ValuesA(lines) == vs;
  }

  lemma ExampleFold(vs: seq<Option<nat>>)
    requires vs == [Some(12), Some(38), Some(15), Some(77)]
    ensures Part1Fold(vs) == Some(142)
  {
    assert Part1Fold(vs[..1]) == Some(12) by { assert vs[..1][..0] == []; }
    assert Part1Fold(vs[..2]) == Some(50) by { assert vs[..2][..1] == vs[..1]; }
    assert Part1Fold(vs[..3]) == Some(65) by { assert vs[..3][..2] == vs[..2]; }
    assert vs[..3] == vs[..|vs| - 1];
  }

  // ---------------------------------------------------------------------
  // Part 2: digits and digit names

  const Names: seq<string> := ["one", "two", "three", "four", "five", "six", "seven", "eight", "nine"]

  /** `string_to_num`: a digit name gives its number, anything else is
      parsed as a decimal number (and aborts if it is not one). */
  function StringToNum(s: string): Option<nat> {
    if s == "one" then Some(1)
    else if s == "two" then Some(2)
    else if s == "three" then Some(3)
    else if s == "four" then Some(4)
    else if s == "five" then Some(5)
    else if s == "six" then Some(6)
    else if s == "seven" then Some(7)
    else if s == "eight" then Some(8)
    else if s == "nine" then Some(9)
    else ParseNat(s)
  }

  /** The names map to 1 to 9, and printed numbers to themselves. */
  lemma StringToNumValues(k: nat, n: nat)
    requires k < 9
    ensures StringToNum(Names[k]) == Some(k + 1)
    ensures StringToNum(NatToString(n)) == Some(n)
  {
    var t := NatToString(n);
    assert IsDigit(t[0]);
    assert t != "one" && t != "two" && t != "three" && t != "four" && t != "five";
    assert t != "six" && t != "seven" && t != "eight" && t != "nine";
    ParseNatOfNatToString(n);
  }

  /** The word `w` is spelled out in `s` from position `i` on. */
  predicate Spelled(s: string, w: string, i: nat) {
    i + |w| <= |s| && forall k :: 0 <= k < |w| ==> s[i + k] == w[k]
  }

  /** The first name from index `k` on that starts at position `i`. */
  function NameAt(s: string, i: nat, k: nat): (r: Option<nat>)
    requires k <= 9
    ensures r.Some? ==> k <= r.value < 9 && Spelled(s, Names[r.value], i)
    decreases 9 - k
  {
    if k == 9 then None
    else if Spelled(s, Names[k], i) then Some(k)
    else NameAt(s, i, k + 1)
  }

  /** The text of the token that starts at `i`: a digit 1 to 9 or a digit
      name.  No name starts with another, so at most one name fits. */
  function TokenAt(s: string, i: nat): (r: Option<string>)
    ensures r.Some? ==> i < |s|
  {
    if i < |s| && '1' <= s[i] <= '9' then Some([s[i]])
    else
      match NameAt(s, i, 0)
      case Some(k) => Some(Names[k])
      case None => None
  }

  /** Every token stands for a number from 1 to 9. */
  lemma TokenValue(s: string, i: nat)
    requires TokenAt(s, i).Some?
    ensures StringToNum(TokenAt(s, i).value).Some?
    ensures 1 <= StringToNum(TokenAt(s, i).value).value <= 9
  {
    if i < |s| && '1' <= s[i] <= '9' {
      var d := DigitValue(s[i]);
      assert [s[i]] == NatToString(d);
      StringToNumValues(0, d);
    } else {
      var k := NameAt(s, i, 0).value;
      StringToNumValues(k, 0);
    }
  }

  /** The token that starts at each position of the line. */
  function Tokens(s: string): (ts: seq<Option<string>>)
    ensures |ts| == |s|
    ensures forall j :: 0 <= j < |s| ==> ts[j] == TokenAt(s, j)
  {
    seq(|s|, j requires 0 <= j < |s| => TokenAt(s, j))
  }

  /** The leftmost present entry at or after `i`, with its index. */
  function FirstSome<T>(xs: seq<Option<T>>, i: nat): (r: Option<(nat, T)>)
    ensures r.Some? ==> i <= r.value.0 < |xs| && xs[r.value.0] == Some(r.value.1)
    decreases |xs| - i
  {
    if i >= |xs| then None
    else if xs[i].Some? then Some((i, xs[i].value))
    else FirstSome(xs, i + 1)
  }

  /** Nothing is present before the entry found, and nothing at all when
      none is found. */
  lemma {:induction false} FirstSomeSpec<T>(xs: seq<Option<T>>, i: nat)
    ensures FirstSome(xs, i).Some? ==> forall j :: i <= j < FirstSome(xs, i).value.0 ==> xs[j].None?
    ensures FirstSome(xs, i).None? ==> forall j :: i <= j < |xs| ==> xs[j].None?
    decreases |xs| - i
  {
    if i < |xs| && xs[i].None? {
      FirstSomeSpec(xs, i + 1);
    }
  }

  /** The entry found is the one at `k` when nothing is present before it. */
  lemma {:induction false} FirstSomeAt<T>(xs: seq<Option<T>>, i: nat, k: nat)
    requires i <= k < |xs| && xs[k].Some?
    requires forall j :: i <= j < k ==> xs[j].None?
    ensures FirstSome(xs, i) == Some((k, xs[k].value))
    decreases k - i
  {
    if i < k {
      FirstSomeAt(xs, i + 1, k);
    }
  }

  /** The rightmost present entry before `n`, with its index. */
  function LastSome<T>(xs: seq<Option<T>>, n: nat): (r: Option<(nat, T)>)
    requires n <= |xs|
    ensures r.Some? ==> r.value.0 < n && xs[r.value.0] == Some(r.value.1)
  {
    if n == 0 then None
    else if xs[n - 1].Some? then Some((n - 1, xs[n - 1].value))
    else LastSome(xs, n - 1)
  }

  lemma {:induction false} LastSomeSpec<T>(xs: seq<Option<T>>, n: nat)
    requires n <= |xs|
    ensures LastSome(xs, n).Some? ==> forall j :: LastSome(xs, n).value.0 < j < n ==> xs[j].None?
    ensures LastSome(xs, n).None? ==> forall j :: 0 <= j < n ==> xs[j].None?
  {
    if n > 0 && xs[n - 1].None? {
      LastSomeSpec(xs, n - 1);
    }
  }

  lemma {:induction false} LastSomeAt<T>(xs: seq<Option<T>>, n: nat, k: nat)
    requires k < n <= |xs| && xs[k].Some?
    requires forall j :: k < j < n ==> xs[j].None?
    ensures LastSome(xs, n) == Some((k, xs[k].value))
  {
    if k < n - 1 {
      LastSomeAt(xs, n - 1, k);
    }
  }

  /** The leftmost token of the line (`RE_FIRST`). */
  function FirstToken(s: string): Option<(nat, string)> {
    FirstSome(Tokens(s), 0)
  }

  /** The rightmost token of the line (`RE_LAST`: the greedy `.*` leaves
      the last possible start). */
  function LastToken(s: string): Option<(nat, string)> {
    LastSome(Tokens(s), |s|)
  }

  /** `get_calibration_value_b`: ten times the first token's number plus
      the last token's; with no token the captures fail and it aborts. */
  function CalibrationB(line: string): Option<nat> {
    Calibrate(FirstToken(line), LastToken(line))
  }

  /** The number of the first capture times ten plus that of the last;
      missing when a capture is. */
  function Calibrate(first: Option<(nat, string)>, last: Option<(nat, string)>): Option<nat> {
    match (first, last)
    case (Some(f), Some(l)) =>
      (match (StringToNum(f.1), StringToNum(l.1))
       case (Some(x), Some(y)) => Some(x * 10 + y)
       case _ => None)
    case _ => None
  }

  lemma CalibrateOf(f: (nat, string), l: (nat, string), x: nat, y: nat)
    requires StringToNum(f.1) == Some(x) && StringToNum(l.1) == Some(y)
    ensures Calibrate(Some(f), Some(l)) == Some(x * 10 + y)
  {
  }

  /** Every value is a two-digit number without zeros. */
  lemma CalibrationBRange(line: string)
    ensures CalibrationB(line).Some? ==> 11 <= CalibrationB(line).value <= 99
  {
    var f := FirstToken(line);
    var l := LastToken(line);
    if f.Some? && l.Some? {
      TokenValue(line, f.value.0);
      TokenValue(line, l.value.0);
    }
  }

  /** The value joins the token with nothing before it and the token with
      nothing after it; overlapping tokens both count. */
  lemma CalibrationBAt(line: string, i: nat, a: nat, j: nat, b: nat)
    requires TokenAt(line, i).Some? && StringToNum(TokenAt(line, i).value) == Some(a)
    requires forall k: nat :: k < i ==> TokenAt(line, k).None?
    requires TokenAt(line, j).Some? && StringToNum(TokenAt(line, j).value) == Some(b)
    requires forall k: nat :: j < k ==> TokenAt(line, k).None?
    ensures CalibrationB(line) == Some(a * 10 + b)
  {
    var ts := Tokens(line);
    FirstSomeAt(ts, 0, i);
    LastSomeAt(ts, |line|, j);
    CalibrateOf((i, TokenAt(line, i).value), (j, TokenAt(line, j).value), a, b);
  }

  /** The value is missing exactly when no token starts anywhere. */
  lemma CalibrationBNone(line: string)
    ensures CalibrationB(line).None? <==> forall j: nat :: TokenAt(line, j).None?
  {
    var ts := Tokens(line);
    var f := FirstToken(line);
    var l := LastToken(line);
    FirstSomeSpec(ts, 0);
    LastSomeSpec(ts, |line|);
    if f.Some? {
      assert l.Some?;
      TokenValue(line, f.value.0);
      TokenValue(line, l.value.0);
    } else {
      forall k: nat
        ensures TokenAt(line, k).None?
      {
        if k >= |line| {
          NameAtNone(line, k, 0);
        }
      }
    }
  }

  /** Tokens can overlap: "abdoneightabd" reads "one" then "eight". */
  lemma OverlappingNames()
    ensures CalibrationB("abdoneightabd") == Some(18)
  {
    OverlapExample("abdoneightabd");
  }

  lemma OverlapExample(s: string)
    requires s == "abdoneightabd"
    ensures CalibrationB(s) == Some(18)
  {
    OverlapOne(s);
    OverlapEight(s);
    OverlapPlain(s);
    StringToNumValues(0, 0);
    StringToNumValues(7, 0);
    CalibrationBAt(s, 3, 1, 5, 8);
  }

  lemma OverlapOne(s: string)
    requires s == "abdoneightabd"
    ensures TokenAt(s, 3) == Some(Names[0])
  {
    assert s[3..6] == "one";
    assert Spelled(s, Names[0], 3);
  }

  lemma OverlapEight(s: string)
    requires s == "abdoneightabd"
    ensures TokenAt(s, 5) == Some(Names[7])
  {
    assert s[5..10] == "eight";
    assert Spelled(s, Names[7], 5);
    forall m | 0 <= m < 7
      ensures !Spelled(s, Names[m], 5)
    {
      assert Names[m][0] != 'e';
    }
    NameAtFirst(s, 5, 0, 7);
  }

  /** The name search finds the first name from `k` on that fits. */
  lemma {:induction false} NameAtFirst(s: string, i: nat, k: nat, m: nat)
    requires k <= m < 9 && Spelled(s, Names[m], i)
    requires forall n :: k <= n < m ==> !Spelled(s, Names[n], i)
    ensures NameAt(s, i, k) == Some(m)
    decreases m - k
  {
    if k < m {
      NameAtFirst(s, i, k + 1, m);
    }
  }

  lemma OverlapPlain(s: string)
    requires s == "abdoneightabd"
    ensures forall k: nat :: k < 3 ==> TokenAt(s, k).None?
    ensures forall k: nat :: 5 < k ==> TokenAt(s, k).None?
  {
    assert Plain("abdoneightabd", 0, 3);
    assert Plain("abdoneightabd", 10, 13);
    assert Plain("abdoneightabd", 6, 13) by {
      assert Plain("abdoneightabd", 10, 13);
    }
    NoTokenBetween(s, 0, 3);
    NoTokenBetween(s, 6, 13);
  }

  /** The first two letters of the names. */
  const NamePrefixes: set<string> := {"on", "tw", "th", "fo", "fi", "si", "se", "ei", "ni"}

  /** No character at positions `lo .. hi` is a digit 1 to 9 or begins
      with the first two letters of a name. */
  predicate Plain(s: string, lo: nat, hi: nat)
    requires hi <= |s|
    decreases hi - lo
  {
    lo >= hi || (!('1' <= s[lo] <= '9') && (|s| < lo + 2 || s[lo..lo + 2] !in NamePrefixes) && Plain(s, lo + 1, hi))
  }

  lemma NamePrefix(m: nat)
    requires m < 9
    ensures |Names[m]| >= 3 && Names[m][..2] in NamePrefixes
  {
    assert Names[0][..2] == "on" && Names[1][..2] == "tw" && Names[2][..2] == "th";
    assert Names[3][..2] == "fo" && Names[4][..2] == "fi" && Names[5][..2] == "si";
    assert Names[6][..2] == "se" && Names[7][..2] == "ei" && Names[8][..2] == "ni";
  }

  /** No token starts at a plain position. */
  lemma {:induction false} NoTokenBetween(s: string, lo: nat, hi: nat)
    requires hi <= |s| && Plain(s, lo, hi)
    ensures forall k: nat :: lo <= k < hi ==> TokenAt(s, k).None?
    ensures hi == |s| ==> forall k: nat :: hi <= k ==> TokenAt(s, k).None?
    decreases hi - lo
  {
    if lo < hi {
      NoTokenBetween(s, lo + 1, hi);
      forall m | 0 <= m < 9
        ensures !Spelled(s, Names[m], lo)
      {
        NamePrefix(m);
        SpelledPrefix(s, Names[m], lo);
      }
      NameAtNone(s, lo, 0);
    } else {
      forall k: nat | hi == |s| && hi <= k
        ensures TokenAt(s, k).None?
      {
        NameAtNone(s, k, 0);
      }
    }
  }

  /** A spelled-out word begins with its first two letters. */
  lemma SpelledPrefix(s: string, w: string, i: nat)
    requires |w| >= 2
    ensures Spelled(s, w, i) ==> i + 2 <= |s| && s[i..i + 2] == w[..2]
  {
    if Spelled(s, w, i) {
      assert s[i..i + 2] == [s[i], s[i + 1]];
    }
  }

  lemma {:induction false} NameAtNone(s: string, i: nat, k: nat)
    requires k <= 9
    requires forall m :: k <= m < 9 ==> !Spelled(s, Names[m], i)
    ensures NameAt(s, i, k).None?
    decreases 9 - k
  {
    if k < 9 {
      NameAtNone(s, i, k + 1);
    }
  }

  /** `document_calbration_sum`, part 2: every line must have a token. */
  function Part2(lines: seq<string>): Option<int> {
    match AllSome(seq(|lines|, i requires 0 <= i < |lines| => CalibrationB(lines[i])))
    case None => None
    case Some(values) => Some(Sum(values))
  }

  /** `values` holds the part-2 value of every line, in order. */
  ghost predicate ValuesB(lines: seq<string>, values: seq<int>) {
    |values| == |lines| && forall i :: 0 <= i < |lines| ==> CalibrationB(lines[i]) == Some(values[i])
  }

  /** Part 2 exists exactly when every line has a token; it is then the
      sum of the lines' values and lies between 11 and 99 per line. */
  lemma Part2Sums(lines: seq<string>)
    ensures Part2(lines).None? <==> exists i :: 0 <= i < |lines| && CalibrationB(lines[i]).None?
    ensures Part2(lines).Some? ==> exists values :: ValuesB(lines, values) && Part2(lines).value == Sum(values)
    ensures Part2(lines).Some? ==> |lines| * 11 <= Part2(lines).value <= |lines| * 99
  {
    var vs := seq(|lines|, i requires 0 <= i < |lines| => CalibrationB(lines[i]));
    assert forall i :: 0 <= i < |lines| ==> vs[i] == CalibrationB(lines[i]);
    var r := AllSome(vs);
    if r.Some? {
      assert ValuesB(lines, r.value);
      forall i | 0 <= i < |lines|
        ensures 11 <= r.value[i] <= 99
      {
        CalibrationBRange(lines[i]);
      }
      SumBounds(r.value, 11, 99);
    }
  }

  lemma {:induction false} SumBounds(xs: seq<int>, lo: int, hi: int)
    requires forall i :: 0 <= i < |xs| ==> lo <= xs[i] <= hi
    ensures |xs| * lo <= Sum(xs) <= |xs| * hi
  {
    if |xs| > 0 {
      var n := |xs| - 1;
      assert forall i :: 0 <= i < n ==> xs[..n][i] == xs[i];
      SumBounds(xs[..n], lo, hi);
      assert |xs| * lo == n * lo + lo;
      assert |xs| * hi == n * hi + hi;
    }
  }

  /** `document_calbration_sum`: both parts over the lines of the input.
      Part 2 unwraps every line's captures, so a line without a token
      aborts the whole call and part 1 is never returned either. */
  function DocumentSum(input: string): (r: Option<(Option<nat>, int)>) {
    match Part2(Lines(input))
    case None => None
    case Some(total) => Some((Part1(Lines(input)), total))
  }

  /** The call aborts exactly when some line has no token.  Otherwise part
      1 is missing only when no line has a digit and is else the sum of
      the lines' digit values, and part 2 is the sum of the lines' token
      values, between 11 and 99 per line. */
  lemma DocumentSumParts(input: string)
    ensures DocumentSum(input).None? <==> exists i :: 0 <= i < |Lines(input)| && CalibrationB(Lines(input)[i]).None?
    ensures DocumentSum(input).Some? ==>
              (DocumentSum(input).value.0.None? <==> forall i :: 0 <= i < |Lines(input)| ==> CalibrationA(Lines(input)[i]).None?)
    ensures DocumentSum(input).Some? && DocumentSum(input).value.0.Some? ==>
              DocumentSum(input).value.0.value == SumPresent(ValuesA(Lines(input)))
    ensures DocumentSum(input).Some? ==>
              exists values :: ValuesB(Lines(input), values) && DocumentSum(input).value.1 == Sum(values)
    ensures DocumentSum(input).Some? ==>
              |Lines(input)| * 11 <= DocumentSum(input).value.1 <= |Lines(input)| * 99
  {
    var lines := Lines(input);
    Part1FoldSums(ValuesA(lines));
    Part2Sums(lines);
  }
}
