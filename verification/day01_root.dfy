/** The first version of day 1, part 1 only: one pass over the characters
    that latches ten times the first digit and keeps the last one.  The
    latch tests for zero, so a leading digit 0 never latches and a line
    without digits is worth 0. */
module DayOneRoot {
  import opened Common
  import opened Text

  /** The last digit of a line, 0 when there is none. */
  function LastDigit(s: string): (d: nat)
    ensures d < 10
    ensures (forall i :: 0 <= i < |s| ==> !IsDigit(s[i])) ==> d == 0
  {
    if |s| == 0 then 0
    else if IsDigit(s[|s| - 1]) then DigitValue(s[|s| - 1])
    else LastDigit(s[..|s| - 1])
  }

  /** The first digit of a line other than 0, 0 when there is none. */
  function FirstNonZero(s: string): (d: nat)
    ensures d < 10
    ensures (forall i :: 0 <= i < |s| ==> !IsDigit(s[i])) ==> d == 0
  {
    if |s| == 0 then 0
    else if IsDigit(s[0]) && s[0] != '0' then DigitValue(s[0])
    else
      assert forall i :: 1 <= i < |s| ==> s[1..][i - 1] == s[i];
      FirstNonZero(s[1..])
  }

  /** Scanning one more character changes the first non-zero digit only
      while none has been seen. */
  lemma {:induction false} FirstNonZeroSnoc(s: string, c: char)
    ensures FirstNonZero(s + [c]) ==
      if FirstNonZero(s) != 0 then FirstNonZero(s)
      else if IsDigit(c) then DigitValue(c)
      else 0
  {
    if |s| > 0 {
      assert (s + [c])[1..] == s[1..] + [c];
      FirstNonZeroSnoc(s[1..], c);
      if IsDigit(s[0]) && s[0] != '0' {
        assert DigitValue(s[0]) != 0;
      }
    } else {
      assert DigitValue('0') == 0;
    }
  }

  /** The value a line is worth: ten times the first non-zero digit plus
      the last digit. */
  function Expected(line: string): (v: nat)
    ensures v <= 99
  {
    10 * FirstNonZero(line) + LastDigit(line)
  }

  /** `get_calibration_value`: the latch `first` and the register `last`
      as the loop keeps them. */
  method CalibrationValue(line: string) returns (r: nat)
    ensures r == 10 * FirstNonZero(line) + LastDigit(line)
    ensures r <= 99
  {
    var first: nat := 0;
    var last: nat := 0;
    var i := 0;
    while i < |line|
      invariant i <= |line|
      invariant first == 10 * FirstNonZero(line[..i])
      invariant last == LastDigit(line[..i])
    {
      var c := line[i];
      assert line[..i + 1] == line[..i] + [c];
      FirstNonZeroSnoc(line[..i], c);
      if IsDigit(c) {
        var val := DigitValue(c);
        if first == 0 {
          first := val * 10;
        }
        last := val;
      }
      i := i + 1;
    }
    assert line[..i] == line;
    r := first + last;
  }

  /** `document_calbration_sum`: the values of the lines, added up. */
  method DocumentSum(input: string) returns (r: nat)
    ensures r == Sum(seq(|Lines(input)|, i requires 0 <= i < |Lines(input)| => Expected(Lines(input)[i])))
    ensures r <= 99 * |Lines(input)|
  {
    var lines := Lines(input);
    ghost var values := seq(|lines|, i requires 0 <= i < |lines| => Expected(lines[i]));
    r := 0;
    var i := 0;
    while i < |lines|
      invariant i <= |lines|
      invariant r == Sum(values[..i])
      invariant r <= 99 * i
    {
      var v := CalibrationValue(lines[i]);
      assert values[..i + 1] == values[..i] + [values[i]];
      r := r + v;
      i := i + 1;
    }
    assert values[..i] == values;
    assert values == seq(|Lines(input)|, i requires 0 <= i < |Lines(input)| => Expected(Lines(input)[i]));
  }

  /** A line's value is the first digit doubled into tens when that digit
      is not 0 and no digit follows it. */
  lemma OnlyDigit(line: string, i: nat)
    requires i < |line| && IsDigit(line[i]) && line[i] != '0'
    requires forall k :: 0 <= k < |line| && k != i ==> !IsDigit(line[k])
    ensures Expected(line) == 11 * DigitValue(line[i])
  {
    FirstNonZeroAt(line, i);
    LastDigitAt(line, i);
  }

  /** The first non-zero digit is the one with no non-zero digit before
      it. */
  lemma {:induction false} FirstNonZeroAt(s: string, i: nat)
    requires i < |s| && IsDigit(s[i]) && s[i] != '0'
    requires forall k :: 0 <= k < i ==> !IsDigit(s[k]) || s[k] == '0'
    ensures FirstNonZero(s) == DigitValue(s[i])
  {
    if i > 0 {
      assert forall k :: 0 <= k < i - 1 ==> s[1..][k] == s[k + 1];
      FirstNonZeroAt(s[1..], i - 1);
    }
  }

  /** The last digit is the one with no digit after it. */
  lemma {:induction false} LastDigitAt(s: string, j: nat)
    requires j < |s| && IsDigit(s[j])
    requires forall k :: j < k < |s| ==> !IsDigit(s[k])
    ensures LastDigit(s) == DigitValue(s[j])
  {
    if j < |s| - 1 {
      var init := s[..|s| - 1];
      assert forall k :: j < k < |init| ==> init[k] == s[k];
      LastDigitAt(init, j);
    }
  }

  /** A leading 0 is skipped by the latch: "0a7" is worth 77. */
  lemma LeadingZeroSkipped(line: string)
    requires line == "0a7"
    ensures Expected(line) == 77
  {
    FirstNonZeroAt(line, 2);
    LastDigitAt(line, 2);
  }

  /** The example lines are worth 12, 38, 15 and 77, 142 in all. */
  lemma Examples(a: string, b: string, c: string, d: string)
    requires a == "1abc2" && b == "pqr3stu8vwx" && c == "a1b2c3d4e5f" && d == "treb7uchet"
    ensures Expected(a) == 12 && Expected(b) == 38 && Expected(c) == 15 && Expected(d) == 77
    ensures Sum([Expected(a), Expected(b), Expected(c), Expected(d)]) == 142
  {
    FirstExample(a);
    SecondExample(b);
    ThirdExample(c);
    OnlyDigit(d, 4);
    ExampleSum([12, 38, 15, 77]);
  }

  lemma FirstExample(line: string)
    requires line == "1abc2"
    ensures Expected(line) == 12
  {
    FirstNonZeroAt(line, 0);
    LastDigitAt(line, 4);
  }

  lemma SecondExample(line: string)
    requires line == "pqr3stu8vwx"
    ensures Expected(line) == 38
  {
    FirstNonZeroAt(line, 3);
    LastDigitAt(line, 7);
  }

  lemma ThirdExample(line: string)
    requires line == "a1b2c3d4e5f"
    ensures Expected(line) == 15
  {
    FirstNonZeroAt(line, 1);
    LastDigitAt(line, 9);
  }

  lemma ExampleSum(vs: seq<int>)
    requires vs == [12, 38, 15, 77]
    ensures Sum(vs) == 142
  {
    assert Sum(vs[..1]) == 12 by { assert vs[..1][..0] == []; }
    assert Sum(vs[..2]) == 50 by { assert vs[..2][..1] == vs[..1]; }
    assert Sum(vs[..3]) == 65 by { assert vs[..3][..2] == vs[..2]; }
    assert vs[..3] == vs[..|vs| - 1];
  }
}
