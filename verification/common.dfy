/** Small shared vocabulary of the puzzle solutions: optional results,
    decimal digits, ASCII case folding, powers and sums. */
module Common {

  /** The optional value every solution uses for "no answer" and for a
      parse that would abort the program. */
  datatype Option<T> = None | Some(value: T)

  /** The outcome of a loop modelled with fuel: its result, or the fuel
      ran out (the program would still be looping), or the program
      panicked (an `unwrap` of nothing, an index out of range). */
  datatype Run<T> = Done(result: T) | OutOfFuel | Panic

  /** A decimal digit in the sense of `char::is_digit(10)`. */
  predicate IsDigit(c: char) {
    '0' <= c <= '9'
  }

  function DigitValue(c: char): (d: nat)
    requires IsDigit(c)
    ensures d < 10
    ensures c == "0123456789"[d]
  {
    c as int - '0' as int
  }

  /** The character of a decimal digit; the inverse of `DigitValue`. */
  function DigitChar(d: nat): (c: char)
    requires d < 10
    ensures IsDigit(c) && DigitValue(c) == d
  {
    "0123456789"[d]
  }

  /** `char::to_ascii_lowercase`: only 'A'..'Z' change. */
  function ToAsciiLower(c: char): (l: char)
    ensures 'A' <= c <= 'Z' ==> l as int == c as int + 32
    ensures !('A' <= c <= 'Z') ==> l == c
    ensures !('A' <= l <= 'Z')
  {
    if 'A' <= c <= 'Z' then (c as int + 32) as char else c
  }

  function Pow(b: nat, e: nat): (p: nat)
    ensures b > 0 ==> p > 0
  {
    if e == 0 then 1 else b * Pow(b, e - 1)
  }

  lemma PowMonotone(b: nat, e1: nat, e2: nat)
    requires b > 0 && e1 <= e2
    ensures Pow(b, e1) <= Pow(b, e2)
  {
    if e1 < e2 {
      PowMonotone(b, e1, e2 - 1);
    }
  }

  function Sum(xs: seq<int>): int {
    if |xs| == 0 then 0 else Sum(xs[..|xs| - 1]) + xs[|xs| - 1]
  }

  lemma {:induction false} SumAppend(a: seq<int>, b: seq<int>)
    ensures Sum(a + b) == Sum(a) + Sum(b)
    decreases |b|
  {
    if |b| == 0 {
      assert a + b == a;
    } else {
      assert (a + b)[..|a + b| - 1] == a + b[..|b| - 1];
      SumAppend(a, b[..|b| - 1]);
    }
  }

  lemma SumCons(x: int, xs: seq<int>)
    ensures Sum([x] + xs) == x + Sum(xs)
  {
    SumAppend([x], xs);
    assert Sum([x]) == Sum([]) + x;
  }

  lemma SumFront(xs: seq<int>)
    requires |xs| > 0
    ensures Sum(xs) == xs[0] + Sum(xs[1..])
  {
    assert xs == [xs[0]] + xs[1..];
    SumCons(xs[0], xs[1..]);
  }

  /** A sum of non-negative terms is at least each of them. */
  lemma {:induction false} SumAtLeastTerm(xs: seq<int>, i: nat)
    requires forall k :: 0 <= k < |xs| ==> xs[k] >= 0
    requires i < |xs|
    ensures Sum(xs) >= xs[i]
    decreases |xs|
  {
    SumNonNegative(xs[..|xs| - 1]);
    if i < |xs| - 1 {
      SumAtLeastTerm(xs[..|xs| - 1], i);
    }
  }

  lemma SumNonNegative(xs: seq<int>)
    requires forall i :: 0 <= i < |xs| ==> xs[i] >= 0
    ensures Sum(xs) >= 0
  {
    if |xs| > 0 {
      SumNonNegative(xs[..|xs| - 1]);
    }
  }

  /** All the values, if every element has one (collecting an iterator of
      results that aborts on the first failure). */
  function AllSome<T>(xs: seq<Option<T>>): (r: Option<seq<T>>)
    ensures r.Some? ==> |r.value| == |xs|
    ensures r.Some? ==> forall i :: 0 <= i < |xs| ==> xs[i] == Some(r.value[i])
    ensures r.None? <==> exists i :: 0 <= i < |xs| && xs[i].None?
  {
    if |xs| == 0 then Some([])
    else
      assert forall i :: 1 <= i < |xs| ==> xs[i] == xs[1..][i - 1];
      match (xs[0], AllSome(xs[1..]))
      case (Some(v), Some(rest)) => Some([v] + rest)
      case _ => None
  }

  /** The results of runs taken in order; the first run that does not
      finish decides the outcome. */
  function CollectRuns<T>(runs: seq<Run<T>>): (r: Run<seq<T>>)
    ensures r.Done? <==> forall i :: 0 <= i < |runs| ==> runs[i].Done?
    ensures r.Done? ==> |r.result| == |runs| && forall i :: 0 <= i < |runs| ==> runs[i] == Done(r.result[i])
    ensures !r.Done? ==> exists i :: 0 <= i < |runs| && !runs[i].Done? && (runs[i].Panic? <==> r.Panic?) &&
                                     forall j :: 0 <= j < i ==> runs[j].Done?
  {
    if |runs| == 0 then Done([])
    else
      var init := runs[..|runs| - 1];
      assert forall i :: 0 <= i < |init| ==> init[i] == runs[i];
      match CollectRuns(init)
      case OutOfFuel => OutOfFuel
      case Panic => Panic
      case Done(rs) =>
        match runs[|runs| - 1]
        case OutOfFuel => OutOfFuel
        case Panic => Panic
        case Done(x) => Done(rs + [x])
  }

  function Max(a: int, b: int): int {
    if a >= b then a else b
  }

  function Min(a: int, b: int): int {
    if a <= b then a else b
  }

  function Abs(x: int): nat {
    if x >= 0 then x else -x
  }

  /** The smallest element of a non-empty sequence (`Iterator::min`). */
  function MinOf(xs: seq<int>): (m: int)
    requires |xs| > 0
    ensures m in xs
    ensures forall i :: 0 <= i < |xs| ==> m <= xs[i]
  {
    if |xs| == 1 then xs[0] else Min(xs[0], MinOf(xs[1..]))
  }

  /** The largest element of a non-empty sequence (`Iterator::max`). */
  function MaxOf(xs: seq<int>): (m: int)
    requires |xs| > 0
    ensures m in xs
    ensures forall i :: 0 <= i < |xs| ==> xs[i] <= m
  {
    if |xs| == 1 then xs[0] else Max(xs[0], MaxOf(xs[1..]))
  }
}
