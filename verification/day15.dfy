/** Day 15: the HASH of a string folds its characters into one byte,
    `acc = ((acc + code) * 17) % 256`, where a character's code is the low
    byte of its ASCII-lowercased code point; the puzzle answer is the sum
    of the hashes of the comma-separated steps. */
module Day15 {
  import opened Common
  import opened Text

  /** `c.to_ascii_lowercase() as u8`: the cast keeps the low byte. */
  function ByteOf(c: char): (b: nat)
    ensures b < 256
    ensures 'a' <= c <= 'z' || !('A' <= c <= 'Z') ==> b == c as int % 256
  {
    (ToAsciiLower(c) as int) % 256
  }

  function Step(acc: nat, c: char): (r: nat)
    ensures r < 256
  {
    ((acc + ByteOf(c)) * 17) % 256
  }

  /** The fold over `s` from a given accumulator. */
  function HashFrom(acc: nat, s: string): (h: nat)
    ensures |s| > 0 ==> h < 256
    ensures |s| == 0 ==> h == acc
    decreases |s|
  {
    if |s| == 0 then acc else HashFrom(Step(acc, s[0]), s[1..])
  }

  /** `hash`. */
  function Hash(s: string): (h: nat)
    ensures h < 256
  {
    HashFrom(0, s)
  }

  /** Hashing a concatenation continues from the hash of the first part. */
  lemma {:induction false} HashFromAppend(acc: nat, a: string, b: string)
    ensures HashFrom(acc, a + b) == HashFrom(HashFrom(acc, a), b)
    decreases |a|
  {
    if |a| == 0 {
      assert a + b == b;
    } else {
      assert (a + b)[1..] == a[1..] + b;
      HashFromAppend(Step(acc, a[0]), a[1..], b);
    }
  }

  /** Characters with the same lower-case form hash alike, so the hash
      ignores ASCII case. */
  lemma {:induction false} HashIgnoresCase(acc: nat, s: string, t: string)
    requires |s| == |t|
    requires forall i :: 0 <= i < |s| ==> ToAsciiLower(s[i]) == ToAsciiLower(t[i])
    ensures HashFrom(acc, s) == HashFrom(acc, t)
    decreases |s|
  {
    if |s| > 0 {
      assert Step(acc, s[0]) == Step(acc, t[0]);
      HashIgnoresCase(Step(acc, s[0]), s[1..], t[1..]);
    }
  }

  /** The hash as a polynomial: sum of code_i * 17^(n - i), plus the start
      value times 17^n. */
  function Poly(acc: nat, s: string): nat
    decreases |s|
  {
    if |s| == 0 then acc else Poly(acc, s[..|s| - 1]) * 17 + ByteOf(s[|s| - 1]) * 17
  }

  lemma ModAddMultiple(a: nat, m: nat)
    ensures (a + 256 * m) % 256 == a % 256
  {
  }

  lemma ModStep(x: nat, b: nat)
    ensures ((x % 256 + b) * 17) % 256 == ((x + b) * 17) % 256
  {
    var q := x / 256;
    var r := x % 256;
    assert x == 256 * q + r;
    var m := 17 * q;
    assert (x + b) * 17 == (r + b) * 17 + 256 * m;
    ModAddMultiple((r + b) * 17, m);
  }

  lemma {:induction false} HashFromLast(acc: nat, s: string, c: char)
    ensures HashFrom(acc, s + [c]) == Step(HashFrom(acc, s), c)
  {
    HashFromAppend(acc, s, [c]);
    assert HashFrom(HashFrom(acc, s), [c]) == HashFrom(Step(HashFrom(acc, s), c), []);
  }

  /** The fold computes the polynomial modulo 256. */
  lemma {:induction false} HashIsPolynomial(acc: nat, s: string)
    requires acc < 256
    ensures HashFrom(acc, s) == Poly(acc, s) % 256
    decreases |s|
  {
    if |s| > 0 {
      var init := s[..|s| - 1];
      var c := s[|s| - 1];
      assert s == init + [c];
      HashIsPolynomial(acc, init);
      HashFromLast(acc, init, c);
      ModStep(Poly(acc, init), ByteOf(c));
    }
  }

  /** The hashes of the comma-separated steps, in order. */
  function Hashes(steps: seq<string>): (hs: seq<int>)
    ensures |hs| == |steps|
    ensures forall i :: 0 <= i < |steps| ==> hs[i] == Hash(steps[i])
  {
    seq(|steps|, i requires 0 <= i < |steps| => Hash(steps[i]) as int)
  }

  /** `sum_hashed`: each comma-separated step adds at most 255. */
  function SumHashed(input: string): (r: int)
    ensures 0 <= r <= 255 * |Split(input, ",")|
  {
    SumBelow(Hashes(Split(input, ",")));
    Sum(Hashes(Split(input, ",")))
  }

  lemma HashesAppend(a: seq<string>, b: seq<string>)
    ensures Hashes(a + b) == Hashes(a) + Hashes(b)
  {
  }

  /** Joining two inputs with a comma adds their sums. */
  lemma SumHashedAppend(a: string, b: string)
    ensures SumHashed(a + "," + b) == SumHashed(a) + SumHashed(b)
  {
    SplitAroundSeparator(a, ',', b);
    assert Split(a + "," + b, ",") == Split(a, ",") + Split(b, ",");
    HashesAppend(Split(a, ","), Split(b, ","));
    SumAppend(Hashes(Split(a, ",")), Hashes(Split(b, ",")));
  }

  /** A step without a comma contributes its own hash. */
  lemma SumHashedSingle(step: string)
    requires ',' !in step
    ensures SumHashed(step) == Hash(step)
  {
    forall j: nat
      ensures !OccursAt(step, ",", j)
    {
      OccursAtChar(step, ',', j);
    }
    SplitWithoutSeparator(step, ",");
    assert Hashes([step]) == [Hash(step) as int];
    assert Sum([Hash(step) as int]) == Sum([]) + Hash(step);
  }

  lemma {:induction false} SumBelow(xs: seq<int>)
    requires forall i :: 0 <= i < |xs| ==> 0 <= xs[i] < 256
    ensures 0 <= Sum(xs) <= 255 * |xs|
    decreases |xs|
  {
    if |xs| > 0 {
      SumBelow(xs[..|xs| - 1]);
    }
  }

  /** The first step of the puzzle's worked example hashes to 30. */
  lemma HashExample()
    ensures Hash("rn=1") == 30
  {
    var s := "rn=1";
    assert s[1..] == "n=1" && s[1..][1..] == "=1" && s[1..][1..][1..] == "1";
    assert Step(0, 'r') == 146;
    assert Step(146, 'n') == 0;
    assert Step(0, '=') == 13;
    assert Step(13, '1') == 30;
    assert HashFrom(30, "1"[1..]) == 30;
  }
}
