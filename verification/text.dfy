/** The string handling the solutions lean on: `split`, `split_once`,
    `split_whitespace`, `trim`, `lines` and decimal `parse`, each stated
    with the law that makes it trustworthy (a split joins back to its
    input, a printed number parses back to itself). */
module Text {
  import opened Common

  /** `sep` starts at index `i` of `s`. */
  predicate OccursAt(s: string, sep: string, i: nat) {
    i + |sep| <= |s| && s[i..i + |sep|] == sep
  }

  ghost predicate Contains(s: string, sep: string) {
    exists i: nat :: OccursAt(s, sep, i)
  }

  /** The first occurrence of `sep` at or after `from` (`str::find`). */
  function IndexFrom(s: string, sep: string, from: nat): (r: Option<nat>)
    requires from <= |s|
    ensures r.Some? ==> from <= r.value <= |s| && OccursAt(s, sep, r.value)
    ensures r.Some? ==> forall j: nat :: from <= j < r.value ==> !OccursAt(s, sep, j)
    ensures r.None? ==> forall j: nat :: from <= j ==> !OccursAt(s, sep, j)
    decreases |s| - from
  {
    if OccursAt(s, sep, from) then Some(from)
    else if from == |s| then None
    else IndexFrom(s, sep, from + 1)
  }

  function IndexOf(s: string, sep: string): (r: Option<nat>)
    ensures r.Some? ==> r.value <= |s| && OccursAt(s, sep, r.value)
    ensures r.Some? ==> forall j: nat :: j < r.value ==> !OccursAt(s, sep, j)
    ensures r.None? <==> !Contains(s, sep)
  {
    IndexFrom(s, sep, 0)
  }

  /** An occurrence inside a prefix is an occurrence in the whole text. */
  lemma OccursInPrefix(s: string, k: nat, sep: string, j: nat)
    requires k <= |s| && OccursAt(s[..k], sep, j)
    ensures OccursAt(s, sep, j)
  {
    assert s[j..j + |sep|] == s[..k][j..j + |sep|];
  }

  /** `str::split_once`: the text before and after the first occurrence. */
  function SplitOnce(s: string, sep: string): (r: Option<(string, string)>)
    requires |sep| > 0
    ensures r.Some? ==> s == r.value.0 + sep + r.value.1
    ensures r.Some? ==> forall j: nat :: !OccursAt(r.value.0, sep, j)
    ensures r.None? <==> !Contains(s, sep)
  {
    match IndexOf(s, sep)
    case None => None
    case Some(i) =>
      assert s == s[..i] + s[i..i + |sep|] + s[i + |sep|..];
      forall j: nat | OccursAt(s[..i], sep, j)
        ensures false
      {
        OccursInPrefix(s, i, sep, j);
      }
      Some((s[..i], s[i + |sep|..]))
  }

  /** Where the first occurrence is known, `SplitOnce` cuts there. */
  lemma SplitOnceAt(s: string, sep: string, i: nat)
    requires |sep| > 0 && OccursAt(s, sep, i)
    requires forall j: nat :: j < i ==> !OccursAt(s, sep, j)
    ensures SplitOnce(s, sep) == Some((s[..i], s[i + |sep|..]))
  {
    var r := IndexOf(s, sep);
    assert r.Some?;
    assert r.value == i;
  }

  lemma OccursAtChar(s: string, c: char, j: nat)
    ensures OccursAt(s, [c], j) <==> j < |s| && s[j] == c
  {
    if j < |s| {
      assert s[j..j + 1] == [s[j]];
    }
  }

  /** `str::split` on a non-empty separator: the text between successive
      non-overlapping occurrences, scanning left to right. */
  function Split(s: string, sep: string): (r: seq<string>)
    requires |sep| > 0
    ensures |r| >= 1
    ensures Join(r, sep) == s
    ensures forall k :: 0 <= k < |r| ==> !Contains(r[k], sep)
    decreases |s|
  {
    match SplitOnce(s, sep)
    case None => [s]
    case Some((before, after)) =>
      var rest := Split(after, sep);
      assert ([before] + rest)[1..] == rest;
      [before] + rest
  }

  /** The inverse of `Split`: the pieces glued back with the separator. */
  function Join(parts: seq<string>, sep: string): string
    requires |parts| >= 1
  {
    if |parts| == 1 then parts[0] else parts[0] + sep + Join(parts[1..], sep)
  }

  /** Splitting text glued at a single-character separator splits both
      halves independently. */
  lemma {:induction false} SplitAroundSeparator(a: string, sep: char, b: string)
    ensures Split(a + [sep] + b, [sep]) == Split(a, [sep]) + Split(b, [sep])
    decreases |a|
  {
    if sep in a {
      var i := FirstIndex(a, sep);
      var rest := a[i + 1..];
      FirstSplitAt(a, sep, i);
      FirstSplitOfGlued(a, sep, b, i);
      SplitAroundSeparator(rest, sep, b);
      Regroup(Split(a + [sep] + b, [sep]), Split(a, [sep]), Split(rest + [sep] + b, [sep]),
              a[..i], Split(rest, [sep]), Split(b, [sep]));
    } else {
      SplitAtLastSeparator(a, sep, b);
    }
  }

  lemma FirstSplitOfGlued(a: string, sep: char, b: string, i: nat)
    requires i < |a| && a[i] == sep && sep !in a[..i]
    ensures Split(a + [sep] + b, [sep]) == [a[..i]] + Split(a[i + 1..] + [sep] + b, [sep])
  {
    var rest := a[i + 1..] + [sep] + b;
    assert a == a[..i] + [sep] + a[i + 1..];
    assert a + [sep] + b == a[..i] + [sep] + rest;
    SplitOnceOfGlued(a[..i], [sep], rest, 0);
  }

  lemma Regroup(whole: seq<string>, left: seq<string>, tail: seq<string>,
                 head: string, middle: seq<string>, right: seq<string>)
    requires whole == [head] + tail && tail == middle + right && left == [head] + middle
    ensures whole == left + right
  {
  }

  /** Cutting at the first occurrence `i` of a one-character separator. */
  lemma FirstSplitAt(s: string, sep: char, i: nat)
    requires i < |s| && s[i] == sep && sep !in s[..i]
    ensures Split(s, [sep]) == [s[..i]] + Split(s[i + 1..], [sep])
  {
    OccursAtChar(s, sep, i);
    forall j: nat | j < i
      ensures !OccursAt(s, [sep], j)
    {
      OccursAtChar(s, sep, j);
      if j < |s| {
        assert s[..i][j] == s[j];
      }
    }
    SplitOnceAt(s, [sep], i);
  }

  lemma SplitAtLastSeparator(a: string, sep: char, b: string)
    requires sep !in a
    ensures Split(a + [sep] + b, [sep]) == Split(a, [sep]) + Split(b, [sep])
  {
    var s := a + [sep] + b;
    assert s[|a|] == sep && s[..|a|] == a;
    FirstSplitAt(s, sep, |a|);
    assert s[|a| + 1..] == b;
    forall j: nat
      ensures !OccursAt(a, [sep], j)
    {
      OccursAtChar(a, sep, j);
    }
    assert Split(a, [sep]) == [a];
  }

  function FirstIndex(s: string, c: char): (i: nat)
    requires c in s
    ensures i < |s| && s[i] == c && c !in s[..i]
  {
    if s[0] == c then 0 else 1 + FirstIndex(s[1..], c)
  }

  /** Text without the separator is a single field. */
  lemma SplitWithoutSeparator(s: string, sep: string)
    requires |sep| > 0 && !Contains(s, sep)
    ensures Split(s, sep) == [s]
  {
  }

  /** Rust's `char::is_whitespace` restricted to ASCII. */
  predicate IsWhitespace(c: char) {
    c == ' ' || c == '\t' || c == '\n' || c == '\r' || c == '\U{B}' || c == '\U{C}'
  }

  predicate NoWhitespace(s: string) {
    forall i :: 0 <= i < |s| ==> !IsWhitespace(s[i])
  }

  /** Length of the leading run of non-whitespace characters. */
  function WordLength(s: string): (n: nat)
    ensures n <= |s|
    ensures NoWhitespace(s[..n])
    ensures n < |s| ==> IsWhitespace(s[n])
  {
    if |s| == 0 || IsWhitespace(s[0]) then 0
    else
      var n := 1 + WordLength(s[1..]);
      assert s[..n] == [s[0]] + s[1..][..n - 1];
      n
  }

  /** `str::split_whitespace`: the maximal runs of non-whitespace. */
  function Words(s: string): (ws: seq<string>)
    ensures forall k :: 0 <= k < |ws| ==> |ws[k]| > 0 && NoWhitespace(ws[k])
    decreases |s|
  {
    if |s| == 0 then []
    else if IsWhitespace(s[0]) then Words(s[1..])
    else
      var n := WordLength(s);
      [s[..n]] + Words(s[n..])
  }

  /** Words joined by single spaces. */
  function Unwords(ws: seq<string>): string {
    if |ws| == 0 then ""
    else if |ws| == 1 then ws[0]
    else ws[0] + " " + Unwords(ws[1..])
  }

  lemma WordLengthOfWord(w: string, rest: string)
    requires NoWhitespace(w)
    requires |rest| == 0 || IsWhitespace(rest[0])
    ensures WordLength(w + rest) == |w|
  {
    if |w| > 0 {
      assert (w + rest)[1..] == w[1..] + rest;
      WordLengthOfWord(w[1..], rest);
    }
  }

  /** Splitting printed words on whitespace gives the words back. */
  lemma {:induction false} WordsOfUnwords(ws: seq<string>)
    requires forall k :: 0 <= k < |ws| ==> |ws[k]| > 0 && NoWhitespace(ws[k])
    ensures Words(Unwords(ws)) == ws
  {
    if |ws| == 1 {
      WordLengthOfWord(ws[0], "");
      assert ws[0] + "" == ws[0];
      assert ws[0][|ws[0]|..] == [];
    } else if |ws| > 1 {
      var rest := " " + Unwords(ws[1..]);
      var s := ws[0] + rest;
      assert Unwords(ws) == s;
      WordLengthOfWord(ws[0], rest);
      assert s[..|ws[0]|] == ws[0];
      assert s[|ws[0]|..] == rest;
      assert rest[1..] == Unwords(ws[1..]);
      WordsOfUnwords(ws[1..]);
    }
  }

  /** `str::trim`: drops leading and trailing whitespace. */
  function TrimStart(s: string): (t: string)
    ensures |t| <= |s| && t == s[|s| - |t|..]
    ensures |t| > 0 ==> !IsWhitespace(t[0])
    ensures forall i :: 0 <= i < |s| - |t| ==> IsWhitespace(s[i])
  {
    if |s| > 0 && IsWhitespace(s[0]) then TrimStart(s[1..]) else s
  }

  function TrimEnd(s: string): (t: string)
    ensures |t| <= |s| && t == s[..|t|]
    ensures |t| > 0 ==> !IsWhitespace(t[|t| - 1])
    ensures forall i :: |t| <= i < |s| ==> IsWhitespace(s[i])
  {
    if |s| > 0 && IsWhitespace(s[|s| - 1]) then TrimEnd(s[..|s| - 1]) else s
  }

  function Trim(s: string): string {
    TrimEnd(TrimStart(s))
  }

  /** Only `'\n'`-separated pieces, with the carriage return of a `"\r\n"`
      ending removed and no empty piece after a final line ending
      (`str::lines`). */
  function Lines(s: string): (ls: seq<string>)
    ensures s == "" ==> ls == []
  {
    if s == "" then [] else LinesOfPieces(Split(s, "\n"))
  }

  /** The `'\n'`-separated pieces of a non-empty text as lines: a final
      empty piece is no line, and the other pieces lose a final `'\r'`. */
  function LinesOfPieces(pieces: seq<string>): seq<string>
    requires |pieces| >= 1
  {
    var last := pieces[|pieces| - 1];
    var ended := pieces[..|pieces| - 1];
    var stripped := seq(|ended|, i requires 0 <= i < |ended| => StripCarriageReturn(ended[i]));
    if last == "" then stripped else stripped + [last]
  }

  function StripCarriageReturn(line: string): string {
    if |line| > 0 && line[|line| - 1] == '\r' then line[..|line| - 1] else line
  }

  // ---------------------------------------------------------------------
  // Decimal numbers

  predicate AllDigits(s: string) {
    forall i :: 0 <= i < |s| ==> IsDigit(s[i])
  }

  /** The value of a run of decimal digits, most significant first. */
  function DigitsValue(s: string): nat
    requires AllDigits(s)
  {
    if |s| == 0 then 0 else DigitsValue(s[..|s| - 1]) * 10 + DigitValue(s[|s| - 1])
  }

  /** `str::parse::<u64>()` / `u64::from_str_radix(_, 10)` without the
      overflow check: an optional '+' followed by at least one digit. */
  function ParseNat(s: string): Option<nat> {
    var body := if |s| > 0 && s[0] == '+' then s[1..] else s;
    if |body| > 0 && AllDigits(body) then Some(DigitsValue(body)) else None
  }

  /** `str::parse::<i64>()` without the overflow check. */
  function ParseInt(s: string): Option<int> {
    if |s| > 0 && s[0] == '-' then
      (if |s| > 1 && AllDigits(s[1..]) then Some(-(DigitsValue(s[1..]) as int)) else None)
    else
      match ParseNat(s)
      case None => None
      case Some(n) => Some(n as int)
  }

  /** The decimal spelling of a natural number (`u64::to_string`). */
  function NatToString(n: nat): (s: string)
    ensures |s| > 0 && AllDigits(s)
    ensures s[0] == '0' ==> n == 0
  {
    if n < 10 then [DigitChar(n)] else NatToString(n / 10) + [DigitChar(n % 10)]
  }

  lemma {:induction false} DigitsValueOfNatToString(n: nat)
    ensures DigitsValue(NatToString(n)) == n
  {
    if n >= 10 {
      var s := NatToString(n);
      assert s[..|s| - 1] == NatToString(n / 10);
      DigitsValueOfNatToString(n / 10);
    }
  }

  /** Printing a number and parsing it back is the identity. */
  lemma ParseNatOfNatToString(n: nat)
    ensures ParseNat(NatToString(n)) == Some(n)
  {
    DigitsValueOfNatToString(n);
  }

  lemma ParseIntOfNatToString(n: nat)
    ensures ParseInt(NatToString(n)) == Some(n as int)
  {
    ParseNatOfNatToString(n);
  }

  lemma ParseIntOfNegative(n: nat)
    requires n > 0
    ensures ParseInt("-" + NatToString(n)) == Some(-(n as int))
  {
    var s := "-" + NatToString(n);
    assert s[1..] == NatToString(n);
    DigitsValueOfNatToString(n);
  }

  /** Printed numbers carry no separator characters, so they survive a split. */
  lemma NatToStringHasNo(n: nat, c: char)
    requires !IsDigit(c)
    ensures !Contains(NatToString(n), [c])
  {
    var s := NatToString(n);
    forall j: nat
      ensures !OccursAt(s, [c], j)
    {
      OccursAtChar(s, c, j);
    }
  }

  /** `split_once` on text glued around a separator cuts at the glue when
      some character of the separator cannot occur earlier: it is absent
      from `a` and differs from the separator characters before it. */
  lemma SplitOnceOfGlued(a: string, sep: string, b: string, k: nat)
    requires |sep| > 0 && k < |sep|
    requires sep[k] !in a
    requires forall i :: 0 <= i < k ==> sep[i] != sep[k]
    ensures SplitOnce(a + sep + b, sep) == Some((a, b))
  {
    var s := a + sep + b;
    assert OccursAt(s, sep, |a|) by {
      assert s[|a|..|a| + |sep|] == sep;
    }
    forall j: nat | j < |a|
      ensures !OccursAt(s, sep, j)
    {
      if j + |sep| <= |s| {
        assert s[j + k] != sep[k] by {
          if j + k < |a| {
            assert s[j + k] == a[j + k];
          } else {
            assert s[j + k] == sep[j + k - |a|];
          }
        }
        assert s[j..j + |sep|][k] == s[j + k];
      }
    }
    SplitOnceAt(s, sep, |a|);
    assert s[..|a|] == a && s[|a| + |sep|..] == b;
  }

  lemma TrimOfWord(w: string)
    requires NoWhitespace(w)
    ensures Trim(w) == w
  {
  }

  /** A character that is not a space and occurs in none of the words
      does not occur in the words joined by spaces. */
  lemma {:induction false} UnwordsAvoids(ws: seq<string>, c: char)
    requires c != ' '
    requires forall k :: 0 <= k < |ws| ==> c !in ws[k]
    ensures c !in Unwords(ws)
  {
    if |ws| > 1 {
      UnwordsAvoids(ws[1..], c);
    }
  }

  /** Numbers printed in decimal and joined by single spaces. */
  function NatsToString(ns: seq<nat>): string {
    Unwords(seq(|ns|, i requires 0 <= i < |ns| => NatToString(ns[i])))
  }

  /** Whitespace-separated decimal numbers; any word that does not parse
      makes the whole list fail, as `collect` of `parse().expect` would
      abort. */
  function ParseNats(s: string): (r: Option<seq<nat>>)
    ensures r.Some? ==> |r.value| == |Words(s)|
  {
    var ws := Words(s);
    AllSome(seq(|ws|, i requires 0 <= i < |ws| => ParseNat(ws[i])))
  }

  /** Printed numbers parse back to themselves. */
  lemma ParseNatsOfNatsToString(ns: seq<nat>)
    ensures ParseNats(NatsToString(ns)) == Some(ns)
  {
    var ws := seq(|ns|, i requires 0 <= i < |ns| => NatToString(ns[i]));
    forall k | 0 <= k < |ws|
      ensures |ws[k]| > 0 && NoWhitespace(ws[k])
    {
      assert AllDigits(ws[k]);
    }
    WordsOfUnwords(ws);
    var ps := seq(|ws|, i requires 0 <= i < |ws| => ParseNat(ws[i]));
    forall k | 0 <= k < |ws|
      ensures ps[k] == Some(ns[k])
    {
      ParseNatOfNatToString(ns[k]);
    }
    var r := AllSome(ps);
    assert r.Some?;
    assert r.value == ns;
  }

  /** Printed numbers hold only digits and spaces. */
  lemma NatsToStringHasNo(ns: seq<nat>, c: char)
    requires !IsDigit(c) && c != ' '
    ensures c !in NatsToString(ns)
  {
    var ws := seq(|ns|, i requires 0 <= i < |ns| => NatToString(ns[i]));
    forall k | 0 <= k < |ws|
      ensures c !in ws[k]
    {
      assert AllDigits(ws[k]);
    }
    UnwordsAvoids(ws, c);
  }

  /** Joined parts split back apart when some character of the separator
      occurs in no part and differs from the separator characters before
      it. */
  lemma {:induction false} SplitOfJoin(parts: seq<string>, sep: string, k: nat)
    requires |parts| >= 1 && |sep| > 0 && k < |sep|
    requires forall j :: 0 <= j < |parts| ==> sep[k] !in parts[j]
    requires forall i :: 0 <= i < k ==> sep[i] != sep[k]
    ensures Split(Join(parts, sep), sep) == parts
  {
    if |parts| == 1 {
      AbsentCharNotContained(parts[0], sep, k);
      SplitWithoutSeparator(parts[0], sep);
    } else {
      var rest := Join(parts[1..], sep);
      SplitOnceOfGlued(parts[0], sep, rest, k);
      SplitAtFirst(Join(parts, sep), sep, parts[0], rest);
      SplitOfJoin(parts[1..], sep, k);
      assert parts == [parts[0]] + parts[1..];
    }
  }

  /** Three fields joined by a separator, written out. */
  lemma JoinThree(a: string, b: string, c: string, sep: string)
    ensures Join([a, b, c], sep) == a + sep + b + sep + c
  {
    assert [a, b, c][1..] == [b, c] && [b, c][1..] == [c];
    assert Join([c], sep) == c;
    assert Join([b, c], sep) == b + sep + c;
  }

  /** `Split` keeps the text before the first separator and splits on. */
  lemma SplitAtFirst(s: string, sep: string, before: string, after: string)
    requires |sep| > 0 && SplitOnce(s, sep) == Some((before, after))
    ensures Split(s, sep) == [before] + Split(after, sep)
  {
  }

  /** Text lacking one character of a separator does not contain it. */
  lemma AbsentCharNotContained(s: string, sep: string, k: nat)
    requires k < |sep| && sep[k] !in s
    ensures !Contains(s, sep)
  {
    forall j: nat
      ensures !OccursAt(s, sep, j)
    {
      if j + |sep| <= |s| {
        assert s[j..j + |sep|][k] == s[j + k];
      }
    }
  }

  /** A joined text ends with its last part. */
  lemma {:induction false} JoinEndsWithLast(parts: seq<string>, sep: string)
    requires |parts| >= 1
    ensures |Join(parts, sep)| >= |parts[|parts| - 1]|
  {
    if |parts| > 1 {
      JoinEndsWithLast(parts[1..], sep);
    }
  }

  /** Lines without line breaks or a final carriage return, the last one
      not empty, come back from their `'\n'`-joined text. */
  lemma LinesOfJoin(ls: seq<string>)
    requires |ls| >= 1 && ls[|ls| - 1] != ""
    requires forall j :: 0 <= j < |ls| ==> '\n' !in ls[j]
    requires forall j :: 0 <= j < |ls| ==> |ls[j]| == 0 || ls[j][|ls[j]| - 1] != '\r'
    ensures Lines(Join(ls, "\n")) == ls
  {
    SplitOfJoin(ls, "\n", 0);
    JoinEndsWithLast(ls, "\n");
    PiecesAreLines(ls);
  }

  lemma PiecesAreLines(ls: seq<string>)
    requires |ls| >= 1 && ls[|ls| - 1] != ""
    requires forall j :: 0 <= j < |ls| ==> |ls[j]| == 0 || ls[j][|ls[j]| - 1] != '\r'
    ensures LinesOfPieces(ls) == ls
  {
    var ended := ls[..|ls| - 1];
    StripNothing(ended);
    assert ended + [ls[|ls| - 1]] == ls;
  }

  lemma StripNothing(ls: seq<string>)
    requires forall j :: 0 <= j < |ls| ==> |ls[j]| == 0 || ls[j][|ls[j]| - 1] != '\r'
    ensures seq(|ls|, i requires 0 <= i < |ls| => StripCarriageReturn(ls[i])) == ls
  {
  }
}
