/**
 * The pieces of Python's string handling that the codecs rely on, on ASCII text:
 * the character classes of the regular expressions (`\d`, `\s`, `\w`, `[a-zA-Z]`),
 * `str(n)` and `int(s)` for natural numbers, `strip`, `rstrip`, `split`, `join`,
 * `lower`, repetition `s * n` and the substring test `t in s`.
 */
module Text {
  import opened Common

  /** `\d` on ASCII input. */
  predicate IsDigit(c: char) { '0' <= c <= '9' }

  /**
   * `\s`, and what `str.strip()` and `int()` skip, on ASCII input: space, tab,
   * line feed, vertical tab, form feed, carriage return and the four separators 0x1C-0x1F.
   */
  predicate IsSpace(c: char) { c == ' ' || '\t' <= c <= '\r' || '\U{1C}' <= c <= '\U{1F}' }

  /** `[a-zA-Z]`. */
  predicate IsLetter(c: char) { 'a' <= c <= 'z' || 'A' <= c <= 'Z' }

  /** `\w` on ASCII input. */
  predicate IsWordChar(c: char) { IsLetter(c) || IsDigit(c) || c == '_' }

  predicate AllDigits(s: string) { forall k :: 0 <= k < |s| ==> IsDigit(s[k]) }

  /** The end of the longest run of characters satisfying `p` that starts at `i`. */
  function SpanFrom(s: string, i: nat, p: char -> bool): (j: nat)
    requires i <= |s|
    ensures i <= j <= |s|
    decreases |s| - i
  {
    if i < |s| && p(s[i]) then SpanFrom(s, i + 1, p) else i
  }

  /** Every character of the run satisfies `p`, and the one after it does not. */
  lemma {:induction false} SpanRun(s: string, i: nat, p: char -> bool)
    requires i <= |s|
    ensures var j := SpanFrom(s, i, p);
            && (forall k :: i <= k < j ==> p(s[k]))
            && (j == |s| || !p(s[j]))
    decreases |s| - i
  {
    if i < |s| && p(s[i]) {
      SpanRun(s, i + 1, p);
    }
  }

  /** A run is maximal when it ends at the end of the text or before a character outside it. */
  lemma {:induction false} SpanExact(s: string, i: nat, j: nat, p: char -> bool)
    requires i <= j <= |s|
    requires forall k :: i <= k < j ==> p(s[k])
    requires j == |s| || !p(s[j])
    ensures SpanFrom(s, i, p) == j
    decreases j - i
  {
    if i < j {
      SpanExact(s, i + 1, j, p);
    }
  }

  /** `$` without MULTILINE: the end of the string, or just before a final line feed. */
  predicate AtEnd(s: string, i: nat) {
    i == |s| || (i + 1 == |s| && s[i] == '\n')
  }

  // ---------------------------------------------------------------------------
  // Decimal numerals: str(n) and int(s)

  function DigitChar(d: nat): (c: char)
    requires d < 10
    ensures IsDigit(c)
  {
    ('0' as int + d) as char
  }

  function DigitValue(c: char): (d: nat)
    requires IsDigit(c)
    ensures d < 10 && DigitChar(d) == c
  {
    c as int - '0' as int
  }

  /** The value of a string of decimal digits, most significant first ("" is 0). */
  function DecimalValue(s: string): nat
    requires AllDigits(s)
  {
    if s == [] then 0 else DecimalValue(s[..|s| - 1]) * 10 + DigitValue(s[|s| - 1])
  }

  /** `str(n)` for a natural number: its decimal numeral without leading zeros. */
  function Decimal(n: nat): (s: string)
    ensures |s| > 0 && AllDigits(s)
    ensures |s| > 1 ==> s[0] != '0'
  {
    if n < 10 then [DigitChar(n)] else Decimal(n / 10) + [DigitChar(n % 10)]
  }

  /** Reading back a rendered numeral gives the number. */
  lemma {:induction false} DecimalRoundTrip(n: nat)
    ensures DecimalValue(Decimal(n)) == n
  {
    if n >= 10 {
      DecimalRoundTrip(n / 10);
      var s := Decimal(n);
      assert s[..|s| - 1] == Decimal(n / 10);
    }
  }

  /** A numeral without leading zeros is the rendering of its value. */
  lemma {:induction false} DecimalCanonical(s: string)
    requires |s| > 0 && AllDigits(s) && (|s| > 1 ==> s[0] != '0')
    ensures Decimal(DecimalValue(s)) == s
  {
    var init := s[..|s| - 1];
    var last := DigitValue(s[|s| - 1]);
    if |s| == 1 {
      assert DecimalValue(s) == last by { assert init == []; }
    } else {
      assert init[0] == s[0];
      DecimalCanonical(init);
      NonZeroNumeral(init);
      var n := DecimalValue(s);
      assert n == DecimalValue(init) * 10 + last;
      assert n / 10 == DecimalValue(init) && n % 10 == last;
      assert s == init + [s[|s| - 1]];
    }
  }

  lemma {:induction false} NonZeroNumeral(s: string)
    requires |s| > 0 && AllDigits(s) && s[0] != '0'
    ensures DecimalValue(s) >= 1
  {
    if |s| > 1 {
      assert s[..|s| - 1][0] == s[0];
      NonZeroNumeral(s[..|s| - 1]);
    } else {
      assert s[..|s| - 1] == [];
    }
  }

  /** Python's `str.strip()`: whitespace removed from both ends. */
  function Strip(s: string): string {
    TrimEnd(s[SpanFrom(s, 0, IsSpace)..], IsSpace)
  }

  /** `strip` keeps a slice of its argument with only whitespace around it, and no whitespace at its ends. */
  lemma StripShape(s: string)
    ensures exists i, j :: 0 <= i <= j <= |s| && Strip(s) == s[i..j]
                           && (forall k :: 0 <= k < i ==> IsSpace(s[k]))
                           && (forall k :: j <= k < |s| ==> IsSpace(s[k]))
    ensures Strip(s) != [] ==> !IsSpace(Strip(s)[0]) && !IsSpace(Strip(s)[|Strip(s)| - 1])
  {
    var i := SpanFrom(s, 0, IsSpace);
    SpanRun(s, 0, IsSpace);
    var t := s[i..];
    var r := TrimEnd(t, IsSpace);
    assert r == s[i..i + |r|];
    forall k | i + |r| <= k < |s| ensures IsSpace(s[k]) {
      assert s[k] == t[k - i];
    }
    if r != [] {
      assert r[0] == s[i];
    }
  }

  /** Text that neither starts nor ends with whitespace is left alone by `strip`. */
  lemma StripUnpadded(s: string)
    requires s != [] && !IsSpace(s[0]) && !IsSpace(s[|s| - 1])
    ensures Strip(s) == s
  {
    SpanExact(s, 0, 0, IsSpace);
    assert s[0..] == s;
  }

  /** Text made only of whitespace. */
  predicate AllSpace(s: string) { forall k :: 0 <= k < |s| ==> IsSpace(s[k]) }

  /** `strip` removes exactly the whitespace padding around text that neither starts nor ends with whitespace. */
  lemma StripPadded(a: string, t: string, b: string)
    requires AllSpace(a) && AllSpace(b)
    requires t != [] && !IsSpace(t[0]) && !IsSpace(t[|t| - 1])
    ensures Strip(a + t + b) == t
  {
    var s := a + t + b;
    assert s[|a|] == t[0];
    SpanExact(s, 0, |a|, IsSpace);
    assert s[|a|..] == t + b;
    TrimEndPadded(t, b, IsSpace);
  }

  /** Trimming a suffix of characters satisfying `p` from text whose last character does not. */
  lemma {:induction false} TrimEndPadded(t: string, b: string, p: char -> bool)
    requires t != [] && !p(t[|t| - 1])
    requires forall k :: 0 <= k < |b| ==> p(b[k])
    ensures TrimEnd(t + b, p) == t
    decreases |b|
  {
    if b == [] {
      assert t + b == t;
    } else {
      var s := t + b;
      assert s[|s| - 1] == b[|b| - 1];
      assert s[..|s| - 1] == t + b[..|b| - 1];
      TrimEndPadded(t, b[..|b| - 1], p);
    }
  }

  /** `rstrip(c)` removes one trailing copy of `c` from text that does not otherwise end with it. */
  lemma RStripLast(s: string, c: char)
    requires s == [] || s[|s| - 1] != c
    ensures RStrip(s + [c], c) == s && RStrip(s, c) == s
  {
    assert (s + [c])[..|s|] == s;
  }

  /** The longest prefix of `s` that does not end with a character satisfying `p`. */
  function TrimEnd(s: string, p: char -> bool): (r: string)
    ensures r <= s
    ensures forall k :: |r| <= k < |s| ==> p(s[k])
    ensures r != [] ==> !p(r[|r| - 1])
  {
    if s != [] && p(s[|s| - 1]) then TrimEnd(s[..|s| - 1], p) else s
  }

  /** Python's `s.rstrip(c)` for a one-character argument. */
  function RStrip(s: string, c: char): (r: string)
    ensures r <= s
    ensures forall k :: |r| <= k < |s| ==> s[k] == c
    ensures r != [] ==> r[|r| - 1] != c
  {
    TrimEnd(s, x => x == c)
  }

  /** Python's `sep.join(parts)`. */
  function Join(sep: string, parts: seq<string>): string
  {
    if |parts| == 0 then ""
    else if |parts| == 1 then parts[0]
    else parts[0] + sep + Join(sep, parts[1..])
  }

  /** Python's `s.split(sep)` for a one-character separator. */
  function Split(s: string, sep: char): (parts: seq<string>)
    ensures |parts| >= 1
  {
    SplitFrom(s, sep, 0)
  }

  /** The pieces of `s[i..]` between occurrences of `sep`. */
  function SplitFrom(s: string, sep: char, i: nat): (parts: seq<string>)
    requires i <= |s|
    ensures |parts| >= 1
    decreases |s| - i
  {
    var j := SpanFrom(s, i, c => c != sep);
    if j == |s| then [s[i..]] else [s[i..j]] + SplitFrom(s, sep, j + 1)
  }

  /** `split` cuts its argument into separator-free pieces that join back to it. */
  lemma SplitPieces(s: string, sep: char)
    ensures var parts := Split(s, sep);
            && (forall i :: 0 <= i < |parts| ==> sep !in parts[i])
            && Join([sep], parts) == s
  {
    SplitFromPieces(s, sep, 0);
    assert s[0..] == s;
  }

  lemma SplitFromPieces(s: string, sep: char, i: nat)
    requires i <= |s|
    ensures var parts := SplitFrom(s, sep, i);
            && (forall k :: 0 <= k < |parts| ==> sep !in parts[k])
            && Join([sep], parts) == s[i..]
  {
    SplitFromFree(s, sep, i);
    SplitFromJoin(s, sep, i);
  }

  lemma {:induction false} SplitFromFree(s: string, sep: char, i: nat)
    requires i <= |s|
    ensures forall k :: 0 <= k < |SplitFrom(s, sep, i)| ==> sep !in SplitFrom(s, sep, i)[k]
    decreases |s| - i
  {
    var j := SpanFrom(s, i, c => c != sep);
    SpanRun(s, i, c => c != sep);
    if j < |s| {
      SplitFromFree(s, sep, j + 1);
      var rest := SplitFrom(s, sep, j + 1);
      assert sep !in s[i..j];
      assert SplitFrom(s, sep, i) == [s[i..j]] + rest;
      assert forall k :: 1 <= k < |rest| + 1 ==> ([s[i..j]] + rest)[k] == rest[k - 1];
    } else {
      assert sep !in s[i..];
    }
  }

  lemma {:induction false} SplitFromJoin(s: string, sep: char, i: nat)
    requires i <= |s|
    ensures Join([sep], SplitFrom(s, sep, i)) == s[i..]
    decreases |s| - i
  {
    var j := SpanFrom(s, i, c => c != sep);
    SpanRun(s, i, c => c != sep);
    if j < |s| {
      SplitFromJoin(s, sep, j + 1);
      var rest := SplitFrom(s, sep, j + 1);
      assert SplitFrom(s, sep, i) == [s[i..j]] + rest;
      JoinCons([sep], s[i..j], rest);
      SliceAround(s, i, j);
    }
  }

  /** The text from i on, cut around position j. */
  lemma SliceAround(s: string, i: nat, j: nat)
    requires i <= j < |s|
    ensures s[i..] == s[i..j] + [s[j]] + s[j + 1..]
  {
  }

  /** Joining a head and a non-empty tail: the head, the separator, the tail joined. */
  lemma JoinCons(sep: string, a: string, rest: seq<string>)
    requires |rest| >= 1
    ensures Join(sep, [a] + rest) == a + sep + Join(sep, rest)
  {
    assert ([a] + rest)[1..] == rest;
  }

  /** No two different lists of separator-free pieces join to the same text. */
  lemma {:induction false} JoinInjective(parts: seq<string>, others: seq<string>, sep: char)
    requires |parts| >= 1 && |others| >= 1
    requires forall i :: 0 <= i < |parts| ==> sep !in parts[i]
    requires forall i :: 0 <= i < |others| ==> sep !in others[i]
    requires Join([sep], parts) == Join([sep], others)
    ensures parts == others
  {
    var s := Join([sep], parts);
    JoinHasSeparator(parts, sep);
    JoinHasSeparator(others, sep);
    if |parts| > 1 {
      var a, b := parts[0], others[0];
      assert s == a + [sep] + Join([sep], parts[1..]);
      assert s == b + [sep] + Join([sep], others[1..]);
      assert forall k :: 0 <= k < |a| ==> s[k] != sep;
      assert forall k :: 0 <= k < |b| ==> s[k] != sep;
      assert s[|a|] == sep && s[|b|] == sep;
      assert |a| == |b|;
      assert a == s[..|a|] == b;
      assert Join([sep], parts[1..]) == s[|a| + 1..] == Join([sep], others[1..]);
      JoinInjective(parts[1..], others[1..], sep);
    }
  }

  /** A join of separator-free pieces contains the separator exactly when there are two pieces or more. */
  lemma JoinHasSeparator(parts: seq<string>, sep: char)
    requires |parts| >= 1
    requires forall i :: 0 <= i < |parts| ==> sep !in parts[i]
    ensures sep in Join([sep], parts) <==> |parts| > 1
  {
    if |parts| > 1 {
      assert Join([sep], parts)[|parts[0]|] == sep;
    }
  }

  /** Splitting a join recovers the parts when no part contains the separator. */
  lemma SplitJoin(parts: seq<string>, sep: char)
    requires |parts| >= 1
    requires forall i :: 0 <= i < |parts| ==> sep !in parts[i]
    ensures Split(Join([sep], parts), sep) == parts
  {
    SplitPieces(Join([sep], parts), sep);
    JoinInjective(Split(Join([sep], parts), sep), parts, sep);
  }

  /** Python's `int(s)` on text made of digits and whitespace, the only text it is given here. */
  function ParseInt(s: string): (r: Result<nat>)
    ensures r.Ok? <==> Strip(s) != [] && AllDigits(Strip(s))
    ensures r.Ok? ==> r.value == DecimalValue(Strip(s))
    ensures r.Err? ==> r.error == InvalidLiteral(s)
  {
    var t := Strip(s);
    if t != [] && AllDigits(t) then Ok(DecimalValue(t)) else Err(InvalidLiteral(s))
  }

  /** `int` reads a numeral with whitespace around it as the number it denotes. */
  lemma ParseIntPadded(a: string, n: nat, b: string)
    requires AllSpace(a) && AllSpace(b)
    ensures ParseInt(a + Decimal(n) + b) == Ok(n)
  {
    var d := Decimal(n);
    assert !IsSpace(d[0]) && !IsSpace(d[|d| - 1]);
    StripPadded(a, d, b);
    DecimalRoundTrip(n);
  }

  /** `int` rejects text that is blank, or whose stripped form holds a character other than a digit. */
  lemma ParseIntRejects(s: string)
    requires Strip(s) == [] || exists k :: 0 <= k < |Strip(s)| && !IsDigit(Strip(s)[k])
    ensures ParseInt(s) == Err(InvalidLiteral(s))
  {
  }

  /** `tuple(map(int, pieces))`: every piece converted, the first failure reported. */
  function ParseInts(pieces: seq<string>): (r: Result<seq<nat>>)
    ensures r.Ok? ==> |r.value| == |pieces|
  {
    if pieces == [] then Ok([])
    else
      var head :- ParseInt(pieces[0]);
      var tail :- ParseInts(pieces[1..]);
      Ok([head] + tail)
  }

  /** When every piece converts, the result holds the numbers the pieces denote, in order. */
  lemma {:induction false} ParseIntsOk(pieces: seq<string>)
    requires ParseInts(pieces).Ok?
    ensures forall i :: 0 <= i < |pieces| ==> ParseInt(pieces[i]) == Ok(ParseInts(pieces).value[i])
    decreases |pieces|
  {
    if pieces != [] {
      ParseIntsOk(pieces[1..]);
      var r := ParseInts(pieces).value;
      forall i | 1 <= i < |pieces| ensures ParseInt(pieces[i]) == Ok(r[i]) {
        assert pieces[i] == pieces[1..][i - 1];
      }
    }
  }

  /** A failure is the failure of the first piece that does not convert. */
  lemma {:induction false} ParseIntsErr(pieces: seq<string>)
    requires ParseInts(pieces).Err?
    ensures exists i :: 0 <= i < |pieces| && ParseInt(pieces[i]) == Err(ParseInts(pieces).error)
                        && forall j :: 0 <= j < i ==> ParseInt(pieces[j]).Ok?
    decreases |pieces|
  {
    if ParseInt(pieces[0]).Ok? {
      ParseIntsErr(pieces[1..]);
      FirstFailureShifts(pieces, ParseInts(pieces).error);
    }
  }

  /** Pieces that each read as a number read as those numbers together. */
  lemma {:induction false} ParseIntsAll(pieces: seq<string>, xs: seq<nat>)
    requires |xs| == |pieces| && forall i :: 0 <= i < |pieces| ==> ParseInt(pieces[i]) == Ok(xs[i])
    ensures ParseInts(pieces) == Ok(xs)
    decreases |pieces|
  {
    if pieces != [] {
      assert forall i :: 0 <= i < |pieces| - 1 ==> pieces[1..][i] == pieces[i + 1] && xs[1..][i] == xs[i + 1];
      ParseIntsAll(pieces[1..], xs[1..]);
      ParseIntsCons(pieces, xs[0], xs[1..]);
      assert xs == [xs[0]] + xs[1..];
    }
  }

  lemma ParseIntsCons(pieces: seq<string>, x: nat, rest: seq<nat>)
    requires pieces != [] && ParseInt(pieces[0]) == Ok(x) && ParseInts(pieces[1..]) == Ok(rest)
    ensures ParseInts(pieces) == Ok([x] + rest)
  {
  }

  lemma FirstFailureShifts(pieces: seq<string>, e: Error)
    requires |pieces| > 0 && ParseInt(pieces[0]).Ok?
    requires exists i :: 0 <= i < |pieces| - 1 && ParseInt(pieces[1..][i]) == Err(e)
                         && forall j :: 0 <= j < i ==> ParseInt(pieces[1..][j]).Ok?
    ensures exists i :: 0 <= i < |pieces| && ParseInt(pieces[i]) == Err(e)
                        && forall j :: 0 <= j < i ==> ParseInt(pieces[j]).Ok?
  {
    var i :| 0 <= i < |pieces| - 1 && ParseInt(pieces[1..][i]) == Err(e)
             && forall j :: 0 <= j < i ==> ParseInt(pieces[1..][j]).Ok?;
    forall j | 0 < j < i + 1 ensures ParseInt(pieces[j]).Ok? {
      assert pieces[j] == pieces[1..][j - 1];
    }
    assert pieces[i + 1] == pieces[1..][i];
  }

  /** Python's `str.lower()` on ASCII text. */
  function Lower(s: string): (r: string)
    ensures |r| == |s|
    ensures forall i :: 0 <= i < |s| ==> r[i] == LowerChar(s[i])
  {
    seq(|s|, i requires 0 <= i < |s| => LowerChar(s[i]))
  }

  function LowerChar(c: char): char
  {
    if 'A' <= c <= 'Z' then (c as int + 32) as char else c
  }

  /** Text holding an upper-case ASCII letter. */
  predicate HasUpper(s: string) { exists k :: 0 <= k < |s| && 'A' <= s[k] <= 'Z' }

  /** `lower` leaves no upper-case letter. */
  lemma LowerHasNoUpper(s: string)
    ensures !HasUpper(Lower(s))
  {
  }

  /** `lower` changes text if and only if it holds an upper-case letter. */
  lemma LowerFixed(s: string)
    ensures Lower(s) == s <==> !HasUpper(s)
  {
    if HasUpper(s) {
      var k :| 0 <= k < |s| && 'A' <= s[k] <= 'Z';
      assert Lower(s)[k] != s[k];
    } else {
      assert forall i :: 0 <= i < |s| ==> Lower(s)[i] == s[i];
    }
  }

  /** Lower-casing twice changes nothing more: names compare case-insensitively. */
  lemma LowerIdempotent(s: string)
    ensures Lower(Lower(s)) == Lower(s)
  {
  }

  /** Python's `s * n`. */
  function Repeat(s: string, n: nat): (r: string)
    ensures |r| == |s| * n
    ensures |s| == 1 ==> forall k :: 0 <= k < |r| ==> r[k] == s[0]
  {
    if n == 0 then "" else s + Repeat(s, n - 1)
  }

  /** `t` occurs in `s` starting at position `i`. */
  predicate OccursAt(t: string, s: string, i: int) {
    0 <= i && i + |t| <= |s| && s[i..i + |t|] == t
  }

  /** Python's `t in s` for strings: `t` occurs contiguously in `s`. */
  function IsSubstring(t: string, s: string): (b: bool)
    ensures b <==> exists i :: OccursAt(t, s, i)
  {
    OccursFrom(t, s, 0)
  }

  /** `t` occurs in `s` at some position `i` or later. */
  function OccursFrom(t: string, s: string, i: nat): (b: bool)
    ensures b <==> exists k :: i <= k && OccursAt(t, s, k)
    decreases |s| - i
  {
    if i + |t| > |s| then false
    else if s[i..i + |t|] == t then
      assert OccursAt(t, s, i);
      true
    else
      assert forall k :: i <= k && OccursAt(t, s, k) ==> i + 1 <= k;
      OccursFrom(t, s, i + 1)
  }
}
