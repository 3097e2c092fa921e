/**
 * Character-level helpers shared by the line parser: ASCII digits (the only
 * digits `\d` is modelled to match), decimal values as `int(...)` reads them,
 * zero-padded and plain decimal rendering, and Python's `str.split()`.
 */
module Text {

  predicate IsDigit(c: char) { '0' <= c <= '9' }

  predicate AllDigits(s: string) { forall i | 0 <= i < |s| :: IsDigit(s[i]) }

  function DigitValue(c: char): (v: nat)
    requires IsDigit(c)
    ensures v < 10
  {
    c as int - '0' as int
  }

  function DigitChar(v: nat): (c: char)
    requires v < 10
    ensures IsDigit(c) && DigitValue(c) == v
  {
    ('0' as int + v) as char
  }

  function Pow10(k: nat): (p: nat)
    ensures p >= 1
  {
    if k == 0 then 1 else 10 * Pow10(k - 1)
  }

  /** Where a greedy `\d+` started at position `i` of `t` stops. */
  function DigitsEnd(t: string, i: nat): (j: nat)
    requires i <= |t|
    ensures i <= j <= |t|
    ensures forall k | i <= k < j :: IsDigit(t[k])
    ensures j < |t| ==> !IsDigit(t[j])
    decreases |t| - i
  {
    if i < |t| && IsDigit(t[i]) then DigitsEnd(t, i + 1) else i
  }

  /** Over a string of digits the run reaches the end. */
  lemma {:induction false} DigitsEndAll(s: string, i: nat)
    requires i <= |s| && AllDigits(s)
    ensures DigitsEnd(s, i) == |s|
    decreases |s| - i
  {
    if i < |s| {
      DigitsEndAll(s, i + 1);
    }
  }

  /** A run that stops inside `s` stops at the same place once text is appended. */
  lemma {:induction false} DigitsEndAppend(s: string, x: string, i: nat)
    requires i <= |s| && DigitsEnd(s, i) < |s|
    ensures DigitsEnd(s + x, i) == DigitsEnd(s, i)
    decreases |s| - i
  {
    assert (s + x)[i] == s[i];
    if IsDigit(s[i]) {
      DigitsEndAppend(s, x, i + 1);
    }
  }

  /** A run that reaches the end of `s` stops there when what follows is not a digit. */
  lemma {:induction false} DigitsEndThen(s: string, x: string, i: nat)
    requires i <= |s| && DigitsEnd(s, i) == |s|
    requires x == [] || !IsDigit(x[0])
    ensures DigitsEnd(s + x, i) == |s|
    decreases |s| - i
  {
    if i < |s| {
      assert (s + x)[i] == s[i];
      DigitsEndThen(s, x, i + 1);
    } else if x != [] {
      assert (s + x)[i] == x[0];
    }
  }

  /** `int(s)` for a string of ASCII digits. */
  function DecimalValue(s: string): (n: nat)
    requires AllDigits(s)
    ensures n < Pow10(|s|)
    decreases |s|
  {
    if s == [] then 0 else 10 * DecimalValue(s[..|s| - 1]) + DigitValue(s[|s| - 1])
  }

  /** `n` written with exactly `width` digits, zero-padded on the left. */
  function Padded(n: nat, width: nat): (s: string)
    requires n < Pow10(width)
    ensures |s| == width && AllDigits(s) && DecimalValue(s) == n
  {
    if width == 0 then []
    else
      var s := Padded(n / 10, width - 1) + [DigitChar(n % 10)];
      assert s[..|s| - 1] == Padded(n / 10, width - 1);
      s
  }

  /** `str(n)`: the decimal digits of `n` without leading zeros. */
  function Decimal(n: nat): (s: string)
    ensures |s| >= 1 && AllDigits(s) && DecimalValue(s) == n
    ensures |s| > 1 ==> s[0] != '0'
  {
    if n < 10 then [DigitChar(n)]
    else
      var s := Decimal(n / 10) + [DigitChar(n % 10)];
      assert s[..|s| - 1] == Decimal(n / 10);
      s
  }

  /** Whitespace as Python's `str.isspace()` defines it. */
  predicate IsSpace(c: char)
  {
    c == ' ' || '\t' <= c <= '\r' || '\U{1C}' <= c <= '\U{1F}' || c == '\U{85}' || c == '\U{A0}'
    || c == '\U{1680}' || '\U{2000}' <= c <= '\U{200A}' || c == '\U{2028}' || c == '\U{2029}'
    || c == '\U{202F}' || c == '\U{205F}' || c == '\U{3000}'
  }

  predicate NoSpace(s: string) { forall i | 0 <= i < |s| :: !IsSpace(s[i]) }

  /** A word as `str.split()` returns it: non-empty and free of whitespace. */
  predicate IsWord(s: string) { |s| > 0 && NoSpace(s) }

  /** The longest whitespace-free prefix of `s`. */
  function WordPrefix(s: string): (w: string)
    ensures w <= s && NoSpace(w)
    ensures |w| < |s| ==> IsSpace(s[|w|])
  {
    if |s| > 0 && !IsSpace(s[0]) then [s[0]] + WordPrefix(s[1..]) else []
  }

  /** `s.split()`: the maximal runs of non-whitespace characters, in order. */
  function Split(s: string): (ws: seq<string>)
    ensures forall i | 0 <= i < |ws| :: IsWord(ws[i])
    decreases |s|
  {
    if |s| == 0 then []
    else if IsSpace(s[0]) then Split(s[1..])
    else
      var w := WordPrefix(s);
      [w] + Split(s[|w|..])
  }

  /** A whitespace-free prefix followed by whitespace or the end is the whole first word. */
  lemma {:induction false} WordPrefixThen(w: string, x: string)
    requires NoSpace(w)
    requires x == [] || IsSpace(x[0])
    ensures WordPrefix(w + x) == w
  {
    if w != [] {
      assert (w + x)[1..] == w[1..] + x;
      WordPrefixThen(w[1..], x);
    } else {
      assert w + x == x;
    }
  }

  /** Leading whitespace, of any kind and length, is skipped. */
  lemma {:induction false} SplitSkipsSpace(sp: string, s: string)
    requires forall i | 0 <= i < |sp| :: IsSpace(sp[i])
    ensures Split(sp + s) == Split(s)
    decreases |sp|
  {
    if sp != [] {
      assert (sp + s)[0] == sp[0];
      assert (sp + s)[1..] == sp[1..] + s;
      SplitSkipsSpace(sp[1..], s);
    } else {
      assert sp + s == s;
    }
  }

  /** A word followed by whitespace or the end is the first word, and splitting goes on after it. */
  lemma SplitWordThen(w: string, rest: string)
    requires IsWord(w)
    requires rest == [] || IsSpace(rest[0])
    ensures Split(w + rest) == [w] + Split(rest)
  {
    WordPrefixThen(w, rest);
    assert (w + rest)[0] == w[0];
    assert (w + rest)[|w|..] == rest;
  }

  /** Splitting words joined by single spaces gives the words back. */
  lemma {:induction false} SplitJoined(ws: seq<string>)
    requires forall i | 0 <= i < |ws| :: IsWord(ws[i])
    ensures Split(JoinSpaced(ws)) == ws
  {
    if |ws| == 1 {
      WordPrefixThen(ws[0], []);
      assert JoinSpaced(ws) == ws[0] + [];
    } else if |ws| > 1 {
      var rest := JoinSpaced(ws[1..]);
      var s := ws[0] + ([' '] + rest);
      assert JoinSpaced(ws) == s;
      WordPrefixThen(ws[0], [' '] + rest);
      assert s[|ws[0]|..] == [' '] + rest;
      assert ([' '] + rest)[1..] == rest;
      SplitJoined(ws[1..]);
    }
  }

  /** Words separated by one space each, as a formatter writes them. */
  function JoinSpaced(ws: seq<string>): string
  {
    if |ws| == 0 then []
    else if |ws| == 1 then ws[0]
    else ws[0] + ([' '] + JoinSpaced(ws[1..]))
  }
}
