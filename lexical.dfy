/** Characters, runs of characters and decimal digit strings, shared by the
    timestamp codec, the number parser and the placeholder scanner. */
module Lexical {
  import opened Wrappers

  /** ECMAScript `\d`: the ASCII digits only. */
  predicate IsDigit(c: char) {
    '0' <= c <= '9'
  }

  /** ECMAScript `\s` (WhiteSpace and LineTerminator). The same set is the
      StrWhiteSpaceChar that `parseFloat` trims. */
  predicate IsSpace(c: char) {
    || c == '\t' || c == '\n' || c == '\U{000B}' || c == '\U{000C}' || c == '\r'
    || c == ' ' || c == '\U{00A0}' || c == '\U{1680}'
    || ('\U{2000}' <= c <= '\U{200A}')
    || c == '\U{2028}' || c == '\U{2029}' || c == '\U{202F}' || c == '\U{205F}'
    || c == '\U{3000}' || c == '\U{FEFF}'
  }

  /** ASCII lower-casing, the only folding a non-unicode `/i` regex applies
      to the letters of the marker. */
  function ToLower(c: char): (r: char)
    ensures 'A' <= c <= 'Z' ==> r as int == c as int + 32
    ensures !('A' <= c <= 'Z') ==> r == c
  {
    if 'A' <= c <= 'Z' then (c as int + 32) as char else c
  }

  predicate AllDigits(s: string) {
    forall k :: 0 <= k < |s| ==> IsDigit(s[k])
  }

  predicate AllSpace(s: string) {
    forall k :: 0 <= k < |s| ==> IsSpace(s[k])
  }

  /** Index of the end of the run of whitespace that starts at `i`. */
  function SkipSpace(t: string, i: nat): (j: nat)
    requires i <= |t|
    ensures i <= j <= |t|
    ensures j < |t| ==> !IsSpace(t[j])
    decreases |t| - i
  {
    if i < |t| && IsSpace(t[i]) then SkipSpace(t, i + 1) else i
  }

  /** Index of the end of the run of digits that starts at `i`. */
  function SkipDigits(t: string, i: nat): (j: nat)
    requires i <= |t|
    ensures i <= j <= |t|
    ensures j < |t| ==> !IsDigit(t[j])
    decreases |t| - i
  {
    if i < |t| && IsDigit(t[i]) then SkipDigits(t, i + 1) else i
  }

  /** What SkipDigits skips is digits. */
  lemma {:induction false} SkipDigitsRun(t: string, i: nat)
    requires i <= |t|
    ensures AllDigits(t[i..SkipDigits(t, i)])
    decreases |t| - i
  {
    if i < |t| && IsDigit(t[i]) {
      SkipDigitsRun(t, i + 1);
      DigitRunCons(t, i, SkipDigits(t, i));
    }
  }

  /** A run of whitespace is its first character and the run after it. */
  lemma SpaceRunCons(t: string, i: nat, j: nat)
    requires i < j <= |t|
    ensures AllSpace(t[i..j]) <==> IsSpace(t[i]) && AllSpace(t[i + 1..j])
  {
    var run, rest := t[i..j], t[i + 1..j];
    assert run[0] == t[i];
    forall x | 0 <= x < |rest| ensures rest[x] == run[x + 1] {
    }
  }

  lemma DigitRunCons(t: string, i: nat, j: nat)
    requires i < j <= |t|
    ensures AllDigits(t[i..j]) <==> IsDigit(t[i]) && AllDigits(t[i + 1..j])
  {
    var run, rest := t[i..j], t[i + 1..j];
    assert run[0] == t[i];
    forall x | 0 <= x < |rest| ensures rest[x] == run[x + 1] {
    }
  }

  /** A run is determined by where it stops: any `j` past a run of spaces
      and not on a space is the value of SkipSpace. */
  lemma {:induction false} SkipSpaceAt(t: string, i: nat, j: nat)
    requires i <= j <= |t|
    requires AllSpace(t[i..j])
    requires j < |t| ==> !IsSpace(t[j])
    ensures SkipSpace(t, i) == j
    decreases j - i
  {
    if i < j {
      SpaceRunCons(t, i, j);
      SkipSpaceAt(t, i + 1, j);
    }
  }

  lemma {:induction false} SkipDigitsAt(t: string, i: nat, j: nat)
    requires i <= j <= |t|
    requires AllDigits(t[i..j])
    requires j < |t| ==> !IsDigit(t[j])
    ensures SkipDigits(t, i) == j
    decreases j - i
  {
    if i < j {
      DigitRunCons(t, i, j);
      SkipDigitsAt(t, i + 1, j);
    }
  }

  /** A single whitespace character is a run. */
  lemma OneSpace(t: string, i: nat)
    requires i < |t| && IsSpace(t[i])
    ensures AllSpace(t[i..i + 1])
  {
    assert t[i..i + 1][0] == t[i];
  }

  function DigitValue(c: char): (d: nat)
    requires IsDigit(c)
    ensures d < 10
  {
    c as int - '0' as int
  }

  function DigitChar(d: nat): (c: char)
    requires d < 10
    ensures IsDigit(c) && DigitValue(c) == d
  {
    ('0' as int + d) as char
  }

  /** The integer a string of decimal digits denotes (leading zeros allowed),
      as `Number("007")` reads it. */
  function NatValue(ds: string): nat
    requires AllDigits(ds)
  {
    if ds == [] then 0
    else NatValue(ds[..|ds| - 1]) * 10 + DigitValue(ds[|ds| - 1])
  }

  /** The value of the digits after a decimal point: `FracValue("25") == 0.25`. */
  function FracValue(ds: string): (r: real)
    requires AllDigits(ds)
    ensures 0.0 <= r <= 1.0
    ensures ds != [] && ds[0] != '9' ==> r < 1.0
  {
    if ds == [] then 0.0
    else (DigitValue(ds[0]) as real + FracValue(ds[1..])) / 10.0
  }

  /** Decimal rendering of a natural number, as `Number.prototype.toString`
      produces it for a non-negative integer. */
  function NatToString(n: nat): (s: string)
    ensures 1 <= |s| && AllDigits(s)
    ensures |s| == 1 <==> n < 10
    ensures n < 100 ==> |s| <= 2
    decreases n
  {
    if n < 10 then [DigitChar(n)] else NatToString(n / 10) + [DigitChar(n % 10)]
  }

  /** `Number.prototype.toString` for an integer. */
  function IntToString(n: int): (s: string)
    ensures n >= 0 ==> s == NatToString(n)
    ensures n < 0 ==> s == "-" + NatToString(-n)
  {
    if n < 0 then "-" + NatToString(-n) else NatToString(n)
  }

  /** NatToString and NatValue are inverse on the naturals. */
  lemma {:induction false} NatValueOfNatToString(n: nat)
    ensures NatValue(NatToString(n)) == n
    decreases n
  {
    if n >= 10 {
      var s := NatToString(n);
      NatValueOfNatToString(n / 10);
      assert s[..|s| - 1] == NatToString(n / 10);
    }
  }

  /** A string is a prefix of another at a position. */
  predicate LiteralAt(t: string, i: nat, lit: string) {
    i + |lit| <= |t| && t[i..i + |lit|] == lit
  }

  /** `String.prototype.indexOf` for one character: the first position. */
  function IndexOf(t: string, c: char): (r: Option<nat>)
    ensures r.Some? ==> r.value < |t| && t[r.value] == c
    ensures r.Some? ==> forall k :: 0 <= k < r.value ==> t[k] != c
    ensures r.None? ==> forall k :: 0 <= k < |t| ==> t[k] != c
  {
    if t == [] then None
    else if t[0] == c then Some(0)
    else match IndexOf(t[1..], c)
      case None => None
      case Some(k) => Some(k + 1)
  }

  /** `String.prototype.lastIndexOf` for one character: the last position,
      or -1. */
  function LastIndexOf(t: string, c: char): (r: int)
    ensures -1 <= r < |t|
    ensures r >= 0 ==> t[r] == c
    ensures forall k :: r < k < |t| ==> t[k] != c
  {
    if t == [] then -1
    else if t[|t| - 1] == c then |t| - 1
    else LastIndexOf(t[..|t| - 1], c)
  }
}
