/** TimestampCodec: timestamp text to seconds, and seconds to the
    `HHMMSSFF` token used in screenshot file names. */
module TimestampCodec {
  import opened Wrappers
  import opened Lexical
  import opened JsNumber

  /** `parseTimestampToSeconds`: with a colon, the text before the first
      colon is minutes and the text up to the next colon is seconds, each
      read by `parseFloat`; without one, the whole text is read by
      `parseFloat`. Nothing is bounds-checked. */
  function ParseTimestampToSeconds(timestamp: string): (n: Number)
  {
    match IndexOf(timestamp, ':')
    case None => ParseFloat(timestamp)
    case Some(c) =>
      var rest := timestamp[c + 1..];
      var secondsText := match IndexOf(rest, ':')
        case None => rest
        case Some(c2) => rest[..c2];
      Add(TimesPositive(ParseFloat(timestamp[..c]), 60.0), ParseFloat(secondsText))
  }

  /** The digits after the point of a fractional part starting at `p`
      (`"." Digits`), or nothing when the text ends at `p`. */
  function FractionDigits(ts: string, p: nat): string
    requires p <= |ts|
  {
    if p < |ts| then ts[p + 1..] else []
  }

  /** `ts` ends at `p` or carries a fractional part `"." Digits` there. */
  predicate FractionAt(ts: string, p: nat) {
    p <= |ts| &&
    (p == |ts| || (ts[p] == '.' && p + 1 < |ts| && AllDigits(ts[p + 1..])))
  }

  /** The first alternative of the marker's timestamp: `\d{1,2}:\d{2}(\.\d+)?`
      with `c` minute digits. */
  predicate ColonFormAt(ts: string, c: nat) {
    1 <= c <= 2 && c + 3 <= |ts| && AllDigits(ts[..c]) && ts[c] == ':' &&
    IsDigit(ts[c + 1]) && IsDigit(ts[c + 2]) && FractionAt(ts, c + 3)
  }

  /** The second alternative: `\d+(\.\d+)?` with `d` integer digits. */
  predicate DecimalFormAt(ts: string, d: nat) {
    1 <= d <= |ts| && AllDigits(ts[..d]) && FractionAt(ts, d)
  }

  /** A timestamp as the placeholder grammar admits it. */
  predicate WellFormedTimestamp(ts: string) {
    ColonFormAt(ts, 1) || ColonFormAt(ts, 2) || exists d :: 1 <= d <= |ts| && DecimalFormAt(ts, d)
  }

  /** With exactly one colon, the two sides are read separately: minutes
      before it, seconds after it. */
  lemma ColonSplit(ts: string, c: nat)
    requires IndexOf(ts, ':') == Some(c)
    requires IndexOf(ts[c + 1..], ':') == None
    ensures ParseTimestampToSeconds(ts) ==
      Add(TimesPositive(ParseFloat(ts[..c]), 60.0), ParseFloat(ts[c + 1..]))
  {
  }

  /** With one colon and both sides finite, the value is
      `minutes * 60 + seconds`. */
  lemma ColonCombine(ts: string, c: nat, m: real, s: real, f: real)
    requires IndexOf(ts, ':') == Some(c)
    requires IndexOf(ts[c + 1..], ':') == None
    requires ParseFloat(ts[..c]) == Finite(m) && ParseFloat(ts[c + 1..]) == Finite(s + f)
    ensures ParseTimestampToSeconds(ts) == Finite(60.0 * m + s + f)
  {
    ColonSplit(ts, c);
    ColonArithmetic(ParseFloat(ts[..c]), ParseFloat(ts[c + 1..]), m, s, f);
  }

  /** `minutes * 60 + seconds` on finite values. */
  lemma ColonArithmetic(minutes: Number, seconds: Number, m: real, s: real, f: real)
    requires minutes == Finite(m) && seconds == Finite(s + f)
    ensures Add(TimesPositive(minutes, 60.0), seconds) == Finite(60.0 * m + s + f)
  {
  }

  /** In the colon form the first colon is at `c` and is the only one. */
  lemma ColonPositions(ts: string, c: nat)
    requires ColonFormAt(ts, c)
    ensures IndexOf(ts, ':') == Some(c)
    ensures IndexOf(ts[c + 1..], ':') == None
  {
    forall k | 0 <= k < c ensures ts[k] != ':' {
      assert IsDigit(ts[..c][k]);
    }
    var rest := ts[c + 1..];
    assert IndexOf(rest, ':') == None by {
      forall k | 0 <= k < |rest| ensures rest[k] != ':' {
        if k >= 3 { assert rest[k] == ts[c + 4..][k - 3]; }
      }
    }
  }

  lemma MinutesValue(ts: string, c: nat)
    requires ColonFormAt(ts, c)
    ensures AllDigits(ts[..c])
    ensures ParseFloat(ts[..c]) == Finite(NatValue(ts[..c]) as real)
  {
    var m := ts[..c];
    assert m[..c] == m;
    ParseFloatDecimal(m, c, []);
  }

  /** The colon form reads as `minutes * 60 + seconds`, exactly. */
  lemma ColonTimestampValue(ts: string, c: nat)
    requires ColonFormAt(ts, c)
    ensures AllDigits(ts[c + 1..c + 3]) && AllDigits(FractionDigits(ts, c + 3))
    ensures ParseTimestampToSeconds(ts) ==
      Finite(60.0 * NatValue(ts[..c]) as real + NatValue(ts[c + 1..c + 3]) as real
             + FracValue(FractionDigits(ts, c + 3)))
  {
    SecondsValue(ts, c);
    MinutesValue(ts, c);
    ColonFormCombine(ts, c, NatValue(ts[..c]) as real,
      NatValue(ts[c + 1..c + 3]) as real, FracValue(FractionDigits(ts, c + 3)));
  }

  /** The colon form combines its two `parseFloat` readings. */
  lemma ColonFormCombine(ts: string, c: nat, m: real, s: real, f: real)
    requires ColonFormAt(ts, c)
    requires ParseFloat(ts[..c]) == Finite(m) && ParseFloat(ts[c + 1..]) == Finite(s + f)
    ensures ParseTimestampToSeconds(ts) == Finite(60.0 * m + s + f)
  {
    ColonPositions(ts, c);
    ColonCombine(ts, c, m, s, f);
  }

  /** The text after the colon reads as seconds and their fraction. */
  lemma SecondsValue(ts: string, c: nat)
    requires ColonFormAt(ts, c)
    ensures AllDigits(ts[c + 1..c + 3]) && AllDigits(FractionDigits(ts, c + 3))
    ensures ParseFloat(ts[c + 1..]) ==
      Finite(NatValue(ts[c + 1..c + 3]) as real + FracValue(FractionDigits(ts, c + 3)))
  {
    var rest := ts[c + 1..];
    var frac := FractionDigits(ts, c + 3);
    assert rest[..2] == ts[c + 1..c + 3];
    assert AllDigits(rest[..2]) by {
      assert rest[..2][0] == ts[c + 1] && rest[..2][1] == ts[c + 2];
    }
    if c + 3 < |ts| {
      assert rest[3..] == ts[c + 4..];
    }
    ParseFloatDecimal(rest, 2, frac);
  }

  /** The decimal form reads as its decimal value. */
  lemma DecimalTimestampValue(ts: string, d: nat)
    requires DecimalFormAt(ts, d)
    ensures AllDigits(ts[..d]) && AllDigits(FractionDigits(ts, d))
    ensures ParseTimestampToSeconds(ts) ==
      Finite(NatValue(ts[..d]) as real + FracValue(FractionDigits(ts, d)))
  {
    assert IndexOf(ts, ':') == None by {
      forall k | 0 <= k < |ts| ensures ts[k] != ':' {
        if k < d { assert IsDigit(ts[..d][k]); }
        else if k > d { assert ts[k] == ts[d + 1..][k - d - 1]; }
      }
    }
    ParseFloatDecimal(ts, d, FractionDigits(ts, d));
  }

  /** Every timestamp the placeholder grammar admits reads as a finite,
      non-negative number of seconds. */
  lemma WellFormedTimestampSeconds(ts: string)
    requires WellFormedTimestamp(ts)
    ensures ParseTimestampToSeconds(ts).Finite?
    ensures ParseTimestampToSeconds(ts).value >= 0.0
  {
    if ColonFormAt(ts, 1) {
      ColonTimestampValue(ts, 1);
    } else if ColonFormAt(ts, 2) {
      ColonTimestampValue(ts, 2);
    } else {
      var d :| DecimalFormAt(ts, d);
      DecimalTimestampValue(ts, d);
    }
  }

  /** `"." + frac`, or nothing when there is no fraction. */
  function FractionText(frac: string): (s: string)
    ensures frac == [] <==> s == []
    ensures frac != [] ==> s[0] == '.' && s[1..] == frac
  {
    if frac == [] then "" else "." + frac
  }

  /** Reading a colon-form example from its minute, second and fraction
      digits. */
  lemma ColonExample(ts: string, mm: string, ss: string, frac: string, v: real)
    requires 1 <= |mm| <= 2 && AllDigits(mm) && |ss| == 2 && AllDigits(ss) && AllDigits(frac)
    requires ts == mm + ":" + ss + FractionText(frac)
    requires 60.0 * NatValue(mm) as real + NatValue(ss) as real + FracValue(frac) == v
    ensures WellFormedTimestamp(ts) && ParseTimestampToSeconds(ts) == Finite(v)
  {
    ColonParts(ts, mm, ss, frac);
    ColonValue(ts, |mm|, mm, ss, frac, v);
  }

  /** The colon form read from its named parts. */
  lemma ColonValue(ts: string, c: nat, mm: string, ss: string, frac: string, v: real)
    requires ColonFormAt(ts, c) && AllDigits(ss) && AllDigits(frac)
    requires ts[..c] == mm && ts[c + 1..c + 3] == ss && FractionDigits(ts, c + 3) == frac
    requires 60.0 * NatValue(mm) as real + NatValue(ss) as real + FracValue(frac) == v
    ensures WellFormedTimestamp(ts) && ParseTimestampToSeconds(ts) == Finite(v)
  {
    assert WellFormedTimestamp(ts) by {
      assert ColonFormAt(ts, 1) || ColonFormAt(ts, 2);
    }
    assert NatValue(ts[..c]) == NatValue(mm) && NatValue(ts[c + 1..c + 3]) == NatValue(ss);
    ColonTimestampValue(ts, c);
  }

  /** Where the minutes, seconds and fraction of a colon form sit. */
  lemma ColonParts(ts: string, mm: string, ss: string, frac: string)
    requires 1 <= |mm| <= 2 && AllDigits(mm) && |ss| == 2 && AllDigits(ss) && AllDigits(frac)
    requires ts == mm + ":" + ss + FractionText(frac)
    ensures ColonFormAt(ts, |mm|)
    ensures ts[..|mm|] == mm && ts[|mm| + 1..|mm| + 3] == ss && FractionDigits(ts, |mm| + 3) == frac
  {
    var c := |mm|;
    assert ts[..c] == mm;
    assert ts[c + 1..c + 3] == ss;
    assert ts[c] == ':' && ts[c + 1] == ss[0] && ts[c + 2] == ss[1];
    if frac != [] {
      assert ts[c + 3] == '.';
      assert ts[c + 4..] == frac;
    }
  }

  /** Reading a decimal-form example from its integer and fraction digits. */
  lemma DecimalExample(ts: string, ds: string, frac: string, v: real)
    requires ds != [] && AllDigits(ds) && AllDigits(frac)
    requires ts == ds + FractionText(frac)
    requires NatValue(ds) as real + FracValue(frac) == v
    ensures ParseTimestampToSeconds(ts) == Finite(v)
  {
    var d := |ds|;
    assert ts[..d] == ds;
    if frac != [] {
      assert ts[d] == '.';
      assert ts[d + 1..] == frac;
    }
    assert FractionDigits(ts, d) == frac;
    assert DecimalFormAt(ts, d);
    DecimalTimestampValue(ts, d);
  }

  /** `MM:SS` reads as minutes and seconds. */
  lemma ParseMinutesSeconds(ts: string)
    requires ts == "01:23"
    ensures WellFormedTimestamp(ts) && ParseTimestampToSeconds(ts) == Finite(83.0)
  {
    ColonExample(ts, "01", "23", "", 83.0);
  }

  /** A zero minute field leaves the seconds. */
  lemma ParseZeroMinutes(ts: string)
    requires ts == "00:14"
    ensures WellFormedTimestamp(ts) && ParseTimestampToSeconds(ts) == Finite(14.0)
  {
    ColonExample(ts, "00", "14", "", 14.0);
  }

  /** Whole minutes: `10:00` is 600 seconds. */
  lemma ParseWholeMinutes(ts: string)
    requires ts == "10:00"
    ensures ParseTimestampToSeconds(ts) == Finite(600.0)
  {
    ColonExample(ts, "10", "00", "", 600.0);
  }

  /** `MM:SS.f` keeps the fraction. */
  lemma ParseMinutesSecondsFraction(ts: string)
    requires ts == "01:23.5"
    ensures ParseTimestampToSeconds(ts) == Finite(83.5)
  {
    ColonExample(ts, "01", "23", "5", 83.5);
  }

  /** Two fraction digits are hundredths. */
  lemma ParseHundredths(ts: string)
    requires ts == "00:14.25"
    ensures ParseTimestampToSeconds(ts) == Finite(14.25)
  {
    ColonExample(ts, "00", "14", "25", 14.25);
  }

  /** A bare decimal is a number of seconds. */
  lemma ParseDecimalSeconds(ts: string)
    requires ts == "83.5"
    ensures ParseTimestampToSeconds(ts) == Finite(83.5)
  {
    DecimalExample(ts, "83", "5", 83.5);
  }

  /** A bare integer is a number of seconds. */
  lemma ParseWholeSeconds(ts: string)
    requires ts == "14"
    ensures ParseTimestampToSeconds(ts) == Finite(14.0)
  {
    DecimalExample(ts, "14", "", 14.0);
  }

  /** Three integer digits are read in full. */
  lemma ParseLongDecimal(ts: string)
    requires ts == "120.75"
    ensures ParseTimestampToSeconds(ts) == Finite(120.75)
  {
    assert NatValue("120") == 120 by {
      assert "120"[..2] == "12";
      assert "12"[..1] == "1";
    }
    DecimalExample(ts, "120", "75", 120.75);
  }

  /** `%` on integers as JavaScript computes it: the sign follows the
      dividend (truncating division). */
  function JsRem(a: int, d: nat): (r: int)
    requires d > 0
    ensures a >= 0 ==> 0 <= r < d && r == a % d
    ensures a < 0 ==> -(d as int) < r <= 0
    ensures (a - r) % d == 0
  {
    if a >= 0 then
      assert a - a % d == d * (a / d);
      MultipleMod(d, a / d);
      a % d
    else
      assert a + (-a) % d == d * -((-a) / d);
      MultipleMod(d, -((-a) / d));
      -((-a) % d)
  }

  /** A multiple of `d` leaves no remainder. */
  lemma MultipleMod(d: int, m: int)
    requires d > 0
    ensures (d * m) % d == 0
  {
    var x := d * m;
    var q, r := x / d, x % d;
    assert x == d * q + r && 0 <= r < d;
    var e := m - q;
    assert d * e == r by { assert d * m - d * q == d * (m - q); }
    assert e >= 1 ==> d * e == d * (e - 1) + d && d * (e - 1) >= 0;
    assert e <= -1 ==> d * e == d * (e + 1) - d && d * (e + 1) <= 0;
  }

  /** `padStart(2, '0')`. */
  function Pad2(s: string): (r: string)
    ensures |s| >= 2 ==> r == s
    ensures |s| < 2 ==> r == seq(2 - |s|, _ => '0') + s
    ensures |r| == if |s| >= 2 then |s| else 2
  {
    if |s| >= 2 then s else if |s| == 1 then "0" + s else "00"
  }

  /** JavaScript's `%` on numbers: the remainder of division truncated
      toward zero, with the sign of the dividend. */
  function JsRemReal(x: real, y: real): (r: real)
    requires y > 0.0
    ensures x >= 0.0 ==> 0.0 <= r < y
    ensures x < 0.0 ==> -y < r <= 0.0
    ensures 0.0 <= x < y ==> r == x
    ensures (x - r) / y == ((x - r) / y).Floor as real
  {
    var m := if x >= 0.0 then (x / y).Floor else -((-x) / y).Floor;
    var r := x - y * m as real;
    if x >= 0.0 then RemainderNonNegative(x, y, m, r); r
    else RemainderNegative(x, y, m, r); r
  }

  /** Truncated division of a non-negative dividend leaves the ordinary
      remainder. */
  lemma RemainderNonNegative(x: real, y: real, m: int, r: real)
    requires y > 0.0 && x >= 0.0 && m == (x / y).Floor && r == x - y * m as real
    ensures 0.0 <= r < y && (x < y ==> r == x)
    ensures (x - r) / y == ((x - r) / y).Floor as real
  {
    QuotientBounds(x, y, m);
    WholeQuotient(y, m, x - r);
  }

  /** Truncated division of a negative dividend leaves a remainder of the
      dividend's sign. */
  lemma RemainderNegative(x: real, y: real, m: int, r: real)
    requires y > 0.0 && x < 0.0 && m == -((-x) / y).Floor && r == x - y * m as real
    ensures -y < r <= 0.0
    ensures (x - r) / y == ((x - r) / y).Floor as real
  {
    var q := -m;
    QuotientBounds(-x, y, q);
    assert y * m as real == -(y * q as real);
    WholeQuotient(y, m, x - r);
  }

  /** A whole multiple of `y`, divided by `y`, is that whole number. */
  lemma WholeQuotient(y: real, q: int, p: real)
    requires y > 0.0 && p == y * q as real
    ensures p / y == q as real && (p / y).Floor == q
  {
  }

  /** The floor `n` of `x / y` brackets `x` between `y * n` and `y * (n + 1)`. */
  lemma QuotientBounds(x: real, y: real, n: int)
    requires y > 0.0 && x >= 0.0 && n as real <= x / y < n as real + 1.0
    ensures y * (n as real) <= x < y * (n as real) + y
    ensures x < y ==> n == 0
  {
    var z, q := x / y, n as real;
    assert y * z == x;
    var u, v := z - q, q + 1.0 - z;
    assert u >= 0.0 && v > 0.0;
    assert y * u >= 0.0 && y * v > 0.0;
    assert x - y * q == y * u;
    assert y * q + y - x == y * v;
    assert y * q <= x < y * q + y;
    assert y * (q + 1.0) > 0.0;
    assert q + 1.0 > 0.0;
    assert x < y ==> y * (1.0 - q) > 0.0 && 1.0 - q > 0.0;
  }

  /** The frame index within the second, `floor(fraction * fps) % fps`: the
      number of whole frame periods elapsed since the last whole second. */
  function FrameIndex(seconds: real, fps: real): (f: int)
    requires fps > 0.0
    ensures 0 <= f && f as real < fps
    ensures f as real <= (seconds - seconds.Floor as real) * fps < f as real + 1.0
  {
    var fraction := seconds - seconds.Floor as real;
    var frames := (fraction * fps).Floor;
    ScaledFraction(fraction, fps);
    assert frames as real <= fraction * fps < frames as real + 1.0;
    assert 0 <= frames && frames as real < fps;
    var r := JsRemReal(frames as real, fps);
    assert r == frames as real;
    r.Floor
  }

  /** A fraction of a second scaled by the frame rate stays below it. */
  lemma ScaledFraction(fraction: real, fps: real)
    requires 0.0 <= fraction < 1.0 && fps > 0.0
    ensures 0.0 <= fraction * fps < fps
  {
    assert fps - fraction * fps == (1.0 - fraction) * fps;
  }

  /** `formatTimestampToFilename`: hours, minutes, seconds of `floor(seconds)`
      and the frame index, each padded to two characters. */
  function FormatTimestampToFilename(seconds: real, fps: real): (token: string)
    requires fps > 0.0
    ensures |token| >= 8
    ensures forall k :: 0 <= k < |token| ==> IsDigit(token[k]) || token[k] == '-'
  {
    var total := seconds.Floor;
    var hours := total / 3600;
    var minutes := JsRem(total, 3600) / 60;
    var secs := JsRem(total, 60);
    var a, b, c, d := PaddedField(hours), PaddedField(minutes), PaddedField(secs),
      PaddedField(FrameIndex(seconds, fps));
    assert forall k :: 0 <= k < |a + b + c + d| ==> IsDigit((a + b + c + d)[k]) || (a + b + c + d)[k] == '-' by {
      forall k | 0 <= k < |a + b + c + d| ensures IsDigit((a + b + c + d)[k]) || (a + b + c + d)[k] == '-' {
        if k < |a| {} else if k < |a + b| { assert (a + b + c + d)[k] == b[k - |a|]; }
        else if k < |a + b + c| { assert (a + b + c + d)[k] == c[k - |a + b|]; }
        else { assert (a + b + c + d)[k] == d[k - |a + b + c|]; }
      }
    }
    a + b + c + d
  }

  /** One field: an integer rendered by `toString` and padded to two. */
  function PaddedField(n: int): (s: string)
    ensures |s| >= 2
    ensures forall k :: 0 <= k < |s| ==> IsDigit(s[k]) || s[k] == '-'
  {
    var t := IntToString(n);
    assert forall k :: 0 <= k < |t| ==> IsDigit(t[k]) || t[k] == '-' by {
      if n < 0 {
        forall k | 0 < k < |t| ensures IsDigit(t[k]) {
          assert t[k] == NatToString(-n)[k - 1];
        }
      }
    }
    Pad2(t)
  }

  /** The number a two-digit field of the token reads as. */
  function Field(token: string, k: nat): nat
    requires 2 * k + 2 <= |token| && AllDigits(token)
  {
    10 * DigitValue(token[2 * k]) + DigitValue(token[2 * k + 1])
  }

  lemma {:induction false} Pad2Digits(n: nat)
    requires n < 100
    ensures PaddedField(n) == [DigitChar(n / 10), DigitChar(n % 10)]
  {
    if n >= 10 {
      assert NatToString(n / 10) == [DigitChar(n / 10)];
    }
  }

  /** Under 100 hours, non-negative, the token is the eight digits of
      hours, minutes, seconds and frame. */
  lemma TokenDigits(seconds: real, fps: real)
    requires 0.0 <= seconds < 360000.0
    requires 0.0 < fps <= 100.0
    ensures var total, f := seconds.Floor, FrameIndex(seconds, fps);
      var h, m, s := total / 3600, (total % 3600) / 60, total % 60;
      FormatTimestampToFilename(seconds, fps) ==
        [DigitChar(h / 10), DigitChar(h % 10), DigitChar(m / 10), DigitChar(m % 10),
         DigitChar(s / 10), DigitChar(s % 10), DigitChar(f / 10), DigitChar(f % 10)]
  {
    var total := seconds.Floor;
    var h, m, s, f := total / 3600, (total % 3600) / 60, total % 60, FrameIndex(seconds, fps);
    FormatFields(seconds, fps);
    assert h < 100 && m < 60 && s < 60 && f < 100;
    Pad2Digits(h);
    Pad2Digits(m);
    Pad2Digits(s);
    Pad2Digits(f);
    FourPairs(PaddedField(h), PaddedField(m), PaddedField(s), PaddedField(f));
  }

  /** Four two-element sequences laid end to end. */
  lemma FourPairs<T>(p: seq<T>, q: seq<T>, r: seq<T>, s: seq<T>)
    requires |p| == 2 && |q| == 2 && |r| == 2 && |s| == 2
    ensures p + q + r + s == [p[0], p[1], q[0], q[1], r[0], r[1], s[0], s[1]]
  {
  }

  /** For a non-negative time the four fields are hours, minutes and seconds
      of the whole seconds, and the frame index. */
  lemma FormatFields(seconds: real, fps: real)
    requires seconds >= 0.0 && fps > 0.0
    ensures var total := seconds.Floor;
      FormatTimestampToFilename(seconds, fps) ==
        PaddedField(total / 3600) + PaddedField((total % 3600) / 60) + PaddedField(total % 60)
        + PaddedField(FrameIndex(seconds, fps))
  {
  }

  /** For a non-negative time under 100 hours and a frame rate of at most 100,
      the token is eight digits that read back as the whole seconds and the
      frame index: two times within one frame share a token, any others
      differ. */
  lemma TokenReadsBack(seconds: real, fps: real)
    requires 0.0 <= seconds < 360000.0
    requires 0.0 < fps <= 100.0
    ensures var token := FormatTimestampToFilename(seconds, fps);
      && |token| == 8 && AllDigits(token)
      && Field(token, 1) < 60 && Field(token, 2) < 60
      && 3600 * Field(token, 0) + 60 * Field(token, 1) + Field(token, 2) == seconds.Floor
      && Field(token, 3) == FrameIndex(seconds, fps)
  {
    var total := seconds.Floor;
    var h, m, s, f := total / 3600, (total % 3600) / 60, total % 60, FrameIndex(seconds, fps);
    TokenDigits(seconds, fps);
    DigitFields(h, m, s, f);
    HoursMinutesSeconds(total);
  }

  /** Hours, minutes and seconds recombine to the whole seconds. */
  lemma HoursMinutesSeconds(total: nat)
    ensures (total % 3600) / 60 < 60 && total % 60 < 60
    ensures 3600 * (total / 3600) + 60 * ((total % 3600) / 60) + total % 60 == total
  {
    var r := total % 3600;
    assert total == 3600 * (total / 3600) + r;
    assert r == 60 * (r / 60) + r % 60;
    assert r % 60 == total % 60;
  }

  lemma DigitFields(h: nat, m: nat, s: nat, f: nat)
    requires h < 100 && m < 100 && s < 100 && f < 100
    ensures var token := [DigitChar(h / 10), DigitChar(h % 10), DigitChar(m / 10), DigitChar(m % 10),
                          DigitChar(s / 10), DigitChar(s % 10), DigitChar(f / 10), DigitChar(f % 10)];
      AllDigits(token) && Field(token, 0) == h && Field(token, 1) == m
      && Field(token, 2) == s && Field(token, 3) == f
  {
  }

  /** Tokens for the same frame rate are equal exactly when the whole
      seconds and the frame index are: the encoding quantises to frames and
      loses nothing else. */
  lemma TokenIdentifiesFrame(a: real, b: real, fps: real)
    requires 0.0 <= a < 360000.0 && 0.0 <= b < 360000.0
    requires 0.0 < fps <= 100.0
    ensures FormatTimestampToFilename(a, fps) == FormatTimestampToFilename(b, fps)
        <==> a.Floor == b.Floor && FrameIndex(a, fps) == FrameIndex(b, fps)
  {
    TokenReadsBack(a, fps);
    TokenReadsBack(b, fps);
  }

  /** Zero is the all-zero token. */
  lemma FormatZero()
    ensures FormatTimestampToFilename(0.0, 30.0) == "00000000"
  {
    TokenDigits(0.0, 30.0);
  }

  /** Whole seconds give frame 00. */
  lemma FormatWholeSeconds()
    ensures FormatTimestampToFilename(83.0, 30.0) == "00012300"
  {
    TokenDigits(83.0, 30.0);
  }

  /** An hour, a minute and a second. */
  lemma FormatHourMinuteSecond()
    ensures FormatTimestampToFilename(3661.0, 30.0) == "01010100"
  {
    TokenDigits(3661.0, 30.0);
  }

  /** Half a second at 30 fps is frame 15. */
  lemma FormatHalfSecond()
    ensures FormatTimestampToFilename(0.5, 30.0) == "00000015"
  {
    TokenDigits(0.5, 30.0);
  }

  /** The frame index sits after the whole seconds. */
  lemma FormatDecimalSeconds()
    ensures FormatTimestampToFilename(1.5, 30.0) == "00000115"
  {
    TokenDigits(1.5, 30.0);
  }

  /** At 60 fps half a second is frame 30. */
  lemma FormatCustomFps()
    ensures FormatTimestampToFilename(0.5, 60.0) == "00000030"
  {
    TokenDigits(0.5, 60.0);
  }

  /** At 24 fps half a second is frame 12. */
  lemma FormatFilmFps()
    ensures FormatTimestampToFilename(0.5, 24.0) == "00000012"
  {
    TokenDigits(0.5, 24.0);
  }

  /** 1 h 2 min 3 s and frame 3: every field is padded to two digits. */
  lemma FormatPadding()
    ensures FormatTimestampToFilename(3723.133, 30.0) == "01020303"
  {
    TokenDigits(3723.133, 30.0);
  }

  /** A fractional frame rate: half a second at 29.97 fps is frame 14. */
  lemma FormatFractionalFps()
    ensures FormatTimestampToFilename(0.5, 29.97) == "00000014"
  {
    TokenDigits(0.5, 29.97);
  }
}
