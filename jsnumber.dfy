/** The part of JavaScript numbers the timestamp codec relies on: the global
    `parseFloat`, and the `*` and `+` it applies to the parsed parts. Values
    are exact reals; floating-point rounding is not modelled. */
module JsNumber {
  import opened Wrappers
  import opened Lexical

  /** A JavaScript number: a finite value, an infinity or NaN. */
  datatype Number = Finite(value: real) | Infinite(negative: bool) | NaN

  function Pow10(e: nat): (r: real)
    ensures r >= 1.0
  {
    if e == 0 then 1.0 else 10.0 * Pow10(e - 1)
  }

  /** The longest prefix of `t[i..]` that is a decimal mantissa:
      `Digits ( "." Digits? )?` or `"." Digits`. Returns its value and end. */
  function Mantissa(t: string, i: nat): (r: Option<(real, nat)>)
    requires i <= |t|
    ensures r.Some? ==> i < r.value.1 <= |t| && r.value.0 >= 0.0
    ensures r.None? <==> SkipDigits(t, i) == i && !(i + 1 < |t| && t[i] == '.' && IsDigit(t[i + 1]))
  {
    var d := SkipDigits(t, i);
    SkipDigitsRun(t, i);
    if d < |t| && t[d] == '.' then
      var f := SkipDigits(t, d + 1);
      SkipDigitsRun(t, d + 1);
      if d > i || f > d + 1 then Some((NatValue(t[i..d]) as real + FracValue(t[d + 1..f]), f))
      else None
    else if d > i then Some((NatValue(t[i..d]) as real, d))
    else None
  }

  /** The factor an exponent part `[eE] [+-]? Digits` starting at `k` stands
      for, or 1 when there is none (a dangling `e` is not part of the number). */
  function ExponentFactor(t: string, k: nat): (r: real)
    requires k <= |t|
    ensures r > 0.0
  {
    if k < |t| && (t[k] == 'e' || t[k] == 'E') then
      var negative := k + 1 < |t| && t[k + 1] == '-';
      var s := if k + 1 < |t| && (t[k + 1] == '-' || t[k + 1] == '+') then k + 2 else k + 1;
      var e := SkipDigits(t, s);
      SkipDigitsRun(t, s);
      if e > s then
        (if negative then 1.0 / Pow10(NatValue(t[s..e])) else Pow10(NatValue(t[s..e])))
      else 1.0
    else 1.0
  }

  /** The global `parseFloat`: skip leading whitespace, read an optional sign,
      then `Infinity` or the longest decimal literal; NaN when there is none. */
  function ParseFloat(t: string): (n: Number)
    ensures n.Finite? ==> exists i :: 0 <= i < |t| && IsDigit(t[i])
  {
    var i := SkipSpace(t, 0);
    var negative := i < |t| && t[i] == '-';
    var j := if i < |t| && (t[i] == '-' || t[i] == '+') then i + 1 else i;
    if LiteralAt(t, j, "Infinity") then Infinite(negative)
    else
      match Mantissa(t, j)
      case None => NaN
      case Some((m, k)) =>
        assert IsDigit(t[j]) || IsDigit(t[j + 1]);
        var v := m * ExponentFactor(t, k);
        Finite(if negative then -v else v)
  }

  /** `a * b` when `b` is a positive finite factor (`minutes * 60`). */
  function TimesPositive(a: Number, b: real): (r: Number)
    requires b > 0.0
    ensures a.NaN? <==> r.NaN?
    ensures a.Finite? ==> r == Finite(a.value * b)
  {
    match a
    case Finite(v) => Finite(v * b)
    case Infinite(neg) => Infinite(neg)
    case NaN => NaN
  }

  /** IEEE addition on the three kinds of value: NaN absorbs, opposite
      infinities give NaN, an infinity absorbs a finite value. */
  function Add(a: Number, b: Number): (r: Number)
    ensures a.Finite? && b.Finite? ==> r == Finite(a.value + b.value)
    ensures a.NaN? || b.NaN? ==> r.NaN?
    ensures r.Finite? ==> a.Finite? && b.Finite?
  {
    match (a, b)
    case (NaN, _) => NaN
    case (_, NaN) => NaN
    case (Infinite(x), Infinite(y)) => if x == y then Infinite(x) else NaN
    case (Infinite(x), Finite(_)) => Infinite(x)
    case (Finite(_), Infinite(y)) => Infinite(y)
    case (Finite(x), Finite(y)) => Finite(x + y)
  }

  /** On an unsigned decimal `Digits ("." Digits)?` parseFloat is the exact
      decimal value: this is the only shape the placeholder grammar produces. */
  lemma ParseFloatDecimal(t: string, d: nat, f: string)
    requires 1 <= d <= |t| && AllDigits(t[..d])
    requires d < |t| ==> t[d] == '.' && t[d + 1..] == f && f != [] && AllDigits(f)
    requires d == |t| ==> f == []
    ensures AllDigits(f)
    ensures ParseFloat(t) == Finite(NatValue(t[..d]) as real + FracValue(f))
  {
    assert IsDigit(t[0]);
    assert SkipSpace(t, 0) == 0;
    assert !LiteralAt(t, 0, "Infinity") by {
      if |t| >= 8 { assert t[0] != "Infinity"[0]; }
    }
    SkipDigitsAt(t, 0, d);
    assert t[0..d] == t[..d];
    if d < |t| {
      assert t[d + 1..|t|] == f;
      SkipDigitsAt(t, d + 1, |t|);
      assert FracValue(t[d + 1..|t|]) == FracValue(f);
    }
  }
}
