/** The screenshot placeholder `[Screenshot: <timestamp>s | ymin,xmin,ymax,xmax]`
    and the scan `parseScreenshotPlaceholders` makes of a Markdown text.

    The global, case-insensitive pattern is modelled as a deterministic
    scanner, `MatchAt`. Every repetition in the pattern is greedy, and at each
    point where the regular-expression engine could backtrack to a shorter
    choice, the shorter choice leaves a digit, a `.`, a `:` or a space where
    the rest of the pattern needs something else, so the greedy choice is the
    only one that can lead to a match. Case folding is ASCII folding: without
    the `u` flag no non-ASCII character folds onto a letter of the keyword. */
module ScreenshotMarkers {
  import opened Wrappers
  import opened Lexical
  import opened JsNumber
  import opened TimestampCodec

  /** A bounding box on the 0-1000 scale: top, left, bottom, right. */
  datatype Crop = Crop(ymin: nat, xmin: nat, ymax: nat, xmax: nat)

  /** One match of the pattern: the span of the whole match, the span of the
      timestamp group and, when it took part, the span of the coordinates
      group. */
  datatype Match = Match(start: nat, end: nat, tsStart: nat, tsEnd: nat, coords: Option<(nat, nat)>)

  /** `ScreenshotPlaceholder`: the matched text, the timestamp text, its value
      in seconds and the optional crop box. */
  datatype Placeholder = Placeholder(placeholder: string, timestampStr: string, seconds: real, crop: Option<Crop>)

  /** The literal start of the pattern, in lower case. */
  const Keyword := "[screenshot:"

  /** ASCII lower-casing of a whole string. */
  function Lower(s: string): (r: string)
    ensures |r| == |s|
    ensures forall k :: 0 <= k < |s| ==> r[k] == ToLower(s[k])
  {
    seq(|s|, k requires 0 <= k < |s| => ToLower(s[k]))
  }

  /** `\[Screenshot:` matches at `i`, ignoring case. */
  predicate KeywordAt(t: string, i: nat) {
    i + |Keyword| <= |t| && Lower(t[i..i + |Keyword|]) == Keyword
  }

  /** The marker as the prompt spells it folds to the pattern's keyword. */
  lemma CapitalKeyword(keyword: string)
    requires keyword == "[Screenshot:"
    ensures |keyword| == |Keyword| && Lower(keyword) == Keyword
  {
    var low := Lower(keyword);
    assert ToLower('S') == 's';
    forall k | 0 <= k < |keyword| ensures low[k] == Keyword[k] {
    }
  }

  // ---------------------------------------------------------------------
  // Splitting the coordinates text

  /** `String.prototype.split` with a one-character separator. */
  function Split(s: string, sep: char): (parts: seq<string>)
    ensures |parts| >= 1
    decreases |s|
  {
    match IndexOf(s, sep)
    case None => [s]
    case Some(k) => [s[..k]] + Split(s[k + 1..], sep)
  }

  predicate NoSeparator(s: string, sep: char) {
    forall k :: 0 <= k < |s| ==> s[k] != sep
  }

  /** Non-empty digit strings. */
  predicate DigitParts(parts: seq<string>) {
    forall k :: 0 <= k < |parts| ==> parts[k] != [] && AllDigits(parts[k])
  }

  /** The coordinates text splits into four digit strings. */
  predicate CoordsText(s: string) {
    |Split(s, ',')| == 4 && DigitParts(Split(s, ','))
  }

  /** `coordsStr.split(',').map(Number)` and the `isNaN` guard. The guard
      cannot fail on a text the pattern accepted: each part is a non-empty
      digit string, which `Number` reads as its decimal value. */
  function CropOf(coordsStr: string): (c: Crop)
    requires CoordsText(coordsStr)
  {
    var parts := Split(coordsStr, ',');
    Crop(NatValue(parts[0]), NatValue(parts[1]), NatValue(parts[2]), NatValue(parts[3]))
  }

  /** The coordinates as the prompt asks for them: `ymin,xmin,ymax,xmax`. */
  function CoordsString(c: Crop): (s: string)
  {
    NatToString(c.ymin) + [','] + (NatToString(c.xmin) + [','] + (NatToString(c.ymax) + [','] + NatToString(c.xmax)))
  }

  lemma DigitsHaveNoComma(s: string)
    requires AllDigits(s)
    ensures NoSeparator(s, ',')
  {
  }

  /** Coordinates are read back in the order they are written: ymin, xmin,
      ymax, xmax. */
  lemma CropOfCoordsString(c: Crop)
    ensures CoordsText(CoordsString(c))
    ensures CropOf(CoordsString(c)) == c
  {
    CoordsStringSplit(c);
    NatValueOfNatToString(c.ymin);
    NatValueOfNatToString(c.xmin);
    NatValueOfNatToString(c.ymax);
    NatValueOfNatToString(c.xmax);
  }

  /** The written coordinates split into the four numbers. */
  lemma CoordsStringSplit(c: Crop)
    ensures Split(CoordsString(c), ',') ==
      [NatToString(c.ymin), NatToString(c.xmin), NatToString(c.ymax), NatToString(c.xmax)]
  {
    var a, b, y, x := NatToString(c.ymin), NatToString(c.xmin), NatToString(c.ymax), NatToString(c.xmax);
    DigitsHaveNoComma(a);
    DigitsHaveNoComma(b);
    DigitsHaveNoComma(y);
    DigitsHaveNoComma(x);
    SplitWithout(x, ',');
    SplitCons(y, ',', x);
    SplitCons(b, ',', y + [','] + x);
    SplitCons(a, ',', b + [','] + (y + [','] + x));
  }

  // ---------------------------------------------------------------------
  // The scanner

  /** `(?:\.\d+)?` at `k`, greedy: its end, or `k` when it is absent. */
  function FractionEnd(t: string, k: nat): (e: nat)
    requires k <= |t|
    ensures k <= e <= |t|
    ensures e > k ==> e > k + 1 && t[k] == '.' && e == SkipDigits(t, k + 1)
    ensures e < |t| ==> !IsDigit(t[e]) || e == k
  {
    if k + 1 < |t| && t[k] == '.' && IsDigit(t[k + 1]) then SkipDigits(t, k + 1) else k
  }

  /** The timestamp group `\d{1,2}:\d{2}(?:\.\d+)?|\d+(?:\.\d+)?` at `p`.
      When the digit run is followed by `:`, only the first alternative can
      lead to a match (the second would leave the `:` for the rest of the
      pattern); otherwise only the second can. */
  function TimestampEnd(t: string, p: nat): (r: Option<nat>)
    requires p <= |t|
    ensures r.Some? ==> p < r.value <= |t|
  {
    var d := SkipDigits(t, p);
    if d == p then None
    else if d < |t| && t[d] == ':' then
      if d - p <= 2 && d + 2 < |t| && IsDigit(t[d + 1]) && IsDigit(t[d + 2]) then
        Some(FractionEnd(t, d + 3))
      else None
    else Some(FractionEnd(t, d))
  }

  /** What the timestamp group matches is a timestamp of one of the two
      forms. */
  lemma TimestampEndShape(t: string, p: nat)
    requires p <= |t| && TimestampEnd(t, p).Some?
    ensures WellFormedTimestamp(t[p..TimestampEnd(t, p).value])
  {
    var d := SkipDigits(t, p);
    SkipDigitsRun(t, p);
    if d < |t| && t[d] == ':' {
      var e := FractionEnd(t, d + 3);
      if e > d + 3 {
        SkipDigitsRun(t, d + 4);
      }
      ColonShape(t, p, d, e);
    } else {
      var e := FractionEnd(t, d);
      if e > d {
        SkipDigitsRun(t, d + 1);
      }
      DecimalShape(t, p, d, e);
    }
  }

  lemma ColonShape(t: string, p: nat, d: nat, e: nat)
    requires p < d && d - p <= 2 && d + 2 < |t| && e <= |t|
    requires AllDigits(t[p..d])
    requires t[d] == ':' && IsDigit(t[d + 1]) && IsDigit(t[d + 2])
    requires e == d + 3 || (e > d + 4 && t[d + 3] == '.' && AllDigits(t[d + 4..e]))
    ensures ColonFormAt(t[p..e], d - p)
  {
    var ts := t[p..e];
    var c := d - p;
    assert ts[..c] == t[p..d];
    if e > d + 3 {
      assert ts[c + 4..] == t[d + 4..e];
    }
  }

  lemma DecimalShape(t: string, p: nat, d: nat, e: nat)
    requires p < d <= e <= |t|
    requires AllDigits(t[p..d])
    requires e == d || (e > d + 1 && t[d] == '.' && AllDigits(t[d + 1..e]))
    ensures DecimalFormAt(t[p..e], d - p)
  {
    var ts := t[p..e];
    assert ts[..d - p] == t[p..d];
    if e > d {
      assert ts[d - p + 1..] == t[d + 1..e];
    }
  }

  /** `n` runs of digits separated by `,`, each greedy, starting at `k`:
      the end of the last run. */
  function CoordsEnd(t: string, k: nat, n: nat): (r: Option<nat>)
    requires k <= |t| && n >= 1
    ensures r.Some? ==> k < r.value <= |t|
    decreases n
  {
    var d := SkipDigits(t, k);
    if d == k then None
    else if n == 1 then Some(d)
    else if d < |t| && t[d] == ',' then CoordsEnd(t, d + 1, n - 1)
    else None
  }

  /** Splitting at the first separator. */
  lemma SplitCons(first: string, sep: char, tail: string)
    requires NoSeparator(first, sep)
    ensures Split(first + [sep] + tail, sep) == [first] + Split(tail, sep)
  {
    var u := first + [sep] + tail;
    assert u[..|first|] == first;
    assert u[|first| + 1..] == tail;
    assert u[|first|] == sep;
    assert forall j :: 0 <= j < |first| ==> u[j] == first[j] && u[j] != sep;
    assert IndexOf(u, sep) == Some(|first|);
  }

  lemma SplitWithout(u: string, sep: char)
    requires NoSeparator(u, sep)
    ensures Split(u, sep) == [u]
  {
    assert IndexOf(u, sep) == None;
  }

  /** What the scanner accepts as coordinates splits into `n` digit strings. */
  lemma {:induction false} CoordsEndSplit(t: string, k: nat, n: nat, e: nat)
    requires k <= |t| && n >= 1
    requires CoordsEnd(t, k, n) == Some(e)
    ensures |Split(t[k..e], ',')| == n && DigitParts(Split(t[k..e], ','))
    decreases n, 1
  {
    if n == 1 {
      SkipDigitsRun(t, k);
      DigitsSplit(t[k..e]);
    } else {
      CoordsEndSplitStep(t, k, SkipDigits(t, k), n - 1, e);
    }
  }

  lemma {:induction false} CoordsEndSplitStep(t: string, k: nat, d: nat, count: nat, e: nat)
    requires k <= |t| && count >= 1 && d == SkipDigits(t, k)
    requires CoordsEnd(t, k, count + 1) == Some(e)
    ensures |Split(t[k..e], ',')| == count + 1 && DigitParts(Split(t[k..e], ','))
    decreases count + 1, 0
  {
    CoordsEndSplit(t, d + 1, count, e);
    SkipDigitsRun(t, k);
    SplitAround(t, k, d, e, count);
  }

  /** A run of digits, a `,` at `d` and `count` digit strings after it. */
  lemma SplitAround(t: string, k: nat, d: nat, e: nat, count: nat)
    requires k < d < e <= |t| && t[d] == ',' && AllDigits(t[k..d])
    requires |Split(t[d + 1..e], ',')| == count && DigitParts(Split(t[d + 1..e], ','))
    ensures |Split(t[k..e], ',')| == count + 1 && DigitParts(Split(t[k..e], ','))
  {
    SliceAround(t, k, d, e);
    SplitDigitsCons(t[k..d], t[d + 1..e], count);
  }

  /** A digit string is one piece. */
  lemma DigitsSplit(u: string)
    requires u != [] && AllDigits(u)
    ensures Split(u, ',') == [u] && DigitParts(Split(u, ','))
  {
    DigitsHaveNoComma(u);
    SplitWithout(u, ',');
  }

  /** A digit string and `,` in front of `count` digit strings make
      `count + 1` digit strings. */
  lemma SplitDigitsCons(first: string, tail: string, count: nat)
    requires first != [] && AllDigits(first)
    requires |Split(tail, ',')| == count && DigitParts(Split(tail, ','))
    ensures |Split(first + [','] + tail, ',')| == count + 1
    ensures DigitParts(Split(first + [','] + tail, ','))
  {
    DigitsHaveNoComma(first);
    SplitCons(first, ',', tail);
    DigitPartsCons(first, Split(tail, ','));
  }

  /** A slice around position `d`. */
  lemma SliceAround(t: string, k: nat, d: nat, e: nat)
    requires k <= d < e <= |t|
    ensures t[k..e] == t[k..d] + [t[d]] + t[d + 1..e]
  {
  }

  lemma CoordsEndText(t: string, k: nat, f: nat)
    requires k <= |t| && CoordsEnd(t, k, 4) == Some(f)
    ensures CoordsText(t[k..f])
  {
    CoordsEndSplit(t, k, 4, f);
  }

  lemma DigitPartsCons(first: string, rest: seq<string>)
    requires first != [] && AllDigits(first) && DigitParts(rest)
    ensures DigitParts([first] + rest)
  {
  }

  /** What follows the timestamp: `\s*s?(?:\s*\|\s*(\d+,\d+,\d+,\d+))?\]`.
      Returns the end of the match and the span of the coordinates group. */
  function TailEnd(t: string, e: nat): (r: Option<(nat, Option<(nat, nat)>)>)
    requires e <= |t|
    ensures r.Some? ==> e < r.value.0 <= |t| && t[r.value.0 - 1] == ']'
    ensures r.Some? && r.value.1.Some? ==>
      e < r.value.1.value.0 < r.value.1.value.1 < r.value.0
      && CoordsEnd(t, r.value.1.value.0, 4) == Some(r.value.1.value.1)
  {
    var a := SkipSpace(t, e);
    var b := if a < |t| && (t[a] == 's' || t[a] == 'S') then a + 1 else a;
    if b < |t| && t[b] == ']' then Some((b + 1, None))
    else
      match CropGroupEnd(t, b)
      case None => None
      case Some((end, span)) => Some((end, Some(span)))
  }

  /** `\s*\|\s*(\d+,\d+,\d+,\d+)\]` at `b`: the end of the match and the
      span of the coordinates. */
  function CropGroupEnd(t: string, b: nat): (r: Option<(nat, (nat, nat))>)
    requires b <= |t|
    ensures r.Some? ==>
      b < r.value.1.0 < r.value.1.1 < r.value.0 <= |t| && t[r.value.0 - 1] == ']'
      && CoordsEnd(t, r.value.1.0, 4) == Some(r.value.1.1)
  {
    var c := SkipSpace(t, b);
    if c < |t| && t[c] == '|' then
      var k := SkipSpace(t, c + 1);
      match CoordsEnd(t, k, 4)
      case None => None
      case Some(f) =>
        if f < |t| && t[f] == ']' then
          Some((f + 1, (k, f)))
        else None
    else None
  }

  /** The spans of a match nest: the timestamp group inside the match, the
      coordinates group, when present, after the timestamp. */
  predicate Spans(t: string, m: Match) {
    && m.start < m.tsStart < m.tsEnd < m.end <= |t|
    && (m.coords.Some? ==> m.tsEnd < m.coords.value.0 < m.coords.value.1 < m.end)
  }

  /** A match as the scanner reports it: well nested spans, a well-formed
      timestamp and well-formed coordinates. */
  predicate ValidMatch(t: string, m: Match) {
    && Spans(t, m)
    && WellFormedTimestamp(t[m.tsStart..m.tsEnd])
    && t[m.start] == '[' && t[m.end - 1] == ']'
    && (m.coords.Some? ==> CoordsEnd(t, m.coords.value.0, 4) == Some(m.coords.value.1))
  }

  /** The match of the whole pattern starting exactly at `i`, if any. */
  function MatchAt(t: string, i: nat): (r: Option<Match>)
    requires i <= |t|
    ensures r.Some? ==> r.value.start == i && Spans(t, r.value)
  {
    if !KeywordAt(t, i) then None
    else
      var p := SkipSpace(t, i + |Keyword|);
      match TimestampEnd(t, p)
      case None => None
      case Some(e) =>
        match TailEnd(t, e)
        case None => None
        case Some((end, coords)) => Some(Match(i, end, p, e, coords))
  }

  /** What the scanner matches has the shape of the pattern. */
  lemma MatchAtValid(t: string, i: nat)
    requires i <= |t| && MatchAt(t, i).Some?
    ensures ValidMatch(t, MatchAt(t, i).value)
  {
    assert ToLower(t[i]) == '[';
    TimestampEndShape(t, SkipSpace(t, i + |Keyword|));
  }

  /** The outcome of the pattern at every position `0 .. |t|` of `t`: what
      an attempt to match starting exactly there finds. */
  function Table(t: string): (tab: seq<Option<Match>>)
    ensures |tab| == |t| + 1 && Proper(tab)
  {
    seq(|t| + 1, i requires 0 <= i <= |t| => MatchAt(t, i))
  }

  /** Every entry of a table is a match that starts where it stands and
      ends further on, inside the text. */
  predicate Proper(tab: seq<Option<Match>>) {
    forall i :: 0 <= i < |tab| && tab[i].Some? ==> tab[i].value.start == i < tab[i].value.end < |tab|
  }

  /** `regex.exec(markdown)` with `lastIndex == from`: the leftmost match
      starting at or after `from`. */
  function Exec(tab: seq<Option<Match>>, from: nat): (r: Option<Match>)
    requires Proper(tab) && from < |tab|
    ensures r.Some? ==> from <= r.value.start < |tab| && tab[r.value.start] == r
    ensures r.Some? ==> forall k :: from <= k < r.value.start ==> tab[k].None?
    ensures r.None? ==> forall k :: from <= k < |tab| ==> tab[k].None?
    decreases |tab| - from
  {
    match tab[from]
    case Some(m) => Some(m)
    case None => if from + 1 == |tab| then None else Exec(tab, from + 1)
  }

  /** All matches the global scan finds from `from` on: each `exec` resumes
      at the end of the previous match. */
  function Matches(tab: seq<Option<Match>>, from: nat): (ms: seq<Match>)
    requires Proper(tab) && from < |tab|
    decreases |tab| - from
  {
    match Exec(tab, from)
    case None => []
    case Some(m) => [m] + Matches(tab, m.end)
  }

  /** Every reported match is in the table where it starts, at or after
      `from`. */
  lemma {:induction false} MatchesFound(tab: seq<Option<Match>>, from: nat, j: nat)
    requires Proper(tab) && from < |tab| && j < |Matches(tab, from)|
    ensures from <= Matches(tab, from)[j].start < |tab|
    ensures tab[Matches(tab, from)[j].start] == Some(Matches(tab, from)[j])
    decreases |tab| - from
  {
    var m := Exec(tab, from).value;
    if j > 0 {
      MatchesFound(tab, m.end, j - 1);
      assert Matches(tab, from)[j] == Matches(tab, m.end)[j - 1];
    }
  }

  /** Reported matches do not overlap and come in text order. */
  lemma {:induction false} MatchesOrdered(tab: seq<Option<Match>>, from: nat, j: nat)
    requires Proper(tab) && from < |tab| && j + 1 < |Matches(tab, from)|
    ensures Matches(tab, from)[j].end <= Matches(tab, from)[j + 1].start
    decreases |tab| - from
  {
    var m := Exec(tab, from).value;
    assert Matches(tab, from) == [m] + Matches(tab, m.end);
    if j == 0 {
      MatchesFound(tab, m.end, 0);
    } else {
      MatchesOrdered(tab, m.end, j - 1);
    }
  }

  /** A table whose only match starts at the first position and runs to
      the end of the text yields that one match. */
  lemma OnlyMatch(tab: seq<Option<Match>>, m: Match)
    requires Proper(tab) && |tab| > 0 && tab[0] == Some(m) && m.end + 1 == |tab|
    requires tab[m.end].None?
    ensures Matches(tab, 0) == [m]
  {
    assert Matches(tab, m.end) == [];
  }

  /** No match starts at the end of a text. */
  lemma NoMatchAtEnd(t: string)
    ensures MatchAt(t, |t|).None?
  {
    assert !KeywordAt(t, |t|);
  }

  /** Every reported match has the shape of the pattern. */
  lemma MatchesValid(t: string, from: nat)
    requires from <= |t|
    ensures AllValid(t, Matches(Table(t), from))
  {
    var ms := Matches(Table(t), from);
    forall j | 0 <= j < |ms| ensures ValidMatch(t, ms[j]) {
      MatchesFound(Table(t), from, j);
      TableValid(t, Table(t), ms[j].start);
    }
  }

  /** Every match in the table of a text has the shape of the pattern. */
  lemma TableValid(t: string, tab: seq<Option<Match>>, i: nat)
    requires tab == Table(t) && i < |tab| && tab[i].Some?
    ensures ValidMatch(t, tab[i].value)
  {
    MatchAtValid(t, i);
  }

  /** The placeholder record the loop body builds from one match. */
  function ToPlaceholder(t: string, m: Match): (r: Placeholder)
    requires ValidMatch(t, m)
    ensures r.placeholder == t[m.start..m.end] && r.timestampStr == t[m.tsStart..m.tsEnd]
    ensures ParseTimestampToSeconds(r.timestampStr) == Finite(r.seconds) && r.seconds >= 0.0
    ensures r.crop.Some? <==> m.coords.Some?
  {
    var ts := t[m.tsStart..m.tsEnd];
    WellFormedTimestampSeconds(ts);
    var crop := if m.coords.None? then None else (
      var (c0, c1) := m.coords.value;
      CoordsEndText(t, c0, c1);
      Some(CropOf(t[c0..c1])));
    Placeholder(t[m.start..m.end], ts, ParseTimestampToSeconds(ts).value, crop)
  }

  predicate AllValid(t: string, ms: seq<Match>) {
    forall j :: 0 <= j < |ms| ==> ValidMatch(t, ms[j])
  }

  function Describe(t: string, ms: seq<Match>): (ps: seq<Placeholder>)
    requires AllValid(t, ms)
    ensures |ps| == |ms|
  {
    seq(|ms|, j requires 0 <= j < |ms| => ToPlaceholder(t, ms[j]))
  }

  lemma DescribeSnoc(t: string, ms: seq<Match>, m: Match)
    requires AllValid(t, ms) && ValidMatch(t, m)
    ensures AllValid(t, ms + [m])
    ensures Describe(t, ms + [m]) == Describe(t, ms) + [ToPlaceholder(t, m)]
  {
    var ms' := ms + [m];
    assert forall j :: 0 <= j < |ms| ==> ms'[j] == ms[j];
  }

  lemma SnocAssoc<T>(a: seq<T>, x: T, b: seq<T>)
    ensures (a + [x]) + b == a + ([x] + b)
  {
  }

  /** What `parseScreenshotPlaceholders` returns for a text. */
  function Placeholders(t: string): seq<Placeholder> {
    MatchesValid(t, 0);
    Describe(t, Matches(Table(t), 0))
  }

  /** `parseScreenshotPlaceholders`: the `while ((match = regex.exec(...)))`
      loop, pushing one record per match. */
  method ParseScreenshotPlaceholders(markdown: string) returns (placeholders: seq<Placeholder>)
    ensures placeholders == Placeholders(markdown)
  {
    var table := Table(markdown);
    placeholders := [];
    var lastIndex := 0;
    ghost var seen: seq<Match> := [];
    while true
      invariant lastIndex <= |markdown|
      invariant AllValid(markdown, seen)
      invariant seen + Matches(table, lastIndex) == Matches(table, 0)
      invariant placeholders == Describe(markdown, seen)
      decreases |markdown| - lastIndex
    {
      var found := Exec(table, lastIndex);
      if found.None? {
        assert seen == Matches(table, 0);
        return;
      }
      var m := found.value;
      TableValid(markdown, table, m.start);
      assert Matches(table, lastIndex) == [m] + Matches(table, m.end);
      DescribeSnoc(markdown, seen, m);
      SnocAssoc(seen, m, Matches(table, m.end));
      placeholders := placeholders + [ToPlaceholder(markdown, m)];
      seen := seen + [m];
      lastIndex := m.end;
    }
  }

  /** The scan misses no match: every position where the pattern matches
      is the start of a reported match or lies inside one. */
  lemma MatchesComplete(tab: seq<Option<Match>>, from: nat, k: nat)
    requires Proper(tab) && from <= k < |tab| && tab[k].Some?
    ensures exists j :: 0 <= j < |Matches(tab, from)| && Matches(tab, from)[j].start <= k < Matches(tab, from)[j].end
  {
    var j := CoveringMatch(tab, from, k);
  }

  /** The `j`-th match spans position `k`. */
  predicate Covers(ms: seq<Match>, j: nat, k: nat) {
    j < |ms| && ms[j].start <= k < ms[j].end
  }

  /** A match at `k` makes the scan from `from` report a first match that
      starts no later than `k`. */
  lemma FirstMatch(tab: seq<Option<Match>>, from: nat, k: nat) returns (m: Match)
    requires Proper(tab) && from <= k < |tab| && tab[k].Some?
    ensures from < m.end < |tab| && m.start <= k
    ensures Matches(tab, from) == [m] + Matches(tab, m.end)
  {
    m := Exec(tab, from).value;
  }

  /** The reported match that spans a position where the table holds a
      match. */
  lemma {:induction false} CoveringMatch(tab: seq<Option<Match>>, from: nat, k: nat) returns (j: nat)
    requires Proper(tab) && from <= k < |tab| && tab[k].Some?
    ensures Covers(Matches(tab, from), j, k)
    decreases |tab| - from
  {
    var m := FirstMatch(tab, from, k);
    if k >= m.end {
      var i := CoveringMatch(tab, m.end, k);
      j := i + 1;
      CoversCons(Matches(tab, from), m, Matches(tab, m.end), i, k);
    } else {
      j := 0;
    }
  }

  lemma CoversCons(ms: seq<Match>, m: Match, rest: seq<Match>, i: nat, k: nat)
    requires ms == [m] + rest && Covers(rest, i, k)
    ensures Covers(ms, i + 1, k)
  {
    assert ms[i + 1] == rest[i];
  }
  // ---------------------------------------------------------------------
  // Writing a placeholder and reading it back

  /** The optional ` | ymin,xmin,ymax,xmax` part. */
  function CropSuffix(crop: Option<Crop>): string {
    match crop
    case None => ""
    case Some(c) => " | " + CoordsString(c)
  }

  /** A placeholder as the prompt asks the model to write it,
      `[Screenshot: <ts>s]` or `[Screenshot: <ts>s | ymin,xmin,ymax,xmax]`,
      with the keyword spelled in any mix of cases. */
  function Render(keyword: string, ts: string, crop: Option<Crop>): string {
    keyword + " " + ts + "s" + CropSuffix(crop) + "]"
  }

  /** Written-out coordinates are scanned to their end. */
  lemma CoordsEndAt(t: string, k: nat, end: nat, c: Crop)
    requires end == k + |CoordsString(c)| && end <= |t|
    requires t[k..end] == CoordsString(c)
    requires end < |t| ==> !IsDigit(t[end])
    ensures CoordsEnd(t, k, 4) == Some(end)
  {
    var a, b, y, x := NatToString(c.ymin), NatToString(c.xmin), NatToString(c.ymax), NatToString(c.xmax);
    var p1: nat := k + |a| + 1;
    ConcatAt(t, k, p1 - 1, p1, end, a, ',', b + [','] + (y + [','] + x));
    ThreeNumbersAt(t, p1, end, b, y, x);
    NumberThenAt(t, k, p1, end, a, 3);
  }

  lemma ThreeNumbersAt(t: string, k: nat, end: nat, b: string, y: string, x: string)
    requires b != [] && AllDigits(b) && y != [] && AllDigits(y) && x != [] && AllDigits(x)
    requires end == k + |b + [','] + (y + [','] + x)| && end <= |t|
    requires t[k..end] == b + [','] + (y + [','] + x)
    requires end < |t| ==> !IsDigit(t[end])
    ensures CoordsEnd(t, k, 3) == Some(end)
  {
    var p2: nat := k + |b| + 1;
    ConcatAt(t, k, p2 - 1, p2, end, b, ',', y + [','] + x);
    TwoNumbersAt(t, p2, end, y, x);
    NumberThenAt(t, k, p2, end, b, 2);
  }

  lemma TwoNumbersAt(t: string, k: nat, end: nat, y: string, x: string)
    requires y != [] && AllDigits(y) && x != [] && AllDigits(x)
    requires end == k + |y + [','] + x| && end <= |t|
    requires t[k..end] == y + [','] + x
    requires end < |t| ==> !IsDigit(t[end])
    ensures CoordsEnd(t, k, 2) == Some(end)
  {
    var p3: nat := k + |y| + 1;
    ConcatAt(t, k, p3 - 1, p3, end, y, ',', x);
    LastNumberAt(t, p3, end, x);
    NumberThenAt(t, k, p3, end, y, 1);
  }

  /** The last run of the coordinates, written at `k`. */
  lemma LastNumberAt(t: string, k: nat, end: nat, w: string)
    requires w != [] && AllDigits(w)
    requires end == k + |w| && end <= |t| && t[k..end] == w
    requires end < |t| ==> !IsDigit(t[end])
    ensures CoordsEnd(t, k, 1) == Some(end)
  {
    DigitsAt(t, k, w);
  }

  /** A run written at `k` and a `,` in front of `count` further runs. */
  lemma NumberThenAt(t: string, k: nat, next: nat, end: nat, w: string, count: nat)
    requires w != [] && AllDigits(w) && count >= 1
    requires next == k + |w| + 1 && next <= end <= |t|
    requires t[k..k + |w|] == w && t[k + |w|] == ','
    requires CoordsEnd(t, next, count) == Some(end)
    ensures CoordsEnd(t, k, count + 1) == Some(end)
  {
    DigitsAt(t, k, w);
    CoordsEndStep(t, k, k + |w|, count, end);
  }

  /** Where the two sides of `a + [sep] + b` sit when it is written at `k`. */
  lemma ConcatAt(t: string, k: nat, m: nat, s: nat, e: nat, a: string, sep: char, b: string)
    requires m == k + |a| && s == m + 1 && e == s + |b| && e <= |t|
    requires t[k..e] == a + [sep] + b
    ensures t[k..m] == a && t[m] == sep && t[s..e] == b
  {
    var w := t[k..e];
    forall x | 0 <= x < |a| ensures t[k..m][x] == a[x] {
      assert t[k..m][x] == w[x];
    }
    assert t[m] == w[|a|];
    forall x | 0 <= x < |b| ensures t[s..e][x] == b[x] {
      assert t[s..e][x] == w[|a| + 1 + x];
    }
  }

  /** One run of digits and a `,` before the remaining runs. */
  lemma CoordsEndStep(t: string, k: nat, d: nat, count: nat, r: nat)
    requires k < d < |t| && SkipDigits(t, k) == d && t[d] == ','
    requires count >= 1 && CoordsEnd(t, d + 1, count) == Some(r)
    ensures CoordsEnd(t, k, count + 1) == Some(r)
  {
  }

  /** A digit string written at `k` and not followed by a digit is one run. */
  lemma DigitsAt(t: string, k: nat, w: string)
    requires AllDigits(w)
    requires k + |w| <= |t| && t[k..k + |w|] == w
    requires k + |w| < |t| ==> !IsDigit(t[k + |w|])
    ensures SkipDigits(t, k) == k + |w|
  {
    SkipDigitsAt(t, k, k + |w|);
  }

  /** A well-formed timestamp followed by `s` is scanned to its end. */
  lemma TimestampEndAt(t: string, p: nat, ts: string)
    requires WellFormedTimestamp(ts)
    requires p + |ts| < |t| && t[p..p + |ts|] == ts && t[p + |ts|] == 's'
    ensures TimestampEnd(t, p) == Some(p + |ts|)
  {
    if c :| 1 <= c <= 2 && ColonFormAt(ts, c) {
      ColonEndAt(t, p, ts, c);
    } else {
      var d :| 1 <= d <= |ts| && DecimalFormAt(ts, d);
      DecimalEndAt(t, p, ts, d);
    }
  }

  lemma ColonEndAt(t: string, p: nat, ts: string, c: nat)
    requires ColonFormAt(ts, c)
    requires p + |ts| < |t| && t[p..p + |ts|] == ts && t[p + |ts|] == 's'
    ensures TimestampEnd(t, p) == Some(p + |ts|)
  {
    var e := p + |ts|;
    var d := p + c;
    assert t[p..d] == ts[..c];
    assert t[d] == ts[c] && t[d + 1] == ts[c + 1] && t[d + 2] == ts[c + 2];
    SkipDigitsAt(t, p, d);
    if c + 3 < |ts| {
      assert t[d + 3] == ts[c + 3];
      assert t[d + 4..e] == ts[c + 4..];
    }
    FractionEndAt(t, d + 3, e);
  }

  lemma DecimalEndAt(t: string, p: nat, ts: string, d: nat)
    requires DecimalFormAt(ts, d)
    requires p + |ts| < |t| && t[p..p + |ts|] == ts && t[p + |ts|] == 's'
    ensures TimestampEnd(t, p) == Some(p + |ts|)
  {
    var e := p + |ts|;
    assert t[p..p + d] == ts[..d];
    SkipDigitsAt(t, p, p + d);
    if d < |ts| {
      assert t[p + d] == ts[d];
      assert t[p + d + 1..e] == ts[d + 1..];
    }
    FractionEndAt(t, p + d, e);
  }

  /** An optional fraction written at `k` and followed by the `s`. */
  lemma FractionEndAt(t: string, k: nat, e: nat)
    requires k <= e < |t| && t[e] == 's'
    requires e == k || (t[k] == '.' && k + 1 < e && AllDigits(t[k + 1..e]))
    ensures FractionEnd(t, k) == e
  {
    if e > k {
      assert IsDigit(t[k + 1..e][0]);
      SkipDigitsAt(t, k + 1, e);
    }
  }

  /** Where the pieces of a written placeholder sit in the text: the
      keyword at `i`, the timestamp at `p..e`, the `s` at `e`, then the box
      suffix and the closing bracket. */
  lemma RenderPieces(t: string, i: nat, p: nat, e: nat, end: nat, keyword: string, ts: string, crop: Option<Crop>)
    requires |keyword| == |Keyword| && p == i + |Keyword| + 1 && e == p + |ts|
    requires end == i + |Render(keyword, ts, crop)| && end <= |t|
    requires t[i..end] == Render(keyword, ts, crop)
    ensures end == e + 2 + |CropSuffix(crop)|
    ensures t[i..i + |Keyword|] == keyword && t[i + |Keyword|] == ' '
    ensures t[p..e] == ts && t[e] == 's'
    ensures t[e + 1..end - 1] == CropSuffix(crop) && t[end - 1] == ']'
  {
    PiecesAt(t, i, keyword, ts, CropSuffix(crop), end);
  }

  /** The pieces of `a + " " + ts + "s" + suffix + "]"` where it stands in a
      text. */
  lemma PiecesAt(t: string, i: nat, a: string, ts: string, suffix: string, end: nat)
    requires end == i + |a| + |ts| + |suffix| + 3 && end <= |t|
    requires t[i..end] == a + " " + ts + "s" + suffix + "]"
    ensures t[i..i + |a|] == a && t[i + |a|] == ' '
    ensures t[i + |a| + 1..i + |a| + 1 + |ts|] == ts && t[i + |a| + 1 + |ts|] == 's'
    ensures t[i + |a| + |ts| + 2..end - 1] == suffix && t[end - 1] == ']'
  {
    var r := a + " " + ts + "s" + suffix + "]";
    var n := |a|;
    var f := n + 1 + |ts|;
    assert r[..n] == a;
    assert r[n + 1..f] == ts;
    assert r[f + 1..f + 1 + |suffix|] == suffix;
    SubSlice(t, i, r, 0, n);
    SubSlice(t, i, r, n + 1, f);
    SubSlice(t, i, r, f + 1, f + 1 + |suffix|);
    assert t[i + n] == r[n];
    assert t[i + f] == r[f];
    assert t[i + f + 1 + |suffix|] == r[f + 1 + |suffix|];
  }

  /** A piece of a piece of text. */
  lemma SubSlice(t: string, i: nat, w: string, a: nat, b: nat)
    requires i + |w| <= |t| && t[i..i + |w|] == w && a <= b <= |w|
    ensures t[i + a..i + b] == w[a..b]
  {
    forall x | 0 <= x < b - a ensures t[i + a..i + b][x] == w[a..b][x] {
      assert t[i..i + |w|][a + x] == t[i + a + x];
    }
  }

  /** The tail `s]` of a written placeholder without a box. */
  lemma TailEndPlainAt(t: string, e: nat)
    requires e + 1 < |t| && t[e] == 's' && t[e + 1] == ']'
    ensures TailEnd(t, e).Some? && TailEnd(t, e).value.0 == e + 2 && TailEnd(t, e).value.1 == None
  {
    SkipSpaceAt(t, e, e);
  }

  /** The tail `s | ymin,xmin,ymax,xmax]` of a written placeholder with a box. */
  lemma TailEndCropAt(t: string, e: nat, c0: nat, c1: nat, c: Crop)
    requires c0 == e + 4 && c1 == c0 + |CoordsString(c)| && c1 < |t|
    requires t[e] == 's' && t[e + 1] == ' ' && t[e + 2] == '|' && t[e + 3] == ' '
    requires t[c0..c1] == CoordsString(c) && t[c1] == ']'
    ensures TailEnd(t, e).Some? && TailEnd(t, e).value.0 == c1 + 1
    ensures TailEnd(t, e).value.1 == Some((c0, c1))
  {
    SkipSpaceAt(t, e, e);
    OneSpace(t, e + 1);
    SkipSpaceAt(t, e + 1, e + 2);
    OneSpace(t, e + 3);
    SkipSpaceAt(t, e + 3, c0);
    assert t[c0] == CoordsString(c)[0] == NatToString(c.ymin)[0];
    CoordsEndAt(t, c0, c1, c);
  }

  lemma WellFormedStartsWithDigit(ts: string)
    requires WellFormedTimestamp(ts)
    ensures ts != [] && IsDigit(ts[0])
  {
    if ColonFormAt(ts, 1) || ColonFormAt(ts, 2) {
      assert ts[..1][0] == ts[0];
    } else {
      var d :| 1 <= d <= |ts| && DecimalFormAt(ts, d);
      assert ts[..d][0] == ts[0];
    }
  }

  /** The scanner's steps at `i` put together. */
  lemma MatchAtSteps(t: string, i: nat, p: nat, e: nat)
    requires KeywordAt(t, i) && SkipSpace(t, i + |Keyword|) == p
    requires p <= |t| && TimestampEnd(t, p) == Some(e) && TailEnd(t, e).Some?
    ensures MatchAt(t, i) == Some(Match(i, TailEnd(t, e).value.0, p, e, TailEnd(t, e).value.1))
  {
  }

  /** The keyword, the space and the timestamp of a written placeholder are
      scanned as such. */
  lemma HeadAt(t: string, i: nat, p: nat, e: nat, keyword: string, ts: string)
    requires |keyword| == |Keyword| && Lower(keyword) == Keyword
    requires WellFormedTimestamp(ts)
    requires p == i + |Keyword| + 1 && e == p + |ts| && e < |t|
    requires t[i..i + |Keyword|] == keyword && t[i + |Keyword|] == ' '
    requires t[p..e] == ts && t[e] == 's'
    ensures KeywordAt(t, i) && SkipSpace(t, i + |Keyword|) == p && TimestampEnd(t, p) == Some(e)
  {
    WellFormedStartsWithDigit(ts);
    assert t[p] == ts[0];
    OneSpace(t, i + |Keyword|);
    SkipSpaceAt(t, i + |Keyword|, p);
    TimestampEndAt(t, p, ts);
  }

  /** A placeholder written as the prompt asks is found where it stands,
      and reads back as its own text, timestamp and crop box. */
  lemma MarkerAt(t: string, i: nat, keyword: string, ts: string, crop: Option<Crop>)
    requires |keyword| == |Keyword| && Lower(keyword) == Keyword
    requires WellFormedTimestamp(ts)
    requires i + |Render(keyword, ts, crop)| <= |t|
    requires t[i..i + |Render(keyword, ts, crop)|] == Render(keyword, ts, crop)
    ensures MatchAt(t, i).Some? && ValidMatch(t, MatchAt(t, i).value)
    ensures MatchAt(t, i).value.end == i + |Render(keyword, ts, crop)|
    ensures var p := ToPlaceholder(t, MatchAt(t, i).value);
      p.placeholder == Render(keyword, ts, crop) && p.timestampStr == ts && p.crop == crop
  {
    var r := Render(keyword, ts, crop);
    var p: nat := i + |Keyword| + 1;
    var e: nat := p + |ts|;
    var end: nat := i + |r|;
    RenderPieces(t, i, p, e, end, keyword, ts, crop);
    HeadAt(t, i, p, e, keyword, ts);
    if crop.None? {
      PlainMarkerAt(t, i, p, e, end, r, ts);
    } else {
      var c := crop.value;
      var c0: nat := e + 4;
      var c1: nat := c0 + |CoordsString(c)|;
      CropTailAt(t, e, c0, c1, end, crop, c);
      CropMarkerAt(t, i, p, e, c0, c1, end, r, ts, c);
    }
  }

  /** The scanner and the record builder on `[Screenshot: <ts>s]` at `i`. */
  lemma PlainMarkerAt(t: string, i: nat, p: nat, e: nat, end: nat, r: string, ts: string)
    requires p == i + |Keyword| + 1 && e == p + |ts| && end == e + 2
    requires end == i + |r| && end <= |t|
    requires t[i..end] == r && t[p..e] == ts && t[e] == 's' && t[end - 1] == ']'
    requires KeywordAt(t, i) && SkipSpace(t, i + |Keyword|) == p && TimestampEnd(t, p) == Some(e)
    ensures MatchAt(t, i).Some? && ValidMatch(t, MatchAt(t, i).value)
    ensures MatchAt(t, i).value.end == end
    ensures var ph := ToPlaceholder(t, MatchAt(t, i).value);
      ph.placeholder == r && ph.timestampStr == ts && ph.crop == None
  {
    TailEndPlainAt(t, e);
    MatchAtSteps(t, i, p, e);
    MatchAtValid(t, i);
    var m := Match(i, end, p, e, None);
    PlaceholderOfMarker(t, m, r, ts, None);
  }

  /** The scanner and the record builder on
      `[Screenshot: <ts>s | ymin,xmin,ymax,xmax]` at `i`, the box at `c0..c1`. */
  lemma CropMarkerAt(t: string, i: nat, p: nat, e: nat, c0: nat, c1: nat, end: nat, r: string, ts: string, c: Crop)
    requires p == i + |Keyword| + 1 && e == p + |ts| && c0 == e + 4 && c1 == c0 + |CoordsString(c)|
    requires end == i + |r| && end <= |t| && c1 <= |t|
    requires t[i..end] == r && t[p..e] == ts && t[c0..c1] == CoordsString(c)
    requires KeywordAt(t, i) && SkipSpace(t, i + |Keyword|) == p && TimestampEnd(t, p) == Some(e)
    requires TailEnd(t, e).Some? && TailEnd(t, e).value.0 == end
    requires TailEnd(t, e).value.1.Some?
    requires TailEnd(t, e).value.1.value.0 == c0 && TailEnd(t, e).value.1.value.1 == c1
    ensures MatchAt(t, i).Some? && ValidMatch(t, MatchAt(t, i).value)
    ensures MatchAt(t, i).value.end == end
    ensures var ph := ToPlaceholder(t, MatchAt(t, i).value);
      ph.placeholder == r && ph.timestampStr == ts && ph.crop == Some(c)
  {
    var m := Match(i, end, p, e, Some((c0, c1)));
    CropMatchAt(t, i, p, e, end, c0, c1);
    MatchAtValid(t, i);
    PlaceholderOfMarker(t, m, r, ts, Some(c));
  }

  /** The scanner's steps at `i` for a placeholder with a box. */
  lemma CropMatchAt(t: string, i: nat, p: nat, e: nat, end: nat, c0: nat, c1: nat)
    requires KeywordAt(t, i) && SkipSpace(t, i + |Keyword|) == p
    requires p <= |t| && TimestampEnd(t, p) == Some(e)
    requires TailEnd(t, e).Some? && TailEnd(t, e).value.0 == end
    requires TailEnd(t, e).value.1.Some?
    requires TailEnd(t, e).value.1.value.0 == c0 && TailEnd(t, e).value.1.value.1 == c1
    ensures MatchAt(t, i) == Some(Match(i, end, p, e, Some((c0, c1))))
  {
    MatchAtSteps(t, i, p, e);
  }

  /** The tail ` | ymin,xmin,ymax,xmax]` of a written placeholder with a box,
      the box text at `c0..c1`. */
  lemma CropTailAt(t: string, e: nat, c0: nat, c1: nat, end: nat, crop: Option<Crop>, c: Crop)
    requires crop == Some(c) && c0 == e + 4 && c1 == c0 + |CoordsString(c)|
    requires end == e + 2 + |CropSuffix(crop)| && end <= |t|
    requires t[e] == 's' && t[e + 1..end - 1] == CropSuffix(crop) && t[end - 1] == ']'
    ensures end == c1 + 1 && t[c0..c1] == CoordsString(c)
    ensures TailEnd(t, e).Some? && TailEnd(t, e).value.0 == end
    ensures TailEnd(t, e).value.1.Some?
    ensures TailEnd(t, e).value.1.value.0 == c0 && TailEnd(t, e).value.1.value.1 == c1
  {
    var suffix := CropSuffix(crop);
    var cs := CoordsString(c);
    assert t[e + 1] == suffix[0] && t[e + 2] == suffix[1] && t[e + 3] == suffix[2];
    assert t[e + 4..e + 4 + |cs|] == cs by {
      assert suffix[3..] == cs;
      SubSlice(t, e + 1, suffix, 3, |suffix|);
    }
    TailEndCropAt(t, e, c0, c1, c);
  }

  /** The record built from a match whose spans are known. */
  lemma PlaceholderOfMarker(t: string, m: Match, r: string, ts: string, crop: Option<Crop>)
    requires ValidMatch(t, m)
    requires t[m.start..m.end] == r && t[m.tsStart..m.tsEnd] == ts
    requires crop.None? <==> m.coords.None?
    requires crop.Some? ==> t[m.coords.value.0..m.coords.value.1] == CoordsString(crop.value)
    ensures var p := ToPlaceholder(t, m);
      p.placeholder == r && p.timestampStr == ts && p.crop == crop
  {
    if crop.Some? {
      CropOfCoordsString(crop.value);
    }
  }

  // ---------------------------------------------------------------------
  // Texts made of plain prose and placeholders

  /** Text without a `[`: no match can start in it. */
  predicate NoOpen(s: string) {
    forall k :: 0 <= k < |s| ==> s[k] != '['
  }

  /** No match starts at a character other than `[`. */
  lemma NoOpenNoMatch(t: string, tab: seq<Option<Match>>, k: nat)
    requires tab == Table(t) && k < |t| && t[k] != '['
    ensures tab[k].None?
  {
    if k + |Keyword| <= |t| {
      assert Lower(t[k..k + |Keyword|])[0] == ToLower(t[k]);
    }
    assert !KeywordAt(t, k);
  }

  /** A stretch of the text without `[` holds no match. */
  lemma GapNone(t: string, tab: seq<Option<Match>>, lo: nat, hi: nat)
    requires tab == Table(t) && lo <= hi <= |t|
    requires forall k :: lo <= k < hi ==> t[k] != '['
    ensures forall k :: lo <= k < hi ==> tab[k].None?
  {
    forall k | lo <= k < hi ensures tab[k].None? {
      NoOpenNoMatch(t, tab, k);
    }
  }

  /** Scanning on from `from`, the next match reported is the first one in
      the table. */
  lemma MatchesFrom(tab: seq<Option<Match>>, from: nat, m: Match)
    requires Proper(tab) && from <= m.start < |tab| && tab[m.start] == Some(m)
    requires forall k :: from <= k < m.start ==> tab[k].None?
    ensures Matches(tab, from) == [m] + Matches(tab, m.end)
  {
    assert Exec(tab, from) == Some(m);
  }

  /** A scan over a stretch with no match reports nothing. */
  lemma NoMatchesFrom(tab: seq<Option<Match>>, from: nat)
    requires Proper(tab) && from < |tab|
    requires forall k :: from <= k < |tab| ==> tab[k].None?
    ensures Matches(tab, from) == []
  {
    assert Exec(tab, from).None?;
  }

  /** A placeholder `r` written as the prompt asks is matched where it
      stands and reads back as its own record. */
  lemma PlainMarker(t: string, i: nat, r: string, keyword: string, ts: string, v: real)
    requires |keyword| == |Keyword| && Lower(keyword) == Keyword
    requires WellFormedTimestamp(ts) && ParseTimestampToSeconds(ts) == Finite(v)
    requires r == Render(keyword, ts, None)
    requires i + |r| <= |t| && t[i..i + |r|] == r
    ensures MatchAt(t, i).Some? && ValidMatch(t, MatchAt(t, i).value)
    ensures MatchAt(t, i).value.end == i + |r|
    ensures ToPlaceholder(t, MatchAt(t, i).value) == Placeholder(r, ts, v, None)
  {
    MarkerAt(t, i, keyword, ts, None);
    MarkerRecord(t, MatchAt(t, i).value, r, ts, v);
  }

  /** An entry of the table is the attempt to match there. */
  lemma TableAt(t: string, tab: seq<Option<Match>>, i: nat)
    requires tab == Table(t) && i <= |t|
    ensures tab[i] == MatchAt(t, i)
  {
  }

  /** The record of a placeholder without a crop box. */
  lemma MarkerRecord(t: string, m: Match, r: string, ts: string, v: real)
    requires ValidMatch(t, m) && ParseTimestampToSeconds(ts) == Finite(v)
    requires var p := ToPlaceholder(t, m);
      p.placeholder == r && p.timestampStr == ts && p.crop == None
    ensures ToPlaceholder(t, m) == Placeholder(r, ts, v, None)
  {
  }

  /** Prose without `[` up to the end of the text: no match starts there,
      nor at the very end. */
  lemma ProseToEnd(t: string, tab: seq<Option<Match>>, from: nat)
    requires tab == Table(t) && from <= |t|
    requires forall k :: from <= k < |t| ==> t[k] != '['
    ensures forall k :: from <= k < |tab| ==> tab[k].None?
  {
    GapNone(t, tab, from, |t|);
    NoMatchAtEnd(t);
  }

  /** A table with exactly two matches, `i1` and `i2`, each followed by a
      stretch without matches, yields those two. */
  lemma TwoMatches(tab: seq<Option<Match>>, i1: nat, i2: nat)
    requires Proper(tab) && i1 < |tab| && tab[i1].Some? && i2 < |tab| && tab[i2].Some?
    requires forall k :: 0 <= k < i1 ==> tab[k].None?
    requires tab[i1].value.end <= i2
    requires forall k :: tab[i1].value.end <= k < i2 ==> tab[k].None?
    requires forall k :: tab[i2].value.end <= k < |tab| ==> tab[k].None?
    ensures Matches(tab, 0) == [tab[i1].value, tab[i2].value]
  {
    MatchesFrom(tab, 0, tab[i1].value);
    MatchesFrom(tab, tab[i1].value.end, tab[i2].value);
    NoMatchesFrom(tab, tab[i2].value.end);
  }

  /** The records built from two matches. */
  lemma DescribeTwo(t: string, m1: Match, m2: Match)
    requires ValidMatch(t, m1) && ValidMatch(t, m2)
    ensures AllValid(t, [m1, m2])
    ensures Describe(t, [m1, m2]) == [ToPlaceholder(t, m1), ToPlaceholder(t, m2)]
  {
    var ms := [m1, m2];
    assert AllValid(t, ms) by {
      forall j | 0 <= j < 2 ensures ValidMatch(t, ms[j]) {
        if j == 1 { assert ms[j] == m2; }
      }
    }
    var ps := Describe(t, ms);
    assert ps[0] == ToPlaceholder(t, m1) && ps[1] == ToPlaceholder(t, m2);
    PairOf(ps, ToPlaceholder(t, m1), ToPlaceholder(t, m2));
  }

  lemma PairOf<T>(s: seq<T>, x: T, y: T)
    requires |s| == 2 && s[0] == x && s[1] == y
    ensures s == [x, y]
  {
  }

  /** Where the pieces of `a + r1 + b + r2 + c` sit, and that the prose
      pieces hold no `[`. */
  lemma Layout(t: string, a: string, r1: string, b: string, r2: string, c: string, i1: nat, i2: nat)
    requires t == a + r1 + b + r2 + c
    requires NoOpen(a) && NoOpen(b) && NoOpen(c)
    requires i1 == |a| && i2 == |a| + |r1| + |b|
    ensures i1 + |r1| <= i2 && i2 + |r2| <= |t|
      && t[i1..i1 + |r1|] == r1 && t[i2..i2 + |r2|] == r2
      && (forall k :: 0 <= k < i1 ==> t[k] != '[')
      && (forall k :: i1 + |r1| <= k < i2 ==> t[k] != '[')
      && (forall k :: i2 + |r2| <= k < |t| ==> t[k] != '[')
  {
    forall k | 0 <= k < i1 ensures t[k] != '[' {
      assert t[k] == a[k];
    }
    forall k | i1 + |r1| <= k < i2 ensures t[k] != '[' {
      assert t[k] == b[k - i1 - |r1|];
    }
    forall k | i2 + |r2| <= k < |t| ensures t[k] != '[' {
      assert t[k] == c[k - i2 - |r2|];
    }
    assert t[i1..i1 + |r1|] == r1;
    assert t[i2..i2 + |r2|] == r2;
  }

  /** Two placeholders `r1` at `i1` and `r2` at `i2`, with no `[`
      anywhere else: the parse finds both, in text order. */
  lemma TwoMarkersAt(t: string, i1: nat, r1: string, kw1: string, ts1: string, v1: real,
                     i2: nat, r2: string, kw2: string, ts2: string, v2: real)
    requires |kw1| == |Keyword| && Lower(kw1) == Keyword && |kw2| == |Keyword| && Lower(kw2) == Keyword
    requires WellFormedTimestamp(ts1) && ParseTimestampToSeconds(ts1) == Finite(v1)
    requires WellFormedTimestamp(ts2) && ParseTimestampToSeconds(ts2) == Finite(v2)
    requires r1 == Render(kw1, ts1, None) && r2 == Render(kw2, ts2, None)
    requires i1 + |r1| <= i2 && i2 + |r2| <= |t|
    requires t[i1..i1 + |r1|] == r1 && t[i2..i2 + |r2|] == r2
    requires forall k :: 0 <= k < i1 ==> t[k] != '['
    requires forall k :: i1 + |r1| <= k < i2 ==> t[k] != '['
    requires forall k :: i2 + |r2| <= k < |t| ==> t[k] != '['
    ensures Placeholders(t) == [Placeholder(r1, ts1, v1, None), Placeholder(r2, ts2, v2, None)]
  {
    var tab := Table(t);
    PlainMarker(t, i1, r1, kw1, ts1, v1);
    PlainMarker(t, i2, r2, kw2, ts2, v2);
    TableAt(t, tab, i1);
    TableAt(t, tab, i2);
    GapNone(t, tab, 0, i1);
    GapNone(t, tab, i1 + |r1|, i2);
    ProseToEnd(t, tab, i2 + |r2|);
    TwoMatches(tab, i1, i2);
    DescribeTwo(t, tab[i1].value, tab[i2].value);
  }

  /** Prose with two placeholders `r1` and `r2`, written as the prompt
      asks: the parse finds both, in text order. */
  lemma TwoMarkers(t: string, a: string, r1: string, kw1: string, ts1: string, v1: real, b: string,
                   r2: string, kw2: string, ts2: string, v2: real, c: string)
    requires |kw1| == |Keyword| && Lower(kw1) == Keyword && |kw2| == |Keyword| && Lower(kw2) == Keyword
    requires WellFormedTimestamp(ts1) && ParseTimestampToSeconds(ts1) == Finite(v1)
    requires WellFormedTimestamp(ts2) && ParseTimestampToSeconds(ts2) == Finite(v2)
    requires r1 == Render(kw1, ts1, None) && r2 == Render(kw2, ts2, None)
    requires NoOpen(a) && NoOpen(b) && NoOpen(c)
    requires t == a + r1 + b + r2 + c
    ensures Placeholders(t) == [Placeholder(r1, ts1, v1, None), Placeholder(r2, ts2, v2, None)]
  {
    var i1, i2 := |a|, |a| + |r1| + |b|;
    Layout(t, a, r1, b, r2, c, i1, i2);
    TwoMarkersAt(t, i1, r1, kw1, ts1, v1, i2, r2, kw2, ts2, v2);
  }
}
