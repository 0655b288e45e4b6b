/** `replaceScreenshotsInMarkdown`: every placeholder found in the text, in
    descending order of seconds, is replaced by a link to the first image
    taken within half a second of it. */
module Replacement {
  import opened Wrappers
  import opened Lexical
  import opened ScreenshotMarkers
  import opened Ordering
  import opened JsNumber
  import opened TimestampCodec

  /** An extracted frame: its time and the name of its file. */
  datatype Image = Image(seconds: real, filename: string)

  function Abs(x: real): (r: real)
    ensures r >= 0.0 && (r == x || r == -x)
  {
    if x < 0.0 then -x else x
  }

  /** The tolerance test `Math.abs(img.seconds - ph.seconds) < 0.5`. */
  predicate Within(imageSeconds: real, placeholderSeconds: real) {
    Abs(imageSeconds - placeholderSeconds) < 0.5
  }

  /** `images.find(...)`: the position of the first image within tolerance. */
  function FindImage(images: seq<Image>, seconds: real): (r: Option<nat>)
    ensures r.Some? ==> r.value < |images| && Within(images[r.value].seconds, seconds)
    ensures r.Some? ==> forall j :: 0 <= j < r.value ==> !Within(images[j].seconds, seconds)
    ensures r.None? ==> forall j :: 0 <= j < |images| ==> !Within(images[j].seconds, seconds)
  {
    if images == [] then None
    else if Within(images[0].seconds, seconds) then Some(0)
    else
      match FindImage(images[1..], seconds)
      case None => None
      case Some(k) => Some(k + 1)
  }

  // ---------------------------------------------------------------------
  // `String.prototype.replace` with a string pattern

  /** The first occurrence of `pat` in `s` at or after `from`. */
  function IndexOfFrom(s: string, pat: string, from: nat): (r: Option<nat>)
    requires from <= |s|
    ensures r.Some? ==> from <= r.value && LiteralAt(s, r.value, pat)
    ensures r.Some? ==> forall k :: from <= k < r.value ==> !LiteralAt(s, k, pat)
    ensures r.None? ==> forall k :: from <= k <= |s| ==> !LiteralAt(s, k, pat)
    decreases |s| - from
  {
    if LiteralAt(s, from, pat) then Some(from)
    else if from == |s| then None
    else IndexOfFrom(s, pat, from + 1)
  }

  /** Replacing the first occurrence of `pat` by `rep`, inserted literally.
      This is what the link insertion means to do. */
  function ReplaceFirst(s: string, pat: string, rep: string): (r: string)
    ensures IndexOfFrom(s, pat, 0).None? ==> r == s
    ensures IndexOfFrom(s, pat, 0).Some? ==>
      var k := IndexOfFrom(s, pat, 0).value;
      && |r| == |s| - |pat| + |rep|
      && r[..k] == s[..k] && r[k..k + |rep|] == rep && r[k + |rep|..] == s[k + |pat|..]
  {
    match IndexOfFrom(s, pat, 0)
    case None => s
    case Some(k) =>
      var r := s[..k] + rep + s[k + |pat|..];
      assert r[..k] == s[..k] && r[k..k + |rep|] == rep && r[k + |rep|..] == s[k + |pat|..];
      r
  }

  predicate NoDollar(s: string) {
    forall k :: 0 <= k < |s| ==> s[k] != '$'
  }

  /** The replacement patterns `String.prototype.replace` expands in a
      replacement string when the pattern is a string: `$$` is `$`, `$&` the
      matched text, `` $` `` the text before it and `$'` the text after it.
      Every other `$` stands for itself. */
  function Expand(rep: string, matched: string, before: string, after: string): (r: string)
    decreases |rep|
  {
    if |rep| >= 2 && rep[0] == '$' && rep[1] == '$' then "$" + Expand(rep[2..], matched, before, after)
    else if |rep| >= 2 && rep[0] == '$' && rep[1] == '&' then matched + Expand(rep[2..], matched, before, after)
    else if |rep| >= 2 && rep[0] == '$' && rep[1] == '`' then before + Expand(rep[2..], matched, before, after)
    else if |rep| >= 2 && rep[0] == '$' && rep[1] == '\'' then after + Expand(rep[2..], matched, before, after)
    else if rep == [] then []
    else [rep[0]] + Expand(rep[1..], matched, before, after)
  }

  /** `result.replace(ph.placeholder, imageLink)` as the code is written: the
      link goes through the replacement-pattern expansion. */
  function ReplaceFirstAsWritten(s: string, pat: string, rep: string): (r: string)
    ensures IndexOfFrom(s, pat, 0).None? ==> r == s
    ensures IndexOfFrom(s, pat, 0).Some? ==>
      var k := IndexOfFrom(s, pat, 0).value;
      && |r| >= |s| - |pat|
      && r[..k] == s[..k] && r[|r| - (|s| - k - |pat|)..] == s[k + |pat|..]
  {
    match IndexOfFrom(s, pat, 0)
    case None => s
    case Some(k) => s[..k] + Expand(rep, pat, s[..k], s[k + |pat|..]) + s[k + |pat|..]
  }

  /** Text without `$` passes through the expansion unchanged. */
  lemma {:induction false} ExpandPlain(a: string, b: string, matched: string, before: string, after: string)
    requires NoDollar(a)
    ensures Expand(a + b, matched, before, after) == a + Expand(b, matched, before, after)
    decreases |a|
  {
    if a != [] {
      assert a[0] != '$';
      assert (a + b)[0] == a[0] && (a + b)[1..] == a[1..] + b;
      assert NoDollar(a[1..]) by {
        forall k | 0 <= k < |a[1..]| ensures a[1..][k] != '$' {
          assert a[1..][k] == a[k + 1];
        }
      }
      ExpandPlain(a[1..], b, matched, before, after);
      calc {
        Expand(a + b, matched, before, after);
        [a[0]] + Expand(a[1..] + b, matched, before, after);
        [a[0]] + (a[1..] + Expand(b, matched, before, after));
        { assert [a[0]] + a[1..] == a; }
        a + Expand(b, matched, before, after);
      }
    } else {
      assert a + b == b;
    }
  }

  /** Without a `$` in the replacement the code as written inserts it
      literally. */
  lemma AsWrittenAgrees(s: string, pat: string, rep: string)
    requires NoDollar(rep)
    ensures ReplaceFirstAsWritten(s, pat, rep) == ReplaceFirst(s, pat, rep)
  {
    ExpandPlain(rep, [], pat, [], []);
    assert rep + [] == rep;
    if IndexOfFrom(s, pat, 0).Some? {
      var k := IndexOfFrom(s, pat, 0).value;
      ExpandPlain(rep, [], pat, s[..k], s[k + |pat|..]);
    }
  }

  // ---------------------------------------------------------------------
  // The replacement loop

  /** The image link for the placeholder with 1-based ordinal `n`. */
  function Link(n: nat, filename: string): string {
    LinkHead(n) + filename + ")"
  }

  function Keys(ps: seq<Placeholder>): (keys: seq<real>)
    ensures |keys| == |ps| && forall k :: 0 <= k < |ps| ==> keys[k] == ps[k].seconds
  {
    seq(|ps|, k requires 0 <= k < |ps| => ps[k].seconds)
  }

  /** `[...placeholders].sort((a, b) => b.seconds - a.seconds)`: a
      rearrangement of the placeholders, descending by seconds, placeholders
      with equal seconds in their original order (`Array.prototype.sort` is
      stable). The entry at sorted position `p` is the one at input position
      `Order(Keys(ps))[p]`. */
  function SortBySecondsDescending(ps: seq<Placeholder>): (sorted: seq<Placeholder>)
    ensures |sorted| == |ps|
    ensures forall p :: 0 <= p < |ps| ==> sorted[p] == ps[Order(Keys(ps))[p]]
    ensures multiset(sorted) == multiset(ps)
    ensures forall p, q :: 0 <= p < q < |sorted| ==>
      || sorted[p].seconds > sorted[q].seconds
      || (sorted[p].seconds == sorted[q].seconds && Order(Keys(ps))[p] < Order(Keys(ps))[q])
  {
    OrderIsStableSort(Keys(ps));
    OrderPermutes(ps, Keys(ps));
    Select(ps, Order(Keys(ps)))
  }

  /** The `forEach` body for the placeholder at sorted position `index`. */
  function Step(result: string, ph: Placeholder, index: nat, images: seq<Image>): string {
    match FindImage(images, ph.seconds)
    case None => result
    case Some(j) => ReplaceFirst(result, ph.placeholder, Link(index + 1, images[j].filename))
  }

  /** The text after the first `n` iterations. */
  function Apply(markdown: string, sorted: seq<Placeholder>, images: seq<Image>, n: nat): string
    requires n <= |sorted|
  {
    if n == 0 then markdown
    else Step(Apply(markdown, sorted, images, n - 1), sorted[n - 1], n - 1, images)
  }

  /** What `replaceScreenshotsInMarkdown` returns. */
  function Replaced(markdown: string, images: seq<Image>): string {
    var sorted := SortBySecondsDescending(Placeholders(markdown));
    Apply(markdown, sorted, images, |sorted|)
  }

  /** `replaceScreenshotsInMarkdown`: parse, sort, then reassign `result`
      once per placeholder that has an image. */
  method ReplaceScreenshotsInMarkdown(markdown: string, images: seq<Image>) returns (result: string)
    ensures result == Replaced(markdown, images)
  {
    result := markdown;
    var placeholders := ParseScreenshotPlaceholders(markdown);
    var sorted := SortBySecondsDescending(placeholders);
    for index := 0 to |sorted|
      invariant result == Apply(markdown, sorted, images, index)
    {
      var ph := sorted[index];
      var image := FindImage(images, ph.seconds);
      if image.Some? {
        var imageLink := Link(index + 1, images[image.value].filename);
        result := ReplaceFirst(result, ph.placeholder, imageLink);
      }
    }
  }

  // ---------------------------------------------------------------------
  // Properties

  /** Iterations that find no image change nothing. */
  lemma {:induction false} ApplyUnchanged(markdown: string, sorted: seq<Placeholder>, images: seq<Image>, n: nat)
    requires n <= |sorted|
    requires forall k :: 0 <= k < n ==> FindImage(images, sorted[k].seconds).None?
    ensures Apply(markdown, sorted, images, n) == markdown
  {
    if n > 0 {
      ApplyUnchanged(markdown, sorted, images, n - 1);
    }
  }

  /** With no images the text comes back unchanged. */
  lemma NoImagesUnchanged(markdown: string)
    ensures Replaced(markdown, []) == markdown
  {
    var sorted := SortBySecondsDescending(Placeholders(markdown));
    ApplyUnchanged(markdown, sorted, [], |sorted|);
  }

  /** A text in which the pattern matches nowhere comes back unchanged. */
  lemma NoPlaceholdersUnchanged(markdown: string, images: seq<Image>)
    requires forall k :: 0 <= k <= |markdown| ==> MatchAt(markdown, k).None?
    ensures Placeholders(markdown) == []
    ensures Replaced(markdown, images) == markdown
  {
    assert Exec(Table(markdown), 0).None?;
  }

  /** When no image is within tolerance of any placeholder the text comes
      back unchanged. */
  lemma NothingWithinUnchanged(markdown: string, images: seq<Image>)
    requires forall i, j :: 0 <= i < |Placeholders(markdown)| && 0 <= j < |images| ==>
      !Within(images[j].seconds, Placeholders(markdown)[i].seconds)
    ensures Replaced(markdown, images) == markdown
  {
    var ps := Placeholders(markdown);
    var sorted := SortBySecondsDescending(ps);
    forall k | 0 <= k < |sorted| ensures FindImage(images, sorted[k].seconds).None? {
      var i := Order(Keys(ps))[k];
      assert sorted[k] == ps[i];
    }
    ApplyUnchanged(markdown, sorted, images, |sorted|);
  }

  /** The ordinal rule: the iteration that handles the placeholder at input
      position `i` links it with ordinal `1 + |Ahead|`, one more than the
      number of placeholders with more seconds or with as many seconds and
      an earlier position, whether or not those found an image. */
  lemma PlaceholderOrdinal(markdown: string, images: seq<Image>, p: nat, j: nat)
    requires p < |Placeholders(markdown)|
    requires var ps := Placeholders(markdown);
      FindImage(images, ps[Order(Keys(ps))[p]].seconds) == Some(j)
    ensures var ps := Placeholders(markdown);
      var sorted := SortBySecondsDescending(ps);
      var i := Order(Keys(ps))[p];
      Apply(markdown, sorted, images, p + 1) ==
        ReplaceFirst(Apply(markdown, sorted, images, p), ps[i].placeholder,
                     Link(|Ahead(Keys(ps), i)| + 1, images[j].filename))
  {
    var ps := Placeholders(markdown);
    OrdinalIsRank(Keys(ps), p);
  }

  /** The tolerance is strict and measured both ways. */
  lemma ToleranceExamples()
    ensures FindImage([Image(83.3, "image-1.png")], 83.0) == Some(0)
    ensures FindImage([Image(82.7, "image-1.png")], 83.0) == Some(0)
    ensures FindImage([Image(90.0, "image-1.png")], 83.0) == None
    ensures FindImage([Image(83.5, "image-1.png")], 83.0) == None
  {
  }

  /** The first image in list order wins, even when a later one is closer. */
  lemma FirstImageWins()
    ensures FindImage([Image(83.4, "a.png"), Image(83.0, "b.png")], 83.0) == Some(0)
  {
  }

  /** A text that is one placeholder holds exactly that placeholder. */
  lemma LonePlaceholder(keyword: string, ts: string, v: real)
    requires |keyword| == |Keyword| && Lower(keyword) == Keyword
    requires WellFormedTimestamp(ts) && ParseTimestampToSeconds(ts) == Finite(v)
    ensures var r := Render(keyword, ts, None);
      Placeholders(r) == [Placeholder(r, ts, v, None)]
  {
    var r := Render(keyword, ts, None);
    MarkerAt(r, 0, keyword, ts, None);
    var m := MatchAt(r, 0).value;
    NoMatchAtEnd(r);
    OnlyMatch(Table(r), m);
  }

  /** A text that is one placeholder becomes the link to the first image
      within tolerance, with ordinal 1, or stays as it is. */
  lemma LonePlaceholderReplaced(keyword: string, ts: string, v: real, images: seq<Image>)
    requires |keyword| == |Keyword| && Lower(keyword) == Keyword
    requires WellFormedTimestamp(ts) && ParseTimestampToSeconds(ts) == Finite(v)
    ensures var r := Render(keyword, ts, None);
      Replaced(r, images) ==
        match FindImage(images, v)
        case None => r
        case Some(j) => Link(1, images[j].filename)
  {
    var r := Render(keyword, ts, None);
    LonePlaceholder(keyword, ts, v);
    WholeTextReplaced(r, Placeholder(r, ts, v, None), images);
  }

  lemma WholeTextReplaced(r: string, ph: Placeholder, images: seq<Image>)
    requires Placeholders(r) == [ph] && ph.placeholder == r
    ensures Replaced(r, images) ==
        match FindImage(images, ph.seconds)
        case None => r
        case Some(j) => Link(1, images[j].filename)
  {
    SortOne([ph]);
    assert Replaced(r, images) == Apply(r, [ph], images, 1);
    StepWhole(r, ph, images);
  }

  lemma StepWhole(r: string, ph: Placeholder, images: seq<Image>)
    requires ph.placeholder == r
    ensures Apply(r, [ph], images, 1) ==
        match FindImage(images, ph.seconds)
        case None => r
        case Some(j) => Link(1, images[j].filename)
  {
    assert Apply(r, [ph], images, 1) == Step(r, ph, 0, images);
    if FindImage(images, ph.seconds).Some? {
      ReplaceWhole(r, Link(1, images[FindImage(images, ph.seconds).value].filename));
    }
  }

  lemma SortOne(ps: seq<Placeholder>)
    requires |ps| == 1
    ensures SortBySecondsDescending(ps) == ps
  {
    assert Order(Keys(ps)) == [0];
  }

  /** Replacing a whole text by a link gives the link. */
  lemma ReplaceWhole(r: string, link: string)
    ensures ReplaceFirst(r, r, link) == link
  {
    assert LiteralAt(r, 0, r);
    assert r[|r|..] == [] && link + [] == link;
  }

  /** The text of the tolerance examples is one plain placeholder at 83
      seconds. */
  lemma ToleranceMarkdown(markdown: string, keyword: string, ts: string)
    requires markdown == "[Screenshot: 01:23s]" && keyword == "[Screenshot:" && ts == "01:23"
    ensures |keyword| == |Keyword| && Lower(keyword) == Keyword
    ensures WellFormedTimestamp(ts) && ParseTimestampToSeconds(ts) == Finite(83.0)
    ensures markdown == Render(keyword, ts, None)
  {
    CapitalKeyword(keyword);
    ParseMinutesSeconds(ts);
    PlainMarkerText(markdown, keyword, ts);
  }

  lemma PlainMarkerText(markdown: string, keyword: string, ts: string)
    requires markdown == "[Screenshot: 01:23s]" && keyword == "[Screenshot:" && ts == "01:23"
    ensures markdown == Render(keyword, ts, None)
  {
  }

  /** An image 0.3 seconds off still replaces the placeholder. */
  lemma ReplaceWithinTolerance(markdown: string, images: seq<Image>)
    requires markdown == "[Screenshot: 01:23s]" && images == [Image(83.3, "image-1.png")]
    ensures Replaced(markdown, images) == "![Screenshot 1](./images/image-1.png)"
  {
    ToleranceMarkdown(markdown, "[Screenshot:", "01:23");
    LonePlaceholderReplaced("[Screenshot:", "01:23", 83.0, images);
    assert FindImage(images, 83.0) == Some(0);
    FirstLink(1, "image-1.png");
  }

  lemma FirstLink(n: nat, filename: string)
    requires n == 1 && filename == "image-1.png"
    ensures Link(n, filename) == "![Screenshot 1](./images/image-1.png)"
  {
    assert NatToString(n) == "1";
  }

  /** An image seven seconds off leaves the text unchanged. */
  lemma KeepOutsideTolerance(markdown: string, images: seq<Image>)
    requires markdown == "[Screenshot: 01:23s]" && images == [Image(90.0, "image-1.png")]
    ensures Replaced(markdown, images) == markdown
  {
    ToleranceMarkdown(markdown, "[Screenshot:", "01:23");
    LonePlaceholderReplaced("[Screenshot:", "01:23", 83.0, images);
    assert FindImage(images, 83.0) == None;
  }

  // ---------------------------------------------------------------------
  // The `$` patterns in the link

  /** The fixed text of a link before its file name. */
  function LinkHead(n: nat): string {
    "![Screenshot " + NatToString(n) + "](./images/"
  }

  lemma LinkHeadPlain(n: nat)
    ensures NoDollar(LinkHead(n))
  {
    var digits := NatToString(n);
    var head := LinkHead(n);
    forall x | 0 <= x < |head| ensures head[x] != '$' {
      if 13 <= x < 13 + |digits| {
        assert head[x] == digits[x - 13];
      }
    }
  }

  /** The expansion of a link whose file name starts with `$&`. */
  lemma ExpandLink(n: nat, rest: string, matched: string, before: string, after: string)
    requires NoDollar(rest)
    ensures Expand(Link(n, "$&" + rest), matched, before, after) == Link(n, matched + rest)
  {
    NoDollarConcat(rest, ")");
    LinkHeadPlain(n);
    LinkOf(n, "$&", rest);
    LinkOf(n, matched, rest);
    ExpandAmpersand(LinkHead(n), rest + ")", matched, before, after);
  }

  lemma LinkOf(n: nat, a: string, rest: string)
    ensures Link(n, a + rest) == LinkHead(n) + (a + (rest + ")"))
  {
  }

  lemma NoDollarConcat(a: string, b: string)
    requires NoDollar(a) && NoDollar(b)
    ensures NoDollar(a + b)
  {
    forall x | 0 <= x < |a + b| ensures (a + b)[x] != '$' {
      if x < |a| { assert (a + b)[x] == a[x]; } else { assert (a + b)[x] == b[x - |a|]; }
    }
  }

  /** With no other `$`, `head $& tail` expands to the head, the matched
      text and the tail. */
  lemma ExpandAmpersand(head: string, tail: string, matched: string, before: string, after: string)
    requires NoDollar(head) && NoDollar(tail)
    ensures Expand(head + ("$&" + tail), matched, before, after) == head + (matched + tail)
  {
    var w := "$&" + tail;
    ExpandPlain(head, w, matched, before, after);
    assert w[0] == '$' && w[1] == '&' && w[2..] == tail + [];
    ExpandPlain(tail, [], matched, before, after);
  }

  /** A file name starting with `$&` makes the code as written put the
      placeholder text itself into the link where the file name has `$&`;
      the literal replacement keeps the link as built. */
  lemma DollarAmpersandInLink(s: string, placeholder: string, n: nat, rest: string)
    requires NoDollar(rest) && IndexOfFrom(s, placeholder, 0).Some?
    ensures var k := IndexOfFrom(s, placeholder, 0).value;
      && ReplaceFirstAsWritten(s, placeholder, Link(n, "$&" + rest)) ==
           s[..k] + Link(n, placeholder + rest) + s[k + |placeholder|..]
      && ReplaceFirst(s, placeholder, Link(n, "$&" + rest)) ==
           s[..k] + Link(n, "$&" + rest) + s[k + |placeholder|..]
  {
    var k := IndexOfFrom(s, placeholder, 0).value;
    ExpandLink(n, rest, placeholder, s[..k], s[k + |placeholder|..]);
  }

  /** The `forEach` body as written, with the link going through the
      replacement-pattern expansion. */
  function StepAsWritten(result: string, ph: Placeholder, index: nat, images: seq<Image>): string {
    match FindImage(images, ph.seconds)
    case None => result
    case Some(j) => ReplaceFirstAsWritten(result, ph.placeholder, Link(index + 1, images[j].filename))
  }

  function ApplyAsWritten(markdown: string, sorted: seq<Placeholder>, images: seq<Image>, n: nat): string
    requires n <= |sorted|
  {
    if n == 0 then markdown
    else StepAsWritten(ApplyAsWritten(markdown, sorted, images, n - 1), sorted[n - 1], n - 1, images)
  }

  /** What `replaceScreenshotsInMarkdown` returns as written. */
  function ReplacedAsWritten(markdown: string, images: seq<Image>): string {
    var sorted := SortBySecondsDescending(Placeholders(markdown));
    ApplyAsWritten(markdown, sorted, images, |sorted|)
  }

  /** A link to a file name without `$` has no `$`. */
  lemma LinkPlain(n: nat, filename: string)
    requires NoDollar(filename)
    ensures NoDollar(Link(n, filename))
  {
    LinkHeadPlain(n);
    NoDollarConcat(LinkHead(n), filename);
    NoDollarConcat(LinkHead(n) + filename, ")");
  }

  lemma {:induction false} ApplyAgrees(markdown: string, sorted: seq<Placeholder>, images: seq<Image>, n: nat)
    requires n <= |sorted|
    requires forall j :: 0 <= j < |images| ==> NoDollar(images[j].filename)
    ensures ApplyAsWritten(markdown, sorted, images, n) == Apply(markdown, sorted, images, n)
  {
    if n > 0 {
      ApplyAgrees(markdown, sorted, images, n - 1);
      var r := Apply(markdown, sorted, images, n - 1);
      match FindImage(images, sorted[n - 1].seconds)
      case None =>
      case Some(j) =>
        LinkPlain(n, images[j].filename);
        AsWrittenAgrees(r, sorted[n - 1].placeholder, Link(n, images[j].filename));
    }
  }

  /** When no file name holds a `$`, the code as written and the literal
      replacement return the same text. */
  lemma AsWrittenReplacedAgrees(markdown: string, images: seq<Image>)
    requires forall j :: 0 <= j < |images| ==> NoDollar(images[j].filename)
    ensures ReplacedAsWritten(markdown, images) == Replaced(markdown, images)
  {
    var sorted := SortBySecondsDescending(Placeholders(markdown));
    ApplyAgrees(markdown, sorted, images, |sorted|);
  }

  // ---------------------------------------------------------------------
  // Two placeholders

  /** When `p` does not occur before `x` ends, the replacement acts on the
      copy of `p` right after `x`. */
  lemma ReplaceAfter(s: string, x: string, p: string, y: string, rep: string)
    requires s == x + p + y
    requires forall k :: 0 <= k < |x| ==> !LiteralAt(s, k, p)
    ensures ReplaceFirst(s, p, rep) == x + rep + y
  {
    assert s[|x|..|x| + |p|] == p;
    assert LiteralAt(s, |x|, p);
    assert IndexOfFrom(s, p, 0) == Some(|x|);
    var r := ReplaceFirst(s, p, rep);
    assert s[..|x|] == x && s[|x| + |p|..] == y;
    assert r == r[..|x|] + r[|x|..|x| + |rep|] + r[|x| + |rep|..];
  }

  /** The only `[` in a link is the one after its `!`, and a space follows
      the word `Screenshot`. */
  lemma LinkShape(n: nat, filename: string)
    requires NoOpen(filename)
    ensures var link := Link(n, filename);
      && |link| > 12 && link[1] == '[' && link[12] == ' '
      && forall k :: 0 <= k < |link| && k != 1 ==> link[k] != '['
  {
    var digits := NatToString(n);
    var head := LinkHead(n);
    var link := Link(n, filename);
    forall k | 0 <= k < |link| && k != 1 ensures link[k] != '[' {
      if k < |head| {
        assert link[k] == head[k];
        if 13 <= k < 13 + |digits| {
          assert head[k] == digits[k - 13];
        }
      } else if k < |head| + |filename| {
        assert link[k] == filename[k - |head|];
      }
    }
  }

  /** A differing character rules out an occurrence. */
  lemma Mismatch(s: string, k: nat, p: string, d: nat)
    requires d < |p| && (k + d < |s| ==> s[k + d] != p[d])
    ensures !LiteralAt(s, k, p)
  {
    if k + |p| <= |s| {
      assert s[k..k + |p|][d] == s[k + d];
    }
  }

  /** After the first link is in, the second placeholder's first occurrence
      is still its own: the link's `[` is followed by `Screenshot ` and
      not by `Screenshot:`. */
  lemma SecondStillFirst(s: string, a: string, link: string, b: string, r2: string, c: string)
    requires s == a + link + b + r2 + c
    requires NoOpen(a) && NoOpen(b)
    requires |link| > 12 && link[1] == '[' && link[12] == ' '
    requires forall k :: 0 <= k < |link| && k != 1 ==> link[k] != '['
    requires |r2| > 11 && r2[0] == '[' && r2[11] == ':'
    ensures forall k :: 0 <= k < |a + link + b| ==> !LiteralAt(s, k, r2)
  {
    forall k | 0 <= k < |a + link + b| ensures !LiteralAt(s, k, r2) {
      if k < |a| {
        assert s[k] == a[k];
        Mismatch(s, k, r2, 0);
      } else if k == |a| + 1 {
        assert s[k + 11] == link[12];
        Mismatch(s, k, r2, 11);
      } else if k < |a| + |link| {
        assert s[k] == link[k - |a|];
        Mismatch(s, k, r2, 0);
      } else {
        assert s[k] == b[k - |a| - |link|];
        Mismatch(s, k, r2, 0);
      }
    }
  }

  /** Two placeholders sorted as they stand. */
  lemma SortTwo(ph1: Placeholder, ph2: Placeholder)
    requires ph1.seconds >= ph2.seconds
    ensures SortBySecondsDescending([ph1, ph2]) == [ph1, ph2]
  {
    var keys := Keys([ph1, ph2]);
    assert SortPrefix(keys, 1) == [0];
    assert Insert(keys, 1, []) == [1];
    assert Order(keys) == [0, 1];
  }

  /** One iteration whose placeholder first occurs right after `x` and has
      an image: it becomes the link, numbered `index + 1`. */
  lemma StepAt(t: string, x: string, ph: Placeholder, y: string, index: nat, images: seq<Image>, j: nat)
    requires t == x + ph.placeholder + y
    requires forall k :: 0 <= k < |x| ==> !LiteralAt(t, k, ph.placeholder)
    requires FindImage(images, ph.seconds) == Some(j)
    ensures Step(t, ph, index, images) == x + Link(index + 1, images[j].filename) + y
  {
    ReplaceAfter(t, x, ph.placeholder, y, Link(index + 1, images[j].filename));
  }

  /** A placeholder opening with `[` does not start inside prose free of `[`. */
  lemma NotInProse(t: string, a: string, y: string, p: string)
    requires t == a + y && NoOpen(a) && |p| > 0 && p[0] == '['
    ensures forall k :: 0 <= k < |a| ==> !LiteralAt(t, k, p)
  {
    forall k | 0 <= k < |a| ensures !LiteralAt(t, k, p) {
      assert t[k] == a[k];
      Mismatch(t, k, p, 0);
    }
  }

  /** The first of two iterations over the placeholders `ph1` then `ph2`
      when `ph1` stands first, after prose `a`, and has an image: it
      becomes link 1. */
  lemma ApplyFirst(t: string, a: string, y: string, ph1: Placeholder, ph2: Placeholder,
                   images: seq<Image>, j1: nat)
    requires t == a + ph1.placeholder + y
    requires NoOpen(a)
    requires |ph1.placeholder| > 0 && ph1.placeholder[0] == '['
    requires FindImage(images, ph1.seconds) == Some(j1)
    ensures Apply(t, [ph1, ph2], images, 1) == a + Link(1, images[j1].filename) + y
  {
    assert Apply(t, [ph1, ph2], images, 1) == Step(t, ph1, 0, images);
    Regroup3(a, ph1.placeholder, y);
    NotInProse(t, a, ph1.placeholder + y, ph1.placeholder);
    StepAt(t, a, ph1, y, 0, images, j1);
  }

  /** Three pieces grouped after the first or laid end to end are one
      sequence. */
  lemma Regroup3<T>(p: seq<T>, q: seq<T>, u: seq<T>)
    ensures p + (q + u) == p + q + u
  {
  }

  /** Five pieces grouped after the second or laid end to end are one
      sequence. */
  lemma Regroup<T>(p: seq<T>, q: seq<T>, u: seq<T>, v: seq<T>, w: seq<T>)
    ensures p + q + (u + v + w) == p + q + u + v + w
  {
  }

  /** The two iterations over the placeholders `ph1` then `ph2` of
      `a + ph1 + b + ph2 + c`, both with an image. */
  lemma ApplyTwo(t: string, a: string, b: string, c: string, ph1: Placeholder, ph2: Placeholder,
                 images: seq<Image>, j1: nat, j2: nat)
    requires t == a + ph1.placeholder + b + ph2.placeholder + c
    requires NoOpen(a) && NoOpen(b)
    requires |ph1.placeholder| > 0 && ph1.placeholder[0] == '['
    requires |ph2.placeholder| > 11 && ph2.placeholder[0] == '[' && ph2.placeholder[11] == ':'
    requires FindImage(images, ph1.seconds) == Some(j1) && FindImage(images, ph2.seconds) == Some(j2)
    requires NoOpen(images[j1].filename)
    ensures Apply(t, [ph1, ph2], images, 2) ==
      a + Link(1, images[j1].filename) + b + Link(2, images[j2].filename) + c
  {
    var r2 := ph2.placeholder;
    var l1 := Link(1, images[j1].filename);
    Regroup(a, ph1.placeholder, b, r2, c);
    ApplyFirst(t, a, b + r2 + c, ph1, ph2, images, j1);
    var t1 := Apply(t, [ph1, ph2], images, 1);
    Regroup(a, l1, b, r2, c);
    assert Apply(t, [ph1, ph2], images, 2) == Step(t1, ph2, 1, images);
    LinkShape(1, images[j1].filename);
    SecondStillFirst(t1, a, l1, b, r2, c);
    StepAt(t1, a + l1 + b, ph2, c, 1, images, j2);
  }

  /** A text holding two placeholders, the first with at least as many
      seconds, both with an image: each becomes its link, the first with
      ordinal 1 and the second with ordinal 2, and the prose around them
      stays. */
  lemma TwoPlaceholdersReplaced(t: string, a: string, b: string, c: string, ph1: Placeholder, ph2: Placeholder,
                                images: seq<Image>, j1: nat, j2: nat)
    requires Placeholders(t) == [ph1, ph2]
    requires t == a + ph1.placeholder + b + ph2.placeholder + c
    requires NoOpen(a) && NoOpen(b)
    requires |ph1.placeholder| > 0 && ph1.placeholder[0] == '['
    requires |ph2.placeholder| > 11 && ph2.placeholder[0] == '[' && ph2.placeholder[11] == ':'
    requires ph1.seconds >= ph2.seconds
    requires FindImage(images, ph1.seconds) == Some(j1) && FindImage(images, ph2.seconds) == Some(j2)
    requires NoOpen(images[j1].filename)
    ensures Replaced(t, images) ==
      a + Link(1, images[j1].filename) + b + Link(2, images[j2].filename) + c
  {
    SortTwo(ph1, ph2);
    ApplyTwo(t, a, b, c, ph1, ph2, images, j1, j2);
  }

  /** The keyword a placeholder starts with opens with `[` and closes with
      `:`. */
  lemma MarkerShape(keyword: string, ts: string)
    requires |keyword| == |Keyword| && Lower(keyword) == Keyword
    ensures var r := Render(keyword, ts, None);
      |r| > 11 && r[0] == '[' && r[11] == ':'
  {
    assert ToLower(keyword[0]) == Keyword[0];
    assert ToLower(keyword[11]) == Keyword[11];
  }

  lemma LaterMarkerText(marker: string, keyword: string, ts: string)
    requires marker == "[Screenshot: 00:14s]" && keyword == "[Screenshot:" && ts == "00:14"
    ensures marker == Render(keyword, ts, None)
  {
  }

  lemma ExampleProse(a: string, b: string, c: string, filename: string)
    requires a == "Text " && b == " more text " && c == " end" && filename == "image-1.png"
    ensures NoOpen(a) && NoOpen(b) && NoOpen(c) && NoOpen(filename)
  {
  }

  lemma SecondLink(n: nat, filename: string)
    requires n == 2 && filename == "image-2.png"
    ensures Link(n, filename) == "![Screenshot 2](./images/image-2.png)"
  {
    assert NatToString(n) == "2";
  }

  /** Two placeholders in prose, each with an image: both become links,
      numbered in descending order of seconds, and the prose stays. The
      text and the result are written piece by piece: prose, placeholder or
      link, prose, placeholder or link, prose. */
  lemma TwoPlaceholdersExample(markdown: string, images: seq<Image>)
    requires markdown == "Text " + "[Screenshot: 01:23s]" + " more text " + "[Screenshot: 00:14s]" + " end"
    requires images == [Image(83.0, "image-1.png"), Image(14.0, "image-2.png")]
    ensures Replaced(markdown, images) ==
      "Text " + "![Screenshot 1](./images/image-1.png)" + " more text " + "![Screenshot 2](./images/image-2.png)" + " end"
  {
    var keyword, a, b, c := "[Screenshot:", "Text ", " more text ", " end";
    CapitalKeyword(keyword);
    ParseMinutesSeconds("01:23");
    ParseZeroMinutes("00:14");
    ExampleProse(a, b, c, "image-1.png");
    PlainMarkerText("[Screenshot: 01:23s]", keyword, "01:23");
    LaterMarkerText("[Screenshot: 00:14s]", keyword, "00:14");
    var r1, r2 := Render(keyword, "01:23", None), Render(keyword, "00:14", None);
    TwoMarkers(markdown, a, r1, keyword, "01:23", 83.0, b, r2, keyword, "00:14", 14.0, c);
    var ph1 := Placeholder(r1, "01:23", 83.0, None);
    var ph2 := Placeholder(r2, "00:14", 14.0, None);
    MarkerShape(keyword, "01:23");
    MarkerShape(keyword, "00:14");
    assert FindImage(images, 83.0) == Some(0);
    assert FindImage(images, 14.0) == Some(1);
    TwoPlaceholdersReplaced(markdown, a, b, c, ph1, ph2, images, 0, 1);
    FirstLink(1, "image-1.png");
    SecondLink(2, "image-2.png");
  }
}
