/** `buildScreenshotPromptInstruction`: the paragraph appended to the
    generation prompt that asks the model for screenshot placeholders. */
module PromptInstruction {
  import opened Wrappers
  import opened Lexical
  import opened JsNumber
  import opened TimestampCodec
  import opened ScreenshotMarkers

  /** How often the model is asked to place screenshots. */
  datatype Frequency = Minimal | Moderate | Detailed

  /** What to capture and how often to do it, per frequency. */
  datatype FrequencyText = FrequencyText(what: string, usage: string)

  function FrequencyTexts(frequency: Frequency): FrequencyText {
    match frequency
    case Minimal =>
      FrequencyText(" the most critical visual elements",
                    "Use these references sparingly for only the most important moments.")
    case Moderate =>
      FrequencyText(" visual elements or important points in the document",
                    "Use these references to mark key moments that would benefit from visual representation.")
    case Detailed =>
      FrequencyText(" visual elements, UI components, or detailed explanations",
                    "Use these references frequently to provide comprehensive visual documentation.")
  }

  const BaseInstruction := "\n\nIMPORTANT: When describing"

  /** The opening both formats share. */
  const FormatLead := "please include screenshot references using this exact format: "

  /** The template of a plain placeholder, written into both formats. */
  const PlainTemplate := "[Screenshot: XX:XXs]"

  const PlainFormat := FormatLead + PlainTemplate + " where XX:XX is the timestamp in MM:SS format."

  /** A line break and the indented bullet of the crop format. */
  const Bullet := "\n        - "

  /** The worked example the crop format ends with. */
  const CropExample := "[Screenshot: 01:23s | 100,200,500,600]"

  /** The crop format up to its example. */
  const CropLead :=
    FormatLead + "[Screenshot: XX:XXs | ymin,xmin,ymax,xmax]."
    + Bullet + "XX:XX is the timestamp in MM:SS format."
    + Bullet + "ymin,xmin,ymax,xmax are the bounding box coordinates in 0-1000 scale (relative to the video frame)."
    + Bullet + "ymin is top, xmin is left, ymax is bottom, xmax is right."
    + Bullet + "If you want to capture the whole screen, omit the coordinates: " + PlainTemplate + "."
    + Bullet + "Example: "

  const CropFormat := CropLead + CropExample + " to crop a specific region."

  function FormatInstruction(cropEnabled: bool): string {
    if cropEnabled then CropFormat else PlainFormat
  }

  /** The instruction: the base text, what to capture, the format and how
      often to use it. */
  function BuildScreenshotPromptInstruction(frequency: Frequency, cropEnabled: bool): (r: string)
    ensures LiteralAt(r, 0, BaseInstruction)
    ensures LiteralAt(r, |BaseInstruction|, FrequencyTexts(frequency).what)
    ensures LiteralAt(r, |BaseInstruction| + |FrequencyTexts(frequency).what|, ", ")
    ensures LiteralAt(r, |BaseInstruction| + |FrequencyTexts(frequency).what| + 2, FormatInstruction(cropEnabled))
    ensures EndsWith(r, " " + FrequencyTexts(frequency).usage)
    ensures |r| == |BaseInstruction| + |FrequencyTexts(frequency).what| + 2 + |FormatInstruction(cropEnabled)|
      + 1 + |FrequencyTexts(frequency).usage|
  {
    Instruction(BaseInstruction, FrequencyTexts(frequency), FormatInstruction(cropEnabled))
  }

  /** The four parts put together, with `, ` after what to capture and a
      space before the usage. */
  function Instruction(base: string, config: FrequencyText, format: string): (r: string)
    ensures LiteralAt(r, 0, base)
    ensures LiteralAt(r, |base|, config.what)
    ensures LiteralAt(r, |base| + |config.what|, ", ")
    ensures LiteralAt(r, |base| + |config.what| + 2, format)
    ensures EndsWith(r, " " + config.usage)
    ensures |r| == |base| + |config.what| + 2 + |format| + 1 + |config.usage|
  {
    var r := base + config.what + ", " + format + " " + config.usage;
    assert r[0..|base|] == base;
    assert r[|base|..|base| + |config.what|] == config.what;
    assert r[|base| + |config.what|..|base| + |config.what| + 2] == ", ";
    assert r[|base| + |config.what| + 2..|base| + |config.what| + 2 + |format|] == format;
    assert r[|r| - |config.usage| - 1..] == " " + config.usage;
    r
  }

  predicate EndsWith(s: string, suffix: string) {
    |suffix| <= |s| && s[|s| - |suffix|..] == suffix
  }

  /** A piece of a piece is a piece of the whole. */
  lemma LiteralWithin(s: string, a: string, i: nat, b: string, j: nat)
    requires LiteralAt(s, i, a) && LiteralAt(a, j, b)
    ensures LiteralAt(s, i + j, b)
  {
    forall x | 0 <= x < |b| ensures s[i + j + x] == b[x] {
      assert a[j + x] == b[x];
      assert s[i..i + |a|][j + x] == s[i + j + x];
    }
  }

  lemma PieceAt(w: string, before: string, piece: string, after: string)
    requires w == before + piece + after
    ensures LiteralAt(w, |before|, piece)
  {
    assert w[|before|..|before| + |piece|] == piece;
  }

  /** Where a piece of the format stands in an instruction. */
  lemma InFormat(r: string, base: string, config: FrequencyText, format: string, piece: string, k: nat) returns (i: nat)
    requires r == Instruction(base, config, format) && LiteralAt(format, k, piece)
    ensures i == |base| + |config.what| + 2 + k
    ensures LiteralAt(r, i, piece)
  {
    LiteralWithin(r, format, |base| + |config.what| + 2, piece, k);
    i := |base| + |config.what| + 2 + k;
  }

  // ---------------------------------------------------------------------
  // The instruction and the scanner

  /** The template's `XX:XX` is not a timestamp, so the scanner does not
      take the template for a placeholder. */
  lemma TemplateIsNoPlaceholder(t: string, i: nat)
    requires LiteralAt(t, i, PlainTemplate)
    ensures MatchAt(t, i).None?
  {
    var p := i + |Keyword|;
    assert t[p] == ' ' && t[p + 1] == 'X';
    OneSpace(t, p);
    SkipSpaceAt(t, p, p + 1);
    assert SkipDigits(t, p + 1) == p + 1;
  }

  /** Every plain instruction shows the template, which the scanner does
      not take for a placeholder (TemplateIsNoPlaceholder). */
  lemma PlainInstructionTemplate(frequency: Frequency, r: string) returns (i: nat)
    requires r == BuildScreenshotPromptInstruction(frequency, false)
    ensures LiteralAt(r, i, PlainTemplate)
  {
    PlainFormatHoldsTemplate();
    i := InFormat(r, BaseInstruction, FrequencyTexts(frequency), PlainFormat, PlainTemplate, |FormatLead|);
  }

  lemma PlainFormatHoldsTemplate()
    ensures LiteralAt(PlainFormat, |FormatLead|, PlainTemplate)
  {
    PieceAt(PlainFormat, FormatLead, PlainTemplate, " where XX:XX is the timestamp in MM:SS format.");
  }

  /** Wherever the crop example stands, the scanner finds it and reads it
      back as 83 seconds with the box ymin 100, xmin 200, ymax 500,
      xmax 600. */
  lemma ExampleReadsBack(t: string, i: nat)
    requires LiteralAt(t, i, CropExample)
    ensures MatchAt(t, i).Some? && ValidMatch(t, MatchAt(t, i).value)
    ensures ToPlaceholder(t, MatchAt(t, i).value) ==
      Placeholder(CropExample, "01:23", 83.0, Some(Crop(100, 200, 500, 600)))
  {
    ParseMinutesSeconds("01:23");
    CapitalKeyword("[Screenshot:");
    CropExampleRendered(CropExample, Crop(100, 200, 500, 600));
    MarkerAt(t, i, "[Screenshot:", "01:23", Some(Crop(100, 200, 500, 600)));
  }

  /** The crop example is a rendered placeholder. */
  lemma CropExampleRendered(example: string, c: Crop)
    requires example == "[Screenshot: 01:23s | 100,200,500,600]" && c == Crop(100, 200, 500, 600)
    ensures example == Render("[Screenshot:", "01:23", Some(c))
  {
    ExampleCoords(c, "100,200,500,600");
    ExampleText(example, "[Screenshot:", "01:23", "100,200,500,600");
  }

  lemma ExampleText(example: string, keyword: string, ts: string, coords: string)
    requires example == "[Screenshot: 01:23s | 100,200,500,600]"
    requires keyword == "[Screenshot:" && ts == "01:23" && coords == "100,200,500,600"
    ensures example == keyword + " " + ts + "s" + " | " + coords + "]"
  {
  }

  lemma ExampleCoords(c: Crop, s: string)
    requires c == Crop(100, 200, 500, 600) && s == "100,200,500,600"
    ensures CoordsString(c) == s
  {
    HundredsText(c.ymin, 1);
    HundredsText(c.xmin, 2);
    HundredsText(c.ymax, 5);
    HundredsText(c.xmax, 6);
  }

  lemma HundredsText(n: nat, d: nat)
    requires 1 <= d <= 9 && n == 100 * d
    ensures NatToString(n) == [DigitChar(d), '0', '0']
  {
    assert NatToString(n / 10) == NatToString(n / 100) + [DigitChar(0)];
  }

  /** Every crop instruction carries the crop example, which the scanner
      reads back as 83 seconds and its box (ExampleReadsBack). */
  lemma CropInstructionExample(frequency: Frequency, r: string) returns (i: nat)
    requires r == BuildScreenshotPromptInstruction(frequency, true)
    ensures LiteralAt(r, i, CropExample)
  {
    CropFormatHoldsExample();
    i := InFormat(r, BaseInstruction, FrequencyTexts(frequency), CropFormat, CropExample, |CropLead|);
  }

  lemma CropFormatHoldsExample()
    ensures LiteralAt(CropFormat, |CropLead|, CropExample)
  {
    PieceAt(CropFormat, CropLead, CropExample, " to crop a specific region.");
  }

}
