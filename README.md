# Screenshot placeholders — a verified Dafny model

The screenshot service of the video-to-Markdown app has two jobs:

- It asks the generative model to mark the moments worth a picture with placeholders `[Screenshot: 01:23s]` or `[Screenshot: 01:23s | ymin,xmin,ymax,xmax]`.
- Once frames have been extracted, it replaces each placeholder by an image link `![Screenshot n](./images/<file>)`.

It also names the extracted frames, `<video>_HHMMSSFF.jpg`.

This project models the exported functions of `src/services/screenshot.ts` — parsing, sorting and replacing placeholders, naming frames, and building the prompt instruction — in Dafny, and proves what the code and its tests promise.

| file | module | models |
|---|---|---|
| `lexical.dfy` | `Lexical` | characters, digit runs, `indexOf`/`lastIndexOf`, `toString` of integers |
| `jsnumber.dfy` | `JsNumber` | the global `parseFloat` and the `*`/`+` the codec applies, over finite values, infinities and NaN |
| `timestamp.dfy` | `TimestampCodec` | `parseTimestampToSeconds`, `formatTimestampToFilename` |
| `marker.dfy` | `ScreenshotMarkers` | the placeholder pattern as a scanner, the global `regex.exec` loop of `parseScreenshotPlaceholders`, the record built per match |
| `ordering.dfy` | `Ordering` | the stable descending sort by seconds |
| `replace.dfy` | `Replacement` | `replaceScreenshotsInMarkdown`, `images.find`, `String.prototype.replace` with a string pattern |
| `filenames.dfy` | `Filenames` | `removeFileExtension`, `sanitizeFilename`, `generateScreenshotFilename` |
| `prompt.dfy` | `PromptInstruction` | `buildScreenshotPromptInstruction` |
| `wrappers.dfy` | `Wrappers` | `Option` |

How each part is modelled:

- **The regular expression** at `screenshot.ts:31` is a deterministic scanner, `MatchAt(t, i)`. It takes the greedy choice at every repetition. Wherever backtracking could pick a shorter run, the shorter run leaves a digit, a `.`, a `:` or a space where the rest of the pattern needs something else. So the greedy choice is the only one that can match.
- **Case folding** is ASCII folding, as in a regular expression without the `u` flag.
- **`\s`** is the full ECMAScript whitespace and line-terminator set.
- **The `while ((match = regex.exec(markdown)))` loop** is a method over a table of the pattern's outcome at every position. `Exec` picks the leftmost match at or after `lastIndex`, and the loop resumes at the end of each match.
- **The `forEach` that reassigns `result`** is a `for` loop over the sorted copy.
- **The pure helpers** are functions.
- **Seconds** are exact `real`s.
- **JavaScript's `%`**, whose sign follows the dividend, is written out (`JsRem`). Dafny's `/` on a positive divisor is the floor that `Math.floor(a / b)` computes.

The code is followed where it is looser than the placeholder format the prompt asks for (`screenshot.ts:198-206`):

- the trailing `s` is optional;
- any whitespace may surround the timestamp and the `|`;
- the seconds part of `MM:SS` is the text between the first and second colon, which is what `split(':')` gives.

## Model

| member | source | states |
|---|---|---|
| Lexical.IndexOf | src/services/screenshot.ts:66 | the first position holding the character, none before it; none at all when the result is absent |
| Lexical.LastIndexOf | src/services/screenshot.ts:131 | the last position holding the character, or -1; no later position holds it |
| Lexical.NatValueOfNatToString | src/services/screenshot.ts:43 | `Number` reads back the decimal digits `toString` writes |
| JsNumber.ParseFloatDecimal | src/services/screenshot.ts:68-72 | on an unsigned `Digits(.Digits)?` text, `parseFloat` is the exact decimal value |
| JsNumber.Add | src/services/screenshot.ts:69 | finite plus finite is the sum; NaN absorbs; the sum is finite only when both sides are |
| TimestampCodec.ColonTimestampValue | src/services/screenshot.ts:66-69 | the `M{1,2}:SS(.f)` form reads as exactly `60 * minutes + seconds + fraction` |
| TimestampCodec.DecimalTimestampValue | src/services/screenshot.ts:70-73 | a colon-free `Digits(.Digits)?` text reads as its decimal value |
| TimestampCodec.WellFormedTimestampSeconds | src/services/screenshot.ts:39 | every timestamp the pattern admits converts to a finite, non-negative number of seconds |
| TimestampCodec.ParseMinutesSeconds | src/services/screenshot.test.ts:13 | `"01:23"` is 83 seconds |
| TimestampCodec.ParseZeroMinutes | src/services/screenshot.test.ts:14 | `"00:14"` is 14 seconds |
| TimestampCodec.ParseWholeMinutes | src/services/screenshot.test.ts:15 | `"10:00"` is 600 seconds |
| TimestampCodec.ParseMinutesSecondsFraction | src/services/screenshot.test.ts:19 | `"01:23.5"` is 83.5 seconds |
| TimestampCodec.ParseHundredths | src/services/screenshot.test.ts:20 | `"00:14.25"` is 14.25 seconds |
| TimestampCodec.ParseDecimalSeconds | src/services/screenshot.test.ts:24 | `"83.5"` is 83.5 seconds |
| TimestampCodec.ParseWholeSeconds | src/services/screenshot.test.ts:25 | `"14"` is 14 seconds |
| TimestampCodec.ParseLongDecimal | src/services/screenshot.test.ts:26 | `"120.75"` is 120.75 seconds |
| TimestampCodec.JsRem | src/services/screenshot.ts:115-116 | JavaScript `%` on integers: the dividend minus the result is a multiple of the divisor; the result is the ordinary remainder in `[0, d)` for a non-negative dividend and lies in `(-d, 0]` for a negative one |
| TimestampCodec.JsRemReal | src/services/screenshot.ts:120 | JavaScript `%` on numbers: the dividend minus the result is a whole multiple of the divisor; the result is in `[0, y)` for a non-negative dividend, in `(-y, 0]` for a negative one, and the dividend itself when it already lies in `[0, y)` |
| TimestampCodec.Pad2 | src/services/screenshot.ts:122 | `padStart(2, '0')`: text of two or more characters is unchanged; shorter text gets `0`s in front up to exactly two characters |
| TimestampCodec.FrameIndex | src/services/screenshot.ts:119-120 | for any positive, possibly fractional, frame rate the frame index `floor(fraction * fps) % fps` lies in `[0, fps)` and is the number of whole frame periods since the last whole second |
| TimestampCodec.FormatTimestampToFilename | src/services/screenshot.ts:112-123 | for any seconds (as exact reals) and any positive frame rate the token has at least 8 characters, each a digit or `-` |
| TimestampCodec.HoursMinutesSeconds | src/services/screenshot.ts:113-116 | minutes and seconds are below 60 and `3600 h + 60 m + s` is the whole seconds |
| TimestampCodec.TokenDigits | src/services/screenshot.ts:112-123 | under 100 hours and at most 100 fps, the token is the two digits each of hours, minutes, seconds and frame |
| TimestampCodec.TokenReadsBack | src/services/screenshot.ts:112-123 | the token is 8 digits whose fields read back as the whole seconds and the frame index |
| TimestampCodec.TokenIdentifiesFrame | src/services/screenshot.ts:112-123 | two times get the same token exactly when they share whole seconds and frame index |
| TimestampCodec.FormatZero | src/services/screenshot.test.ts:141 | 0 s gives `00000000` |
| TimestampCodec.FormatWholeSeconds | src/services/screenshot.test.ts:142 | 83 s gives `00012300` |
| TimestampCodec.FormatHourMinuteSecond | src/services/screenshot.test.ts:143 | 3661 s gives `01010100` |
| TimestampCodec.FormatHalfSecond | src/services/screenshot.test.ts:148 | 0.5 s at 30 fps gives frame 15 |
| TimestampCodec.FormatDecimalSeconds | src/services/screenshot.test.ts:150 | 1.5 s at 30 fps gives `00000115` |
| TimestampCodec.FormatCustomFps | src/services/screenshot.test.ts:155 | 0.5 s at 60 fps gives frame 30 |
| TimestampCodec.FormatFilmFps | src/services/screenshot.test.ts:157 | 0.5 s at 24 fps gives frame 12 |
| TimestampCodec.FormatPadding | src/services/screenshot.test.ts:162 | 3723.133 s at 30 fps gives `01020303` |
| TimestampCodec.FormatFractionalFps | src/services/screenshot.ts:112-123 | 0.5 s at 29.97 fps gives `00000014`: a fractional frame rate gives a whole frame index |
| Filenames.RemoveFileExtension | src/services/screenshot.ts:130-136 | the name is kept exactly when no `.` stands after index 0; otherwise the result is the strictly shorter, non-empty prefix before the last `.` |
| Filenames.RemoveAppendedExtension | src/services/screenshot.ts:130-136 | removing an appended dot-free extension gives the non-empty name back |
| Filenames.RemoveFileExtensionExamples | src/services/screenshot.ts:130-136 | `my.video.file.mp4` loses `.mp4`; `noextension` and `.hidden` are kept |
| Filenames.SanitizeFilename | src/services/screenshot.ts:145-149 | same length; each whitespace or `/ \ : * ? " < > \|` character becomes `_` and every other character is kept; the result is safe |
| Filenames.SanitizeIdempotent | src/services/screenshot.ts:145-149 | sanitising twice is sanitising once |
| Filenames.SanitizeKeepsSafeNames | src/services/screenshot.ts:145-149 | a safe name is left unchanged |
| Filenames.SanitizeExample | src/services/screenshot.ts:145-149 | `my/video file:2024` becomes `my_video_file_2024` |
| Filenames.GenerateScreenshotFilename | src/services/screenshot.ts:158-167 | for any positive frame rate the name is safe, ends in `.jpg`, and without its extension is the sanitised base name, `_` and the token |
| Filenames.ScreenshotNameParts | src/services/screenshot.ts:166 | a safe base and token make a safe `.jpg` name that strips back to `base_token` |
| Filenames.ScreenshotNamesIdentifyFrames | src/services/screenshot.ts:158-167 | two screenshots of one video get the same file name exactly when they fall in the same frame |
| ScreenshotMarkers.CapitalKeyword | src/services/screenshot.ts:31 | the capitalised `[Screenshot:` matches the case-insensitive keyword |
| ScreenshotMarkers.CropOfCoordsString | src/services/screenshot.ts:42-45 | written coordinates split into four numbers and read back as the same box, in the order ymin, xmin, ymax, xmax |
| ScreenshotMarkers.TimestampEndShape | src/services/screenshot.ts:31 | the text the timestamp group captures is a well-formed `M{1,2}:SS(.f)` or `Digits(.Digits)` timestamp |
| ScreenshotMarkers.TailEnd | src/services/screenshot.ts:31 | the match ends after a `]`; a coordinates group, when present, lies inside it and is four comma-separated digit runs |
| ScreenshotMarkers.MatchAt | src/services/screenshot.ts:31 | a match starts where it was tried and its groups nest inside it |
| ScreenshotMarkers.MatchAtValid | src/services/screenshot.ts:31 | every match has the shape of the pattern: brackets at both ends, a well-formed timestamp, well-formed coordinates |
| ScreenshotMarkers.NoMatchAtEnd | src/services/screenshot.ts:31 | no match starts at the end of a text |
| ScreenshotMarkers.Table | src/services/screenshot.ts:35 | every entry of the table is a match starting at its own position and ending inside the text |
| ScreenshotMarkers.Exec | src/services/screenshot.ts:35 | `regex.exec` returns the leftmost match at or after `lastIndex`, with no match before it; it returns nothing only when no match remains |
| ScreenshotMarkers.MatchesFound | src/services/screenshot.ts:35-55 | every reported match is a match of the pattern where it starts, at or after the scan start |
| ScreenshotMarkers.MatchesOrdered | src/services/screenshot.ts:35-55 | reported matches come in text order and do not overlap |
| ScreenshotMarkers.MatchesComplete | src/services/screenshot.ts:35-55 | no match is missed: every position where the pattern matches starts or lies inside a reported match |
| ScreenshotMarkers.MatchesValid | src/services/screenshot.ts:35-55 | every reported match has the shape of the pattern |
| ScreenshotMarkers.OnlyMatch | src/services/screenshot.ts:35-55 | a text whose only match spans all of it yields exactly that match |
| ScreenshotMarkers.ToPlaceholder | src/services/screenshot.ts:36-54 | the record holds the exact matched text and timestamp text; `seconds` is `parseTimestampToSeconds` of it, non-negative; `crop` is present exactly when the coordinates group matched |
| ScreenshotMarkers.ParseScreenshotPlaceholders | src/services/screenshot.ts:27-58 | the loop returns one record per reported match, in scan order |
| ScreenshotMarkers.MarkerAt | src/services/screenshot.ts:31-54 | a placeholder written as the prompt asks is matched where it stands and reads back as its own text, timestamp and crop box |
| Ordering.Insert | src/services/screenshot.ts:90 | inserting a position adds exactly that position |
| Ordering.SortPrefix | src/services/screenshot.ts:90 | the sort of a prefix is a permutation of its positions |
| Ordering.InsertSorted | src/services/screenshot.ts:90 | inserting a later position keeps the order sorted, ties after earlier positions |
| Ordering.OrderIsStableSort | src/services/screenshot.ts:90 | the sorted copy holds every placeholder once, descending by seconds, with ties in input order |
| Ordering.OrderPermutes | src/services/screenshot.ts:90 | taking the elements in sort order is a permutation: the same multiset of elements |
| Ordering.OrdinalIsRank | src/services/screenshot.ts:90-98 | sorted position `p` is preceded by exactly `p` placeholders, so the 1-based ordinal is the stable descending rank |
| Replacement.FindImage | src/services/screenshot.ts:94 | the first image strictly within 0.5 s, none before it; nothing when no image is within tolerance |
| Replacement.IndexOfFrom | src/services/screenshot.ts:99 | the first occurrence of the placeholder text, none before it |
| Replacement.ReplaceFirst | src/services/screenshot.ts:99 | only the first occurrence is replaced, by the link, with the text before and after it kept |
| Replacement.ReplaceFirstAsWritten | src/services/screenshot.ts:99 | with no occurrence the text is unchanged; otherwise the text before the first occurrence and the text after it are kept, around the expanded replacement |
| Replacement.ExpandPlain | src/services/screenshot.ts:99 | text without `$` passes through the replacement-pattern expansion unchanged |
| Replacement.AsWrittenAgrees | src/services/screenshot.ts:99 | for a link without `$`, `replace` as written inserts the link literally |
| Replacement.DollarAmpersandInLink | src/services/screenshot.ts:98-99 | a file name holding `$&` puts the placeholder text into the link as written; the literal replacement keeps the link |
| Replacement.SortBySecondsDescending | src/services/screenshot.ts:90 | the sorted copy is a permutation of the placeholders (same multiset), descending by seconds, with placeholders of equal seconds in their input order |
| Replacement.AsWrittenReplacedAgrees | src/services/screenshot.ts:82-104 | when no image file name holds `$`, the function as written (with replacement-pattern expansion) returns the same text as the literal replacement the model uses |
| Replacement.ReplaceScreenshotsInMarkdown | src/services/screenshot.ts:82-104 | parse, sort, then replace each placeholder that has an image; the result is `Replaced` |
| Replacement.ApplyUnchanged | src/services/screenshot.ts:92-101 | iterations that find no image change nothing |
| Replacement.NoImagesUnchanged | src/services/screenshot.ts:82-104 | with no images the text comes back unchanged |
| Replacement.NoPlaceholdersUnchanged | src/services/screenshot.ts:82-104 | a text where the pattern matches nowhere has no placeholders and comes back unchanged |
| Replacement.NothingWithinUnchanged | src/services/screenshot.ts:82-104 | when no image is within tolerance of any placeholder the text comes back unchanged |
| Replacement.PlaceholderOrdinal | src/services/screenshot.ts:90-99 | the iteration for a placeholder replaces its first occurrence by a link whose ordinal is one more than the number of placeholders ahead of it, matched or not |
| Replacement.ToleranceExamples | src/services/screenshot.ts:94 | 83.3 and 82.7 are within tolerance of 83; 90 and 83.5 are not |
| Replacement.FirstImageWins | src/services/screenshot.ts:94 | the first image within tolerance wins over a later, closer one |
| Replacement.LonePlaceholder | src/services/screenshot.ts:27-58 | a text that is one plain placeholder yields exactly that placeholder |
| Replacement.LonePlaceholderReplaced | src/services/screenshot.ts:82-104 | a text that is one placeholder becomes the link, with ordinal 1, to the first image within tolerance, or stays as it is |
| ScreenshotMarkers.TwoMarkers | src/services/screenshot.ts:27-58 | prose free of `[` around two plain placeholders yields exactly those two placeholders, in text order |
| Replacement.TwoPlaceholdersReplaced | src/services/screenshot.ts:82-104 | two placeholders in prose, the first with at least as many seconds, both with an image: each becomes its link, ordinals 1 and 2, and the prose stays |
| Replacement.TwoPlaceholdersExample | src/services/screenshot.test.ts:82-94 | `Text [Screenshot: 01:23s] more text [Screenshot: 00:14s] end` with images at 83 s and 14 s becomes the text with both links and no placeholder left |
| Replacement.ReplaceWhole | src/services/screenshot.ts:99 | replacing a whole text gives the replacement |
| Replacement.ReplaceWithinTolerance | src/services/screenshot.test.ts:96-103 | `[Screenshot: 01:23s]` with an image at 83.3 s becomes `![Screenshot 1](./images/image-1.png)` |
| Replacement.KeepOutsideTolerance | src/services/screenshot.test.ts:105-112 | `[Screenshot: 01:23s]` with an image at 90 s is unchanged |
| PromptInstruction.BuildScreenshotPromptInstruction | src/services/screenshot.ts:175-210 | the instruction is the base text, the frequency's subject, `, `, the format chosen by the crop flag, a space and the frequency's usage line, and nothing else (its length is the sum of the parts) |
| PromptInstruction.Instruction | src/services/screenshot.ts:209 | the four parts stand at their positions, joined by `, ` and a space |
| PromptInstruction.TemplateIsNoPlaceholder | src/services/screenshot.ts:198 | the template `[Screenshot: XX:XXs]` is not taken for a placeholder by the scanner |
| PromptInstruction.PlainInstructionTemplate | src/services/screenshot.test.ts:121 | every plain instruction contains `[Screenshot: XX:XXs]` |
| PromptInstruction.ExampleReadsBack | src/services/screenshot.ts:206 | the crop example is scanned as 83 seconds with the box 100, 200, 500, 600 |
| PromptInstruction.CropInstructionExample | src/services/screenshot.ts:200-207 | every crop instruction contains the crop example |

## Left out

- Floating point: seconds, image times and parsed numbers are exact reals. The frame index of `3723.133` is 3 with either arithmetic, so `01020303` matches the test. The test's own comment says "frame 4". Two consequences of double precision are not modelled:
  - In JavaScript, `parseFloat` of a digit run of 309 or more digits gives `Infinity`. A timestamp made of such a run converts to infinite seconds there, while the model's exact value is finite.
  - JavaScript's `toString` writes numbers of `1e21` or more in exponent form (`1e+21`). The hours field does so for seconds of about `3.6e24` or more. The token then holds `e` and `+`, while the model's token is digits and `-` only.
- NaN and infinite image times and placeholder seconds are not modelled. The pattern admits only digit timestamps, which always convert to finite values over the reals (`WellFormedTimestampSeconds`); see the floating-point note above for the overflow that double precision adds.
- `parseFloat` is modelled in full; `Number` on the coordinates is modelled only on digit strings, the only input the pattern lets through. Huge digit strings that overflow to `Infinity` are not modelled.
- The `isNaN` guard at `screenshot.ts:44` cannot fail: each coordinate is a non-empty digit string. So `crop` is always set when the coordinates group matched.
- Strings are sequences of Unicode characters, not UTF-16 code units. A character outside the Basic Multilingual Plane counts as one position, not two. Neither the pattern nor the file-name rules contain such characters.
- `Array.prototype.sort` is modelled as a stable insertion sort. The code relies only on the result: descending by seconds, ties in input order.
- TimestampCodec.FormatTimestampToFilename: requires `fps > 0`. The frame rate is any positive real, fractional rates included. With `fps == 0` the source writes `NaN` into the token; with a negative rate the frame field can be negative or fractional text. Neither is modelled.
- Filenames.GenerateScreenshotFilename: requires `fps > 0` for the same reason.
- Replacement.ReplaceScreenshotsInMarkdown: inserts each link literally, the evidently intended behaviour (see Findings). `Replacement.ReplacedAsWritten` models the code as written, with `$` patterns in the link expanded. `Replacement.AsWrittenReplacedAgrees` proves the two agree whenever no image file name holds `$`.
- TimestampCodec.TokenReadsBack: stated only for `0 <= seconds < 360000` and `fps <= 100`. Beyond those bounds a field can take three characters or a sign, the token is longer than 8, and its fields no longer read back.
- The default arguments (`fps = 30`, `cropEnabled = false`) are explicit parameters.
- The prompt tests' checks that the minimal, moderate and detailed instructions contain `sparingly`, `key moments` and `frequently` are not restated. BuildScreenshotPromptInstruction states where the whole usage line stands, which contains them.
- I/O and calls into other services are outside `screenshot.ts`: frame extraction, the upload to the model, and the Dashboard that calls these helpers. The multi-video form `[Screenshot: <file> | <timestamp>]` is not parsed by `screenshot.ts` and is not part of this model.

## Findings

| source | as written | input that shows it | evidently intended | confidence | as-written member | corrected member |
|---|---|---|---|---|---|---|
| src/services/screenshot.ts:99 | `result.replace(ph.placeholder, imageLink)` passes the link as a replacement string. `$&`, `$$`, `` $` `` and `$'` in the image file name are therefore expanded. Nothing upstream removes `$`: `sanitizeFilename` keeps it. | markdown `[Screenshot: 01:23s]`, image `{seconds: 83, filename: "$&.png"}` gives `![Screenshot 1](./images/[Screenshot: 01:23s].png)` | the link is inserted literally, `![Screenshot 1](./images/$&.png)` | medium, not executed | Replacement.DollarAmpersandInLink, Replacement.ReplacedAsWritten | Replacement.ReplaceFirst, Replacement.ReplaceScreenshotsInMarkdown |
