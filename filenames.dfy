/** File-name helpers: stripping an extension, replacing characters a file
    system refuses, and composing the name of a screenshot image. */
module Filenames {
  import opened Lexical
  import TimestampCodec

  /** `removeFileExtension`: everything before the last `.`, unless there is
      no `.` or the only place it could cut is index 0 (a hidden file). */
  function RemoveFileExtension(filename: string): (r: string)
    ensures r == filename <==> forall k :: 1 <= k < |filename| ==> filename[k] != '.'
    ensures r != filename ==>
      && 0 < |r| < |filename|
      && r == filename[..|r|]
      && filename[|r|] == '.'
      && forall k :: |r| < k < |filename| ==> filename[k] != '.'
  {
    var lastDot := LastIndexOf(filename, '.');
    if lastDot == -1 || lastDot == 0 then filename
    else
      assert |filename[..lastDot]| < |filename|;
      filename[..lastDot]
  }

  /** Appending an extension and removing it gives the name back. */
  lemma RemoveAppendedExtension(name: string, ext: string)
    requires name != []
    requires forall k :: 0 <= k < |ext| ==> ext[k] != '.'
    ensures RemoveFileExtension(name + "." + ext) == name
  {
    var f := name + "." + ext;
    forall k | |name| < k < |f| ensures f[k] != '.' {
      assert f[k] == ext[k - |name| - 1];
    }
    assert f[|name|] == '.';
    assert LastIndexOf(f, '.') == |name|;
    assert f[..|name|] == name;
  }

  /** Examples: a name with several dots loses only its last extension; a
      name without a dot and a name whose only dot leads are kept. */
  lemma RemoveFileExtensionExamples()
    ensures RemoveFileExtension("my.video.file.mp4") == "my.video.file"
    ensures RemoveFileExtension("noextension") == "noextension"
    ensures RemoveFileExtension(".hidden") == ".hidden"
  {
    RemoveAppendedExtension("my.video.file", "mp4");
    assert "my.video.file" + "." + "mp4" == "my.video.file.mp4";
  }

  /** The characters `/ \ : * ? " < > |` that file systems refuse. */
  predicate IsReserved(c: char) {
    c == '/' || c == '\\' || c == ':' || c == '*' || c == '?' || c == '"'
    || c == '<' || c == '>' || c == '|'
  }

  /** A name that needs no sanitising. */
  predicate IsSafeName(s: string) {
    forall k :: 0 <= k < |s| ==> !IsSpace(s[k]) && !IsReserved(s[k])
  }

  /** `.replace(/\s/g, '_')`. */
  function ReplaceWhitespace(s: string): (r: string)
    ensures |r| == |s|
  {
    seq(|s|, k requires 0 <= k < |s| => if IsSpace(s[k]) then '_' else s[k])
  }

  /** `.replace(/[/\\:*?"<>|]/g, '_')`. */
  function ReplaceReserved(s: string): (r: string)
    ensures |r| == |s|
  {
    seq(|s|, k requires 0 <= k < |s| => if IsReserved(s[k]) then '_' else s[k])
  }

  /** `sanitizeFilename`: the whitespace pass, then the reserved-character
      pass. Together they replace, character for character, exactly the
      whitespace and reserved characters by `_`, so the result is a safe
      name of the same length. */
  function SanitizeFilename(filename: string): (r: string)
    ensures |r| == |filename|
    ensures forall k :: 0 <= k < |r| ==>
      r[k] == if IsSpace(filename[k]) || IsReserved(filename[k]) then '_' else filename[k]
    ensures IsSafeName(r)
  {
    ReplaceReserved(ReplaceWhitespace(filename))
  }

  /** Sanitising twice is sanitising once. */
  lemma {:induction false} SanitizeIdempotent(filename: string)
    ensures SanitizeFilename(SanitizeFilename(filename)) == SanitizeFilename(filename)
  {
    var once := SanitizeFilename(filename);
    var twice := SanitizeFilename(once);
    forall k | 0 <= k < |once| ensures twice[k] == once[k] {
      assert !IsSpace(once[k]) && !IsReserved(once[k]);
    }
  }

  /** Safe names are left alone. */
  lemma SanitizeKeepsSafeNames(filename: string)
    requires IsSafeName(filename)
    ensures SanitizeFilename(filename) == filename
  {
    var r := SanitizeFilename(filename);
    forall k | 0 <= k < |filename| ensures r[k] == filename[k] {
      assert !IsSpace(filename[k]) && !IsReserved(filename[k]);
    }
  }

  /** Example: a slash, a space and a colon each become `_`. */
  lemma SanitizeExample()
    ensures SanitizeFilename("my/video file:2024") == "my_video_file_2024"
  {
    var r := SanitizeFilename("my/video file:2024");
    assert forall k :: 0 <= k < |r| ==> r[k] == "my_video_file_2024"[k];
  }

  /** `generateScreenshotFilename`: the sanitised base name of the video,
      `_`, the `HHMMSSFF` token and `.jpg`. */
  function GenerateScreenshotFilename(videoFilename: string, seconds: real, fps: real): (r: string)
    requires fps > 0.0
    ensures IsSafeName(r)
    ensures RemoveFileExtension(r) ==
      SanitizeFilename(RemoveFileExtension(videoFilename)) + "_"
        + TimestampCodec.FormatTimestampToFilename(seconds, fps)
    ensures |r| >= 4 && r[|r| - 4..] == ".jpg"
  {
    var sanitized := SanitizeFilename(RemoveFileExtension(videoFilename));
    var timestamp := TimestampCodec.FormatTimestampToFilename(seconds, fps);
    SafeToken(timestamp);
    ScreenshotNameParts(sanitized, timestamp);
    sanitized + "_" + timestamp + ".jpg"
  }

  /** A safe base name and a safe token make a safe `.jpg` name whose
      extension strips back to `base_token`. */
  lemma ScreenshotNameParts(base: string, token: string)
    requires IsSafeName(base) && IsSafeName(token)
    ensures IsSafeName(base + "_" + token + ".jpg")
    ensures RemoveFileExtension(base + "_" + token + ".jpg") == base + "_" + token
    ensures (base + "_" + token + ".jpg")[|base + "_" + token + ".jpg"| - 4..] == ".jpg"
  {
    var stem := base + "_" + token;
    SafeConcat(base, "_");
    SafeConcat(base + "_", token);
    SafeConcat(stem, ".jpg");
    assert stem + ".jpg" == stem + "." + "jpg";
    RemoveAppendedExtension(stem, "jpg");
  }

  lemma SafeConcat(a: string, b: string)
    requires IsSafeName(a) && IsSafeName(b)
    ensures IsSafeName(a + b)
  {
    forall k | |a| <= k < |a + b| ensures !IsSpace((a + b)[k]) && !IsReserved((a + b)[k]) {
      assert (a + b)[k] == b[k - |a|];
    }
  }

  lemma SafeToken(token: string)
    requires forall k :: 0 <= k < |token| ==> IsDigit(token[k]) || token[k] == '-'
    ensures IsSafeName(token)
  {
  }

  /** Two screenshots of one video (non-negative times under 100 hours, at
      most 100 fps) get the same file name exactly when they fall in the same
      frame. */
  lemma ScreenshotNamesIdentifyFrames(videoFilename: string, a: real, b: real, fps: real)
    requires 0.0 <= a < 360000.0 && 0.0 <= b < 360000.0
    requires 0.0 < fps <= 100.0
    ensures GenerateScreenshotFilename(videoFilename, a, fps) == GenerateScreenshotFilename(videoFilename, b, fps)
        <==> a.Floor == b.Floor && TimestampCodec.FrameIndex(a, fps) == TimestampCodec.FrameIndex(b, fps)
  {
    TimestampCodec.TokenIdentifiesFrame(a, b, fps);
    var prefix := SanitizeFilename(RemoveFileExtension(videoFilename)) + "_";
    var ta := TimestampCodec.FormatTimestampToFilename(a, fps);
    var tb := TimestampCodec.FormatTimestampToFilename(b, fps);
    if GenerateScreenshotFilename(videoFilename, a, fps) == GenerateScreenshotFilename(videoFilename, b, fps) {
      assert prefix + ta == prefix + tb;
      assert ta == (prefix + ta)[|prefix|..];
    }
  }
}
