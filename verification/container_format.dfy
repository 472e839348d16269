/** Choosing the writer's fourcc from the destination file name: the last
    three characters, compared case-insensitively, must be `mp4` or `avi`. */
module ContainerFormat {
  import opened Results

  /** A file-name argument: a string, or any other Python value. */
  datatype FileArg = Text(s: string) | NonText

  /** `str.lower()` on one character. Only ASCII capitals are mapped; no
      other character lowers to an ASCII letter, so comparisons against
      `"mp4"` and `"avi"` come out as in Python. */
  function LowerChar(c: char): char {
    if 'A' <= c <= 'Z' then (c as int + 32) as char else c
  }

  function Lower(s: string): string {
    seq(|s|, i requires 0 <= i < |s| => LowerChar(s[i]))
  }

  /** `s[-3:].lower() == ext`, character by character. */
  predicate EndsWithFolded(s: string, ext: string)
    requires |ext| == 3
  {
    |s| >= 3 && forall k :: 0 <= k < 3 ==> LowerChar(s[|s| - 3 + k]) == ext[k]
  }

  /** The last three characters, lower-cased, are exactly `ext`. */
  lemma LowerTailMatches(s: string, ext: string)
    requires |s| >= 3 && |ext| == 3
    ensures Lower(s[|s| - 3..]) == ext <==> EndsWithFolded(s, ext)
  {
    var tail := Lower(s[|s| - 3..]);
    if EndsWithFolded(s, ext) {
      assert forall k :: 0 <= k < 3 ==> tail[k] == ext[k];
    }
  }

  /** The packaged converter and processer (`images2video`, `crop_video`):
      a string longer than four characters ending in `mp4` gives `mp4v`,
      in `avi` gives `MJPG`; anything else raises `ValueError`. */
  function PackagedFourcc(arg: FileArg): (r: Result<string>)
    ensures r == Ok("mp4v") <==> arg.Text? && |arg.s| > 4 && EndsWithFolded(arg.s, "mp4")
    ensures r == Ok("MJPG") <==> arg.Text? && |arg.s| > 4 && EndsWithFolded(arg.s, "avi")
    ensures r.Ok? ==> r.value == "mp4v" || r.value == "MJPG"
    ensures r.Err? ==> r.error == ValueError
  {
    match arg
    case NonText => Err(ValueError)
    case Text(s) =>
      if s != "" && |s| > 4 then
        LowerTailMatches(s, "mp4");
        LowerTailMatches(s, "avi");
        if Lower(s[|s| - 3..]) == "mp4" then Ok("mp4v")
        else if Lower(s[|s| - 3..]) == "avi" then Ok("MJPG")
        else Err(ValueError)
      else Err(ValueError)
  }

  /** The stand-alone converter (`image2Video`): no type check, and the
      mp4 fourcc is written `MP4V`. */
  function LegacyFourcc(path: string): (r: Result<string>)
    ensures r == Ok("MP4V") <==> |path| > 4 && EndsWithFolded(path, "mp4")
    ensures r == Ok("MJPG") <==> |path| > 4 && EndsWithFolded(path, "avi")
    ensures r.Ok? ==> r.value == "MP4V" || r.value == "MJPG"
    ensures r.Err? ==> r.error == ValueError
  {
    if path != "" && |path| > 4 then
      LowerTailMatches(path, "mp4");
      LowerTailMatches(path, "avi");
      if Lower(path[|path| - 3..]) == "mp4" then Ok("MP4V")
      else if Lower(path[|path| - 3..]) == "avi" then Ok("MJPG")
      else Err(ValueError)
    else Err(ValueError)
  }

  /** Only the last three characters and the length are looked at: no dot
      is needed, and whatever precedes the suffix does not matter. */
  lemma OnlySuffixMatters(a: string, b: string, tail: string)
    requires |a| >= 2 && |b| >= 2 && |tail| == 3
    ensures PackagedFourcc(Text(a + tail)) == PackagedFourcc(Text(b + tail))
    ensures LegacyFourcc(a + tail) == LegacyFourcc(b + tail)
  {
    assert (a + tail)[|a + tail| - 3..] == tail;
    assert (b + tail)[|b + tail| - 3..] == tail;
  }

  /** Both editions accept the same names and agree except for the
      spelling of the mp4 fourcc. */
  lemma EditionsAgree(path: string)
    ensures PackagedFourcc(Text(path)).Ok? <==> LegacyFourcc(path).Ok?
    ensures PackagedFourcc(Text(path)) == Ok("MJPG") <==> LegacyFourcc(path) == Ok("MJPG")
  {
  }
}
