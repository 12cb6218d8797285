/** The options record `download_video` hands to the extractor: one shape for
    audio, one for video, built from the user's choices. */
module YdlOptions {
  import opened Wrappers
  import opened Decimal
  import Bitrate

  /** `format_type`: the string `"audio"` selects audio, any other value video. */
  datatype Mode = Audio | Video

  function ModeOf(formatType: string): (m: Mode)
    ensures m == Audio <==> formatType == "audio"
  {
    if formatType == "audio" then Audio else Video
  }

  /** The output path template shared by both modes. */
  const OutputTemplate: string := "downloads/%(title)s.%(ext)s"

  /** `res_map`: the five resolution labels and their format expressions. */
  const ResolutionMap: map<string, string> := map[
    "144p" := "bestvideo[height<=144]+bestaudio/best",
    "360p" := "bestvideo[height<=360]+bestaudio/best",
    "480p" := "bestvideo[height<=480]+bestaudio/best",
    "720p" := "bestvideo[height<=720]+bestaudio/best",
    "1080p" := "bestvideo[height<=1080]+bestaudio/best"
  ]

  /** The heights the resolution selector offers, in its order. */
  const SupportedHeights: seq<nat> := [144, 360, 480, 720, 1080]

  /** The label the selector shows for a height: `720` is `720p`. */
  function ResolutionLabel(h: nat): string {
    DecimalString(h) + "p"
  }

  /** Best video stream no taller than `h` merged with the best audio stream,
      else the best combined stream. */
  function CappedSelector(h: nat): string {
    "bestvideo[height<=" + DecimalString(h) + "]+bestaudio/best"
  }

  /** The table lookup with `best` as the fallback; `None` stands for Python's `None`. */
  function FormatSelector(resolution: Option<string>): (f: string)
    ensures f == "best" || exists h :: h in SupportedHeights && f == CappedSelector(h)
  {
    TableMatchesHeights();
    if resolution.Some? && resolution.value in ResolutionMap then ResolutionMap[resolution.value]
    else "best"
  }

  /** The table holds exactly the five labels, each mapped to the selector capped
      at that label's height. */
  lemma TableMatchesHeights()
    ensures forall h :: h in SupportedHeights ==>
              ResolutionLabel(h) in ResolutionMap && ResolutionMap[ResolutionLabel(h)] == CappedSelector(h)
    ensures forall l :: l in ResolutionMap ==> exists h :: h in SupportedHeights && l == ResolutionLabel(h)
  {
    Row144(); Row360(); Row480(); Row720(); Row1080();
    forall l | l in ResolutionMap ensures exists h :: h in SupportedHeights && l == ResolutionLabel(h) {
      assert l in {"144p", "360p", "480p", "720p", "1080p"};
      if l == "144p" { assert l == ResolutionLabel(144); }
      else if l == "360p" { assert l == ResolutionLabel(360); }
      else if l == "480p" { assert l == ResolutionLabel(480); }
      else if l == "720p" { assert l == ResolutionLabel(720); }
      else { assert l == ResolutionLabel(1080); }
    }
  }

  // One row of the table each: the label and the selector of each offered height.
  lemma Row144()
    ensures ResolutionLabel(144) == "144p" && "144p" in ResolutionMap && ResolutionMap["144p"] == CappedSelector(144)
  {
    assert DecimalString(144) == "144";
  }

  lemma Row360()
    ensures ResolutionLabel(360) == "360p" && "360p" in ResolutionMap && ResolutionMap["360p"] == CappedSelector(360)
  {
    assert DecimalString(360) == "360";
  }

  lemma Row480()
    ensures ResolutionLabel(480) == "480p" && "480p" in ResolutionMap && ResolutionMap["480p"] == CappedSelector(480)
  {
    assert DecimalString(480) == "480";
  }

  lemma Row720()
    ensures ResolutionLabel(720) == "720p" && "720p" in ResolutionMap && ResolutionMap["720p"] == CappedSelector(720)
  {
    assert DecimalString(720) == "720";
  }

  lemma Row1080()
    ensures ResolutionLabel(1080) == "1080p" && "1080p" in ResolutionMap && ResolutionMap["1080p"] == CappedSelector(1080)
  {
    assert DecimalString(1080) == "1080";
  }

  /** Each offered label selects video capped at its own height. */
  lemma SelectorForSupported(h: nat)
    requires h in SupportedHeights
    ensures FormatSelector(Some(ResolutionLabel(h))) == CappedSelector(h)
  {
    TableMatchesHeights();
  }

  /** Any other value, `None` included, silently falls back to `best`. */
  lemma SelectorFallback(resolution: Option<string>)
    requires forall h :: h in SupportedHeights ==> resolution != Some(ResolutionLabel(h))
    ensures FormatSelector(resolution) == "best"
  {
    TableMatchesHeights();
  }

  /** One entry of `postprocessors`. */
  datatype PostProcessor = PostProcessor(key: string, preferredCodec: string, preferredQuality: string)

  /** `ydl_opts`. A key the Python dict leaves out is the empty list
      (`postprocessors`) or `None` (`merge_output_format`). */
  datatype DownloadOptions = DownloadOptions(
    format: string,
    outtmpl: string,
    quiet: bool,
    postprocessors: seq<PostProcessor>,
    mergeOutputFormat: Option<string>)

  /** Why building the options raises. */
  datatype OptionsError =
    /** `re.sub` was handed `None` for the bitrate in audio mode. */
    | MissingBitrate

  /** The `if format_type == "audio"` branch of `download_video`, up to the
      options record. */
  function BuildOptions(formatType: string, resolution: Option<string>, bitrate: Option<string>)
    : (r: Result<DownloadOptions, OptionsError>)
    ensures r.Failure? <==> ModeOf(formatType) == Audio && bitrate.None?
    ensures r.Success? ==> r.value.outtmpl == OutputTemplate && r.value.quiet
    ensures r.Success? ==> (|r.value.postprocessors| > 0 <==> ModeOf(formatType) == Audio)
    ensures r.Success? ==> (r.value.mergeOutputFormat.Some? <==> ModeOf(formatType) == Video)
  {
    if ModeOf(formatType) == Audio then
      match bitrate
      case None => Failure(MissingBitrate)
      case Some(b) =>
        var bitrateClean := Bitrate.DigitsOnly(b);
        Success(DownloadOptions(
          "bestaudio/best", OutputTemplate, true,
          [PostProcessor("FFmpegExtractAudio", "mp3", bitrateClean)],
          None))
    else
      Success(DownloadOptions(FormatSelector(resolution), OutputTemplate, true, [], Some("mp4")))
  }

  /** Audio options: audio-only format, one MP3 extraction step whose quality is
      the digits of the bitrate label; the resolution plays no part. */
  lemma AudioOptions(resolution: Option<string>, b: string)
    ensures var r := BuildOptions("audio", resolution, Some(b));
      && r.Success?
      && r.value.format == "bestaudio/best"
      && |r.value.postprocessors| == 1
      && r.value.postprocessors[0].key == "FFmpegExtractAudio"
      && r.value.postprocessors[0].preferredCodec == "mp3"
      && AllDigits(r.value.postprocessors[0].preferredQuality)
      && r.value.postprocessors[0].preferredQuality == Bitrate.DigitsOnly(b)
      && r.value == BuildOptions("audio", None, Some(b)).value
  {
  }

  /** Video options: the resolution's format selector, no post-processing, MP4
      merge; the bitrate plays no part. */
  lemma VideoOptions(formatType: string, resolution: Option<string>, bitrate: Option<string>)
    requires formatType != "audio"
    ensures var r := BuildOptions(formatType, resolution, bitrate);
      && r.Success?
      && r.value.format == FormatSelector(resolution)
      && r.value.postprocessors == []
      && r.value.mergeOutputFormat == Some("mp4")
      && r == BuildOptions("video", resolution, None)
  {
  }
}
