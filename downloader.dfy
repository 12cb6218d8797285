/** `download_video` and the part of the page that runs on the Download button:
    the success test, the save-as name and the MIME type. */
module Downloader {
  import opened Wrappers
  import opened YdlOptions
  import Paths
  import Sanitize
  import Metadata
  import Bitrate
  import Decimal

  /** What the configured extractor reports before transferring: the info dict's
      `title` (absent or present) and `prepare_filename(info)`. */
  datatype Probe = Probe(title: Option<string>, preparedFilename: string)

  /** A configured extractor call on a URL; `Failure` carries the message of the
      exception it raised. */
  type ProbeCall = (string, DownloadOptions) -> Result<Probe, string>

  /** The transfer of the URL: `None` when it returned, the exception's message when it raised. */
  type TransferCall = (string, DownloadOptions) -> Option<string>

  /** The exceptions `download_video` catches. */
  datatype DownloadError = BadOptions(cause: OptionsError) | ExtractorFailed(message: string)

  /** The pair `(filename, title)` of a download that returned. */
  datatype Downloaded = Downloaded(filename: string, title: string)

  const DefaultDownloadTitle: string := "video"

  /** `s` ends in `.mp3`. */
  predicate EndsWithMp3(s: string) {
    |s| >= 4 && s[|s| - 4..] == ".mp3"
  }

  /** `download_video`: build the
      options, probe, rename to `.mp3` in audio mode, transfer. Any exception on
      the way is a `Failure`; `download_video` shows the error and returns
      `(None, None)`. */
  function DownloadVideo(
    url: string, formatType: string, resolution: Option<string>, bitrate: Option<string>,
    probe: ProbeCall, transfer: TransferCall): (r: Result<Downloaded, DownloadError>)
    ensures var opts := BuildOptions(formatType, resolution, bitrate);
      r.Success? <==> opts.Success? && probe(url, opts.value).Success? && transfer(url, opts.value).None?
    ensures r.Success? ==>
      var p := probe(url, BuildOptions(formatType, resolution, bitrate).value).value;
      && r.value.title == (if p.title.Some? then p.title.value else DefaultDownloadTitle)
      && (ModeOf(formatType) == Video ==> r.value.filename == p.preparedFilename)
      && (ModeOf(formatType) == Audio ==>
            && r.value.filename == Paths.WithMp3Extension(p.preparedFilename)
            && EndsWithMp3(r.value.filename)
            && |r.value.filename| - 4 <= |p.preparedFilename|
            && r.value.filename[..|r.value.filename| - 4] == p.preparedFilename[..|r.value.filename| - 4]
            && Paths.IsExtension(p.preparedFilename[|r.value.filename| - 4..]))
  {
    match BuildOptions(formatType, resolution, bitrate)
    case Failure(e) => Failure(BadOptions(e))
    case Success(opts) =>
      match probe(url, opts)
      case Failure(msg) => Failure(ExtractorFailed(msg))
      case Success(info) =>
        var filename :=
          if ModeOf(formatType) == Audio then Paths.WithMp3Extension(info.preparedFilename)
          else info.preparedFilename;
        match transfer(url, opts)
        case Some(msg) => Failure(ExtractorFailed(msg))
        case None => Success(Downloaded(filename, Metadata.GetOr(info.title, DefaultDownloadTitle)))
  }

  /** The `mime` argument of the save button. */
  function MimeType(formatType: string): (m: string)
    ensures m == "audio/mp3" <==> formatType == "audio"
    ensures m == "video/mp4" <==> formatType != "audio"
  {
    if formatType == "audio" then "audio/mp3" else "video/mp4"
  }

  /** The outcome shown after the Download button. */
  datatype DownloadView =
    | SaveOffered(path: string, saveAs: string, mime: string)
    | DownloadFailed

  /** The final branch of the page: a save is offered when a non-empty file name
      came back and names an existing file. `existing` is the set of paths present
      on disk after the transfer. */
  function FinishDownload(formatType: string, returned: Result<Downloaded, DownloadError>, existing: set<string>)
    : (v: DownloadView)
    ensures v.SaveOffered? <==>
      returned.Success? && returned.value.filename != "" && returned.value.filename in existing
    ensures v.SaveOffered? ==>
      && v.path == returned.value.filename
      && v.saveAs == Sanitize.SanitizeFilename(Paths.Basename(v.path))
      && Sanitize.IsClean(v.saveAs)
      && v.mime == MimeType(formatType)
  {
    match returned
    case Success(Downloaded(filename, _)) =>
      if filename != "" && filename in existing then
        SaveOffered(filename, Sanitize.SanitizeFilename(Paths.Basename(filename)), MimeType(formatType))
      else DownloadFailed
    case Failure(_) => DownloadFailed
  }

  /** An audio download that is offered is offered as an MP3 file, under a clean
      name that still ends in `.mp3`. */
  lemma AudioSaveNameIsMp3(
    url: string, resolution: Option<string>, b: string,
    probe: ProbeCall, transfer: TransferCall, existing: set<string>)
    ensures var v := FinishDownload("audio", DownloadVideo(url, "audio", resolution, Some(b), probe, transfer), existing);
      v.SaveOffered? ==> v.mime == "audio/mp3" && EndsWithMp3(v.saveAs) && EndsWithMp3(v.path)
  {
    var r := DownloadVideo(url, "audio", resolution, Some(b), probe, transfer);
    if r.Success? {
      SaveNameKeepsMp3(r.value.filename);
    }
  }

  /** The name suggested for saving a path that ends in `.mp3` ends in `.mp3`. */
  lemma SaveNameKeepsMp3(f: string)
    requires EndsWithMp3(f)
    ensures EndsWithMp3(Sanitize.SanitizeFilename(Paths.Basename(f)))
  {
    var stem := f[..|f| - 4];
    assert f == stem + ".mp3";
    var base := Paths.Basename(stem);
    Paths.BasenameKeepsSuffix(stem, ".mp3");
    SanitizeKeepsMp3(base);
    Mp3Appended(Sanitize.SanitizeFilename(base));
  }

  lemma SanitizeKeepsMp3(base: string)
    ensures Sanitize.SanitizeFilename(base + ".mp3") == Sanitize.SanitizeFilename(base) + ".mp3"
  {
    Sanitize.CleanIsFixpoint(".mp3");
    Sanitize.SanitizeAppend(base, ".mp3");
  }

  lemma Mp3Appended(s: string)
    ensures EndsWithMp3(s + ".mp3")
  {
    assert (s + ".mp3")[|s|..] == ".mp3";
  }

  /** The two choices the page offers: the resolution in video mode, the bitrate
      in audio mode. */
  datatype Selection = VideoSelection(resolution: string) | AudioSelection(bitrate: string)

  /** The labels of the resolution selector. */
  const ResolutionLabels: seq<string> := ["144p", "360p", "480p", "720p", "1080p"]

  /** The choice came from the page's own selectors. */
  predicate Offered(sel: Selection) {
    match sel
    case VideoSelection(res) => res in ResolutionLabels
    case AudioSelection(b) => b in Bitrate.BitrateLabels
  }

  /** The mode string, resolution and bitrate the page passes to `download_video`. */
  function Arguments(sel: Selection): (a: (string, Option<string>, Option<string>))
    ensures ModeOf(a.0) == Audio <==> sel.AudioSelection?
    ensures a.1.Some? <==> sel.VideoSelection?
    ensures a.2.Some? <==> sel.AudioSelection?
    ensures sel.VideoSelection? ==> a.0 == "video" && a.1 == Some(sel.resolution)
    ensures sel.AudioSelection? ==> a.0 == "audio" && a.2 == Some(sel.bitrate)
  {
    match sel
    case VideoSelection(res) => ("video", Some(res), None)
    case AudioSelection(b) => ("audio", None, Some(b))
  }

  /** A choice made on the page always builds options: never the bitrate error,
      never the silent `best` fallback; video is capped at the chosen height and
      audio quality is the chosen number of kbps. */
  lemma OfferedChoicesBuildOptions(sel: Selection)
    requires Offered(sel)
    ensures var (formatType, resolution, bitrate) := Arguments(sel);
      var r := BuildOptions(formatType, resolution, bitrate);
      && r.Success?
      && (sel.VideoSelection? ==>
            exists h :: h in SupportedHeights && sel.resolution == ResolutionLabel(h)
                     && r.value.format == CappedSelector(h))
      && (sel.AudioSelection? ==>
            exists i :: 0 <= i < |Bitrate.OfferedKbps| && sel.bitrate == Bitrate.BitrateLabels[i]
                     && r.value.postprocessors[0].preferredQuality == Decimal.DecimalString(Bitrate.OfferedKbps[i]))
  {
    match sel
    case VideoSelection(res) =>
      assert res in ResolutionMap;
      TableMatchesHeights();
      var h :| h in SupportedHeights && res == ResolutionLabel(h);
      SelectorForSupported(h);
    case AudioSelection(b) =>
      var i :| 0 <= i < |Bitrate.BitrateLabels| && Bitrate.BitrateLabels[i] == b;
      Bitrate.OfferedBitrates(i);
  }

  /** What one run of the page shows. */
  datatype Page =
    | Blank
    | InfoFailed
    | Details(meta: Metadata.VideoMetadata, durationText: string, download: Option<DownloadView>)

  /** One run of the page script: nothing until a URL is entered; the info
      error when the probe fails; otherwise the details, and, when the Download
      button was pressed, the download's outcome. */
  function RenderPage(
    url: string, infoProbe: Result<Metadata.ExtractorInfo, string>, sel: Selection, pressed: bool,
    probe: ProbeCall, transfer: TransferCall, existing: set<string>): (p: Page)
    ensures p.Blank? <==> url == ""
    ensures p.InfoFailed? <==> url != "" && infoProbe.Failure?
    ensures p.Details? ==>
      && p.meta == Metadata.GetVideoInfo(infoProbe).value
      && p.durationText == Metadata.DurationText(p.meta.durationSeconds)
      && (p.download.Some? <==> pressed)
    ensures p.Details? && pressed ==>
      var (formatType, resolution, bitrate) := Arguments(sel);
      p.download.value == FinishDownload(formatType, DownloadVideo(url, formatType, resolution, bitrate, probe, transfer), existing)
  {
    if url == "" then Blank
    else
      match Metadata.GetVideoInfo(infoProbe)
      case None => InfoFailed
      case Some(meta) =>
        var durationText := Metadata.DurationText(meta.durationSeconds);
        if !pressed then Details(meta, durationText, None)
        else
          var (formatType, resolution, bitrate) := Arguments(sel);
          var returned := DownloadVideo(url, formatType, resolution, bitrate, probe, transfer);
          Details(meta, durationText, Some(FinishDownload(formatType, returned, existing)))
  }

  /** The save button is offered only for a file that exists, and with the MIME
      type of the chosen mode; a missing file is a failure, not a save. */
  lemma SaveOnlyExistingFiles(
    url: string, infoProbe: Result<Metadata.ExtractorInfo, string>, sel: Selection,
    probe: ProbeCall, transfer: TransferCall, existing: set<string>)
    ensures var p := RenderPage(url, infoProbe, sel, true, probe, transfer, existing);
      p.Details? && p.download.value.SaveOffered? ==>
        && p.download.value.path in existing
        && p.download.value.mime == (if sel.AudioSelection? then "audio/mp3" else "video/mp4")
  {
  }
}
