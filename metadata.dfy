/** `get_video_info` and the duration line the page shows under the title. */
module Metadata {
  import opened Wrappers
  import opened Decimal

  /** One entry of the extractor's `formats` list, kept opaque. */
  datatype FormatEntry = FormatEntry(formatId: string)

  /** The keys of the extractor's info dict that the page reads; `None` means
      the key is absent. */
  datatype ExtractorInfo = ExtractorInfo(
    title: Option<string>,
    thumbnail: Option<string>,
    duration: Option<nat>,
    formats: Option<seq<FormatEntry>>)

  /** The dict `get_video_info` returns. */
  datatype VideoMetadata = VideoMetadata(
    title: string,
    thumbnail: Option<string>,
    durationSeconds: nat,
    formats: seq<FormatEntry>)

  const DefaultTitle: string := "Unknown Title"

  function GetOr<T>(o: Option<T>, default: T): (v: T)
    ensures o.Some? ==> v == o.value
    ensures o.None? ==> v == default
  {
    match o
    case Some(x) => x
    case None => default
  }

  /** `get_video_info(url)` given what the metadata-only probe of that URL
      produced: the info dict, or the message of the exception it raised.
      A failed probe yields `None`; a key the extractor left out gets its default. */
  function GetVideoInfo(probe: Result<ExtractorInfo, string>): (r: Option<VideoMetadata>)
    ensures r.None? <==> probe.Failure?
    ensures r.Some? ==> r.value.title == (if probe.value.title.Some? then probe.value.title.value else DefaultTitle)
    ensures r.Some? ==> r.value.thumbnail == probe.value.thumbnail
    ensures r.Some? ==> r.value.durationSeconds == (if probe.value.duration.Some? then probe.value.duration.value else 0)
    ensures r.Some? ==> r.value.formats == (if probe.value.formats.Some? then probe.value.formats.value else [])
  {
    match probe
    case Failure(_) => None
    case Success(info) =>
      Some(VideoMetadata(
        GetOr(info.title, DefaultTitle),
        info.thumbnail,  // the default is None itself
        GetOr(info.duration, 0),
        GetOr(info.formats, [])))
  }

  /** The metadata seen as an info dict in which every key is present. */
  function AsInfo(m: VideoMetadata): ExtractorInfo {
    ExtractorInfo(Some(m.title), m.thumbnail, Some(m.durationSeconds), Some(m.formats))
  }

  /** A complete info dict passes through unchanged. */
  lemma CompleteInfoKept(m: VideoMetadata)
    ensures GetVideoInfo(Success(AsInfo(m))) == Some(m)
  {
  }

  /** Defaulting is done once and for all: normalising the normalised record again
      changes nothing. */
  lemma DefaultingIdempotent(info: ExtractorInfo)
    ensures var m := GetVideoInfo(Success(info)).value;
      GetVideoInfo(Success(AsInfo(m))) == Some(m)
  {
    CompleteInfoKept(GetVideoInfo(Success(info)).value);
  }

  /** An empty info dict gets every default. */
  lemma EmptyInfoDefaults()
    ensures GetVideoInfo(Success(ExtractorInfo(None, None, None, None)))
         == Some(VideoMetadata("Unknown Title", None, 0, []))
  {
  }

  /** Whole minutes and remaining seconds, as Python's `divmod` by 60 gives them. */
  function SplitDuration(duration: nat): (r: (nat, nat))
    ensures r.0 * 60 + r.1 == duration
    ensures r.1 < 60
  {
    (duration / 60, duration % 60)
  }

  /** Minutes and seconds are the only split of a duration with fewer than 60 seconds;
      minutes are not capped at an hour. */
  lemma SplitDurationUnique(duration: nat, minutes: nat, seconds: nat)
    requires minutes * 60 + seconds == duration && seconds < 60
    ensures SplitDuration(duration) == (minutes, seconds)
  {
  }

  /** The text after the clock icon: the minutes, `m `, the seconds, `s`, each
      without leading zeros. Read back
      at the `m `, the two numbers recombine to the duration with fewer than 60
      seconds. */
  function DurationText(duration: nat): (t: string)
    ensures |t| >= 5 && t[|t| - 1] == 's'
    ensures exists k :: (
      && 0 < k && k + 3 < |t| && t[k..k + 2] == "m "
      && AllDigits(t[..k]) && AllDigits(t[k + 2..|t| - 1])
      && ParseDecimal(t[..k]) * 60 + ParseDecimal(t[k + 2..|t| - 1]) == duration
      && ParseDecimal(t[k + 2..|t| - 1]) < 60
      && (k > 1 ==> t[0] != '0')
      && (|t| - 1 - (k + 2) > 1 ==> t[k + 2] != '0'))
  {
    var (minutes, seconds) := SplitDuration(duration);
    var m, s := DecimalString(minutes), DecimalString(seconds);
    var t := m + "m " + s + "s";
    ParseDecimalString(minutes);
    ParseDecimalString(seconds);
    assert t[..|m|] == m && t[|m|..|m| + 2] == "m " && t[|m| + 2..|t| - 1] == s;
    t
  }

  lemma DurationExamples()
    ensures DurationText(125) == "2m 5s"
    ensures DurationText(0) == "0m 0s"
    ensures DurationText(3661) == "61m 1s"
  {
    assert SplitDuration(125) == (2, 5);
    assert SplitDuration(3661) == (61, 1);
    assert DecimalString(61) == "61";
  }
}
