# Universal Video Downloader — a Dafny model of its decision and string logic

The Universal Video Downloader is a one-page Streamlit app over `yt_dlp`. The
user enters a URL, and the page probes it for metadata and shows the thumbnail,
title and duration. The user then picks video (with a resolution ceiling) or
audio (with an MP3 bitrate), presses Download, and gets a save button for the
resulting file. The transfer and the transcoding are done by `yt_dlp` and FFmpeg.
This project models the logic the page decides for itself, as pure functions
with lemmas:

- `Sanitize`: `sanitize_filename` (delete `\ / * ? : " < > |`, spaces to `_`),
  with a one-character-at-a-time reference definition, fixpoints, idempotence
  and character counts.
- `Bitrate`: the bitrate cleaning, a regular-expression deletion of every
  non-digit. It keeps exactly the digits, in order. The three offered labels clean to 132, 256 and 320.
- `YdlOptions`: the `res_map` lookup with its silent `best` fallback, and the
  `ydl_opts` record for each mode as a datatype.
- `Paths`: `os.path.basename` and `os.path.splitext` for `/`-separated paths,
  including `splitext`'s rule that a leading dot does not start an extension.
  Also the `.mp3` rename built on `splitext`.
- `Metadata`: the defaulting in `get_video_info`, `divmod(duration, 60)` and
  the `{minutes}m {seconds}s` text.
- `Decimal`: Python's decimal rendering of a non-negative `int`, used by the
  duration text and by the resolution labels, and the parser that reads it back.
- `Downloader`: `download_video` as a composition of the above with the
  extractor as a parameter. Also the success test (a non-empty file name that exists on disk), the
  save-as name, the MIME type, and one run of
  the page script.

The extractor is given as two function parameters, both of type
`(url, options) -> result`. The first is the probe (`extract_info` followed by
`prepare_filename`). The second is the transfer (`download`). Each returns
either a value or the message of the exception it raised. The files on disk
after the transfer are a `set<string>` parameter.

Behaviour worth noting:

- In video mode `download_video` returns `prepare_filename`'s result
  unchanged. It does not rename it to `.mp4`.
- The MP3 quality handed to the post-processor is the digit string (`"256"`),
  not an integer. `Bitrate.OfferedBitrates` proves that its decimal value is
  the label's number.
- The resolution is any string, or `None`. Every value outside the five-row
  table gives `best`, silently.
- The title returned by `download_video` defaults to `video`. The title shown
  on the page (from `get_video_info`) defaults to `Unknown Title`.
- In audio mode a prepared name without an extension, such as
  `downloads/.webm`, keeps all of itself and gains `.mp3`
  (`downloads/.webm.mp3`).

## Model

| member | source | states |
|---|---|---|
| `Sanitize.StripForbidden` | video_downloader.py:45 | the regex deletion leaves no forbidden character and shortens the name by exactly the number of forbidden characters |
| `Sanitize.SpacesToUnderscores` | video_downloader.py:45 | `replace(" ", "_")` keeps the length and changes each space, and only spaces, to `_` |
| `Sanitize.SanitizeFilename` | video_downloader.py:44-45 | the sanitised name contains no forbidden character and no space, and its length is the input's minus the number of forbidden characters |
| `Sanitize.SanitizeIsCharwise` | video_downloader.py:45 | the sanitiser equals the reference that maps each character independently: forbidden to nothing, space to `_`, any other character to itself, in order |
| `Sanitize.SanitizeAppend` | video_downloader.py:44-45 | sanitising a concatenation is the concatenation of the sanitised parts |
| `Sanitize.SanitizeFixpoints` | video_downloader.py:44-45 | a name is left unchanged if and only if it has no forbidden character and no space |
| `Sanitize.SanitizeIdempotent` | video_downloader.py:44-45 | sanitising twice gives the same as sanitising once |
| `Sanitize.SanitizeEmpty` | video_downloader.py:44-45 | the empty name sanitises to the empty name |
| `Sanitize.SanitizeCounts` | video_downloader.py:45 | every character other than the forbidden ones, space and `_` occurs as often in the output as in the input; `_` occurs once per input `_` or space; no space remains |
| `Bitrate.DigitsOnly` | video_downloader.py:67 | the cleaned bitrate consists of digits only and is no longer than the label |
| `Bitrate.DigitsOnlyIsSubsequence` | video_downloader.py:67 | the cleaned bitrate is obtained from the label by deleting characters, so order is kept |
| `Bitrate.DigitsOnlyCounts` | video_downloader.py:67 | each digit occurs in the result as often as in the label, and no other character occurs |
| `Bitrate.DigitsOnlyFixpoints` | video_downloader.py:67 | a string is left unchanged if and only if it is all digits |
| `Bitrate.DigitsOnlyIdempotent` | video_downloader.py:67 | cleaning twice gives the same as cleaning once |
| `Bitrate.NumberThenUnitCleans` | video_downloader.py:66-67 | a number followed by a digit-free unit cleans to the number's text, whose decimal value is the number |
| `Bitrate.OfferedBitrates` | video_downloader.py:126 | the labels `132kbps`, `256kbps`, `320kbps` clean to `132`, `256`, `320`, read back as 132, 256, 320 |
| `Decimal.DecimalString` | video_downloader.py:116 | the text of a number is non-empty, all digits, without a leading zero |
| `Decimal.ParseDecimalString` | video_downloader.py:116 | reading a rendered number back gives the number |
| `Decimal.DecimalStringInjective` | video_downloader.py:116 | distinct numbers render as distinct texts |
| `YdlOptions.ModeOf` | video_downloader.py:65 | audio mode if and only if `format_type` is exactly `"audio"`; every other value is video |
| `YdlOptions.FormatSelector` | video_downloader.py:79-87 | the video format is `best` or the selector capped at one of the five supported heights |
| `YdlOptions.TableMatchesHeights` | video_downloader.py:79-85 | the table's keys are exactly the labels `Np` of the heights 144, 360, 480, 720 and 1080, and each maps to `bestvideo[height<=N]+bestaudio/best` |
| `YdlOptions.SelectorForSupported` | video_downloader.py:79-87 | each supported label selects video no taller than its own height, merged with the best audio, falling back to `best` |
| `YdlOptions.SelectorFallback` | video_downloader.py:87 | any other resolution, `None` included, gives `best` |
| `YdlOptions.BuildOptions` | video_downloader.py:65-91 | building fails only in audio mode without a bitrate; both modes use the template `downloads/%(title)s.%(ext)s` and `quiet`; post-processors exist if and only if audio; a merge format exists if and only if video |
| `YdlOptions.AudioOptions` | video_downloader.py:65-77 | audio options use `bestaudio/best` and a single `FFmpegExtractAudio` step to `mp3` whose quality is the label's digits; the resolution has no effect |
| `YdlOptions.VideoOptions` | video_downloader.py:78-91 | video options use the resolution's selector, no post-processor and the `mp4` merge format; the bitrate has no effect |
| `Paths.Basename` | video_downloader.py:146 | the base name is the longest suffix of the path with no `/` |
| `Paths.SplitExt` | video_downloader.py:97 | root and extension concatenate to the path; the extension is empty or a dot followed by neither dot nor slash; a non-empty extension leaves a root whose last component has a non-dot character |
| `Paths.WithMp3Extension` | video_downloader.py:97 | the renamed path ends in `.mp3`, agrees with the prepared path before that suffix, and only an extension of the prepared path was dropped; a path without an extension is kept whole, followed by `.mp3` |
| `Paths.SplitExtOfJoin` | video_downloader.py:97 | splitting a stem joined to an extension gives both back (the inverse of joining) |
| `Paths.SplitExtWithoutDot` | video_downloader.py:97 | a path whose last component has no dot has no extension |
| `Paths.Mp3AfterLeadingDotName` | video_downloader.py:97 | `dir/.name` has no extension, so it becomes `dir/.name.mp3` |
| `Paths.Mp3ReplacesExtension` | video_downloader.py:95-97 | `stem.ext` becomes `stem.mp3`: the stem is kept and only the extension changes |
| `Paths.Mp3Idempotent` | video_downloader.py:97 | renaming an already renamed path again changes nothing, whenever the last component has a non-dot character |
| `Paths.BasenameKeepsSuffix` | video_downloader.py:146 | appending a slash-free suffix appends it to the base name |
| `Metadata.GetOr` | video_downloader.py:52-55 | `dict.get(key, default)`: the present value, or the default when the key is absent |
| `Metadata.GetVideoInfo` | video_downloader.py:47-59 | a failed probe gives `None`; otherwise the title defaults to `Unknown Title`, the thumbnail to none, the duration to 0 and the formats to the empty list, and present keys are kept |
| `Metadata.CompleteInfoKept` | video_downloader.py:51-56 | an info dict with every key present passes through unchanged |
| `Metadata.DefaultingIdempotent` | video_downloader.py:51-56 | normalising already normalised metadata changes nothing |
| `Metadata.EmptyInfoDefaults` | video_downloader.py:51-56 | an info dict without any of the keys gives `Unknown Title`, no thumbnail, 0 seconds and no formats |
| `Metadata.SplitDuration` | video_downloader.py:115 | `minutes * 60 + seconds == duration` and `seconds < 60` |
| `Metadata.SplitDurationUnique` | video_downloader.py:115 | that pair is the only split with fewer than 60 seconds; minutes are not capped |
| `Metadata.DurationText` | video_downloader.py:116 | the text is digits, `m `, digits, `s`; neither number has a leading zero; the two numbers read back from it recombine to the duration with fewer than 60 seconds |
| `Metadata.DurationExamples` | video_downloader.py:115-116 | 125 seconds shows `2m 5s`, 0 shows `0m 0s`, 3661 shows `61m 1s` |
| `Downloader.DownloadVideo` | video_downloader.py:61-103 | the download succeeds if and only if the options build, the probe returns and the transfer returns; the title defaults to `video`; in video mode the file name is the prepared one, and in audio mode it is the prepared name renamed by `splitext` to `.mp3`, so it ends in `.mp3` after the prepared name's stem, with only an extension dropped |
| `Downloader.MimeType` | video_downloader.py:147 | `audio/mp3` if and only if audio, `video/mp4` otherwise |
| `Downloader.FinishDownload` | video_downloader.py:139-154 | the save is offered if and only if a non-empty file name came back and that file exists; the offer names that file, a clean save-as name from its base name, and the mode's MIME type |
| `Downloader.AudioSaveNameIsMp3` | video_downloader.py:95-97 | an offered audio download is an `.mp3` path, saved under a name ending in `.mp3`, with type `audio/mp3` |
| `Downloader.SaveNameKeepsMp3` | video_downloader.py:146 | sanitising the base name of an `.mp3` path keeps the `.mp3` ending |
| `Downloader.Arguments` | video_downloader.py:118-126 | a video choice passes `"video"`, the selected resolution and no bitrate; an audio choice passes `"audio"`, no resolution and the selected bitrate |
| `Downloader.OfferedChoicesBuildOptions` | video_downloader.py:118-126 | every choice the selectors offer builds options: video never falls back to `best` and is capped at the chosen height, and audio quality is the chosen number of kbps |
| `Downloader.RenderPage` | video_downloader.py:106-154 | no URL shows nothing; a failed probe shows the error; otherwise the page shows the normalised metadata and duration text, and a download outcome exactly when the button was pressed |
| `Downloader.SaveOnlyExistingFiles` | video_downloader.py:139-147 | a save is offered only for a file on disk, with `audio/mp3` for an audio choice and `video/mp4` for a video choice |

## Left out

- Streamlit rendering, CSS, widgets, the spinner and the text of error messages (lines 1-41 and the display calls in 106-154). These are UI. A page run is reduced to the `Page` value it shows.
- The cosmetic progress loop with `time.sleep` (lines 129-135). It is display timing only.
- The `yt_dlp` calls (`extract_info`, `prepare_filename`, `download`) and the FFmpeg post-processing. These are library and binary calls, modelled as function parameters of the options.
- `os.makedirs`, `open`, `os.remove` and the swallowed removal failure (lines 63, 142, 149-152). These are filesystem I/O. `os.path.exists` is membership in a set of paths.
- Downloader.RenderPage: the rerun-per-interaction behaviour of Streamlit is not modelled. One call is one run of the script, with the widget values as inputs.
- Metadata.GetVideoInfo: a key that is present but holds `None` is not distinguished from an absent key, although Python's `dict.get` would return `None` rather than the default. In particular, when the `duration` key holds `None`, the `divmod` of line 115 raises an uncaught `TypeError` and the script stops, while the model shows `0m 0s`.
- Downloader.DownloadVideo: the same holds for the `title` key of the probed info, which would give `None` rather than `video` when it holds `None`.
- Metadata.SplitDuration: durations are natural numbers. A float duration and the `int()` truncation on it are not modelled.
- Bitrate.DigitsOnly: only ASCII `0`-`9` count as digits. Python's `\D` on `str` also keeps other Unicode decimal digits.
- Paths.SplitExt: only `/` is a separator. Windows `\` and drive letters (`ntpath`) are not modelled.
- The string helpers such as `Paths.RFind` stand for Python's `str.rfind` and slicing, not for code of this repository.
- The format descriptors in `formats` are opaque (a format id only). Nothing in the page reads them.
- Concurrent sessions writing the same file in `downloads/` are not modelled.
