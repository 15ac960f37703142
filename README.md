# YouTube downloader: format filter and progress hook

A Dafny model of the two pieces of logic in the desktop YouTube downloader
(`main.py`, class `YouTubeDownloaderApp`).

- **Format filter** (`_fetch_formats_thread`). yt_dlp reports a list of format
  descriptors. The filter keeps an entry when its `ext` is `"mp4"`, its
  `format_note` is non-empty after `strip()`, its `height` is truthy and its
  `vcodec` is not `"none"`. It drops every later entry whose
  `(height, format_note)` key is already in a `seen` set. The result is stored
  in `self.formats`, and the quality buttons are built from it.
- **Progress hook** (`progress_hook`). Each event from yt_dlp either forwards
  nothing or forwards one value for the progress bar. A `downloading` event
  forwards `downloaded_bytes / total * 100`. Here `total` is `total_bytes`, or
  `total_bytes_estimate` if `total_bytes` is falsy, and the value is forwarded
  only when that total is truthy. A `finished` event forwards 100.

Files:
- `wrappers.dfy` (module `Wrappers`): `Option`, which stands for a dictionary
  entry that may be missing.
- `format_filter.dfy` (module `FormatFilter`) holds:
  - the descriptor datatype;
  - Python's `strip()`, using the exact set of characters that `str.isspace` accepts;
  - the filter predicate;
  - the specification function `Filtered`;
  - the imperative loop `FilterFormats`, with a `seen` set and an accumulator,
    proved equal to `Filtered`;
  - the lemmas about `Filtered`.
- `progress.dfy` (module `ProgressRelay`): the event datatype, the hook's
  decision `ProgressUpdate` written as a pure function, and its lemmas.
- `downloader.dfy` (module `Downloader`): the fields `all_formats` and
  `formats` that the format fetch assigns, as a class.

Python truthiness is written out:
- `height` is tested for truthiness (main.py:109), so a missing height and a
  height of 0 are both excluded.
- The note must be non-empty after `strip()` (main.py:106), so a note made
  only of whitespace is excluded.
- A missing `vcodec` is `None`, and `None` is not equal to `"none"`, so such an
  entry passes.
- A missing `downloaded_bytes` counts as 0.
- A total of 0 counts as absent.

`main.py` has no history or thumbnail code, so none is modelled.
`download_folder` is set and shown in a confirmation message (main.py:68-69).
The download never uses it, because the output template at main.py:167 ignores
it, so it is not modelled.

## Model

| member | source | states |
|---|---|---|
| FormatFilter.TrimStartSpec | main.py:106 | `lstrip`: the result is a suffix of the input, every dropped character is whitespace, and the result does not begin with whitespace |
| FormatFilter.TrimEndSpec | main.py:106 | `rstrip`: the result is a prefix of the input, every dropped character is whitespace, and the result does not end with whitespace |
| FormatFilter.StripEmptyIff | main.py:106 | a note is empty after `strip()` exactly when all of its characters are whitespace |
| FormatFilter.FilterFormats | main.py:102-113 | the loop over the descriptors, with its `seen` key set and its appended list, returns exactly `Filtered(formats)` |
| FormatFilter.FilteredQualifies | main.py:104-109 | every kept entry is mp4, has a note that is non-empty after stripping, has a truthy height, and its vcodec is not `"none"` |
| FormatFilter.FilteredKeysDistinct | main.py:110-113 | no two kept entries share a `(height, format_note)` key |
| FormatFilter.FilteredKeysComplete | main.py:109-113 | the set of keys of the output equals the set of keys of the qualifying input entries |
| FormatFilter.FilteredEmptyIff | main.py:103-106 | the output is empty exactly when no input entry qualifies, which covers the empty input |
| FormatFilter.FilteredAtKeptIndices | main.py:104-113 | the output is the input read at the strictly increasing positions `KeptIndices`, so it is an order-preserving subsequence and contains nothing that is not in the input |
| FormatFilter.KeptIndicesAreFirstOccurrences | main.py:110-113 | a position is kept exactly when it holds a qualifying entry and no earlier qualifying entry has the same key |
| FormatFilter.FilteredIsFirstOccurrences | main.py:104-113 | both facts together: the output is the subsequence at the first qualifying occurrence of each key, and later duplicates are dropped |
| FormatFilter.LastFirstOccurrence | main.py:111 | the last entry is a first occurrence exactly when it qualifies and its key is not among the keys of the entries before it |
| FormatFilter.FirstOccurrenceOfPrefix | main.py:111 | whether an entry is a first occurrence depends only on the entries before it |
| FormatFilter.DuplicateDropped | main.py:102-113 | two identical 720p/HD mp4 entries followed by a 480p/SD entry give 720p/HD and then 480p/SD |
| FormatFilter.NoMp4GivesEmpty | main.py:106 | a list with no mp4 entry, for example one made only of webm entries, gives an empty result |
| ProgressRelay.Or | main.py:183 | `a or b` is truthy exactly when `a` or `b` is truthy |
| ProgressRelay.ForwardedIff | main.py:181-189 | a value is forwarded exactly for a `finished` event, or for a `downloading` event whose `total_bytes` or `total_bytes_estimate` is truthy |
| ProgressRelay.DownloadingWithTotal | main.py:182-186 | when `total_bytes` is truthy, the forwarded value is `downloaded_bytes / total_bytes * 100`, and a missing `downloaded_bytes` counts as 0 |
| ProgressRelay.DownloadingWithEstimate | main.py:183-186 | when `total_bytes` is falsy and `total_bytes_estimate` is truthy, the estimate is the divisor |
| ProgressRelay.DownloadingScaled | main.py:186 | the forwarded value times the total equals 100 times the downloaded bytes |
| ProgressRelay.DownloadingBounded | main.py:186 | when 0 ≤ downloaded ≤ total and the total is positive, the forwarded value lies in 0..100 |
| ProgressRelay.FinishedForwardsFull | main.py:188-189 | a `finished` event always forwards 100 |
| ProgressRelay.NothingForwarded | main.py:182-189 | a `downloading` event with neither total truthy forwards nothing, and so does an event of any other status |
| ProgressRelay.OverEstimateExceedsFull | main.py:183-186 | 300 bytes downloaded against an estimate of 200 forward 150: the value is not clamped to 100 |
| ProgressRelay.QuarterDownloaded | main.py:182-186 | 50 of 200 bytes forwards 25 |
| Downloader.FormatsOf | main.py:98 | a probe result without a `formats` entry gives the empty list, and a reported list is returned unchanged |
| Downloader.App.constructor | main.py:49-50 | both format lists start empty |
| Downloader.App.ReceiveFormats | main.py:98-115 | after a successful probe, `all_formats` holds every reported descriptor and `formats` holds the filtered list: every entry qualifies, the keys are distinct, and the list is non-empty exactly when some descriptor qualifies |

## Left out

- Tk widgets, styling, menus, the quality buttons and their labels, and enabling or disabling controls (main.py:9-63, 122-145, 191-197): these are UI.
- The background threads and the `root.after` scheduling (main.py:89, 116-120, 161, 175-179, 187-189): this is concurrency. The model states only the value the hook would forward, not when the display applies it.
- `yt_dlp.YoutubeDL`, `extract_info` and `download` (main.py:95-96, 173-174) are foreign library calls, and so are the option dictionaries passed to them. A failed probe raises before `all_formats` and `formats` are assigned. The model covers that case only in that `ReceiveFormats` is then not called.
- `filedialog` and `messagebox` (main.py:66-69, 74, 118, 135): these are I/O. `download_folder` is only shown in a message; the download's output template (main.py:167) does not use it.
- The empty-URL check and the selection of `format_id` in `start_download` (main.py:71-75, 147-161): these are UI glue around the foreign download call.
- ProgressRelay.ProgressUpdate: the division uses exact reals and makes no claim about IEEE floating-point rounding.
- ProgressRelay.DownloadingBounded: the code does not clamp the value (main.py:186). It stays within 0..100 only while the downloaded bytes do not exceed the total it divides by. `OverEstimateExceedsFull` shows a value of 150 forwarded when 300 bytes arrive against an estimate of 200.
- Downloader.FormatsOf: a `formats` entry that is present but `None` is treated like a missing one, giving `[]`. In the source, `.get` returns `None` there, line 99 stores `None` in `all_formats`, and the loop at line 104 raises `TypeError`. Line 117 then reports that as a fetch error, and `self.formats` stays unchanged.
- ProgressRelay.ProgressEvent: a `downloaded_bytes` entry that is present but `None` makes the source's division raise. The model conflates it with a missing entry, which counts as 0. A missing `status` key, which would raise `KeyError`, is not modelled either.
- FormatFilter.FormatDescriptor: the fields are typed, so a `format_note` that is not a string, which makes `strip()` raise, is outside the model. The same holds for a float height, and for an `ext` or `vcodec` that is not a string.
