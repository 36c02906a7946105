# Tumblr video uploader: per-file decisions

This project models the decision logic of `upload.py`, a script meant to
run as a daemon that uploads videos to Tumblr (its docstring, upload.py:6-8).
As written, `main()` handles one file: the path is hard-coded
(upload.py:123), and the loop over a directory exists only as a
`# LOOP START` comment (upload.py:120-121). For that file, `main()` does five
things:

- it splits the path into stem and extension;
- it computes how many times the file exceeds the 100 MiB upload ceiling;
- if the file is at or over the ceiling, it has the file converted to a
  smaller resolution under a derived name;
- it charges the video's length to a five-minute daily quota, sleeping for a
  day and resetting the quota when the limit is reached;
- it reads the caption from `<stem>.txt`, removes that caption file, and moves
  the (possibly converted) video into a `sent` subdirectory.

The file path and its size are inputs to the model. The lemmas about a
sequence of files (`Quota.Run*`) describe the loop the docstring intends, in
which `daily_upload_time` carries over from one file to the next. The source
does not contain that loop.

The model has four modules:

- `Paths` (`paths.dfy`) models Python's `posixpath.splitext`, `dirname` and
  `basename` on strings. This includes `rfind`, the rule that leading dots of
  a name are not an extension, and the `rstrip('/')` that `dirname` applies.
- `Transcode` (`transcode.dfy`) holds:
  - the exceed ratio as a `real`, since Python 3 `/` is true division;
  - the rounded-up factor in integer arithmetic, proved equal to the ceiling
    of that ratio;
  - the reduced resolution, again as `real`s;
  - the converted file name;
  - the converter invocation, as data.
- `Quota` (`quota.dfy`) holds the quota step as a function and the
  `daily_upload_time` variable as a class `DailyQuota` with one mutating
  method. It also has lemmas about any sequence of files. Durations are whole
  microseconds, the resolution of `timedelta`.
- `Upload` (`upload.dfy`) holds the caption path and the `sent` destination.
  `FileStep` is the specification of `main()` for one file: it returns the
  file's effects in order (convert, sleep, read caption, remove caption, move)
  as a sequence, plus the new quota total. `ProcessFile` runs the same steps
  imperatively against a `DailyQuota` object, and its postcondition ties it
  to `FileStep`.

Three behaviours of the code might be expected to work otherwise. The model
follows the code in the first two:

- The code divides the width and height with Python 3 true division
  (upload.py:72-73), not floor division, so `TargetDimensions` returns
  `real`s.
- The code converts a file of exactly 100 MiB, because the test is
  `exceed_factor >= 1` (upload.py:145). It converts that file with factor 1,
  so at the same resolution. `FactorOneOnlyAtCeiling` states this.
- The code names the converted file with a doubled dot (upload.py:69). This
  is recorded under "## Findings". There the as-written name is modelled and
  characterised, and the rest of the pipeline uses the corrected name.

A path with no directory part (no `/`) has an empty `dirname`. Its sent
directory is therefore `/sent/`, at the filesystem root, as
`BareNameGoesToRootSent` states. The source itself only ever uses an absolute
path.

## Model

| member | source | states |
|---|---|---|
| `Paths.LastIndexOf` | upload.py:125 | the `rfind` that splitext, dirname and basename use: -1 exactly when the character is absent, otherwise an index holding it with no later occurrence |
| `Paths.SplitExt` | upload.py:125 | `file_name + file_ext` is the path again; the extension is empty or a dot followed by no further dot or separator; a non-empty extension leaves a stem whose last component has a non-dot character |
| `Paths.SplitAtLastDot` | upload.py:125 | when the last dot follows the last separator, the text from it on is an extension and the stem's last component runs from the separator to that dot |
| `Paths.SplitExtOfJoin` | upload.py:125 | a stem with a non-dot character in its last component, followed by an extension, splits back into exactly that stem and extension |
| `Paths.Basename` | upload.py:62 | the basename has no separator, is a suffix of the path, and is the whole path when there is no separator |
| `Paths.RStripSlashes` | upload.py:50 | the `rstrip('/')` inside dirname: a prefix of its input that does not end in a separator, with only separators removed after it |
| `Paths.Dirname` | upload.py:50 | the dirname is a prefix of the path; it is empty exactly when the path has no separator; it has no trailing separator unless it is the root |
| `Paths.DirnameBasenameJoin` | upload.py:50-62 | where the last separator is single and not at the start, dirname + "/" + basename gives back the path |
| `Transcode.ExceedRatio` | upload.py:133 | the true-division ratio is non-negative, and multiplied by 104857600 it gives the file size back |
| `Transcode.ExceedsCeiling` | upload.py:145 | the test `exceed_factor >= 1` holds exactly when the size is at least 104857600 bytes |
| `Transcode.ExceedFactor` | upload.py:146 | the rounded factor k satisfies (k-1)*104857600 < size <= k*104857600, and k >= 1 for a file at or over the ceiling |
| `Transcode.ExceedFactorIsCeiling` | upload.py:133-146 | the integer factor lies in [ratio, ratio + 1), so it is `math.ceil` of the true-division ratio |
| `Transcode.FactorOneOnlyAtCeiling` | upload.py:145-146 | among converted files, the factor is 1 exactly for a file of exactly 104857600 bytes |
| `Transcode.FactorOfQuarterGigabyte` | upload.py:133-146 | a 250 MiB file is over the ceiling and gets factor 3 |
| `Transcode.TargetDimensions` | upload.py:72-73 | the target width and height are at most the originals; multiplied by k they give the originals; the width:height ratio is preserved; k = 1 leaves them unchanged |
| `Transcode.UltraHdByThree` | upload.py:72-73 | 3840x2160 with factor 3 becomes 1280x720 |
| `Transcode.SmallerNameAsWritten` | upload.py:69 | the name as the code builds it: the stem, then nine characters (`_smaller.`), then the extension |
| `Transcode.SplitExtBigMp4` | upload.py:125 | the path `big.mp4` splits into the stem `big` and the extension `.mp4` |
| `Transcode.SmallerNameAsWrittenDoublesDot` | upload.py:69 | for the stem `big` and extension `.mp4` of `big.mp4`, the code's name is `big_smaller..mp4` and the intended name is `big_smaller.mp4` |
| `Transcode.SmallerNameAsWrittenSplits` | upload.py:69 | for every path, the code's name never splits into `<stem>_smaller` and the original extension: with an extension the stem ends in `_smaller.`; without one the extension is the lone `.` |
| `Transcode.SmallerName` | upload.py:69 | the intended converted name: the stem, then `_smaller`, then the extension with its own dot |
| `Transcode.SmallerNameSplits` | upload.py:69 | for every path, the converted name splits into the original stem plus `_smaller` and the original extension |
| `Transcode.SmallerNameDiffers` | upload.py:69 | the converted name never equals the original path |
| `Transcode.TooBig` | upload.py:68-81 | the converter reads the original path and writes the converted name; the target resolution is no larger than the original and has the same aspect ratio |
| `Quota.QuotaStep` | upload.py:154-160 | the day-long sleep happens exactly when old + duration reaches 5 minutes, and then the total becomes 0; otherwise the total is old + duration; the new total is always below 5 minutes |
| `Quota.DailyQuota.constructor` | upload.py:118 | the quota starts at zero |
| `Quota.DailyQuota.Add` | upload.py:154-160 | the new total and the sleep flag are those of `QuotaStep` applied to the old total, and the total stays below 5 minutes |
| `Quota.RunStaysBelowLimit` | upload.py:154-160 | starting below 5 minutes, the total stays below 5 minutes after any sequence of files (over the intended loop of files) |
| `Quota.RunBelowLimitAccumulates` | upload.py:154-160 | if the start plus all lengths stays below 5 minutes, the total is exactly that sum and no sleep happens (over the intended loop of files) |
| `Quota.RunSleepsBounded` | upload.py:154-160 | sleeps × 5 minutes + final total ≤ start + all lengths, so the total only grows by file lengths and every sleep accounts for 5 minutes of video (over the intended loop of files) |
| `Quota.RunWithoutSleepIsSum` | upload.py:154-160 | a run with no sleep kept the whole sum, and that sum stayed below 5 minutes (over the intended loop of files) |
| `Upload.CaptionPath` | upload.py:34 | the caption path is the given name followed by the four characters `.txt` |
| `Upload.CaptionSplits` | upload.py:34 | the caption path `<stem>.txt` splits back into the stem and `.txt` |
| `Upload.CaptionOfFileSharesStem` | upload.py:34 | a file with an extension is paired with a caption file that has the same stem |
| `Upload.SentDir` | upload.py:51 | the sent directory is the file's dirname followed by `/sent/` |
| `Upload.SentDestination` | upload.py:62 | the destination is the sent directory, a separator, then the file's basename |
| `Upload.SentDestinationKeepsName` | upload.py:62 | the destination `<dirname>/sent//<basename>` has the file's own basename |
| `Upload.SentDestinationInSentDir` | upload.py:50-62 | the destination's dirname is `<dirname>/sent` |
| `Upload.BareNameGoesToRootSent` | upload.py:50-62 | a path with no separator is moved to `/sent//<path>` |
| `Upload.SentPath` | upload.py:145-148 | the file moved to `sent` is the original path exactly when the size is below the ceiling; otherwise it is a file with the same extension whose stem is the original stem plus `_smaller` |
| `Upload.Conversion` | upload.py:145-148 | exactly one effect, a conversion, for a file at or over the ceiling, and none below it |
| `Upload.ConversionOfBigFile` | upload.py:145-148 | an oversized file's conversion reads the original path at the resolution divided by the rounded-up factor and writes the path that is later sent |
| `Upload.Pause` | upload.py:157-160 | the pause is nothing or a single sleep of 86400 seconds |
| `Upload.AfterConversionNoConvert` | upload.py:150-174 | nothing main() does after the conversion step is a conversion |
| `Upload.Reconciliation` | upload.py:163-174 | three effects, none a conversion or a sleep: read the caption, remove that same caption path, then move the sent file to its destination under `sent` |
| `Upload.FileStep` | upload.py:125-174 | one file yields 3 to 5 effects, and the quota total afterwards is below 5 minutes |
| `Upload.ConvertsIffTooBig` | upload.py:133-148 | the first effect is a conversion exactly when the size is at least the ceiling, and no later effect is one |
| `Upload.SleepsIffQuotaReached` | upload.py:150-160 | the 86400-second sleep is among the effects exactly when this file brings the total to 5 minutes; the total then becomes 0, and otherwise old + duration |
| `Upload.CaptionThenMove` | upload.py:162-174 | the last three effects are: read the caption under the original stem, remove it, then move the post-conversion path to `<dirname>/sent/` |
| `Upload.ConvertedFileKeepsOriginalCaption` | upload.py:148-163 | for an oversized file, the moved path differs from the original, and the caption path differs from the one the converted name would give |
| `Upload.ProcessFile` | upload.py:118-174 | run step by step against the quota object, it produces exactly the effects and new total of `FileStep`, and the quota stays below 5 minutes |

## Findings

| source | as written | input that shows it | evidently intended | confidence | as-written member | corrected member |
|---|---|---|---|---|---|---|
| upload.py:69 | `file_name + '_smaller.' + file_ext`; the extension from `splitext` already starts with a dot | `big.mp4` gives `big_smaller..mp4` | `big_smaller.mp4`, that is `<name>_smaller.<ext>` | high (not executed) | `Transcode.SmallerNameAsWrittenDoublesDot` | `Transcode.SmallerNameSplits` |

`TooBig`, `Conversion`, `SentPath`, `FileStep` and `ProcessFile` use the
corrected `SmallerName`. As a result, the converted file the model moves to
`sent` is `<stem>_smaller<ext>`. In the source it is `<stem>_smaller.<ext>`,
as `SmallerNameAsWrittenSplits` characterises.

## Left out

- Network upload: the `pytumblr` client and `create_video` (upload.py:84-93) are a foreign library. The call in `main()` is commented out in the source (upload.py:165-166), so it is not among the effects either.
- `TooBig`: its output is the corrected `<stem>_smaller<ext>`, not `file_name + '_smaller.' + file_ext` (upload.py:69), because of the finding above.
- `Conversion`: its conversion job writes the corrected name, for the same reason as `TooBig`.
- `SentPath`: for an oversized file it is the corrected name. The source moves the doubled-dot name `<stem>_smaller.<ext>`, or `<stem>_smaller.` when there is no extension, for the same reason as `TooBig`.
- `FileStep`: its conversion and move carry the corrected name, for the same reason as `TooBig`.
- `ProcessFile`: sends and moves the corrected name, for the same reason as `TooBig`.
- `too_big` returning: upload.py:76 unpacks `out, err` from a `subprocess.Popen` object. Such an object is not iterable, so as written the line raises `TypeError` once avconv has been started. The source therefore never reaches lines 148-174 for an oversized file. The model assumes the evidently intended behaviour: the conversion finishes, `too_big` returns its name, and the quota, caption and move steps follow.
- Converter process: the `avconv` process and its exit check (upload.py:76-79) are an external process. Only its arguments are kept, as a `ConvertJob`; the text form of `WxH` (e.g. `1280.0x720.0`) is not modelled.
- Metadata: `hachoir` parsing and metadata extraction (upload.py:135-143), including their `exit(1)` paths, are a foreign library. Duration, width and height are inputs (`Metadata`).
- Filesystem effects: `open`, `remove`, `rename`, `makedirs`, `path.exists` and `path.getsize` are I/O. The size is an input. Reading, removing and moving appear only as effects in the returned sequence. The `exit(1)` when a directory cannot be created or a file cannot be moved (upload.py:52-65) is not modelled, and neither is the ignored failure to remove a caption (upload.py:169-172).
- Waiting: the unbounded `while True` / `sleep(60)` retry in `read_caption` (upload.py:35-46) and the 24-hour `sleep` itself (upload.py:159) are timing behaviour. The model keeps the caption path, and the sleep as an effect with its duration. The caption's text is file content and is not modelled.
- Configuration: argument parsing and logging setup (upload.py:97-116) are configuration and I/O.
- `Transcode.ExceedRatio` is exact real division, not a float. The float precision of `file_size/104857600` for sizes far beyond realistic file sizes is not modelled.
- `Quota.QuotaStep`: uses whole microseconds, each file's length is a natural number, and `timedelta` overflow is not modelled.
