# video2slides in Dafny

This is a model of the slide-extraction core of video2slides. That core does four things:
- It asks ffmpeg for the video's duration.
- It reads the frames ffmpeg extracted every ten seconds, `output_0001.png`, `output_0002.png`, and so on.
- It drops each frame whose RMS pixel difference from the last kept frame is below 5.
- It lays the kept frames out as a PDF with one page per frame, sized to the frame.

The modules follow the source files:

| module | models |
|---|---|
| `Wrappers` | `Option` and `Result` |
| `JsText` | the JavaScript string built-ins the core relies on: `toString`, `padStart`, `indexOf`, `split`, `\s` and decimal digits |
| `RmsDiffs` | `rmsDiff` (src/utils/rms-diffs.ts) |
| `TimeToSeconds` | `convertTimeToSeconds` (src/utils/timetoseconds.ts) |
| `Metadata` | `getMetadata` and `getDuration` (src/utils/process-video.ts) |
| `ImagePdf` | `imagesToOriginalSizePdf` (src/utils/load-image-from-blob.ts) |
| `ProcessVideo` | `convertToPdf` (src/utils/process-video.ts) |

How each part is modelled:
- **rmsDiff** is `RmsDiffs.RmsDiff`, an imperative loop proved against `RmsDiffs.Squares`, the sum of the squared differences.
  - Its result is kept symbolic as `Rms(squares, count)`, standing for sqrt(squares / count).
  - The test `rms < 5` becomes the integer test `squares < 25 * count`.
  - With `count == 0` the value is NaN, which is below no threshold.
- **convertTimeToSeconds** is `TimeToSeconds.ConvertTimeToSeconds`. Unary `+` on a field is `TimeToSeconds.ToNumber`, and NaN is `None`.
- **getMetadata** is `Metadata.GetMetadata`, a loop that appends each log message to `log`. It is proved against `Metadata.ResolvedLog`.
  - It stops at the first message containing `Aborted()`.
  - It gives `None` when no message contains the marker, because then the promise never resolves.
- **getDuration** is `Metadata.Duration`. It runs the regular expression `Duration:\s*([0-9]{2}):([0-9]{2}):([0-9]{2}.[0-9]{0,2})` over the log.
  - The search (`Metadata.FirstMatch`) is leftmost-first, and the match is written out character by character.
  - `parseFloat` is applied to the third group, which is "SS", then any character, then up to two digits. `Metadata.ParseSeconds` models it as a real number for the four forms that group can take:
    - a digit continues the integer;
    - `.` starts a fraction;
    - `e` or `E` followed by digits is an exponent;
    - anything else ends the number.
- **convertToPdf** is `ProcessVideo.ConvertToPdf`, proved against the function `ProcessVideo.Pdf`.
  - Its frame loop is the imperative method `ProcessVideo.CollectFrames`. The loop's local state is `uint8Store`, the baseline, and `allFiles`, the kept frames.
  - The loop is proved against the recursive function `ProcessVideo.Run`, which gives the frames kept from ordinal i on for a given baseline.
  - The keep test against the baseline is `ProcessVideo.Keeps`.
- **imagesToOriginalSizePdf** is `ImagePdf.ImagesToOriginalSizePdf`, proved against `ImagePdf.ImagePages`.
  - jsPDF is the class `ImagePdf.PdfDocument`, whose state is its list of pages.
  - Each page records its format, its orientation and the images drawn on it.

What the source does at particular lines:
- `imagesToOriginalSizePdf` calls `addPage` for every image, the first one included (load-image-from-blob.ts:21). The page `new jsPDF` created (lines 7-10) stays, so two images give three pages (`ImagePdf.TwoImages`).
- The `.` in the duration pattern (process-video.ts:23) is not escaped, so it matches any character except a line terminator.
  - "Duration: 00:00:1234" reads as 1234 seconds.
  - "Duration: 00:00:12e3" reads as 12000 seconds.
- A missing file makes `readFile` throw (process-video.ts:57), and the `catch` ends the loop (lines 79-84). The frames kept before it are still laid out.

## Model

| member | source | states |
|---|---|---|
| `RmsDiffs.RmsDiff` | src/utils/rms-diffs.ts:1-12 | fails exactly when the lengths differ; otherwise gives the sum over all positions of (a[i] - b[i])^2 (the loop invariant) together with the length |
| `RmsDiffs.SquaresSymmetric` | src/utils/rms-diffs.ts:8-10 | swapping the two arrays gives the same sum of squares |
| `RmsDiffs.SquaresZeroIffEqual` | src/utils/rms-diffs.ts:8-10 | the sum of squares is 0 if and only if the arrays are equal |
| `RmsDiffs.SquaresBound` | src/utils/rms-diffs.ts:8-10 | for bytes, the sum of squares is at most 255^2 times the length |
| `RmsDiffs.SquaredDifferenceBound` | src/utils/rms-diffs.ts:9 | one squared byte difference is at most 255^2 |
| `RmsDiffs.IdenticalIsBelowThreshold` | src/utils/rms-diffs.ts:8-11 | identical non-empty arrays score below every positive threshold |
| `RmsDiffs.EmptyIsNaN` | src/utils/rms-diffs.ts:11 | empty arrays give NaN, which is below no threshold |
| `RmsDiffs.LessThanIsRmsBelow` | src/utils/rms-diffs.ts:11 | for a real root mean square of squares / count with count > 0, rms < t holds exactly when squares < t*t*count |
| `TimeToSeconds.ConvertTimeToSeconds` | src/utils/timetoseconds.ts:1-4 | no contract of its own: splits on ':', gives NaN (`None`) with fewer than three fields, and otherwise combines the first three through `ToNumber`; `FormatRoundTrip`, `FirstThreeFields`, `DigitFields` and `FewerThanThreeFields` state its value |
| `TimeToSeconds.ToNumber` | src/utils/timetoseconds.ts:3 | no contract of its own: unary `+` of white space around an optionally signed digit run, with white space alone giving 0 and every other form NaN; `ToNumberDigits` and `ToNumberShow` state its value |
| `TimeToSeconds.FirstThreeFields` | src/utils/timetoseconds.ts:2-3 | the result depends only on the first three ':'-separated fields; further fields are ignored |
| `TimeToSeconds.ThreeFields` | src/utils/timetoseconds.ts:2-3 | "hh:mm:ss" converts to the combination of its three fields |
| `TimeToSeconds.SplitThree` | src/utils/timetoseconds.ts:2 | splitting "hh:mm:ss" on ':' gives exactly [hh, mm, ss] |
| `TimeToSeconds.DigitFields` | src/utils/timetoseconds.ts:1-4 | fields of digits give hh*3600 + mm*60 + ss of their decimal values |
| `TimeToSeconds.CombineDigits` | src/utils/timetoseconds.ts:3 | digit fields combine to hh*3600 + mm*60 + ss of their values |
| `TimeToSeconds.CombineNumbers` | src/utils/timetoseconds.ts:3 | three fields whose unary `+` are numbers combine to h*3600 + m*60 + s |
| `TimeToSeconds.ToNumberDigits` | src/utils/timetoseconds.ts:3 | unary `+` of a run of digits is its decimal value, and "" is 0 |
| `TimeToSeconds.ToNumberShow` | src/utils/timetoseconds.ts:3 | unary `+` reads back what `toString` wrote |
| `TimeToSeconds.FewerThanThreeFields` | src/utils/timetoseconds.ts:2-3 | with fewer than two ':' the third field is `undefined` and the result is NaN |
| `TimeToSeconds.EmptyFieldIsZero` | src/utils/timetoseconds.ts:3 | an empty minutes field converts the same as "0" |
| `TimeToSeconds.EmptyAndZero` | src/utils/timetoseconds.ts:3 | `+""` and `+"0"` are both 0 |
| `TimeToSeconds.FormatRoundTrip` | src/utils/timetoseconds.ts:1-4 | a time written with `toString` fields converts to h*3600 + m*60 + s |
| `TimeToSeconds.SecondsShift` | src/utils/timetoseconds.ts:3 | raising the hours number by dh and the minutes number by dm raises the result by dh*3600 + dm*60, and NaN stays NaN |
| `TimeToSeconds.HourFieldShift` | src/utils/timetoseconds.ts:3 | an hours field whose number is one more adds 3600, whatever the other fields are |
| `TimeToSeconds.MinuteFieldShift` | src/utils/timetoseconds.ts:3 | a minutes field whose number is one more adds 60, whatever the other fields are |
| `TimeToSeconds.NextHour` | src/utils/timetoseconds.ts:3 | incrementing the hours written with `toString` adds 3600 |
| `TimeToSeconds.NextMinute` | src/utils/timetoseconds.ts:3 | incrementing the minutes written with `toString` adds 60 |
| `JsText.Show` | src/utils/process-video.ts:56 | `toString` of a natural number is a non-empty digit string without a leading zero |
| `JsText.ValueOfShow` | src/utils/process-video.ts:56 | reading back the digits of `toString` gives the number |
| `JsText.ShowAtLeast` | src/utils/process-video.ts:56 | a number of at least 10^k has more than k digits |
| `JsText.PadStart` | src/utils/process-video.ts:56 | `padStart` gives at least the target length, keeps the string as its suffix and fills only the front |
| `JsText.PadZerosValue` | src/utils/process-video.ts:56 | padding digits with zeros keeps them digits of the same value |
| `JsText.Contains` | src/utils/process-video.ts:11 | `indexOf(t) > -1` holds exactly when t occurs at some position |
| `JsText.Split` | src/utils/timetoseconds.ts:2 | `split` gives at least one field |
| `JsText.SplitFields` | src/utils/timetoseconds.ts:2 | `split` gives one more field than there are separators, and no field contains the separator |
| `JsText.JoinSplit` | src/utils/timetoseconds.ts:2 | joining the fields of a split gives the string back |
| `JsText.SplitJoin` | src/utils/timetoseconds.ts:2 | splitting a join of separator-free fields gives the fields back |
| `Metadata.GetMetadata` | src/utils/process-video.ts:6-19 | resolves with the concatenation of the messages up to and including the first one that contains "Aborted()", and resolves at all exactly when some message contains it |
| `Metadata.FirstMarker` | src/utils/process-video.ts:11-13 | the first message containing "Aborted()": it contains the marker and no earlier message does; `None` when no message does |
| `Metadata.FractionLength` | src/utils/process-video.ts:23 | the greedy `[0-9]{0,2}` takes at most two characters, all digits |
| `Metadata.MatchTime` | src/utils/process-video.ts:23 | the groups of a time match have two digits each, a separator that is no line terminator, and a fraction of at most two digits |
| `Metadata.MatchPrefix` | src/utils/process-video.ts:23 | a match starting at a position begins with "Duration:" and has well-formed groups |
| `Metadata.FirstMatch` | src/utils/process-video.ts:24 | `patt.exec` on a fresh pattern: the leftmost match has well-formed groups |
| `Metadata.ParseSeconds` | src/utils/process-video.ts:30 | `parseFloat(m[3])` is never negative |
| `Metadata.Duration` | src/utils/process-video.ts:21-33 | the duration is never negative |
| `Metadata.FrameCount` | src/utils/process-video.ts:53 | `Math.floor(duration / 10)`: the largest n with n <= duration / 10 |
| `Metadata.FirstMatchFrom` | src/utils/process-video.ts:24 | positions where no match starts are skipped by the search |
| `Metadata.NoLabelNoDuration` | src/utils/process-video.ts:23-26 | a log without "Duration:" has duration 0 |
| `Metadata.NoLabelFrom` | src/utils/process-video.ts:23-26 | with no 'D' from position p on, no match is found from p |
| `Metadata.NotLabelStart` | src/utils/process-video.ts:23 | no match starts at a character other than 'D' |
| `Metadata.TimeMatch` | src/utils/process-video.ts:23 | "HH:MM:SS" + c + F + rest matches with exactly those groups |
| `Metadata.LineMatch` | src/utils/process-video.ts:23 | "Duration: HH:MM:SS" + c + F + rest matches at its start with those groups |
| `Metadata.DurationLineCaptures` | src/utils/process-video.ts:23-24 | in a log whose text before the duration line contains no "Duration:", the first match is the duration line's |
| `Metadata.NoMatchInPre` | src/utils/process-video.ts:23-24 | no match starts inside text without "Duration:" that comes before a "Duration:" |
| `Metadata.LineDuration` | src/utils/process-video.ts:23-32 | when the text before the duration line contains no "Duration:", the duration is HH*3600 + MM*60 plus `parseFloat` of the third group, for every separator character |
| `Metadata.StandardDuration` | src/utils/process-video.ts:23-32 | when no "Duration:" comes before the line, "Duration: HH:MM:SS.FF" gives HH*3600 + MM*60 + SS + FF / 10^len(FF) |
| `Metadata.FrameCountOfWhole` | src/utils/process-video.ts:53 | a whole number of seconds plus a fraction below one gives that number divided by 10 frames |
| `Metadata.FractionBelowOne` | src/utils/process-video.ts:30 | the fraction FF / 10^len(FF) lies in [0, 1) |
| `Metadata.DurationAgreesWithTimeString` | src/utils/process-video.ts:28-32 | when no "Duration:" comes before a standard duration line, `getDuration` and `convertTimeToSeconds` of its HH:MM:SS agree: the whole seconds are the time string's value, and the frame count is that value divided by 10 |
| `Metadata.NinetySeconds` | src/utils/process-video.ts:21-33 | "Duration: 00:01:30.00" is 90 seconds and nine frames; 95 seconds also give nine frames |
| `Metadata.DigitAfterSeconds` | src/utils/process-video.ts:23-30 | "Duration: 00:00:1234" reads 1234 seconds (unescaped `.`) |
| `Metadata.ExponentAfterSeconds` | src/utils/process-video.ts:23-30 | "Duration: 00:00:12e3" reads 12000 seconds (unescaped `.`) |
| `Metadata.CommaAfterSeconds` | src/utils/process-video.ts:23-30 | "Duration: 00:01:30,99" reads 90 seconds |
| `Metadata.RejectedLineSkipped` | src/utils/process-video.ts:23-24 | a "Duration:" at which the pattern fails is passed over: with no other label before it or in its text, the search continues in the rest of the log, which is empty or starts with the next label |
| `Metadata.SkippedLineDuration` | src/utils/process-video.ts:23-32 | after a label whose text starts with neither white space nor a digit (such as "Duration: N/A"), the duration is the one read from the rest of the log |
| `Metadata.RejectedAfterLabel` | src/utils/process-video.ts:23-26 | a log whose only "Duration:" is followed by text the time pattern rejects has duration 0, whatever text comes before the label |
| `Metadata.NotAvailable` | src/utils/process-video.ts:23-26 | "Duration: N/A", with any label-free text before and after it, gives duration 0 |
| `Metadata.OneDigitHour` | src/utils/process-video.ts:23-26 | a one-digit hours field does not match, and the duration is 0, whatever label-free text comes before and after |
| `Metadata.NothingAfterSeconds` | src/utils/process-video.ts:23-26 | with the log's end or a line break right after the two seconds digits the `.` has nothing to match, and the duration is 0 |
| `ImagePdf.OrientationOf` | src/utils/load-image-from-blob.ts:21 | landscape exactly when width > height, so square images are portrait |
| `ImagePdf.CompressionOf` | src/utils/load-image-from-blob.ts:30 | 'FAST' exactly when `options.compress` holds |
| `ImagePdf.BlankPage` | src/utils/load-image-from-blob.ts:21 | the page `addPage` creates is exactly [width, height] and empty |
| `ImagePdf.FullPage` | src/utils/load-image-from-blob.ts:17-31 | an image's page is exactly [width, height], landscape iff width > height, and holds the image once at (0, 0) at full size |
| `ImagePdf.PagesOf` | src/utils/load-image-from-blob.ts:15-36 | one pass of the loop adds at most one page, and none exactly when `addPage` throws |
| `ImagePdf.PdfDocument.constructor` | src/utils/load-image-from-blob.ts:7-10 | a new document holds one A4 portrait page |
| `ImagePdf.PdfDocument.AddPage` | src/utils/load-image-from-blob.ts:21 | appends one empty page of the given format and orientation and changes nothing else |
| `ImagePdf.PdfDocument.AddImage` | src/utils/load-image-from-blob.ts:24-31 | draws the placement on the last page and leaves the other pages unchanged |
| `ImagePdf.ImagesToOriginalSizePdf` | src/utils/load-image-from-blob.ts:3-40 | the document is the initial page followed by the pages the images produce, in order |
| `ImagePdf.PagesAppend` | src/utils/load-image-from-blob.ts:12-37 | the pages of a concatenation are the pages of each part: images do not affect each other |
| `ImagePdf.SinglePages` | src/utils/load-image-from-blob.ts:15-36 | a single image gives its full page, a blank page when `addImage` throws, and nothing when `addPage` throws |
| `ImagePdf.SkipFailedImage` | src/utils/load-image-from-blob.ts:33-36 | an image whose `addPage` throws is skipped, and the images after it are still added |
| `ImagePdf.OnePagePerImage` | src/utils/load-image-from-blob.ts:12-31 | without failures there is exactly one full page per image, in input order |
| `ImagePdf.DefaultIsFast` | src/utils/load-image-from-blob.ts:3-30 | under the default options every image is drawn with 'FAST' |
| `ImagePdf.TwoImages` | src/utils/load-image-from-blob.ts:7-31 | 100x200 and then 300x150 give three pages: the initial page, a portrait 100x200 page and a landscape 300x150 page |
| `ProcessVideo.FileName` | src/utils/process-video.ts:56 | the name read for an ordinal starts with "output_" and ends with ".png" |
| `ProcessVideo.FileNameDigits` | src/utils/process-video.ts:56 | the digits of the name are the ordinal's `toString` behind zeros up to four digits; they are never truncated and read back as the ordinal |
| `ProcessVideo.FileNameInjective` | src/utils/process-video.ts:56-57 | different ordinals read different files |
| `ProcessVideo.FileNameOfSeven` | src/utils/process-video.ts:56 | ordinal 7 reads "output_0007.png" |
| `ProcessVideo.FileNameOfLargeOrdinal` | src/utils/process-video.ts:56 | from 1000 on, the name holds the plain ordinal without padding |
| `ProcessVideo.RunFails` | src/utils/process-video.ts:79-84 | a failed read ends the loop |
| `ProcessVideo.RunKeepsFrame` | src/utils/process-video.ts:65-78 | a frame that passes the keep test is kept and becomes the baseline |
| `ProcessVideo.RunDropsFrame` | src/utils/process-video.ts:70-72 | a frame that fails the keep test is dropped and the baseline is unchanged |
| `ProcessVideo.KeepFrame` | src/utils/process-video.ts:65-76 | keep when the store is null, when the lengths differ, or when `rmsDiff` is not below 5 |
| `ProcessVideo.CollectFrames` | src/utils/process-video.ts:49-85 | the loop's kept frames are exactly `Run` from ordinal 1 to the frame count with no baseline; the store `uint8Store` it ends with is null exactly when nothing was kept, and otherwise the last kept frame's bytes |
| `ProcessVideo.ConvertToPdf` | src/utils/process-video.ts:35-87 | metadata, duration, frame loop and layout compose into `Pdf`: no PDF while the log never resolves, otherwise the PDF of the kept frames |
| `ProcessVideo.RunOrdinals` | src/utils/process-video.ts:53-78 | kept ordinals lie in 1..floor(duration/10) and strictly increase |
| `ProcessVideo.RunReads` | src/utils/process-video.ts:56-78 | every kept frame is what reading its ordinal produced |
| `ProcessVideo.RunKeeps` | src/utils/process-video.ts:65-78 | each kept frame passes the keep test against the frame kept just before it (the first against the starting baseline) |
| `ProcessVideo.RunSkips` | src/utils/process-video.ts:70-72 | every ordinal between two kept frames, or before the first, was read and failed the keep test against the last kept frame |
| `ProcessVideo.NoRepeatedFrame` | src/utils/process-video.ts:70-75 | two consecutive kept frames are never identical, unless they are empty |
| `ProcessVideo.RunStops` | src/utils/process-video.ts:79-84 | a failed read at ordinal k gives exactly what ordinals before k produced |
| `ProcessVideo.FirstFrameKept` | src/utils/process-video.ts:65-66 | something is kept exactly when there is an ordinal and frame 1 reads, and frame 1 is then kept first |
| `ProcessVideo.DifferentLengthKept` | src/utils/process-video.ts:68-78 | a frame of a different length than the baseline is kept whatever its content, and replaces the baseline |
| `ProcessVideo.CloseFrameSkipped` | src/utils/process-video.ts:70-72 | a same-length frame with RMS below 5 is dropped and the baseline stays |
| `ProcessVideo.IdenticalFrameSkipped` | src/utils/process-video.ts:70-72 | a frame identical to a non-empty baseline is dropped |
| `ProcessVideo.SlideChange` | src/utils/process-video.ts:53-85 | frames 1-3 identical and frame 4 different enough give exactly two kept frames, ordinals 1 and 4 |
| `ProcessVideo.ShortVideo` | src/utils/process-video.ts:53 | a duration below 10 seconds, including the 0 of a failed parse, reads no frame and gives only the initial page |
| `ProcessVideo.NoAbortNoPdf` | src/utils/process-video.ts:9-14 | without "Aborted()" in any message, nothing is produced |
| `ProcessVideo.PagesOfKeptFrames` | src/utils/process-video.ts:78-87 | without jsPDF failures the PDF is the initial page and then one full page per kept frame, in order |

## Left out

- I/O is not modelled. ffmpeg's `exec` and `readFile` are inputs: the log messages it emits, and the file system as a map from names to bytes. The console logging is not modelled.
- The listener lifecycle is not modelled. That covers `on('log')`/`off`, the promises and the interleaving of events. Only the sequence of messages matters to the model.
- src/utils/rgba-standardization.ts is not part of this model. `imageToRGBA` and the canvas are an abstract function `decode` that gives the RGBA bytes and an image, or fails.
- `loadImageFromBlob` is not modelled: it is browser image loading.
- Floating point is not modelled. `Math.sqrt` is kept symbolic in `Rms`, and the duration is an exact real, so `parseFloat` rounding is not modelled.
- jsPDF's internals and the `output('blob')` byte format are not modelled. The document is its list of pages with their formats, orientations and drawn images.
- The download link, `URL.createObjectURL`, `setTimeout` and the `.catch` of `convertToPdf` are not modelled: they are browser effects.
- The `ffmpeg.exec` extraction command (`fps=1/10`) is not modelled. Which files exist is an input.
- The React components and the HTTP proxy functions are not modelled: they hold no core logic.
- TimeToSeconds.ToNumber: unary `+` is interpreted only for white space around an optionally signed run of digits. Fractions, exponents, hexadecimal, octal and binary prefixes, and `Infinity` are treated like NaN.
- Metadata.LineDuration: the duration-line lemmas put exactly one space after "Duration:". Any amount of white space is handled by `MatchPrefix` itself.
- Metadata.StandardDuration: proved only when no "Duration:" of any kind comes before the line, and with one space after the label. A log with an earlier unreadable label ("Duration: N/A … Duration: 00:01:30.00") is covered in two steps: `SkippedLineDuration` reduces it to the later line, and `StandardDuration` with an empty prefix reads that line.
- Metadata.DurationAgreesWithTimeString: proved under the same restriction as `StandardDuration`, no earlier "Duration:" and one space after the label.
- Metadata.SkippedLineDuration: the text after the rejected label must start, after its one space, with a character that is neither white space nor a digit. Rejected times such as "Duration: 0:01:30" followed by a later line are not covered.
- ProcessVideo.ReadFrame: `decode` returning `None` stands for `imageToRGBA` rejecting, which would end the loop at that ordinal. The source's `imageToRGBA` never rejects: a failed decode or a missing canvas context (rgba-standardization.ts:4-19) leaves its promise pending, so `convertToPdf` waits forever at process-video.ts:62 and produces no PDF.
- ImagePdf.ImagesToOriginalSizePdf: whether a jsPDF call throws is a function `fault` of the image alone.
- ImagePdf.PdfDocument.AddPage: it has no precondition and does not model jsPDF rejecting a malformed format.
