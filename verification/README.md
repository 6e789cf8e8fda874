# Epoch clips, LED ROIs and clip labelling: a Dafny model

This project models the three small pieces of pure logic in a set of video
scripts from a mouse-behaviour neuroscience workflow:

* **Epoch-to-clip extraction** (`generate_epoch_clips.py`). The script reads
  each resting-state epoch's `"start-end"` frame field. It skips epochs that
  start past the reported frame count and clamps ends that lie past it. It
  copies frames from the recording into one clip per epoch and names each
  clip after the subject and the epoch's metadata index. Before any of
  this, it decides whether a subject already has clips.
* **LED region-of-interest carry-forward** (`identify_led_rois.py`). For
  each `.mp4`/`.avi` video whose first frame can be read, the user picks the
  LED rectangle. An empty pick keeps the previous rectangle. One table row
  is recorded per readable video.
* **Clip labelling** (`non_mov_classification.py`). Each clip is replayed
  until the user types a behaviour. The epoch number is read back from the
  clip's file name, and the labels are collected per epoch.

Modules:

| file | module | models |
|---|---|---|
| `wrappers.dfy` | `Wrappers` | `Option` (Python `None`) and `Result` (exceptions) |
| `text.dfy` | `Text` | `str.split`, `sep.join`, `sub in s`, `str.endswith`, `str(n)` |
| `seqs.dfy` | `Seqs` | filtering list comprehensions and the order they keep |
| `epoch_clips.dfy` | `EpochClips` | `generate_clips` and the "already generated" test |
| `led_rois.dfy` | `LedRois` | `draw_roi`, `select_new_roi`, `save_led_rois` |
| `clip_labels.dfy` | `ClipLabels` | `label_video`, `get_behaviour`, the subject clip filter |

How the outside world is modelled:

* **The video reader** is a sequence of frames plus a read position.
  Reading at position `k < |video|` yields `video[k]` and moves to `k + 1`.
  That new position is what `cap.get(CAP_PROP_POS_FRAMES)` then reports.
  A read at or past the end fails.
* **The reported frame count** is a separate integer, because OpenCV's
  count can differ from the real stream length.
* **The user** is a set of oracle sequences:
  * rectangles for `cv2.selectROI`;
  * key codes for `cv2.waitKey`, one per displayed frame;
  * answers for `askstring`, where `None` means Cancel.
* **Running out of oracle input.** `label_video` can loop for ever. When
  the key or answer oracle runs out first, the model reports `AwaitingInput`.

## What the verified model shows about the code

* **The end frame is exclusive.** The copy loop stops after writing the
  frame whose next-frame position equals the end. So the end frame itself
  is never written: epoch `a-b` inside the video gives a clip of `b - a`
  frames (`EpochClips.ClipOfInterval`).
* **Clamped clips omit the last frame.** A clamped end becomes
  `frameCount - 1`, so a clamped clip also stops before the last frame.
* **A 100-frame video with epochs `0-9` and `50-120` gives clips of 9 and
  49 frames** (`EpochClips.HundredFrameExample`).
* **An epoch whose end is not after its start runs to the end of the
  stream.** The stop test can never fire, so the clip holds every frame from
  the start onward. This also covers a clamped epoch that starts on the last
  frame: its clip holds exactly that frame.
* **Esc does not always return the empty string.** `label_video` returns
  the current `user_input`. After a cancelled prompt that value is `None`
  (`ClipLabels.EscAfterCancelReturnsNone`).
* **With the configured empty video folder, clip paths are relative.**
  `settings.py:19` sets the video folder to `""`, so the labeller opens
  `clips/<name>` (`ClipLabels.ClipPathInFolder`). The epoch number read
  from a generated name is the metadata index whatever the folder
  (`ClipLabels.EpochNumberOfClipName`).
* **The "already generated" test is a substring test.** A clip of subject
  39508 makes subject 395 look done
  (`EpochClips.AlreadyGeneratedMatchesOtherSubjects`).

## Model

| member | source | states |
|---|---|---|
| `Text.Split` | resting_state/non_mov_classification/non_mov_classification.py:58 | `s.split(sep)` for a one-character separator: at least one piece, and no piece contains the separator |
| `Text.JoinSplit` | resting_state/non_mov_classification/non_mov_classification.py:58 | joining the pieces of a split with the separator gives back the string |
| `Text.SplitJoin` | resting_state/non_mov_classification/non_mov_classification.py:58 | splitting a join of separator-free pieces gives back the pieces |
| `Text.Contains` | resting_state/non_mov_classification/non_mov_classification.py:78 | `sub in s` holds exactly when `sub` occurs in `s` at some position |
| `Text.NatToString` | resting_state/rest_epoch_classification/generate_epoch_clips.py:49 | `str(n)`: at least one decimal digit, with no leading zero unless `n` is 0 |
| `Text.DecimalValueOfNatToString` | resting_state/rest_epoch_classification/generate_epoch_clips.py:49 | reading back the digits of `str(n)` gives `n` |
| `Seqs.Filter` | resting_state/non_mov_classification/non_mov_classification.py:78 | `[x for x in xs if keep(x)]`: no longer than `xs`, keeps only elements of `xs` that pass, and keeps every element that passes |
| `Seqs.FilterAppend` | shared/video_ttl_extraction/identify_led_rois.py:64 | the comprehension distributes over concatenation and keeps a single element exactly when it passes, so it fixes the result element by element, duplicates included |
| `Seqs.FilterIsSubsequence` | shared/video_ttl_extraction/identify_led_rois.py:64 | the comprehension keeps the surviving elements in their original order |
| `EpochClips.ParseFrameNumber` | resting_state/rest_epoch_classification/generate_epoch_clips.py:37 | `int(np.floor(float(field)))` for a field of decimal digits with at most one point: the value of the digits before the point, or no number for any other text |
| `EpochClips.ParseFrameNumberAcceptsDecimalsOnly` | resting_state/rest_epoch_classification/generate_epoch_clips.py:37 | only non-empty text made of digits and at most one decimal point is accepted as a frame number |
| `EpochClips.ParseFrameNumberOfDigits` | resting_state/rest_epoch_classification/generate_epoch_clips.py:37 | a whole number written in digits parses to its decimal value |
| `EpochClips.ParseFrameNumberOfDecimal` | resting_state/rest_epoch_classification/generate_epoch_clips.py:37 | digits, a point and digits, with at least one digit in all, parse to the value of the digits before the point, so `".5"` floors to 0 and `"007.5"` to 7 |
| `EpochClips.ParseFrameNumberOfNat` | resting_state/rest_epoch_classification/generate_epoch_clips.py:37 | `int(floor(float(str(n))))` is `n` |
| `EpochClips.ParseFrameNumberFloors` | resting_state/rest_epoch_classification/generate_epoch_clips.py:37 | flooring `"n.frac"` gives the integer part `n`, whatever the fraction digits |
| `EpochClips.ParseInterval` | resting_state/rest_epoch_classification/generate_epoch_clips.py:20-37 | splits the field at every `-`, unpacks exactly two parts and parses the start part before the end part; an unpack failure carries the part count and a parse failure the first bad part |
| `EpochClips.ParseIntervalErrors` | resting_state/rest_epoch_classification/generate_epoch_clips.py:20-37 | a field parses exactly when it splits into two parts at `-` and both are numbers; it fails to unpack exactly when the part count is not two, a parse error names a part of the split that is not a number, and when the start part is not a number the error names the start part, as it is parsed first |
| `EpochClips.ParseIntervalFields` | resting_state/rest_epoch_classification/generate_epoch_clips.py:20-37 | a parsed interval comes from text of the form `startField-endField`, and its bounds are those fields' floors |
| `EpochClips.ParseIntervalRoundTrip` | resting_state/rest_epoch_classification/generate_epoch_clips.py:20-37 | the text `"a-b"` of two integers parses back to the interval `(a, b)` |
| `EpochClips.PlanClip` | resting_state/rest_epoch_classification/generate_epoch_clips.py:39-45 | skip exactly when the start is at or past the frame count; otherwise keep the start and clamp the end to `frameCount - 1` exactly when it is at or past the count, so the end stays below the count and never grows |
| `EpochClips.CopyFrom` | resting_state/rest_epoch_classification/generate_epoch_clips.py:53-62 | the loop writes consecutive source frames from the seek position in stream order; it writes at least one and at most `|video| - start` when the start is inside the stream, and none otherwise |
| `EpochClips.CopyFromClosedForm` | resting_state/rest_epoch_classification/generate_epoch_clips.py:53-62 | starting before `end`, the loop writes `video[start..min(end, |video|))`, so the end frame is excluded; starting at or after `end`, it writes `video[start..]` to the end of the stream |
| `EpochClips.ClipName` | resting_state/rest_epoch_classification/generate_epoch_clips.py:47-50 | the file name `<subject>_resting_cluster_epoch_<index>.mp4` |
| `EpochClips.ClipNameParts` | resting_state/rest_epoch_classification/generate_epoch_clips.py:49 | a clip name starts with the subject id, ends with `<index>.mp4`, and its last `_` separates the two |
| `EpochClips.ClipNameInjective` | resting_state/rest_epoch_classification/generate_epoch_clips.py:47-50 | one subject's clip names for two metadata indexes are equal only if the indexes are equal |
| `EpochClips.ProcessInterval` | resting_state/rest_epoch_classification/generate_epoch_clips.py:36-62 | one loop iteration: parse the field, then skip, or clamp and copy under the clip name |
| `EpochClips.ProcessIntervalOutcome` | resting_state/rest_epoch_classification/generate_epoch_clips.py:36-62 | an epoch fails exactly when its field does not parse, with that parse error; it is skipped exactly when its start is at or past the frame count; a written clip has the clip name, is clamped exactly when the end is at or past the count, and holds no more frames than the video |
| `EpochClips.ProcessFrom` | resting_state/rest_epoch_classification/generate_epoch_clips.py:36-65 | the loop handles epochs in order and each one independently of the others; it stops at the first epoch that fails to unpack or parse, and that epoch's error is the run's error |
| `EpochClips.SameFieldCount` | resting_state/rest_epoch_classification/generate_epoch_clips.py:20 | every split row has as many fields as the first, the condition under which `np.array` of the split rows builds a rectangular array |
| `EpochClips.GenerateClips` | resting_state/rest_epoch_classification/generate_epoch_clips.py:15-68 | split rows of unequal length fail before any clip; otherwise outcome `k` is epoch `k`'s own outcome, and every epoch has an outcome unless one failed, in which case the outcomes stop right before the failing epoch |
| `EpochClips.WrongFieldCountFailsFirst` | resting_state/rest_epoch_classification/generate_epoch_clips.py:20-36 | when every row has the same wrong number of fields, the first epoch fails to unpack before any clip is made |
| `EpochClips.ClipOfInterval` | resting_state/rest_epoch_classification/generate_epoch_clips.py:39-62 | when the count is the true length: a start past the end is skipped; `a < b < n` writes exactly `video[a..b)` (`b - a` frames); a clamped clip stops before the last frame, or holds just the last frame when it starts there; `b <= a` writes `video[a..]` |
| `EpochClips.HundredFrameExample` | resting_state/rest_epoch_classification/generate_epoch_clips.py:36-62 | 100 frames with epochs `0-9` and `50-120` give a 9-frame clip of frames 0-8 and a clamped 49-frame clip of frames 50-98 |
| `EpochClips.WrittenNamesDistinct` | resting_state/rest_epoch_classification/generate_epoch_clips.py:47-50 | two written clips whose epochs have different metadata indexes get different file names, whatever their loop positions |
| `EpochClips.AlreadyGenerated` | resting_state/rest_epoch_classification/generate_epoch_clips.py:87-88 | `any(str(subject_id) in file for file in all_clips)`: some listed name contains the subject id as a substring |
| `EpochClips.WrittenClipMarksSubject` | resting_state/rest_epoch_classification/generate_epoch_clips.py:87-90 | once any of a subject's clips is in the clip folder, the subject counts as already processed |
| `EpochClips.AlreadyGeneratedMatchesOtherSubjects` | resting_state/rest_epoch_classification/generate_epoch_clips.py:87-90 | the substring test is not exact: a clip of subject 39508 makes subject 395 count as processed |
| `LedRois.SelectNewRoi` | shared/video_ttl_extraction/identify_led_rois.py:46-51 | the previous ROI survives exactly when nothing was drawn (or the same rectangle was redrawn); otherwise the drawn rectangle is returned; the result is empty only if the previous ROI was |
| `LedRois.DrawRoi` | shared/video_ttl_extraction/identify_led_rois.py:21-22 | the drawn rectangle has corner `(x, y)` and spans `w` across and `h` down |
| `LedRois.DrawRoiRoundTrip` | shared/video_ttl_extraction/identify_led_rois.py:21-22 | the rectangle drawn for a ROI determines the ROI, and every rectangle is drawn for exactly one ROI |
| `LedRois.IsVideoName` | shared/video_ttl_extraction/identify_led_rois.py:64 | the name ends in `.mp4` or `.avi`, case-sensitive, as `str.endswith` with a tuple tests |
| `LedRois.VideoFiles` | shared/video_ttl_extraction/identify_led_rois.py:64 | only names ending in `.mp4` or `.avi` are kept, every such name is kept, and listing order is preserved |
| `LedRois.ReadableNames` | shared/video_ttl_extraction/identify_led_rois.py:72-76 | the names of the videos whose first frame is read, in order; a video whose read fails is skipped by the `continue` |
| `LedRois.SelectRois` | shared/video_ttl_extraction/identify_led_rois.py:68-90 | one row and one displayed rectangle per readable video, in order, each row named after its video; the final ROI is the last row's ROI, or the starting ROI when no video was readable |
| `LedRois.UnreadableVideoIgnored` | shared/video_ttl_extraction/identify_led_rois.py:72-76 | a video whose first frame cannot be read adds no row, uses no selection and does not change the ROI |
| `LedRois.RoiNeverForgotten` | shared/video_ttl_extraction/identify_led_rois.py:65-85 | after the loop a ROI is known exactly when one was known before or some video was readable |
| `LedRois.CarryForwardFrom` | shared/video_ttl_extraction/identify_led_rois.py:81-88 | from a known ROI, readable video `k` is shown the ROI in force before it and re-selects against that ROI with the `k`-th drawn rectangle |
| `LedRois.CarryForwardFromNone` | shared/video_ttl_extraction/identify_led_rois.py:78-88 | from no ROI, the first readable video shows the initial selection and keeps it unless the second rectangle is drawn; each later video re-selects against the previous row's ROI with the next rectangle |
| `LedRois.SaveLedRois` | shared/video_ttl_extraction/identify_led_rois.py:64-90 | the saved table has one row per readable video file, and every row names an `.mp4` or `.avi` file |
| `LedRois.KeptWhenNothingDrawn` | shared/video_ttl_extraction/identify_led_rois.py:78-88 | if every re-selection after the first video is empty, every row carries the first row's ROI |
| `ClipLabels.IsEsc` | resting_state/non_mov_classification/non_mov_classification.py:37 | `cv2.waitKey(25) & 0xFF == 27`: the key code's low byte is 27 |
| `ClipLabels.EscKeyCodes` | resting_state/non_mov_classification/non_mov_classification.py:37 | among byte-sized codes only 27 is Esc; -1 (no key pressed) is not Esc; only the low byte of a wider code matters |
| `ClipLabels.Provided` | resting_state/non_mov_classification/non_mov_classification.py:32 | Python truthiness of `user_input`: false for `None` and for the empty string, true for any other answer |
| `ClipLabels.Playback` | resting_state/non_mov_classification/non_mov_classification.py:28-42 | the loop from a given frame and `user_input`: stop once the input is a label, else show the next frame and stop on Esc, else rewind and prompt; an exhausted key or answer sequence leaves it waiting for input |
| `ClipLabels.LabelVideo` | resting_state/non_mov_classification/non_mov_classification.py:15-49 | `label_video`: `None` for a clip that does not open, otherwise the loop from frame 0 with `user_input = ''` |
| `ClipLabels.PlaybackShowsClipFrames` | resting_state/non_mov_classification/non_mov_classification.py:28-42 | only frames of the clip are ever shown, whatever keys and answers the user gives |
| `ClipLabels.PlaybackPromptsPerAnswer` | resting_state/non_mov_classification/non_mov_classification.py:39-42 | the user is prompted at most once per answer given |
| `ClipLabels.PlaybackReturnsGivenValue` | resting_state/non_mov_classification/non_mov_classification.py:26-42 | the value returned is the starting input or one of the answers the user gave |
| `ClipLabels.PlaybackUnlabelledOnlyOnEsc` | resting_state/non_mov_classification/non_mov_classification.py:26-42 | a value that is not a label (`None` or empty) is returned only right after a shown frame, that is, on Esc |
| `ClipLabels.UnopenedClip` | resting_state/non_mov_classification/non_mov_classification.py:16-20 | a clip that cannot be opened yields `None` with nothing shown and no prompt |
| `ClipLabels.PlayToEnd` | resting_state/non_mov_classification/non_mov_classification.py:28-42 | without a label or Esc, playback shows the remaining frames in order, then rewinds to frame 0 and prompts |
| `ClipLabels.LabelledAfterReplays` | resting_state/non_mov_classification/non_mov_classification.py:28-42 | after `m` empty or cancelled answers, the loop has played the whole clip and prompted `m + 1` times, and it returns the first non-empty answer |
| `ClipLabels.LabelVideoReturnsFirstLabel` | resting_state/non_mov_classification/non_mov_classification.py:26-49 | an opened clip returns the first non-empty answer, with one full replay from frame 0 before every prompt |
| `ClipLabels.EscStopsPlayback` | resting_state/non_mov_classification/non_mov_classification.py:35-38 | Esc on a shown frame ends the loop at once and returns the current input unchanged |
| `ClipLabels.EscOnFirstPlayback` | resting_state/non_mov_classification/non_mov_classification.py:26-38 | Esc during the first playback returns the empty string without prompting |
| `ClipLabels.EscAfterCancelReturnsNone` | resting_state/non_mov_classification/non_mov_classification.py:26-49 | Esc during the replay after a cancelled prompt returns `None` |
| `ClipLabels.JoinPath` | resting_state/non_mov_classification/non_mov_classification.py:57 | POSIX `os.path.join` of two parts: an absolute second part replaces the first, otherwise it is appended after a `/` unless the first part is empty or already ends in `/` |
| `ClipLabels.JoinPathParts` | resting_state/non_mov_classification/non_mov_classification.py:57 | POSIX `os.path.join(a, b)` ends with `b`, keeps `a` in front of a relative `b`, and is `b` itself when `a` is empty |
| `ClipLabels.ClipPath` | resting_state/non_mov_classification/non_mov_classification.py:57 | the clip's path as `os.path.join(video_folder, "clips", name)` builds it, joining left to right |
| `ClipLabels.ClipPathInFolder` | resting_state/non_mov_classification/non_mov_classification.py:57 | a listed clip name lands after `<video folder joined with clips>/`, and with the empty video folder the path is `clips/<name>` |
| `ClipLabels.EpochNumber` | resting_state/non_mov_classification/non_mov_classification.py:58 | `path.split("_")[-1].split(".")[0]` |
| `ClipLabels.EpochNumberLocation` | resting_state/non_mov_classification/non_mov_classification.py:58 | the epoch number is the text after the last `_` of the path, up to the first `.` after it |
| `ClipLabels.EpochNumberOfClipName` | resting_state/non_mov_classification/non_mov_classification.py:57-58 | reading a clip name made by the clip generator gives back `str(k)` of the metadata index `k`, whatever the folder |
| `ClipLabels.StoreKeys` | resting_state/non_mov_classification/non_mov_classification.py:56-61 | a dictionary filled by `d[keys[i]] = values[i]` in order has exactly the assigned keys |
| `ClipLabels.StoreLastWins` | resting_state/non_mov_classification/non_mov_classification.py:56-61 | in such a dictionary, an entry not overwritten by a later one with the same key keeps its value |
| `ClipLabels.GetBehaviour` | resting_state/non_mov_classification/non_mov_classification.py:52-64 | `get_behaviour`: each clip's label stored under its epoch number, in list order |
| `ClipLabels.GetBehaviourKeys` | resting_state/non_mov_classification/non_mov_classification.py:52-64 | the result's keys are exactly the clips' epoch numbers |
| `ClipLabels.GetBehaviourLastWins` | resting_state/non_mov_classification/non_mov_classification.py:56-64 | each epoch number maps to the label of the last clip with that number |
| `ClipLabels.SubjectClips` | resting_state/non_mov_classification/non_mov_classification.py:77-78 | the subject's clips are exactly the listed names containing `str(subject)`, in listing order |
| `ClipLabels.AlreadyGeneratedIffClipsFound` | resting_state/non_mov_classification/non_mov_classification.py:77-78 | over the same folder listing, the labeller finds clips for a subject exactly when the clip generator would treat that subject as already processed |
| `ClipLabels.BehaviourPerEpochIndex` | resting_state/non_mov_classification/non_mov_classification.py:56-61 | for generated clips with distinct metadata indexes, the label of each clip is stored under `str` of its index |

## Left out

- OpenCV internals: the codec, `fourcc`, fps and frame size, `release` and
  `destroyAllWindows`. Only the frame sequence and the read position are
  kept.
- `sys.exit` when the recording cannot be opened
  (generate_epoch_clips.py:30-31). `GenerateClips` models only a recording
  that did open.
- The console messages and the progress percentages
  (generate_epoch_clips.py:40, 44, 65, 99). The percentages use float
  division and rounding. A skipped epoch is the `Skipped` outcome: an error
  line, no writer, no progress line. A written epoch is `Written`: a new
  writer and a progress line.
- Excel and MNE loading, the cluster filter, the subject loop in the `main`
  functions, and the hard-coded subject list (non_mov_classification.py:73).
  These are library I/O and configuration. The per-subject inputs become
  parameters.
- Writing the ROI table with `to_excel` (identify_led_rois.py:92-93). The
  model returns the rows.
- The Tk windows, `imshow` and the 25 ms key wait. The user's rectangles,
  keys and answers are oracle inputs. `draw_roi`'s colour and thickness are
  also left out.
- `os.listdir` order. The listing is an input sequence of distinct names.
  `os.path.join` is modelled with POSIX rules only (`JoinPath`); Windows
  drive letters and backslashes are not.
- Which folder each script lists. The clip generator lists the `clips`
  folder under the video-analysis output path (generate_epoch_clips.py:87),
  and the labeller lists the one under the video folder
  (non_mov_classification.py:77). The model takes one listing as a
  parameter of each. `ClipLabels.AlreadyGeneratedIffClipsFound` relates the
  two only when both scripts read the same listing.
- `shared/helper_functions.py`, `settings.py` and `three_chamber/settings.py`:
  file dialogs and static configuration.
- EpochClips.ParseFrameNumber: this accepts only `digits[.digits]`
  (including `"5."` and `".5"`). Python's `float` also accepts a sign,
  surrounding spaces, exponents, underscores, `inf` and `nan`. It also
  rounds to binary, so integer parts of 2^53 or more, and fractions within
  about 10^-16 of the next integer, floor differently from the exact
  decimal floor used here.
- EpochClips.GenerateClips: the check for split rows of unequal length is
  numpy 1.24 behaviour, where `np.array` raises at line 20. Older numpy
  builds an object array, and the loop fails later, at the first bad row.
- EpochClips.GenerateClips: epoch fields are assumed to be strings.
  Subject ids and metadata indexes are assumed to be non-negative integers.
- LedRois.SelectRois: requires at least as many drawn rectangles as the
  loop asks for (`SelectionsNeeded`). The real dialog blocks until the user
  answers, so an exhausted oracle has no counterpart in the source.
