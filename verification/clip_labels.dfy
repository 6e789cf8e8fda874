/** non_mov_classification.py: replaying each clip of a subject until the
    user types a behaviour label, and collecting the labels per epoch.

    The user is an oracle: `keys` are the codes `cv2.waitKey` returns, one
    per displayed frame, and `answers` are the values `askstring` returns,
    one per prompt (`None` when the dialog is cancelled). */
module ClipLabels {
  import opened Wrappers
  import opened Text
  import opened Seqs
  import EpochClips

  // ---------------------------------------------------------------------
  // label_video (lines 15-49)
  // ---------------------------------------------------------------------

  /** `cv2.waitKey(25) & 0xFF == 27`; Python's `& 0xFF` on any int is the
      non-negative remainder modulo 256. */
  predicate IsEsc(key: int)
  {
    key % 256 == 27
  }

  /** Of the byte-sized key codes only 27 is Esc; -1, which `waitKey`
      returns when no key was pressed, is not; and only the low byte of a
      wider code matters. */
  lemma EscKeyCodes(key: int)
    ensures 0 <= key < 256 ==> (IsEsc(key) <==> key == 27)
    ensures !IsEsc(-1)
    ensures IsEsc(key) <==> IsEsc(key + 256)
  {
  }

  /** Python truthiness of `user_input`: `None` and `''` are false. */
  predicate Provided(input: Option<string>)
  {
    input.Some? && |input.value| > 0
  }

  /** What the user sees: a frame of the clip, or the behaviour prompt. */
  datatype Event = Show(frame: nat) | Prompt

  /** `Returned(v)`: the function returned `v`. `AwaitingInput`: the loop is
      still running when the given keys or answers run out. */
  datatype Outcome = Returned(value: Option<string>) | AwaitingInput

  datatype PlaybackSession = PlaybackSession(events: seq<Event>, outcome: Outcome)

  function PromptCount(events: seq<Event>): nat
  {
    if |events| == 0 then 0
    else (if events[0].Prompt? then 1 else 0) + PromptCount(events[1..])
  }

  /** The loop at lines 28-42 with the reader at frame `pos` of a clip of
      `frameCount` frames and `input` the current `user_input`. */
  function Playback(frameCount: nat, pos: nat, input: Option<string>, keys: seq<int>,
                    answers: seq<Option<string>>): PlaybackSession
    decreases |keys| + |answers|
  {
    if Provided(input) then PlaybackSession([], Returned(input))
    else if pos < frameCount then
      if |keys| == 0 then PlaybackSession([], AwaitingInput)
      else
        var rest := if IsEsc(keys[0]) then PlaybackSession([], Returned(input))
                    else Playback(frameCount, pos + 1, input, keys[1..], answers);
        PlaybackSession([Show(pos)] + rest.events, rest.outcome)
    else if |answers| == 0 then PlaybackSession([], AwaitingInput)
    else
      var rest := Playback(frameCount, 0, answers[0], keys, answers[1..]);
      PlaybackSession([Prompt] + rest.events, rest.outcome)
  }

  /** Every frame shown is a frame of a clip of `frameCount` frames. */
  predicate ShowsOnlyFramesBelow(events: seq<Event>, frameCount: nat)
  {
    forall i :: 0 <= i < |events| && events[i].Show? ==> events[i].frame < frameCount
  }

  /** Playback only ever shows frames of the clip. */
  lemma {:induction false} PlaybackShowsClipFrames(frameCount: nat, pos: nat, input: Option<string>,
                                                   keys: seq<int>, answers: seq<Option<string>>)
    ensures ShowsOnlyFramesBelow(Playback(frameCount, pos, input, keys, answers).events, frameCount)
    decreases |keys| + |answers|
  {
    var s := Playback(frameCount, pos, input, keys, answers);
    if !Provided(input) {
      if pos < frameCount {
        if |keys| > 0 && !IsEsc(keys[0]) {
          PlaybackShowsClipFrames(frameCount, pos + 1, input, keys[1..], answers);
          var rest := Playback(frameCount, pos + 1, input, keys[1..], answers);
          assert s.events == [Show(pos)] + rest.events;
          forall i | 0 <= i < |s.events| && s.events[i].Show?
            ensures s.events[i].frame < frameCount
          {
            if i > 0 {
              assert s.events[i] == rest.events[i - 1];
            }
          }
        }
      } else if |answers| > 0 {
        PlaybackShowsClipFrames(frameCount, 0, answers[0], keys, answers[1..]);
        var rest := Playback(frameCount, 0, answers[0], keys, answers[1..]);
        assert s.events == [Prompt] + rest.events;
        forall i | 0 <= i < |s.events| && s.events[i].Show?
          ensures s.events[i].frame < frameCount
        {
          assert s.events[i] == rest.events[i - 1];
        }
      }
    }
  }

  /** The user is prompted at most once per answer available. */
  lemma {:induction false} PlaybackPromptsPerAnswer(frameCount: nat, pos: nat, input: Option<string>,
                                                    keys: seq<int>, answers: seq<Option<string>>)
    ensures PromptCount(Playback(frameCount, pos, input, keys, answers).events) <= |answers|
    decreases |keys| + |answers|
  {
    var s := Playback(frameCount, pos, input, keys, answers);
    if !Provided(input) {
      if pos < frameCount {
        if |keys| > 0 && !IsEsc(keys[0]) {
          PlaybackPromptsPerAnswer(frameCount, pos + 1, input, keys[1..], answers);
          var rest := Playback(frameCount, pos + 1, input, keys[1..], answers);
          assert s.events == [Show(pos)] + rest.events;
          assert s.events[1..] == rest.events;
        }
      } else if |answers| > 0 {
        PlaybackPromptsPerAnswer(frameCount, 0, answers[0], keys, answers[1..]);
        var rest := Playback(frameCount, 0, answers[0], keys, answers[1..]);
        assert s.events == [Prompt] + rest.events;
        assert s.events[1..] == rest.events;
      }
    }
  }

  /** The value returned is the starting input or one of the answers. */
  lemma {:induction false} PlaybackReturnsGivenValue(frameCount: nat, pos: nat, input: Option<string>,
                                                     keys: seq<int>, answers: seq<Option<string>>)
    ensures var s := Playback(frameCount, pos, input, keys, answers);
      s.outcome.Returned? ==> s.outcome.value == input || s.outcome.value in answers
    decreases |keys| + |answers|
  {
    if !Provided(input) {
      if pos < frameCount {
        if |keys| > 0 && !IsEsc(keys[0]) {
          PlaybackReturnsGivenValue(frameCount, pos + 1, input, keys[1..], answers);
        }
      } else if |answers| > 0 {
        PlaybackReturnsGivenValue(frameCount, 0, answers[0], keys, answers[1..]);
        assert answers == [answers[0]] + answers[1..];
      }
    }
  }

  /** A value that is not a label (`None` or the empty string) is only
      returned right after a shown frame, that is, on Esc. */
  lemma {:induction false} PlaybackUnlabelledOnlyOnEsc(frameCount: nat, pos: nat, input: Option<string>,
                                                       keys: seq<int>, answers: seq<Option<string>>)
    ensures var s := Playback(frameCount, pos, input, keys, answers);
      s.outcome.Returned? && !Provided(s.outcome.value) ==>
        |s.events| > 0 && s.events[|s.events| - 1].Show?
    decreases |keys| + |answers|
  {
    var s := Playback(frameCount, pos, input, keys, answers);
    if !Provided(input) {
      if pos < frameCount {
        if |keys| > 0 && !IsEsc(keys[0]) {
          PlaybackUnlabelledOnlyOnEsc(frameCount, pos + 1, input, keys[1..], answers);
          var rest := Playback(frameCount, pos + 1, input, keys[1..], answers);
          assert s.events == [Show(pos)] + rest.events;
        }
      } else if |answers| > 0 {
        PlaybackUnlabelledOnlyOnEsc(frameCount, 0, answers[0], keys, answers[1..]);
        var rest := Playback(frameCount, 0, answers[0], keys, answers[1..]);
        assert s.events == [Prompt] + rest.events;
      }
    }
  }

  /** `label_video`: `isOpen` is `cap.isOpened()` and `frameCount` the
      number of frames the clip yields. */
  function LabelVideo(isOpen: bool, frameCount: nat, keys: seq<int>, answers: seq<Option<string>>): PlaybackSession
  {
    if !isOpen then PlaybackSession([], Returned(None))
    else Playback(frameCount, 0, Some(""), keys, answers)
  }

  /** A clip that cannot be opened yields `None`, shows nothing and asks nothing. */
  lemma UnopenedClip(frameCount: nat, keys: seq<int>, answers: seq<Option<string>>)
    ensures LabelVideo(false, frameCount, keys, answers) == PlaybackSession([], Returned(None))
  {
  }

  /** Frames `first`, ..., `last - 1` shown in order. */
  function Frames(first: nat, last: nat): (events: seq<Event>)
    ensures first <= last ==> |events| == last - first
    ensures forall i :: 0 <= i < |events| ==> events[i] == Show(first + i)
    decreases last - first
  {
    if first >= last then [] else [Show(first)] + Frames(first + 1, last)
  }

  /** `block` repeated `times` times. */
  function Repeat(block: seq<Event>, times: nat): seq<Event>
  {
    if times == 0 then [] else block + Repeat(block, times - 1)
  }

  /** No key among the first `count` is Esc. */
  predicate NoEscBefore(keys: seq<int>, count: nat)
  {
    count <= |keys| && forall i :: 0 <= i < count ==> !IsEsc(keys[i])
  }

  /** Dropping the first `d` keys keeps the rest of an Esc-free prefix Esc-free. */
  lemma NoEscDrop(keys: seq<int>, count: nat, d: nat)
    requires NoEscBefore(keys, count) && d <= count
    ensures NoEscBefore(keys[d..], count - d)
  {
    forall i | 0 <= i < count - d
      ensures !IsEsc(keys[d..][i])
    {
      assert keys[d..][i] == keys[i + d];
    }
  }

  /** A frame shown without Esc continues the playback at the next frame. */
  lemma ShowStep(frameCount: nat, pos: nat, input: Option<string>, keys: seq<int>, answers: seq<Option<string>>)
    requires !Provided(input) && pos < frameCount && |keys| > 0 && !IsEsc(keys[0])
    ensures var next := Playback(frameCount, pos + 1, input, keys[1..], answers);
      Playback(frameCount, pos, input, keys, answers) == PlaybackSession([Show(pos)] + next.events, next.outcome)
  {
  }

  /** Without a label and without Esc, playback from `pos` shows the rest
      of the clip, then rewinds and prompts. */
  lemma {:induction false} PlayToEnd(frameCount: nat, pos: nat, input: Option<string>, keys: seq<int>,
                                     answers: seq<Option<string>>)
    requires !Provided(input) && pos <= frameCount && |answers| > 0
    requires NoEscBefore(keys, frameCount - pos)
    ensures Playback(frameCount, pos, input, keys, answers)
      == var rest := Playback(frameCount, 0, answers[0], keys[frameCount - pos..], answers[1..]);
         PlaybackSession(Frames(pos, frameCount) + [Prompt] + rest.events, rest.outcome)
    decreases frameCount - pos
  {
    var rest := Playback(frameCount, 0, answers[0], keys[frameCount - pos..], answers[1..]);
    if pos < frameCount {
      ShowStep(frameCount, pos, input, keys, answers);
      NoEscDrop(keys, frameCount - pos, 1);
      PlayToEnd(frameCount, pos + 1, input, keys[1..], answers);
      assert keys[1..][frameCount - (pos + 1)..] == keys[frameCount - pos..];
      assert Frames(pos, frameCount) == [Show(pos)] + Frames(pos + 1, frameCount);
    } else {
      assert keys[0..] == keys;
      assert Frames(pos, frameCount) == [];
    }
  }

  /** Each empty or cancelled answer replays the whole clip from frame 0
      before the next prompt; the first non-empty answer is returned. */
  lemma {:induction false} LabelledAfterReplays(frameCount: nat, input: Option<string>, keys: seq<int>,
                                                refused: seq<Option<string>>, answer: string,
                                                later: seq<Option<string>>)
    requires !Provided(input) && |answer| > 0
    requires forall i :: 0 <= i < |refused| ==> !Provided(refused[i])
    requires NoEscBefore(keys, (|refused| + 1) * frameCount)
    ensures Playback(frameCount, 0, input, keys, refused + [Some(answer)] + later)
      == PlaybackSession(Repeat(Frames(0, frameCount) + [Prompt], |refused| + 1), Returned(Some(answer)))
    decreases |refused|
  {
    var answers := refused + [Some(answer)] + later;
    var total := (|refused| + 1) * frameCount;
    assert total == |refused| * frameCount + frameCount;
    assert NoEscBefore(keys, frameCount);
    PlayToEnd(frameCount, 0, input, keys, answers);
    if |refused| == 0 {
      assert answers[0] == Some(answer);
    } else {
      assert answers[0] == refused[0];
      assert answers[1..] == refused[1..] + [Some(answer)] + later;
      NoEscDrop(keys, total, frameCount);
      LabelledAfterReplays(frameCount, refused[0], keys[frameCount..], refused[1..], answer, later);
    }
  }

  /** `label_video` on an opened clip returns the first non-empty answer,
      after one full playback before every prompt. */
  lemma LabelVideoReturnsFirstLabel(frameCount: nat, keys: seq<int>, refused: seq<Option<string>>,
                                    answer: string, later: seq<Option<string>>)
    requires |answer| > 0
    requires forall i :: 0 <= i < |refused| ==> !Provided(refused[i])
    requires NoEscBefore(keys, (|refused| + 1) * frameCount)
    ensures LabelVideo(true, frameCount, keys, refused + [Some(answer)] + later)
      == PlaybackSession(Repeat(Frames(0, frameCount) + [Prompt], |refused| + 1), Returned(Some(answer)))
  {
    LabelledAfterReplays(frameCount, Some(""), keys, refused, answer, later);
  }

  /** Esc on frame `j` of a playback ends the loop at once, returning the
      current `user_input` unchanged. */
  lemma {:induction false} EscStopsPlayback(frameCount: nat, pos: nat, input: Option<string>, keys: seq<int>,
                                            answers: seq<Option<string>>, j: nat)
    requires !Provided(input) && pos + j < frameCount
    requires NoEscBefore(keys, j) && j < |keys| && IsEsc(keys[j])
    ensures Playback(frameCount, pos, input, keys, answers) == PlaybackSession(Frames(pos, pos + j + 1), Returned(input))
    decreases j
  {
    assert Frames(pos, pos + j + 1) == [Show(pos)] + Frames(pos + 1, pos + j + 1);
    if j == 0 {
      assert Frames(pos + 1, pos + 1) == [];
    } else {
      assert !IsEsc(keys[0]);
      assert NoEscBefore(keys[1..], j - 1) by {
        forall i | 0 <= i < j - 1
          ensures !IsEsc(keys[1..][i])
        {
          assert keys[1..][i] == keys[i + 1];
        }
      }
      EscStopsPlayback(frameCount, pos + 1, input, keys[1..], answers, j - 1);
    }
  }

  /** Esc during the first playback returns the empty string without any prompt. */
  lemma EscOnFirstPlayback(frameCount: nat, keys: seq<int>, answers: seq<Option<string>>, j: nat)
    requires j < frameCount && NoEscBefore(keys, j) && j < |keys| && IsEsc(keys[j])
    ensures LabelVideo(true, frameCount, keys, answers) == PlaybackSession(Frames(0, j + 1), Returned(Some("")))
  {
    EscStopsPlayback(frameCount, 0, Some(""), keys, answers, j);
  }

  /** Esc after a cancelled prompt returns `None`, not the empty string:
      a one-frame clip, no key, Cancel, then Esc on the replay. */
  lemma EscAfterCancelReturnsNone()
    ensures LabelVideo(true, 1, [-1, 27], [None]) == PlaybackSession([Show(0), Prompt, Show(0)], Returned(None))
  {
    assert !IsEsc(-1);
    assert [-1, 27][1..] == [27];
  }

  // ---------------------------------------------------------------------
  // get_behaviour (lines 52-64) and the subject filter in main (line 78)
  // ---------------------------------------------------------------------

  /** POSIX `os.path.join(a, b)`: an absolute `b` replaces `a`; otherwise
      `b` is appended, after a `/` unless `a` is empty or already ends in `/`. */
  function JoinPath(a: string, b: string): string
  {
    if |b| > 0 && b[0] == '/' then b
    else if |a| == 0 || a[|a| - 1] == '/' then a + b
    else a + "/" + b
  }

  /** The joined path ends with `b`; a relative `b` keeps `a` in front,
      and joining onto the empty path gives `b` itself. */
  lemma JoinPathParts(a: string, b: string)
    ensures EndsWith(JoinPath(a, b), b)
    ensures |b| == 0 || b[0] != '/' ==> StartsWith(JoinPath(a, b), a)
    ensures |a| == 0 ==> JoinPath(a, b) == b
  {
    assert (a + b)[..|a|] == a && (a + b)[|a + b| - |b|..] == b;
    assert (a + "/" + b)[..|a|] == a && (a + "/" + b)[|a + "/" + b| - |b|..] == b;
  }

  /** `os.path.join(paths['video_folder'], 'clips', clip_filename)`. */
  function ClipPath(videoFolder: string, clip: string): string
  {
    JoinPath(JoinPath(videoFolder, "clips"), clip)
  }

  /** A listed clip name (never empty, never starting with `/`) lands in the
      `clips` folder; with the empty video folder the path is relative,
      `clips/<name>`. */
  lemma ClipPathInFolder(videoFolder: string, clip: string)
    requires |clip| > 0 && clip[0] != '/'
    ensures ClipPath(videoFolder, clip) == JoinPath(videoFolder, "clips") + "/" + clip
    ensures EndsWith(JoinPath(videoFolder, "clips"), "clips")
    ensures ClipPath("", clip) == "clips/" + clip
  {
    var dir := JoinPath(videoFolder, "clips");
    if |videoFolder| == 0 || videoFolder[|videoFolder| - 1] == '/' {
      assert dir == videoFolder + "clips";
    } else {
      assert dir == videoFolder + "/" + "clips";
    }
    assert dir[|dir| - 5..] == "clips";
    assert JoinPath("", "clips") == "clips";
  }

  /** `path.split("_")[-1].split(".")[0]`. */
  function EpochNumber(path: string): string
  {
    FirstPart(LastPart(path, '_'), '.')
  }

  /** The epoch number is the text after the last `_` of the path, up to
      the first `.` after it. */
  lemma EpochNumberLocation(path: string)
    ensures exists before, after ::
      && path == before + EpochNumber(path) + after
      && (|before| == 0 || before[|before| - 1] == '_')
      && '_' !in EpochNumber(path) && '_' !in after
      && '.' !in EpochNumber(path)
      && (|after| == 0 || after[0] == '.')
  {
    var tail := LastPart(path, '_');
    var epoch := EpochNumber(path);
    LastPartIsTail(path, '_');
    FirstPartIsHead(tail, '.');
    var before :| path == before + tail && (|before| == 0 || before[|before| - 1] == '_');
    var after :| tail == epoch + after && (|after| == 0 || after[0] == '.');
    assert after == tail[|epoch|..];
    assert '_' !in epoch && '_' !in after by {
      forall c | c in epoch + after
        ensures c in tail
      {
      }
    }
    assert path == before + epoch + after;
  }

  /** The epoch number read back from a clip named by generate_epoch_clips.py
      is the metadata index it was named after, whatever the folder. */
  lemma EpochNumberOfClipName(videoFolder: string, subject: nat, epochIndex: nat)
    ensures EpochNumber(ClipPath(videoFolder, EpochClips.ClipName(subject, epochIndex))) == NatToString(epochIndex)
  {
    var digits := NatToString(epochIndex);
    var tail := digits + ".mp4";
    var name := EpochClips.ClipName(subject, epochIndex);
    var stem := NatToString(subject) + "_resting_cluster_epoch";
    var dir := JoinPath(videoFolder, "clips") + "/";
    EpochClips.ClipNameParts(subject, epochIndex);
    ClipPathInFolder(videoFolder, name);
    var head := dir + stem;
    assert ClipPath(videoFolder, name) == dir + (stem + ['_'] + tail);
    assert dir + (stem + ['_'] + tail) == head + ['_'] + tail;
    assert forall i :: 0 <= i < |digits| ==> digits[i] != '_' && digits[i] != '.';
    assert '_' !in tail;
    LastPartAfterSep(head, tail, '_');
    assert tail == digits + ['.'] + "mp4";
    FirstPartBeforeSep(digits, "mp4", '.');
  }

  /** Epoch number of the `i`-th clip's path. */
  function EpochAt(videoFolder: string, clips: seq<string>, i: nat): string
    requires i < |clips|
  {
    EpochNumber(ClipPath(videoFolder, clips[i]))
  }

  /** No later clip shares clip `i`'s epoch number. */
  predicate LastWithEpoch(videoFolder: string, clips: seq<string>, i: nat)
    requires i < |clips|
  {
    forall j :: i < j < |clips| ==> EpochAt(videoFolder, clips, j) != EpochAt(videoFolder, clips, i)
  }

  /** The dictionary a loop fills with `d[keys[i]] = values[i]`, in order:
      a later entry with the same key overwrites an earlier one. */
  function Store<K(==), V>(keys: seq<K>, values: seq<V>): map<K, V>
    requires |keys| == |values|
    decreases |keys|
  {
    if |keys| == 0 then map[]
    else
      var n := |keys| - 1;
      Store(keys[..n], values[..n])[keys[n] := values[n]]
  }

  /** The filled dictionary's keys are exactly the keys assigned. */
  lemma {:induction false} StoreKeys<K, V>(keys: seq<K>, values: seq<V>)
    requires |keys| == |values|
    ensures forall i :: 0 <= i < |keys| ==> keys[i] in Store(keys, values)
    ensures forall key :: key in Store(keys, values) ==> exists i :: 0 <= i < |keys| && keys[i] == key
    decreases |keys|
  {
    if |keys| > 0 {
      var n := |keys| - 1;
      StoreKeys(keys[..n], values[..n]);
      assert forall i :: 0 <= i < n ==> keys[..n][i] == keys[i];
    }
  }

  /** An entry not overwritten by a later one with the same key survives. */
  lemma {:induction false} StoreLastWins<K, V>(keys: seq<K>, values: seq<V>, i: nat)
    requires |keys| == |values| && i < |keys|
    requires forall j :: i < j < |keys| ==> keys[j] != keys[i]
    ensures keys[i] in Store(keys, values) && Store(keys, values)[keys[i]] == values[i]
    decreases |keys|
  {
    var n := |keys| - 1;
    if i < n {
      assert keys[..n][i] == keys[i];
      forall j | i < j < n
        ensures keys[..n][j] != keys[..n][i]
      {
        assert keys[..n][j] == keys[j];
      }
      StoreLastWins(keys[..n], values[..n], i);
      assert values[..n][i] == values[i];
    }
  }

  /** The epoch number of every clip, in list order. */
  function EpochNumbers(videoFolder: string, clips: seq<string>): (epochs: seq<string>)
    ensures |epochs| == |clips|
    ensures forall i :: 0 <= i < |clips| ==> epochs[i] == EpochAt(videoFolder, clips, i)
  {
    seq(|clips|, i requires 0 <= i < |clips| => EpochAt(videoFolder, clips, i))
  }

  /** `get_behaviour`: `labels[i]` is what `label_video` returned for
      `clips[i]`; each clip's label is stored under its epoch number, in
      list order. */
  function GetBehaviour(videoFolder: string, clips: seq<string>, labels: seq<Option<string>>)
    : map<string, Option<string>>
    requires |labels| == |clips|
  {
    Store(EpochNumbers(videoFolder, clips), labels)
  }

  /** The dictionary's keys are exactly the clips' epoch numbers. */
  lemma GetBehaviourKeys(videoFolder: string, clips: seq<string>, labels: seq<Option<string>>)
    requires |labels| == |clips|
    ensures forall i :: 0 <= i < |clips| ==> EpochAt(videoFolder, clips, i) in GetBehaviour(videoFolder, clips, labels)
    ensures forall key :: key in GetBehaviour(videoFolder, clips, labels) ==>
      exists i :: 0 <= i < |clips| && EpochAt(videoFolder, clips, i) == key
  {
    StoreKeys(EpochNumbers(videoFolder, clips), labels);
  }

  /** A clip's label is kept unless a later clip has the same epoch number:
      the last clip with a given epoch number wins. */
  lemma GetBehaviourLastWins(videoFolder: string, clips: seq<string>, labels: seq<Option<string>>, i: nat)
    requires |labels| == |clips| && i < |clips|
    requires LastWithEpoch(videoFolder, clips, i)
    ensures var behaviours := GetBehaviour(videoFolder, clips, labels);
      EpochAt(videoFolder, clips, i) in behaviours && behaviours[EpochAt(videoFolder, clips, i)] == labels[i]
  {
    StoreLastWins(EpochNumbers(videoFolder, clips), labels, i);
  }

  /** `[clip for clip in clips if str(subject_id) in clip]`. */
  function SubjectClips(clips: seq<string>, subject: nat): (mine: seq<string>)
    ensures IsSubsequence(mine, clips)
    ensures forall i :: 0 <= i < |mine| ==> Contains(mine[i], NatToString(subject))
    ensures forall i :: 0 <= i < |clips| && Contains(clips[i], NatToString(subject)) ==> clips[i] in mine
  {
    var keep := (clip: string) => Contains(clip, NatToString(subject));
    FilterIsSubsequence(keep, clips);
    Filter(keep, clips)
  }

  /** Over one and the same folder listing, the clip generator's "already
      generated" test holds for a subject exactly when the labeller's filter
      finds clips for it. The two scripts list the `clips` folders of two
      configured paths, so the agreement needs those to be the same folder. */
  lemma AlreadyGeneratedIffClipsFound(clips: seq<string>, subject: nat)
    ensures EpochClips.AlreadyGenerated(clips, subject) <==> |SubjectClips(clips, subject)| > 0
  {
    var mine := SubjectClips(clips, subject);
    if EpochClips.AlreadyGenerated(clips, subject) {
      var i :| 0 <= i < |clips| && Contains(clips[i], NatToString(subject));
      assert clips[i] in mine;
    }
    if |mine| > 0 {
      assert Contains(mine[0], NatToString(subject));
      assert mine[0] in clips;
    }
  }

  /** Labelling a subject's generated clips records each clip's label under
      the clip's metadata index when the indexes are distinct. */
  lemma BehaviourPerEpochIndex(videoFolder: string, subject: nat, clips: seq<string>, epochIndexes: seq<nat>,
                               labels: seq<Option<string>>, i: nat)
    requires |clips| == |labels| == |epochIndexes| && i < |clips|
    requires forall k :: 0 <= k < |clips| ==> clips[k] == EpochClips.ClipName(subject, epochIndexes[k])
    requires forall a, b :: 0 <= a < b < |epochIndexes| ==> epochIndexes[a] != epochIndexes[b]
    ensures var behaviours := GetBehaviour(videoFolder, clips, labels);
      NatToString(epochIndexes[i]) in behaviours && behaviours[NatToString(epochIndexes[i])] == labels[i]
  {
    forall j | i < j < |clips|
      ensures EpochAt(videoFolder, clips, j) != EpochAt(videoFolder, clips, i)
    {
      EpochNumberOfClipName(videoFolder, subject, epochIndexes[i]);
      EpochNumberOfClipName(videoFolder, subject, epochIndexes[j]);
      if NatToString(epochIndexes[j]) == NatToString(epochIndexes[i]) {
        NatToStringInjective(epochIndexes[j], epochIndexes[i]);
      }
    }
    EpochNumberOfClipName(videoFolder, subject, epochIndexes[i]);
    GetBehaviourLastWins(videoFolder, clips, labels, i);
  }
}
