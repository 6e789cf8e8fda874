/** generate_epoch_clips.py: cutting one clip per resting-state epoch out of
    a subject's recording.

    The video reader is a sequence of frames plus a read position. Seeking
    sets the position; a read at position `k < |video|` yields `video[k]` and
    moves the position to `k + 1`, which is the value the reader then reports
    as its current position; a read at or past the end fails. */
module EpochClips {
  import opened Wrappers
  import opened Text

  // ---------------------------------------------------------------------
  // Parsing the "start-end" epoch fields (lines 19-20 and 37)
  // ---------------------------------------------------------------------

  /** `int(np.floor(float(field)))` for a field written as decimal digits
      with an optional fractional part: `"12"`, `"12.75"`, `"12."`, `".5"`.
      Any other text is refused, as `float` refuses it. */
  function ParseFrameNumber(field: string): (frame: Option<nat>)
  {
    var parts := Split(field, '.');
    if |parts| == 1 && |parts[0]| > 0 && AllDigits(parts[0]) then
      Some(DecimalValue(parts[0]))
    else if |parts| == 2 && |parts[0]| + |parts[1]| > 0
            && AllDigits(parts[0]) && AllDigits(parts[1]) then
      Some(DecimalValue(parts[0]))
    else
      None
  }

  /** Only non-empty text made of digits and at most one point parses. */
  lemma ParseFrameNumberAcceptsDecimalsOnly(field: string)
    ensures ParseFrameNumber(field).Some? ==>
      && |field| > 0
      && (forall i :: 0 <= i < |field| ==> IsDigit(field[i]) || field[i] == '.')
      && (forall i, j :: 0 <= i < j < |field| && field[i] == '.' ==> field[j] != '.')
  {
    var parts := Split(field, '.');
    JoinSplit(field, '.');
    if ParseFrameNumber(field).Some? && |parts| == 2 {
      JoinCons(parts[0], parts[1..], '.');
      assert parts == [parts[0]] + parts[1..];
      var p0, p1 := parts[0], parts[1];
      assert field == p0 + ['.'] + p1;
      forall i | 0 <= i < |field|
        ensures IsDigit(field[i]) || field[i] == '.'
        ensures field[i] == '.' ==> i == |p0|
      {
        if i < |p0| {
          assert field[i] == p0[i];
        } else if i > |p0| {
          assert field[i] == p1[i - |p0| - 1];
        }
      }
    }
  }

  /** A whole number written in digits parses to its value. */
  lemma ParseFrameNumberOfDigits(field: string)
    requires |field| > 0 && AllDigits(field)
    ensures ParseFrameNumber(field) == Some(DecimalValue(field))
  {
    SplitDigits(field, '.');
  }

  /** `str(n)` parses back to `n`. */
  lemma ParseFrameNumberOfNat(n: nat)
    ensures ParseFrameNumber(NatToString(n)) == Some(n)
  {
    var s := NatToString(n);
    assert forall i :: 0 <= i < |s| ==> s[i] != '.';
    SplitWithoutSep(s, '.');
    DecimalValueOfNatToString(n);
  }

  /** Flooring a non-negative decimal keeps its integer part: `"n.frac"` parses to `n`. */
  lemma ParseFrameNumberFloors(n: nat, frac: string)
    requires AllDigits(frac)
    ensures ParseFrameNumber(NatToString(n) + "." + frac) == Some(n)
  {
    var s := NatToString(n);
    assert forall i :: 0 <= i < |s| ==> s[i] != '.';
    assert forall i :: 0 <= i < |frac| ==> frac[i] != '.';
    SplitAppend(s, frac, '.');
    SplitWithoutSep(s, '.');
    SplitWithoutSep(frac, '.');
    assert s + "." + frac == s + ['.'] + frac;
    DecimalValueOfNatToString(n);
  }

  /** Every decimal with a point and a digit on either side of it parses,
      and floors to its integer part: `".5"` gives 0, `"007.5"` gives 7. */
  lemma ParseFrameNumberOfDecimal(ip: string, fp: string)
    requires AllDigits(ip) && AllDigits(fp) && |ip| + |fp| > 0
    ensures ParseFrameNumber(ip + "." + fp) == Some(DecimalValue(ip))
  {
    assert forall i :: 0 <= i < |ip| ==> ip[i] != '.';
    assert forall i :: 0 <= i < |fp| ==> fp[i] != '.';
    assert ip + "." + fp == ip + ['.'] + fp;
    SplitAppend(ip, fp, '.');
    SplitWithoutSep(ip, '.');
    SplitWithoutSep(fp, '.');
  }

  /** One epoch's frame interval as written in the metadata. */
  datatype Interval = Interval(start: nat, end: nat)

  /** Why an epoch field could not be turned into an interval: unpacking
      the split needs exactly two fields, and each must parse as a number. */
  datatype ParseError = WrongFieldCount(count: nat) | NotANumber(field: string)

  /** `start_end.split('-')` unpacked into two fields, each parsed by
      `ParseFrameNumber`; the start field is parsed first. */
  function ParseInterval(text: string): (r: Result<Interval, ParseError>)
  {
    var fields := Split(text, '-');
    if |fields| != 2 then Failure(WrongFieldCount(|fields|))
    else
      match (ParseFrameNumber(fields[0]), ParseFrameNumber(fields[1]))
      case (Some(s), Some(e)) => Success(Interval(s, e))
      case (None, _) => Failure(NotANumber(fields[0]))
      case (Some(_), None) => Failure(NotANumber(fields[1]))
  }

  /** A field text fails exactly when it does not split into two parts at
      `-` or one of the two parts is not a number, and the error names the
      field count or the first part that is not a number. */
  lemma ParseIntervalErrors(text: string)
    ensures var fields := Split(text, '-');
      && (ParseInterval(text).Success? <==>
            |fields| == 2 && ParseFrameNumber(fields[0]).Some? && ParseFrameNumber(fields[1]).Some?)
      && (ParseInterval(text).Failure? && ParseInterval(text).error.WrongFieldCount? <==> |fields| != 2)
      && (ParseInterval(text).Failure? && ParseInterval(text).error.WrongFieldCount? ==>
            ParseInterval(text).error.count == |fields|)
      && (ParseInterval(text).Failure? && ParseInterval(text).error.NotANumber? ==>
            && ParseInterval(text).error.field in fields
            && ParseFrameNumber(ParseInterval(text).error.field).None?)
      && (|fields| == 2 && ParseFrameNumber(fields[0]).None? ==>
            ParseInterval(text) == Failure(NotANumber(fields[0])))
  {
  }

  /** An interval's parsed bounds are the floors of the two fields around the one dash. */
  lemma ParseIntervalFields(text: string)
    ensures ParseInterval(text).Success? ==>
      exists startField, endField ::
        && text == startField + "-" + endField
        && ParseFrameNumber(startField) == Some(ParseInterval(text).value.start)
        && ParseFrameNumber(endField) == Some(ParseInterval(text).value.end)
  {
    var fields := Split(text, '-');
    if ParseInterval(text).Success? {
      JoinSplit(text, '-');
      JoinCons(fields[0], fields[1..], '-');
      assert fields == [fields[0]] + fields[1..];
      assert text == fields[0] + "-" + fields[1];
    }
  }

  /** The text `"start-end"` of two integers parses to exactly that interval. */
  lemma ParseIntervalRoundTrip(start: nat, end: nat)
    ensures ParseInterval(NatToString(start) + "-" + NatToString(end)) == Success(Interval(start, end))
  {
    var s, e := NatToString(start), NatToString(end);
    assert forall i :: 0 <= i < |s| ==> s[i] != '-';
    assert forall i :: 0 <= i < |e| ==> e[i] != '-';
    SplitAppend(s, e, '-');
    SplitWithoutSep(s, '-');
    SplitWithoutSep(e, '-');
    assert s + "-" + e == s + ['-'] + e;
    ParseFrameNumberOfNat(start);
    ParseFrameNumberOfNat(end);
  }

  // ---------------------------------------------------------------------
  // Skip / clamp decision (lines 39-45)
  // ---------------------------------------------------------------------

  /** What the loop does with one parsed interval. */
  datatype Plan = SkipClip | CopyRange(start: nat, end: nat, clamped: bool)

  /** Skips an interval starting at or past the reported frame count;
      otherwise clamps an end at or past it to the last frame index. */
  function PlanClip(iv: Interval, frameCount: int): (plan: Plan)
    ensures plan.SkipClip? <==> iv.start >= frameCount
    ensures plan.CopyRange? ==>
      && plan.start == iv.start
      && plan.end < frameCount
      && plan.end <= iv.end
      && (plan.clamped <==> iv.end >= frameCount)
      && (plan.end == iv.end || plan.end == frameCount - 1)
  {
    if iv.start >= frameCount then SkipClip
    else if iv.end >= frameCount then CopyRange(iv.start, frameCount - 1, true)
    else CopyRange(iv.start, iv.end, false)
  }

  // ---------------------------------------------------------------------
  // The frame-copy loop (lines 53-62)
  // ---------------------------------------------------------------------

  function Min(a: int, b: int): int
  {
    if a <= b then a else b
  }

  /** After seeking to `pos`: read a frame, write it, and stop once the
      reported next-frame position equals `end`, or when a read fails.
      The frames written are consecutive source frames starting at `pos`. */
  function CopyFrom<F>(video: seq<F>, pos: nat, end: nat): (written: seq<F>)
    ensures pos >= |video| ==> written == []
    ensures pos < |video| ==> 0 < |written| <= |video| - pos
    ensures forall i :: 0 <= i < |written| ==> pos + i < |video| && written[i] == video[pos + i]
    decreases |video| - pos
  {
    if pos >= |video| then []
    else if pos + 1 == end then [video[pos]]
    else [video[pos]] + CopyFrom(video, pos + 1, end)
  }

  /** The end frame is exclusive: starting before `end`, the copy is
      `video[pos..end)`, cut short by the end of the stream. Starting at or
      after `end`, the stop test never fires and the copy runs to the end of
      the stream. */
  lemma {:induction false} CopyFromClosedForm<F>(video: seq<F>, pos: nat, end: nat)
    requires pos <= |video|
    ensures pos < end ==> CopyFrom(video, pos, end) == video[pos..Min(end, |video|)]
    ensures end <= pos ==> CopyFrom(video, pos, end) == video[pos..]
    decreases |video| - pos
  {
    if pos < |video| && pos + 1 != end {
      CopyFromClosedForm(video, pos + 1, end);
      assert video[pos..] == [video[pos]] + video[pos + 1..];
      if pos < end {
        var stop := Min(end, |video|);
        assert video[pos..stop] == [video[pos]] + video[pos + 1..stop];
      }
    }
  }

  // ---------------------------------------------------------------------
  // One interval, and the whole loop over a subject's epochs (lines 15-68)
  // ---------------------------------------------------------------------

  /** `f"{subject_id}_resting_cluster_epoch_{epoch_indexes[i]}.mp4"` (line 49). */
  function ClipName(subject: nat, epochIndex: nat): string
  {
    NatToString(subject) + "_resting_cluster_epoch_" + NatToString(epochIndex) + ".mp4"
  }

  /** A clip name is the subject part and the `<index>.mp4` part around
      the last `_`, and it starts with the subject's first digit. */
  lemma ClipNameParts(subject: nat, epochIndex: nat)
    ensures ClipName(subject, epochIndex)
      == (NatToString(subject) + "_resting_cluster_epoch") + ['_'] + (NatToString(epochIndex) + ".mp4")
    ensures ClipName(subject, epochIndex)[0] == NatToString(subject)[0]
    ensures StartsWith(ClipName(subject, epochIndex), NatToString(subject))
    ensures EndsWith(ClipName(subject, epochIndex), NatToString(epochIndex) + ".mp4")
  {
    var s, i := NatToString(subject), NatToString(epochIndex);
    assert "_resting_cluster_epoch_" == "_resting_cluster_epoch" + ['_'];
    assert (s + "_resting_cluster_epoch_" + i + ".mp4")[..|s|] == s;
    assert (s + "_resting_cluster_epoch_" + (i + ".mp4"))[|s| + 23..] == i + ".mp4";
  }

  /** Clip names of one subject differ whenever the epoch indexes differ. */
  lemma ClipNameInjective(subject: nat, i: nat, j: nat)
    requires ClipName(subject, i) == ClipName(subject, j)
    ensures i == j
  {
    var prefix := NatToString(subject) + "_resting_cluster_epoch_";
    var a, b := NatToString(i), NatToString(j);
    assert ClipName(subject, i) == prefix + (a + ".mp4");
    assert ClipName(subject, j) == prefix + (b + ".mp4");
    assert a + ".mp4" == ClipName(subject, i)[|prefix|..];
    assert b + ".mp4" == ClipName(subject, j)[|prefix|..];
    assert a == (a + ".mp4")[..|a|];
    assert b == (b + ".mp4")[..|b|];
    NatToStringInjective(i, j);
  }

  /** What happened to one epoch: skipped with an error line (no writer, no
      frames, no progress line), or written to a new file under `name`. */
  datatype ClipOutcome<F> = Skipped | Written(name: string, frames: seq<F>, clamped: bool)

  /** An exception that ends the run: numpy refusing split rows of unequal
      length (line 20), or epoch `clip` failing to unpack or parse (line 36-37). */
  datatype RunError = RaggedIntervals | BadInterval(clip: nat, error: ParseError)

  /** The outcomes of the epochs handled before the run ended, and the
      exception that ended it, if any. */
  datatype Run<F> = Run(outcomes: seq<ClipOutcome<F>>, failure: Option<RunError>)

  /** One iteration of the loop at lines 36-65 for the epoch field `text`. */
  function ProcessInterval<F>(video: seq<F>, frameCount: int, text: string, epochIndex: nat, subject: nat)
    : Result<ClipOutcome<F>, ParseError>
  {
    match ParseInterval(text)
    case Failure(e) => Failure(e)
    case Success(iv) =>
      match PlanClip(iv, frameCount)
      case SkipClip => Success(Skipped)
      case CopyRange(start, end, clamped) =>
        Success(Written(ClipName(subject, epochIndex), CopyFrom(video, start, end), clamped))
  }

  /** An epoch fails exactly when its field does not parse, with the parse
      error; it is skipped exactly when it starts at or past the frame count;
      otherwise it is written under its clip name, clamped exactly when its
      end is at or past the count, with frames from inside the video. */
  lemma ProcessIntervalOutcome<F>(video: seq<F>, frameCount: int, text: string, epochIndex: nat, subject: nat)
    ensures var r := ProcessInterval(video, frameCount, text, epochIndex, subject);
      && (r.Failure? <==> ParseInterval(text).Failure?)
      && (r.Failure? ==> r.error == ParseInterval(text).error)
      && (r == Success(Skipped) <==> ParseInterval(text).Success? && ParseInterval(text).value.start >= frameCount)
      && (r.Success? && r.value.Written? ==>
            && r.value.name == ClipName(subject, epochIndex)
            && r.value.clamped == (ParseInterval(text).value.end >= frameCount)
            && |r.value.frames| <= |video|)
  {
  }

  /** numpy builds a two-dimensional array only when every row has the same length. */
  predicate SameFieldCount(texts: seq<string>)
  {
    forall i :: 0 <= i < |texts| ==> |Split(texts[i], '-')| == |Split(texts[0], '-')|
  }

  function ProcessFrom<F>(video: seq<F>, frameCount: int, texts: seq<string>, epochIndexes: seq<nat>,
                          subject: nat, i: nat): (r: Run<F>)
    requires |epochIndexes| == |texts| && i <= |texts|
    ensures |r.outcomes| <= |texts| - i
    ensures r.failure.None? ==> |r.outcomes| == |texts| - i
    ensures forall k :: 0 <= k < |r.outcomes| ==>
      ProcessInterval(video, frameCount, texts[i + k], epochIndexes[i + k], subject) == Success(r.outcomes[k])
    ensures r.failure.Some? ==>
      && r.failure.value.BadInterval?
      && r.failure.value.clip == i + |r.outcomes|
      && i + |r.outcomes| < |texts|
      && ProcessInterval(video, frameCount, texts[r.failure.value.clip], epochIndexes[r.failure.value.clip], subject)
         == Failure(r.failure.value.error)
    decreases |texts| - i
  {
    if i == |texts| then Run([], None)
    else
      match ProcessInterval(video, frameCount, texts[i], epochIndexes[i], subject)
      case Failure(e) => Run([], Some(BadInterval(i, e)))
      case Success(outcome) =>
        var rest := ProcessFrom(video, frameCount, texts, epochIndexes, subject, i + 1);
        var r := Run([outcome] + rest.outcomes, rest.failure);
        assert forall k :: 1 <= k < |r.outcomes| ==> r.outcomes[k] == rest.outcomes[k - 1];
        r
  }

  /** `generate_clips` for a subject whose video opened: `video` is the
      stream, `frameCount` the count the reader reports, `texts` the
      epochs' "start-end" fields and `epochIndexes` their metadata index.
      Each epoch is handled on its own, in order, until the first exception. */
  function GenerateClips<F>(video: seq<F>, frameCount: int, texts: seq<string>, epochIndexes: seq<nat>,
                            subject: nat): (r: Run<F>)
    requires |epochIndexes| == |texts|
    ensures r.failure == Some(RaggedIntervals) <==> !SameFieldCount(texts)
    ensures r.failure == Some(RaggedIntervals) ==> r.outcomes == []
    ensures |r.outcomes| <= |texts|
    ensures r.failure.None? ==> |r.outcomes| == |texts|
    ensures forall k :: 0 <= k < |r.outcomes| ==>
      ProcessInterval(video, frameCount, texts[k], epochIndexes[k], subject) == Success(r.outcomes[k])
    ensures r.failure.Some? && r.failure.value.BadInterval? ==>
      && r.failure.value.clip == |r.outcomes| < |texts|
      && ProcessInterval(video, frameCount, texts[r.failure.value.clip], epochIndexes[r.failure.value.clip], subject)
         == Failure(r.failure.value.error)
  {
    if !SameFieldCount(texts) then Run([], Some(RaggedIntervals))
    else ProcessFrom(video, frameCount, texts, epochIndexes, subject, 0)
  }

  /** With equal-length rows of the wrong length, the first epoch already
      fails to unpack, before any clip is written. */
  lemma WrongFieldCountFailsFirst<F>(video: seq<F>, frameCount: int, texts: seq<string>,
                                     epochIndexes: seq<nat>, subject: nat)
    requires |epochIndexes| == |texts| && |texts| > 0
    requires SameFieldCount(texts) && |Split(texts[0], '-')| != 2
    ensures GenerateClips(video, frameCount, texts, epochIndexes, subject)
            == Run([], Some(BadInterval(0, WrongFieldCount(|Split(texts[0], '-')|))))
  {
  }

  /** What one well-formed epoch produces when the reported frame count is
      the true length of the video. The end frame is never copied: a
      clip `a-b` inside the video holds `b - a` frames, a clamped clip stops
      one frame before the last frame, and an epoch whose end is not after
      its start copies everything from the start to the end of the video. */
  lemma ClipOfInterval<F>(video: seq<F>, text: string, epochIndex: nat, subject: nat, start: nat, end: nat)
    requires ParseInterval(text) == Success(Interval(start, end))
    ensures var r := ProcessInterval(video, |video|, text, epochIndex, subject);
      && (start >= |video| ==> r == Success(Skipped))
      && (start < end < |video| ==>
            r == Success(Written(ClipName(subject, epochIndex), video[start..end], false))
            && |video[start..end]| == end - start)
      && (start + 1 < |video| <= end ==>
            r == Success(Written(ClipName(subject, epochIndex), video[start..|video| - 1], true)))
      && (start + 1 == |video| <= end ==>
            r == Success(Written(ClipName(subject, epochIndex), [video[start]], true)))
      && (end <= start < |video| ==>
            r == Success(Written(ClipName(subject, epochIndex), video[start..], false)))
  {
    if start < |video| {
      var plan := PlanClip(Interval(start, end), |video|);
      CopyFromClosedForm(video, start, plan.end);
      if start + 1 == |video| {
        assert video[start..] == [video[start]];
      }
    }
  }

  /** The two epoch fields of the 100-frame example parse as written. */
  lemma ExampleFieldsParse()
    ensures ParseInterval("0-9") == Success(Interval(0, 9))
    ensures ParseInterval("50-120") == Success(Interval(50, 120))
  {
    assert "0-9" == NatToString(0) + "-" + NatToString(9);
    assert NatToString(50) == "50";
    assert NatToString(120) == "120";
    assert "50-120" == NatToString(50) + "-" + NatToString(120);
    ParseIntervalRoundTrip(0, 9);
    ParseIntervalRoundTrip(50, 120);
  }

  /** A 100-frame video with epochs "0-9" and "50-120": the first clip holds
      frames 0-8 (nine frames, the end frame 9 is not copied) and the second,
      clamped to end 99, holds frames 50-98 (49 frames, the last frame is
      not copied). */
  lemma HundredFrameExample<F>(video: seq<F>, subject: nat)
    requires |video| == 100
    ensures GenerateClips(video, 100, ["0-9", "50-120"], [0, 1], subject)
      == Run([Written(ClipName(subject, 0), video[0..9], false),
              Written(ClipName(subject, 1), video[50..99], true)], None)
  {
    var texts := ["0-9", "50-120"];
    ExampleFieldsParse();
    ClipOfInterval(video, texts[0], 0, subject, 0, 9);
    ClipOfInterval(video, texts[1], 1, subject, 50, 120);
    var first := Written(ClipName(subject, 0), video[0..9], false);
    var second := Written(ClipName(subject, 1), video[50..99], true);
    assert |Split(texts[0], '-')| == 2 && |Split(texts[1], '-')| == 2;
    assert SameFieldCount(texts);
    assert ProcessFrom(video, 100, texts, [0, 1], subject, 2) == Run([], None);
    assert ProcessFrom(video, 100, texts, [0, 1], subject, 1) == Run([second], None);
    assert ProcessFrom(video, 100, texts, [0, 1], subject, 0) == Run([first, second], None);
  }

  /** Distinct metadata indexes give distinct file names, so no written
      clip of a run overwrites another one. */
  lemma WrittenNamesDistinct<F>(video: seq<F>, frameCount: int, texts: seq<string>, epochIndexes: seq<nat>,
                                subject: nat)
    requires |epochIndexes| == |texts|
    ensures var r := GenerateClips(video, frameCount, texts, epochIndexes, subject);
      forall i, j :: 0 <= i < |r.outcomes| && 0 <= j < |r.outcomes| && r.outcomes[i].Written?
                     && r.outcomes[j].Written? && epochIndexes[i] != epochIndexes[j]
                     ==> r.outcomes[i].name != r.outcomes[j].name
  {
    var r := GenerateClips(video, frameCount, texts, epochIndexes, subject);
    forall i, j | 0 <= i < |r.outcomes| && 0 <= j < |r.outcomes| && r.outcomes[i].Written?
                  && r.outcomes[j].Written? && epochIndexes[i] != epochIndexes[j]
      ensures r.outcomes[i].name != r.outcomes[j].name
    {
      assert ProcessInterval(video, frameCount, texts[i], epochIndexes[i], subject) == Success(r.outcomes[i]);
      assert ProcessInterval(video, frameCount, texts[j], epochIndexes[j], subject) == Success(r.outcomes[j]);
      if r.outcomes[i].name == r.outcomes[j].name {
        ClipNameInjective(subject, epochIndexes[i], epochIndexes[j]);
      }
    }
  }

  // ---------------------------------------------------------------------
  // "Already generated" test in main (lines 87-90)
  // ---------------------------------------------------------------------

  /** `any(str(subject_id) in file for file in all_clips)`. */
  predicate AlreadyGenerated(existing: seq<string>, subject: nat)
  {
    exists i :: 0 <= i < |existing| && Contains(existing[i], NatToString(subject))
  }

  /** Once any clip of a subject is in the folder, the subject is skipped. */
  lemma WrittenClipMarksSubject(existing: seq<string>, subject: nat, epochIndex: nat)
    requires ClipName(subject, epochIndex) in existing
    ensures AlreadyGenerated(existing, subject)
  {
    var i :| 0 <= i < |existing| && existing[i] == ClipName(subject, epochIndex);
    ContainsPrefix(existing[i], NatToString(subject));
  }

  /** The substring test also matches other subjects: a clip of subject 39508
      makes subject 395 look processed. */
  lemma AlreadyGeneratedMatchesOtherSubjects()
    ensures AlreadyGenerated([ClipName(39508, 0)], 395)
  {
    var name := ClipName(39508, 0);
    assert NatToString(39508) == NatToString(395) + "08";
    assert StartsWith(name, NatToString(395));
    ContainsPrefix(name, NatToString(395));
    assert [name][0] == name;
  }
}
