/** identify_led_rois.py: choosing the LED region of interest (ROI) on the
    first frame of every video in a folder, carrying the previous choice
    forward when the user confirms it without drawing a new one.

    The user's drawn rectangles (`cv2.selectROI`) are an oracle: the
    sequence of rectangles the user returns, consumed one per call. Whether
    a video's first frame can be read is a property of each listed file. */
module LedRois {
  import opened Wrappers
  import opened Text
  import opened Seqs

  /** A rectangle `(x, y, w, h)` as `cv2.selectROI` returns it. */
  datatype Roi = Roi(x: int, y: int, w: int, h: int)

  /** What `cv2.selectROI` returns when Enter is pressed without drawing. */
  const NoSelection := Roi(0, 0, 0, 0)

  // ---------------------------------------------------------------------
  // select_new_roi (lines 37-51) and draw_roi (lines 13-22)
  // ---------------------------------------------------------------------

  /** The ROI after a re-selection: the old one survives exactly when the user
      drew nothing (or redrew the same rectangle); otherwise the drawing wins. */
  function SelectNewRoi(selection: Roi, previous: Roi): (roi: Roi)
    ensures roi == previous <==> selection == NoSelection || selection == previous
    ensures roi != previous ==> roi == selection
    ensures roi == NoSelection ==> previous == NoSelection
  {
    if selection == NoSelection then previous else selection
  }

  datatype Point = Point(x: int, y: int)

  /** The two opposite corners `cv2.rectangle` is given. */
  datatype Rectangle = Rectangle(corner: Point, opposite: Point)

  /** The rectangle `draw_roi` draws for a ROI. */
  function DrawRoi(roi: Roi): (rect: Rectangle)
    ensures rect.corner == Point(roi.x, roi.y)
    ensures rect.opposite.x - rect.corner.x == roi.w
    ensures rect.opposite.y - rect.corner.y == roi.h
  {
    Rectangle(Point(roi.x, roi.y), Point(roi.x + roi.w, roi.y + roi.h))
  }

  /** The ROI a drawn rectangle depicts. */
  function RoiOfRectangle(rect: Rectangle): Roi
  {
    Roi(rect.corner.x, rect.corner.y, rect.opposite.x - rect.corner.x, rect.opposite.y - rect.corner.y)
  }

  /** The drawing shows exactly the ROI: every ROI has one rectangle and back. */
  lemma DrawRoiRoundTrip(roi: Roi, rect: Rectangle)
    ensures RoiOfRectangle(DrawRoi(roi)) == roi
    ensures DrawRoi(RoiOfRectangle(rect)) == rect
  {
  }

  // ---------------------------------------------------------------------
  // save_led_rois (lines 54-93)
  // ---------------------------------------------------------------------

  /** A directory entry, and whether `cap.read()` gets its first frame. */
  datatype VideoFile = VideoFile(name: string, firstFrameReadable: bool)

  /** `f.endswith(('.mp4', '.avi'))`: case-sensitive. */
  predicate IsVideoName(name: string)
  {
    EndsWith(name, ".mp4") || EndsWith(name, ".avi")
  }

  /** The listing filtered to video file names, in listing order (line 64). */
  function VideoFiles(listing: seq<VideoFile>): (videos: seq<VideoFile>)
    ensures IsSubsequence(videos, listing)
    ensures forall i :: 0 <= i < |videos| ==> IsVideoName(videos[i].name)
    ensures forall i :: 0 <= i < |listing| && IsVideoName(listing[i].name) ==> listing[i] in videos
  {
    var keep := (f: VideoFile) => IsVideoName(f.name);
    FilterIsSubsequence(keep, listing);
    Filter(keep, listing)
  }

  /** Names of the videos whose first frame reads, in order. */
  function ReadableNames(videos: seq<VideoFile>): seq<string>
    decreases |videos|
  {
    if |videos| == 0 then []
    else if videos[0].firstFrameReadable then [videos[0].name] + ReadableNames(videos[1..])
    else ReadableNames(videos[1..])
  }

  /** How many rectangles the user draws: one re-selection per readable
      video, plus the initial selection on the first one if no ROI is known. */
  function SelectionsNeeded(videos: seq<VideoFile>, roi: Option<Roi>): nat
  {
    var readable := |ReadableNames(videos)|;
    if roi.None? && readable > 0 then readable + 1 else readable
  }

  /** One row of the saved table: `{'Video': video, 'ROI': roi}`. */
  datatype Record = Record(video: string, roi: Roi)

  /** What the loop leaves behind: the rows appended, the rectangle shown
      on each readable video before its re-selection, and the current ROI. */
  datatype RoiSession = RoiSession(records: seq<Record>, overlays: seq<Rectangle>, roi: Option<Roi>)

  /** The loop at lines 68-90 from current ROI `roi`, with `selections`
      the rectangles the user will draw. */
  function SelectRois(videos: seq<VideoFile>, roi: Option<Roi>, selections: seq<Roi>): (s: RoiSession)
    requires |selections| >= SelectionsNeeded(videos, roi)
    ensures |s.records| == |s.overlays| == |ReadableNames(videos)|
    ensures forall k :: 0 <= k < |s.records| ==> s.records[k].video == ReadableNames(videos)[k]
    ensures |s.records| == 0 ==> s.roi == roi
    ensures |s.records| > 0 ==> s.roi == Some(s.records[|s.records| - 1].roi)
    decreases |videos|
  {
    if |videos| == 0 then RoiSession([], [], roi)
    else if !videos[0].firstFrameReadable then SelectRois(videos[1..], roi, selections)
    else
      var current := if roi.Some? then roi.value else selections[0];
      var used := if roi.Some? then 0 else 1;
      var next := SelectNewRoi(selections[used], current);
      var rest := SelectRois(videos[1..], Some(next), selections[used + 1..]);
      RoiSession([Record(videos[0].name, next)] + rest.records, [DrawRoi(current)] + rest.overlays, rest.roi)
  }

  /** A video whose first frame cannot be read adds no row and leaves the ROI alone. */
  lemma UnreadableVideoIgnored(video: VideoFile, videos: seq<VideoFile>, roi: Option<Roi>, selections: seq<Roi>)
    requires !video.firstFrameReadable
    requires |selections| >= SelectionsNeeded(videos, roi)
    ensures |selections| >= SelectionsNeeded([video] + videos, roi)
    ensures SelectRois([video] + videos, roi, selections) == SelectRois(videos, roi, selections)
  {
    assert ([video] + videos)[1..] == videos;
  }

  /** Once a ROI is known it stays known; it becomes known at the first
      readable video. */
  lemma RoiNeverForgotten(videos: seq<VideoFile>, roi: Option<Roi>, selections: seq<Roi>)
    requires |selections| >= SelectionsNeeded(videos, roi)
    ensures SelectRois(videos, roi, selections).roi.Some? <==> roi.Some? || |ReadableNames(videos)| > 0
  {
  }

  /** The ROI in force before row `k` is handled, starting from `first`. */
  function RoiBefore(records: seq<Record>, first: Roi, k: nat): Roi
    requires k <= |records|
  {
    if k == 0 then first else records[k - 1].roi
  }

  /** Row `k` re-selected against the ROI in force before it, using the
      drawn rectangle `selections[k]`, and that ROI was the one shown. */
  predicate RowCarries(s: RoiSession, first: Roi, selections: seq<Roi>, k: nat)
    requires k < |s.records| && k < |s.overlays| && k < |selections|
  {
    && s.overlays[k] == DrawRoi(RoiBefore(s.records, first, k))
    && s.records[k].roi == SelectNewRoi(selections[k], RoiBefore(s.records, first, k))
  }

  /** Every row carries the ROI forward from the one before it. */
  predicate CarriesForward(s: RoiSession, first: Roi, selections: seq<Roi>)
  {
    && |s.overlays| == |s.records| <= |selections|
    && forall k :: 0 <= k < |s.records| ==> RowCarries(s, first, selections, k)
  }

  /** With one row put in front, the ROI in force before row `k` is the
      one that was in force before row `k - 1` of the remaining rows, counted
      from the new row's ROI. */
  lemma RoiBeforeShift(record: Record, rest: seq<Record>, first: Roi, k: nat)
    requires 1 <= k <= |rest| + 1
    ensures RoiBefore([record] + rest, first, k) == RoiBefore(rest, record.roi, k - 1)
  {
    if k > 1 {
      assert ([record] + rest)[k - 1] == rest[k - 2];
    }
  }

  /** Prepending a row that re-selected against `first` to rows that carry
      forward from that row's ROI keeps the rows carrying forward. */
  lemma CarriesForwardCons(record: Record, rest: RoiSession, first: Roi, selections: seq<Roi>, roi: Option<Roi>)
    requires |selections| >= 1
    requires record.roi == SelectNewRoi(selections[0], first)
    requires CarriesForward(rest, record.roi, selections[1..])
    ensures CarriesForward(RoiSession([record] + rest.records, [DrawRoi(first)] + rest.overlays, roi), first, selections)
  {
    var s := RoiSession([record] + rest.records, [DrawRoi(first)] + rest.overlays, roi);
    forall k | 0 <= k < |s.records|
      ensures RowCarries(s, first, selections, k)
    {
      if k > 0 {
        assert RowCarries(rest, record.roi, selections[1..], k - 1);
        RoiBeforeShift(record, rest.records, first, k);
        assert s.overlays[k] == rest.overlays[k - 1];
        assert s.records[k] == rest.records[k - 1];
        assert selections[k] == selections[1..][k - 1];
      }
    }
  }

  /** A readable video at the head adds one row re-selected against the
      current ROI (or the initial selection when none is known). */
  lemma ReadableHead(videos: seq<VideoFile>, roi: Option<Roi>, selections: seq<Roi>)
    requires |videos| > 0 && videos[0].firstFrameReadable
    requires |selections| >= SelectionsNeeded(videos, roi)
    ensures var current := if roi.Some? then roi.value else selections[0];
      var used := if roi.Some? then 0 else 1;
      var next := SelectNewRoi(selections[used], current);
      var rest := SelectRois(videos[1..], Some(next), selections[used + 1..]);
      SelectRois(videos, roi, selections)
        == RoiSession([Record(videos[0].name, next)] + rest.records, [DrawRoi(current)] + rest.overlays, rest.roi)
  {
  }

  /** From a known ROI, each readable video shows the ROI kept so far and
      re-selects against it, consuming one drawn rectangle. */
  lemma {:induction false} CarryForwardFrom(videos: seq<VideoFile>, roi: Roi, selections: seq<Roi>)
    requires |selections| >= |ReadableNames(videos)|
    ensures CarriesForward(SelectRois(videos, Some(roi), selections), roi, selections)
    decreases |videos|
  {
    if |videos| > 0 {
      if !videos[0].firstFrameReadable {
        CarryForwardFrom(videos[1..], roi, selections);
      } else {
        var next := SelectNewRoi(selections[0], roi);
        CarryForwardFrom(videos[1..], next, selections[1..]);
        ReadableHead(videos, Some(roi), selections);
        var rest := SelectRois(videos[1..], Some(next), selections[1..]);
        CarriesForwardCons(Record(videos[0].name, next), rest, roi, selections, rest.roi);
      }
    }
  }

  /** From no ROI, the first readable video is selected and then re-selected
      (two drawn rectangles, the first of them shown); every later one is
      re-selected against the previous row's ROI, using one rectangle each. */
  lemma {:induction false} CarryForwardFromNone(videos: seq<VideoFile>, selections: seq<Roi>)
    requires |selections| >= SelectionsNeeded(videos, None)
    ensures var s := SelectRois(videos, None, selections);
      |s.records| > 0 ==>
        && s.records[0].roi == SelectNewRoi(selections[1], selections[0])
        && CarriesForward(s, selections[0], selections[1..])
    decreases |videos|
  {
    if |videos| > 0 {
      if !videos[0].firstFrameReadable {
        CarryForwardFromNone(videos[1..], selections);
      } else {
        var next := SelectNewRoi(selections[1], selections[0]);
        CarryForwardFrom(videos[1..], next, selections[2..]);
        ReadableHead(videos, None, selections);
        var rest := SelectRois(videos[1..], Some(next), selections[2..]);
        assert selections[1..][1..] == selections[2..];
        CarriesForwardCons(Record(videos[0].name, next), rest, selections[0], selections[1..], rest.roi);
      }
    }
  }

  /** `save_led_rois`: the rows written to the ROI table. */
  function SaveLedRois(listing: seq<VideoFile>, selections: seq<Roi>): (records: seq<Record>)
    requires |selections| >= SelectionsNeeded(VideoFiles(listing), None)
    ensures |records| == |ReadableNames(VideoFiles(listing))|
    ensures forall k :: 0 <= k < |records| ==> IsVideoName(records[k].video)
  {
    ReadableVideoNames(VideoFiles(listing));
    SelectRois(VideoFiles(listing), None, selections).records
  }

  lemma {:induction false} ReadableVideoNames(videos: seq<VideoFile>)
    requires forall i :: 0 <= i < |videos| ==> IsVideoName(videos[i].name)
    ensures forall k :: 0 <= k < |ReadableNames(videos)| ==> IsVideoName(ReadableNames(videos)[k])
    decreases |videos|
  {
    if |videos| > 0 {
      ReadableVideoNames(videos[1..]);
    }
  }

  /** If the user confirms every later re-selection without drawing, every
      row carries the first row's ROI. */
  lemma KeptWhenNothingDrawn(listing: seq<VideoFile>, selections: seq<Roi>)
    requires |selections| >= SelectionsNeeded(VideoFiles(listing), None)
    requires forall k :: 2 <= k < |selections| ==> selections[k] == NoSelection
    ensures var records := SaveLedRois(listing, selections);
      forall k :: 0 <= k < |records| ==> records[k].roi == records[0].roi
  {
    var s := SelectRois(VideoFiles(listing), None, selections);
    CarryForwardFromNone(VideoFiles(listing), selections);
    forall k | 0 <= k < |s.records|
      ensures s.records[k].roi == s.records[0].roi
    {
      KeptUpTo(s, selections, k);
    }
  }

  lemma {:induction false} KeptUpTo(s: RoiSession, selections: seq<Roi>, k: nat)
    requires k < |s.records| && |selections| >= 1
    requires CarriesForward(s, selections[0], selections[1..])
    requires forall j :: 2 <= j < |selections| ==> selections[j] == NoSelection
    ensures s.records[k].roi == s.records[0].roi
    decreases k
  {
    if k > 0 {
      KeptUpTo(s, selections, k - 1);
      assert RowCarries(s, selections[0], selections[1..], k);
      assert selections[1..][k] == selections[k + 1];
    }
  }
}
