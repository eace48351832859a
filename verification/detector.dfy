/** The per-frame shot-boundary state machine of the video shot detector.

    One call of `Step` is one call of the detector's boundary check on one
    frame. The histogram comparison is not modelled: each frame arrives as
    the distance its histogram has from the previous frame's histogram,
    together with an opaque id for the frame itself. Notifications that the
    detector sends to its listeners are appended to an event log in the
    order they are sent; every registered listener receives that same
    sequence. */
module Detector {
  import opened Options
  import opened Shots

  /** The shot boundary threshold a new detector starts with. */
  const DefaultThreshold: real := 5000.0

  /** A boundary frame closer than this many frames to the start of the
      previous boundary continues that boundary instead of starting a new one. */
  const MergeWindow: int := 4

  /** The detector's configuration: the distance threshold, whether keyframes
      are captured, and whether every frame's distance is logged. */
  datatype Config = Config(threshold: real, findKeyframes: bool, storeAllDiffs: bool)

  /** The configuration of a freshly constructed detector. */
  const DefaultConfig: Config := Config(DefaultThreshold, true, false)

  /** A notification to the listeners: a detected shot (with its keyframe,
      or `None` when keyframes are not captured), or a computed distance. */
  datatype Event =
    | ShotDetected(boundary: Boundary, keyframe: Option<Keyframe>)
    | DifferentialCalculated(frame: FrameNumber, distance: real, id: FrameId)

  /** One frame as the state machine sees it: the distance of its histogram
      from the previous frame's histogram, and the frame's identity. */
  datatype FrameInput = FrameInput(distance: real, id: FrameId)

  /** Everything the detector keeps between frames. `hasPrevious` says
      whether a histogram of an earlier frame is held; `needFire` says
      whether the last frame signalled a boundary whose event may still be
      owed. */
  datatype State = State(
    config: Config,
    hasPrevious: bool,
    frameCounter: nat,
    needFire: bool,
    boundaries: seq<Boundary>,
    keyframes: seq<Keyframe>,
    differentials: seq<real>,
    events: seq<Event>)

  /** A detector before its first frame. */
  function Init(config: Config): State
  {
    State(config, false, 0, false, [], [], [], [])
  }

  // ----- configuration setters -----

  function SetThreshold(s: State, threshold: real): (r: State)
    ensures r.config.threshold == threshold
    ensures r.config.findKeyframes == s.config.findKeyframes
    ensures r.config.storeAllDiffs == s.config.storeAllDiffs
    ensures r.(config := s.config) == s
  {
    s.(config := s.config.(threshold := threshold))
  }

  function SetFindKeyframes(s: State, k: bool): (r: State)
    ensures r.config.findKeyframes == k
    ensures r.config.threshold == s.config.threshold
    ensures r.config.storeAllDiffs == s.config.storeAllDiffs
    ensures r.(config := s.config) == s
  {
    s.(config := s.config.(findKeyframes := k))
  }

  function SetStoreAllDifferentials(s: State, d: bool): (r: State)
    ensures r.config.storeAllDiffs == d
    ensures r.config.threshold == s.config.threshold
    ensures r.config.findKeyframes == s.config.findKeyframes
    ensures r.(config := s.config) == s
  {
    s.(config := s.config.(storeAllDiffs := d))
  }

  // ----- getters -----

  /** The most recent boundary, or `None` before any was found. */
  function LastShotBoundary(s: State): (r: Option<Boundary>)
    ensures r.None? <==> |s.boundaries| == 0
    ensures r.Some? ==> r.value == s.boundaries[|s.boundaries| - 1]
    ensures r.Some? ==> r.value in s.boundaries
  {
    Last(s.boundaries)
  }

  /** The most recent keyframe, or `None` when none is held. */
  function LastKeyframe(s: State): (r: Option<Keyframe>)
    ensures r.None? <==> |s.keyframes| == 0
    ensures r.Some? ==> r.value == s.keyframes[|s.keyframes| - 1]
    ensures r.Some? ==> r.value in s.keyframes
  {
    Last(s.keyframes)
  }

  /** The logged distances, copied out one by one in the order they were
      logged. */
  method GetDifferentials(s: State) returns (d: seq<real>)
    ensures |d| == |s.differentials|
    ensures forall i :: 0 <= i < |d| ==> d[i] == s.differentials[i]
  {
    d := [];
    var x := 0;
    while x < |s.differentials|
      invariant x <= |s.differentials|
      invariant d == s.differentials[..x]
    {
      d := d + [s.differentials[x]];
      x := x + 1;
    }
  }

  // ----- one frame -----

  /** The distance the detector works with: the supplied one when an
      earlier histogram exists, 0 on the first frame. */
  function Distance(s: State, distance: real): real
  {
    if s.hasPrevious then distance else 0.0
  }

  /** Whether this frame signals a boundary: the distance is strictly above
      the threshold, or there is no earlier histogram to compare with. */
  predicate Signals(s: State, distance: real)
  {
    Distance(s, distance) > s.config.threshold || !s.hasPrevious
  }

  /** Whether a boundary signalled now continues the last boundary: one
      exists and its start lies fewer than `MergeWindow` frames back. */
  predicate Merges(s: State)
  {
    match LastShotBoundary(s)
    case None => false
    case Some(sb) => s.frameCounter - sb.start < MergeWindow
  }

  /** Whether a calm frame fires the event owed for a fade: a boundary was
      signalled on the previous frame and the last boundary is a fade that
      ends on that previous frame. */
  predicate FadeIsPending(s: State)
  {
    && s.frameCounter > 0
    && s.needFire
    && match LastShotBoundary(s)
       case Some(Fade(_, e)) => e == s.frameCounter - 1
       case _ => false
  }

  /** The keyframe a signalled frame would capture, if capture is on. */
  function NewKeyframe(s: State, x: FrameInput): Option<Keyframe>
  {
    if s.config.findKeyframes then Some(Keyframe(s.frameCounter, x.id)) else None
  }

  /** The distance notification a frame sends, if distances are logged. */
  function DifferentialEvents(s: State, x: FrameInput): seq<Event>
  {
    if s.config.storeAllDiffs
    then [DifferentialCalculated(s.frameCounter, Distance(s, x.distance), x.id)]
    else []
  }

  /** Logs the frame's distance and notifies the listeners of it. */
  function LogDifferential(s: State, x: FrameInput): State
  {
    if s.config.storeAllDiffs
    then s.(differentials := s.differentials + [Distance(s, x.distance)],
            events := s.events + DifferentialEvents(s, x))
    else s
  }

  /** A signalled frame that continues the last boundary: the boundary is
      extended (or turned from a cut into a fade) in last position, and the
      last keyframe is replaced by a snapshot of this frame. An event is
      now owed, but none is sent yet. */
  function MergeBoundary(s: State, x: FrameInput): State
    requires |s.boundaries| > 0
  {
    var b := DropLast(s.boundaries) + [Extend(s.boundaries[|s.boundaries| - 1], s.frameCounter)];
    var k := if s.config.findKeyframes
             then DropLast(s.keyframes) + [Keyframe(s.frameCounter, x.id)]
             else s.keyframes;
    s.(boundaries := b, keyframes := k, needFire := true)
  }

  /** A signalled frame that starts a new boundary: a cut is appended, a
      keyframe too if capture is on, and the shot is announced at once. */
  function NewCut(s: State, x: FrameInput): State
  {
    var kf := NewKeyframe(s, x);
    s.(boundaries := s.boundaries + [Cut(s.frameCounter)],
       keyframes := if kf.Some? then s.keyframes + [kf.value] else s.keyframes,
       needFire := true,
       events := s.events + [ShotDetected(Cut(s.frameCounter), kf)])
  }

  /** A frame that does not signal. On the first such frame after a
      boundary, the owed event of a fade that ended on the previous frame
      is fired, and the debt is cleared in any case. */
  function OnCalm(s: State): State
  {
    if s.frameCounter > 0 && s.needFire then
      var fired := if FadeIsPending(s)
                   then [ShotDetected(LastShotBoundary(s).value, LastKeyframe(s))]
                   else [];
      s.(needFire := false, events := s.events + fired)
    else s
  }

  /** Processes one frame. */
  function Step(s: State, x: FrameInput): (r: State)
    // every call advances the frame counter by one and leaves a histogram behind
    ensures r.config == s.config
    ensures r.hasPrevious && r.frameCounter == s.frameCounter + 1
    // the distance log grows by exactly this frame's distance, 0 on the first frame
    ensures s.config.storeAllDiffs ==>
      r.differentials == s.differentials + [if s.hasPrevious then x.distance else 0.0]
    ensures !s.config.storeAllDiffs ==> r.differentials == s.differentials
    // a signalled frame always leaves an event owed
    ensures Signals(s, x.distance) ==> r.needFire
    // merge: same number of boundaries, the last one extended to this frame, no shot event
    ensures Signals(s, x.distance) && Merges(s) ==>
      && |s.boundaries| > 0
      && r.boundaries == DropLast(s.boundaries)
                         + [Fade(s.boundaries[|s.boundaries| - 1].start, s.frameCounter)]
      && r.events == s.events + DifferentialEvents(s, x)
      && r.keyframes == (if s.config.findKeyframes
                         then DropLast(s.keyframes) + [Keyframe(s.frameCounter, x.id)]
                         else s.keyframes)
    // new boundary: one cut at this frame appended and announced at once
    ensures Signals(s, x.distance) && !Merges(s) ==>
      && r.boundaries == s.boundaries + [Cut(s.frameCounter)]
      && r.keyframes == s.keyframes + (if s.config.findKeyframes
                                       then [Keyframe(s.frameCounter, x.id)] else [])
      && r.events == s.events + DifferentialEvents(s, x)
                     + [ShotDetected(Cut(s.frameCounter), NewKeyframe(s, x))]
    // calm frame: boundaries and keyframes untouched, the owed event settled
    ensures !Signals(s, x.distance) ==>
      && r.boundaries == s.boundaries
      && r.keyframes == s.keyframes
      && (s.frameCounter > 0 ==> !r.needFire)
      && (s.frameCounter == 0 ==> r.needFire == s.needFire)
      && r.events == s.events + DifferentialEvents(s, x)
                     + (if FadeIsPending(s)
                        then [ShotDetected(s.boundaries[|s.boundaries| - 1], LastKeyframe(s))]
                        else [])
  {
    var logged := LogDifferential(s, x);
    var decided :=
      if !Signals(s, x.distance) then OnCalm(logged)
      else if Merges(s) then MergeBoundary(logged, x)
      else NewCut(logged, x);
    decided.(hasPrevious := true, frameCounter := s.frameCounter + 1)
  }

  // ----- invariant of every reachable state -----

  /** Boundary starts strictly increase along the list, and every boundary,
      a fade's end included, lies before the frame about to be processed. */
  predicate Ordered(s: State)
  {
    OrderedBefore(s.boundaries, s.frameCounter)
  }

  predicate OrderedBefore(bs: seq<Boundary>, n: nat)
  {
    && (forall i, j :: 0 <= i < j < |bs| ==> bs[i].start < bs[j].start)
    && (forall j :: 0 <= j < |bs| ==> bs[j].start <= Reach(bs[j]) < n)
  }

  lemma StepPreservesOrdered(s: State, x: FrameInput)
    requires Ordered(s)
    ensures Ordered(Step(s, x))
  {
    var bs, n := s.boundaries, s.frameCounter;
    if !Signals(s, x.distance) {
      OrderedLater(bs, n);
    } else if Merges(s) {
      ReplacingLastKeepsOrder(bs, n);
    } else {
      AppendingCutKeepsOrder(bs, n);
    }
  }

  lemma ReplacingLastKeepsOrder(bs: seq<Boundary>, n: nat)
    requires OrderedBefore(bs, n) && |bs| > 0
    ensures OrderedBefore(DropLast(bs) + [Fade(bs[|bs| - 1].start, n)], n + 1)
  {
    var rs := DropLast(bs) + [Fade(bs[|bs| - 1].start, n)];
    assert forall j :: 0 <= j < |bs| ==> rs[j].start == bs[j].start;
  }

  lemma OrderedLater(bs: seq<Boundary>, n: nat)
    requires OrderedBefore(bs, n)
    ensures OrderedBefore(bs, n + 1)
  {
  }

  lemma AppendingCutKeepsOrder(bs: seq<Boundary>, n: nat)
    requires OrderedBefore(bs, n)
    ensures OrderedBefore(bs + [Cut(n)], n + 1)
  {
  }

  /** Under the invariant, a frame changes the boundary list exactly when
      its distance is strictly above the threshold or it is the first frame;
      a distance equal to the threshold changes nothing. */
  lemma StepChangesBoundariesIff(s: State, x: FrameInput)
    requires Ordered(s)
    ensures Step(s, x).boundaries != s.boundaries
            <==> !s.hasPrevious || x.distance > s.config.threshold
  {
    var r := Step(s, x);
    var k := |s.boundaries|;
    if Signals(s, x.distance) {
      if Merges(s) {
        assert Reach(s.boundaries[k - 1]) < s.frameCounter == Reach(r.boundaries[k - 1]);
      } else {
        assert |r.boundaries| == k + 1;
      }
    }
  }
}
