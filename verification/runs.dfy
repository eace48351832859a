/** Runs of the detector over a stream of frames, and what a run leaves
    behind, stated independently of how `Step` computes it.

    The central fact is `RunIsGreedy`: after any number of frames, the
    boundary list is exactly the greedy partition of the signalled frames
    into windows of `MergeWindow` frames, each window starting at the first
    signalled frame not covered by the previous one (`Greedy`), and by
    `GreedyUnique` there is only one such list. */
module Runs {
  import opened Options
  import opened Shots
  import opened Detector

  /** The state of a fresh detector after it has been fed the first `n`
      frames of `xs`, one call per frame. */
  function Feed(config: Config, xs: seq<FrameInput>, n: nat): (r: State)
    requires n <= |xs|
    ensures r.config == config
    ensures r.frameCounter == n
    ensures r.hasPrevious <==> n > 0
  {
    if n == 0 then Init(config) else Step(Feed(config, xs, n - 1), xs[n - 1])
  }

  /** The state after the whole stream. */
  function Run(config: Config, xs: seq<FrameInput>): State
  {
    Feed(config, xs, |xs|)
  }

  /** Whether frame `i` of the stream signals a boundary under threshold `t`:
      the first frame always does, any later one when its distance is
      strictly above the threshold. It depends on the frame alone. */
  predicate Signalled(t: real, xs: seq<FrameInput>, i: nat)
    requires i < |xs|
  {
    i == 0 || xs[i].distance > t
  }

  function Min(a: int, b: int): int
  {
    if a <= b then a else b
  }

  /** No frame of `xs` in `[lo, hi)` signals. */
  predicate Quiet(t: real, xs: seq<FrameInput>, lo: int, hi: int)
  {
    forall i: nat :: lo <= i < hi && i < |xs| ==> !Signalled(t, xs, i)
  }

  /** Boundary `b` is one greedy window over the first `n` frames: it starts
      and reaches on signalled frames, reaches fewer than `MergeWindow`
      frames past its start, is a cut exactly when it covers one frame, and
      no later frame inside its window (and before `n`) signals. */
  predicate WindowFits(t: real, xs: seq<FrameInput>, n: nat, b: Boundary)
    requires n <= |xs|
  {
    && b.start <= Reach(b) < n
    && Reach(b) < b.start + MergeWindow
    && Signalled(t, xs, b.start)
    && Signalled(t, xs, Reach(b))
    && (b.Cut? <==> Reach(b) == b.start)
    && Quiet(t, xs, Reach(b) + 1, Min(b.start + MergeWindow, n))
  }

  /** Window `b` is followed by window `c`: `c` starts past the end of
      `b`'s `MergeWindow` frames, and no frame in between signals. */
  predicate Gap(t: real, xs: seq<FrameInput>, b: Boundary, c: Boundary)
  {
    && b.start + MergeWindow <= c.start
    && Quiet(t, xs, b.start + MergeWindow, c.start)
  }

  /** Every boundary of the list is a window over the first `n` frames. */
  predicate AllWindowsFit(t: real, xs: seq<FrameInput>, n: nat, bs: seq<Boundary>)
    requires n <= |xs|
  {
    forall j :: 0 <= j < |bs| ==> WindowFits(t, xs, n, bs[j])
  }

  /** Consecutive boundaries are consecutive windows. */
  predicate AllGaps(t: real, xs: seq<FrameInput>, bs: seq<Boundary>)
  {
    forall j :: 0 < j < |bs| ==> Gap(t, xs, bs[j - 1], bs[j])
  }

  /** No frame past the last window (and before `n`) signals. */
  predicate TailQuiet(t: real, xs: seq<FrameInput>, n: nat, bs: seq<Boundary>)
  {
    |bs| > 0 ==> Quiet(t, xs, bs[|bs| - 1].start + MergeWindow, n)
  }

  /** The boundary list is the greedy partition of the signalled frames
      among the first `n`: the first window starts at frame 0, each next
      window starts at the first signalled frame past the previous window,
      and no signalled frame lies past the last window. */
  predicate Greedy(t: real, xs: seq<FrameInput>, n: nat, bs: seq<Boundary>)
  {
    && n <= |xs|
    && (|bs| == 0 <==> n == 0)
    && (|bs| > 0 ==> bs[0].start == 0)
    && AllWindowsFit(t, xs, n, bs)
    && AllGaps(t, xs, bs)
    && TailQuiet(t, xs, n, bs)
  }

  /** The boundary list after frame `n`, given whether it signalled: a
      signalled frame fewer than `MergeWindow` frames after the start of the
      last boundary turns that boundary into a fade ending at `n`; any
      other signalled frame appends a cut at `n`. */
  function NextBoundaries(bs: seq<Boundary>, n: nat, signalled: bool): seq<Boundary>
  {
    if !signalled then bs
    else if |bs| > 0 && n - bs[|bs| - 1].start < MergeWindow
    then DropLast(bs) + [Fade(bs[|bs| - 1].start, n)]
    else bs + [Cut(n)]
  }

  /** What a frame does to the length of the list and the start of its last
      boundary: nothing when it does not signal; nothing either when it
      merges into the last boundary, which becomes a fade reaching it; one
      more boundary, starting at the frame, otherwise. */
  lemma NextBoundariesShape(bs: seq<Boundary>, n: nat, signalled: bool)
    ensures var rs := NextBoundaries(bs, n, signalled);
      && (!signalled ==> rs == bs)
      && (signalled && |bs| > 0 && n - bs[|bs| - 1].start < MergeWindow ==>
            && |rs| == |bs|
            && rs[|rs| - 1] == Fade(bs[|bs| - 1].start, n)
            && forall j :: 0 <= j < |bs| - 1 ==> rs[j] == bs[j])
      && (signalled && (|bs| == 0 || n - bs[|bs| - 1].start >= MergeWindow) ==>
            && |rs| == |bs| + 1
            && rs[|bs|] == Cut(n)
            && forall j :: 0 <= j < |bs| ==> rs[j] == bs[j])
  {
  }

  /** A frame signals in a run exactly when `Signalled` says so: the
      detector's own test agrees with the stream-level one. */
  lemma SignalsInRun(config: Config, xs: seq<FrameInput>, n: nat)
    requires n < |xs|
    ensures Signals(Feed(config, xs, n), xs[n].distance) <==> Signalled(config.threshold, xs, n)
  {
  }

  /** What one step of a run does to the boundary list and to the
      owed-event flag. */
  lemma StepInRun(config: Config, xs: seq<FrameInput>, m: nat)
    requires m < |xs|
    ensures Feed(config, xs, m + 1).boundaries
            == NextBoundaries(Feed(config, xs, m).boundaries, m, Signalled(config.threshold, xs, m))
    ensures Feed(config, xs, m + 1).needFire <==> Signalled(config.threshold, xs, m)
  {
    SignalsInRun(config, xs, m);
    assert Feed(config, xs, m + 1) == Step(Feed(config, xs, m), xs[m]);
  }

  /** A window stays a window when one more frame is processed, provided
      that frame does not signal or lies past the window. */
  lemma WindowGrows(t: real, xs: seq<FrameInput>, m: nat, b: Boundary)
    requires m < |xs|
    requires WindowFits(t, xs, m, b)
    requires !Signalled(t, xs, m) || b.start + MergeWindow <= m
    ensures WindowFits(t, xs, m + 1, b)
  {
  }

  /** The boundary list of every run is the greedy partition, and an event
      is owed exactly when the previous frame signalled. */
  lemma {:induction false} RunIsGreedy(config: Config, xs: seq<FrameInput>, n: nat)
    requires n <= |xs|
    ensures Greedy(config.threshold, xs, n, Feed(config, xs, n).boundaries)
    ensures Feed(config, xs, n).needFire <==> n > 0 && Signalled(config.threshold, xs, n - 1)
  {
    if n > 0 {
      RunIsGreedy(config, xs, n - 1);
      StepInRun(config, xs, n - 1);
      GreedyNext(config.threshold, xs, n - 1, Feed(config, xs, n - 1).boundaries);
    }
  }

  /** One more frame keeps the list the greedy partition. */
  lemma GreedyNext(t: real, xs: seq<FrameInput>, m: nat, bs: seq<Boundary>)
    requires m < |xs|
    requires Greedy(t, xs, m, bs)
    ensures Greedy(t, xs, m + 1, NextBoundaries(bs, m, Signalled(t, xs, m)))
  {
    if !Signalled(t, xs, m) {
      GreedyCalm(t, xs, m, bs);
    } else if |bs| > 0 && m - bs[|bs| - 1].start < MergeWindow {
      GreedyMerge(t, xs, m, bs);
    } else {
      GreedyNewCut(t, xs, m, bs);
    }
  }

  /** A frame that does not signal leaves the partition as it is. */
  lemma GreedyCalm(t: real, xs: seq<FrameInput>, m: nat, bs: seq<Boundary>)
    requires m < |xs| && !Signalled(t, xs, m)
    requires Greedy(t, xs, m, bs)
    ensures Greedy(t, xs, m + 1, bs)
  {
    forall j | 0 <= j < |bs|
      ensures WindowFits(t, xs, m + 1, bs[j])
    {
      WindowGrows(t, xs, m, bs[j]);
    }
  }

  /** Windows before the last one are untouched by a frame at or after the
      last window's start. */
  lemma EarlierWindowsGrow(t: real, xs: seq<FrameInput>, m: nat, bs: seq<Boundary>)
    requires m < |xs|
    requires Greedy(t, xs, m, bs) && |bs| > 0
    ensures forall j :: 0 <= j < |bs| - 1 ==> WindowFits(t, xs, m + 1, bs[j])
  {
    forall j | 0 <= j < |bs| - 1
      ensures WindowFits(t, xs, m + 1, bs[j])
    {
      StartsBelowLast(t, xs, m, bs, j);
      WindowGrows(t, xs, m, bs[j]);
    }
  }

  /** A signalled frame inside the last window stretches that window to
      itself, turning it into a fade. */
  lemma GreedyMerge(t: real, xs: seq<FrameInput>, m: nat, bs: seq<Boundary>)
    requires m < |xs| && Signalled(t, xs, m)
    requires Greedy(t, xs, m, bs)
    requires |bs| > 0 && m - bs[|bs| - 1].start < MergeWindow
    ensures Greedy(t, xs, m + 1, DropLast(bs) + [Fade(bs[|bs| - 1].start, m)])
  {
    var k := |bs|;
    var last := bs[k - 1];
    var fade := Fade(last.start, m);
    var rs := DropLast(bs) + [fade];
    assert WindowFits(t, xs, m, last);
    assert WindowFits(t, xs, m + 1, fade);
    EarlierWindowsGrow(t, xs, m, bs);
    assert AllWindowsFit(t, xs, m + 1, rs) by {
      assert forall j :: 0 <= j < k - 1 ==> rs[j] == bs[j];
    }
    assert AllGaps(t, xs, rs) by {
      forall j | 0 < j < k
        ensures Gap(t, xs, rs[j - 1], rs[j])
      {
        assert rs[j - 1] == bs[j - 1] && rs[j].start == bs[j].start;
        assert Gap(t, xs, bs[j - 1], bs[j]);
      }
    }
  }

  /** A signalled frame past the last window opens a new window: a cut. */
  lemma GreedyNewCut(t: real, xs: seq<FrameInput>, m: nat, bs: seq<Boundary>)
    requires m < |xs| && Signalled(t, xs, m)
    requires Greedy(t, xs, m, bs)
    requires |bs| > 0 ==> m - bs[|bs| - 1].start >= MergeWindow
    ensures Greedy(t, xs, m + 1, bs + [Cut(m)])
  {
    var rs := bs + [Cut(m)];
    if |bs| > 0 {
      EarlierWindowsGrow(t, xs, m, bs);
      WindowGrows(t, xs, m, bs[|bs| - 1]);
    }
    assert AllWindowsFit(t, xs, m + 1, rs) by {
      assert forall j :: 0 <= j < |bs| ==> rs[j] == bs[j];
    }
    assert AllGaps(t, xs, rs) by {
      forall j | 0 < j < |rs|
        ensures Gap(t, xs, rs[j - 1], rs[j])
      {
        if j < |bs| {
          assert rs[j - 1] == bs[j - 1] && rs[j] == bs[j];
          assert Gap(t, xs, bs[j - 1], bs[j]);
        }
      }
    }
  }

  /** In a greedy list, every window's `MergeWindow` frames are over once the
      last window has started, so adding a frame past the last window's
      start does not disturb them. */
  lemma StartsBelowLast(t: real, xs: seq<FrameInput>, n: nat, bs: seq<Boundary>, j: nat)
    requires Greedy(t, xs, n, bs)
    requires j < |bs|
    ensures bs[j].start <= bs[|bs| - 1].start
    ensures j < |bs| - 1 ==> bs[j].start + MergeWindow <= bs[|bs| - 1].start
  {
    StartsIncreasing(t, xs, n, bs);
  }

  /** Start frames of a greedy list are strictly increasing, in fact at
      least `MergeWindow` apart. */
  lemma StartsIncreasing(t: real, xs: seq<FrameInput>, n: nat, bs: seq<Boundary>)
    requires Greedy(t, xs, n, bs)
    ensures forall i, j :: 0 <= i < j < |bs| ==> bs[i].start + MergeWindow <= bs[j].start
  {
    forall i, j | 0 <= i < j < |bs|
      ensures bs[i].start + MergeWindow <= bs[j].start
    {
      StartsApart(t, xs, n, bs, i, j);
    }
  }

  lemma {:induction false} StartsApart(t: real, xs: seq<FrameInput>, n: nat, bs: seq<Boundary>, i: nat, j: nat)
    requires Greedy(t, xs, n, bs)
    requires i < j < |bs|
    ensures bs[i].start + MergeWindow <= bs[j].start
    decreases j - i
  {
    if i + 1 < j {
      StartsApart(t, xs, n, bs, i + 1, j);
    }
    assert Gap(t, xs, bs[i + 1 - 1], bs[i + 1]);
  }
}

module RunFacts {
  import opened Options
  import opened Shots
  import opened Detector
  import opened Runs

  /** The greedy partition is unique: the signalled frames determine the
      boundary list completely. */
  lemma GreedyUnique(t: real, xs: seq<FrameInput>, n: nat, bs: seq<Boundary>, cs: seq<Boundary>)
    requires Greedy(t, xs, n, bs) && Greedy(t, xs, n, cs)
    ensures bs == cs
  {
    StartsAgree(t, xs, n, bs, cs);
    if |bs| < |cs| {
      ExtraWindowImpossible(t, xs, n, bs, cs);
    } else if |cs| < |bs| {
      ExtraWindowImpossible(t, xs, n, cs, bs);
    }
    forall j | 0 <= j < |bs|
      ensures bs[j] == cs[j]
    {
      ReachAgrees(t, xs, n, bs[j], cs[j]);
    }
  }

  /** Two greedy lists agree on the start of every window both have. */
  lemma StartsAgree(t: real, xs: seq<FrameInput>, n: nat, bs: seq<Boundary>, cs: seq<Boundary>)
    requires Greedy(t, xs, n, bs) && Greedy(t, xs, n, cs)
    ensures forall j :: 0 <= j < |bs| && j < |cs| ==> bs[j].start == cs[j].start
  {
    forall j | 0 <= j < |bs| && j < |cs|
      ensures bs[j].start == cs[j].start
    {
      StartAgrees(t, xs, n, bs, cs, j);
    }
  }

  lemma {:induction false} StartAgrees(t: real, xs: seq<FrameInput>, n: nat, bs: seq<Boundary>, cs: seq<Boundary>, j: nat)
    requires Greedy(t, xs, n, bs) && Greedy(t, xs, n, cs)
    requires j < |bs| && j < |cs|
    ensures bs[j].start == cs[j].start
  {
    if j > 0 {
      StartAgrees(t, xs, n, bs, cs, j - 1);
      // each start is the first signalled frame past the previous window
      var p := bs[j - 1].start + MergeWindow;
      assert WindowFits(t, xs, n, bs[j]) && WindowFits(t, xs, n, cs[j]);
      QuietAt(t, xs, p, cs[j].start, bs[j].start);
      QuietAt(t, xs, p, bs[j].start, cs[j].start);
    }
  }

  /** One instance of `Quiet`, stated so that it can be used where the
      instance is not known to lie in the range. */
  lemma QuietAt(t: real, xs: seq<FrameInput>, lo: int, hi: int, i: int)
    requires Quiet(t, xs, lo, hi)
    ensures lo <= i < hi && 0 <= i < |xs| ==> !Signalled(t, xs, i)
  {
  }

  /** A window past the first one starts on a signalled frame before `n`
      that lies past the previous window. */
  lemma LaterWindow(t: real, xs: seq<FrameInput>, n: nat, cs: seq<Boundary>, k: nat)
    requires Greedy(t, xs, n, cs)
    ensures 0 < k < |cs| ==>
      && cs[k - 1].start + MergeWindow <= cs[k].start < n
      && Signalled(t, xs, cs[k].start)
  {
    if 0 < k < |cs| {
      assert WindowFits(t, xs, n, cs[k]);
    }
  }

  /** A greedy list cannot have a window more than another greedy list for
      the same frames: that window would start on a signalled frame the
      shorter list leaves uncovered. */
  lemma ExtraWindowImpossible(t: real, xs: seq<FrameInput>, n: nat, bs: seq<Boundary>, cs: seq<Boundary>)
    requires Greedy(t, xs, n, bs) && Greedy(t, xs, n, cs)
    requires forall j :: 0 <= j < |bs| && j < |cs| ==> bs[j].start == cs[j].start
    ensures |cs| <= |bs|
  {
    var k := |bs|;
    LaterWindow(t, xs, n, cs, k);
    var lastStart := if k > 0 then bs[k - 1].start else 0;
    var extra := if 0 < k < |cs| then cs[k].start else 0;
    QuietAt(t, xs, lastStart + MergeWindow, n, extra);
  }

  /** Two windows with the same start over the same frames are the same
      boundary: each reaches to the last signalled frame of the window. */
  lemma ReachAgrees(t: real, xs: seq<FrameInput>, n: nat, b: Boundary, c: Boundary)
    requires n <= |xs|
    requires WindowFits(t, xs, n, b) && WindowFits(t, xs, n, c)
    requires b.start == c.start
    ensures b == c
  {
    var hi := Min(b.start + MergeWindow, n);
    QuietAt(t, xs, Reach(b) + 1, hi, Reach(c));
    QuietAt(t, xs, Reach(c) + 1, hi, Reach(b));
  }

  /** The last boundary reaches to the most recent signalled frame. */
  lemma LatestSignal(t: real, xs: seq<FrameInput>, n: nat, bs: seq<Boundary>)
    requires Greedy(t, xs, n, bs) && n > 0
    ensures |bs| > 0
    ensures Signalled(t, xs, Reach(bs[|bs| - 1]))
    ensures forall i: nat :: Reach(bs[|bs| - 1]) < i < n ==> !Signalled(t, xs, i)
  {
    var last := bs[|bs| - 1];
    assert WindowFits(t, xs, n, last);
    forall i: nat | Reach(last) < i < n
      ensures !Signalled(t, xs, i)
    {
      if i < last.start + MergeWindow {
        assert i < Min(last.start + MergeWindow, n);
      }
    }
  }

  /** Boundaries of a run are ordered by start, each start at least
      `MergeWindow` frames after the one before, and every boundary (a
      fade's end included) lies at or before the last processed frame. */
  lemma RunOrdered(config: Config, xs: seq<FrameInput>, n: nat)
    requires n <= |xs|
    ensures var bs := Feed(config, xs, n).boundaries;
      && (forall i, j :: 0 <= i < j < |bs| ==> bs[i].start + MergeWindow <= bs[j].start)
      && (forall j :: 0 <= j < |bs| ==> bs[j].start <= Reach(bs[j]) < n)
      && (forall j :: 0 <= j < |bs| ==> bs[j].Fade? ==> bs[j].start < bs[j].end)
  {
    RunIsGreedy(config, xs, n);
    GreedyOrdered(config.threshold, xs, n, Feed(config, xs, n).boundaries);
  }

  /** The order a greedy partition puts its windows in. */
  lemma GreedyOrdered(t: real, xs: seq<FrameInput>, n: nat, bs: seq<Boundary>)
    requires Greedy(t, xs, n, bs)
    ensures forall i, j :: 0 <= i < j < |bs| ==> bs[i].start + MergeWindow <= bs[j].start
    ensures forall j :: 0 <= j < |bs| ==> bs[j].start <= Reach(bs[j]) < n
    ensures forall j :: 0 <= j < |bs| ==> bs[j].Fade? ==> bs[j].start < bs[j].end
  {
    StartsIncreasing(t, xs, n, bs);
    forall j | 0 <= j < |bs|
      ensures bs[j].start <= Reach(bs[j]) < n
      ensures bs[j].Fade? ==> bs[j].start < bs[j].end
    {
      assert WindowFits(t, xs, n, bs[j]);
    }
  }

  /** Keyframes track boundaries: with capture on there is one keyframe per
      boundary, taken at the boundary's latest frame, of that very frame;
      with capture off there are none. */
  predicate KeyframesTrack(config: Config, xs: seq<FrameInput>, n: nat, s: State)
    requires n <= |xs|
  {
    if config.findKeyframes then Tracks(xs, n, s.boundaries, s.keyframes)
    else s.keyframes == []
  }

  /** `ks` holds one keyframe per boundary of `bs`, each of the boundary's
      latest frame, among the first `n` frames. */
  predicate Tracks(xs: seq<FrameInput>, n: nat, bs: seq<Boundary>, ks: seq<Keyframe>)
    requires n <= |xs|
  {
    && |ks| == |bs|
    && forall j :: 0 <= j < |ks| ==>
         && ks[j].frame == Reach(bs[j])
         && ks[j].frame < n
         && ks[j].id == xs[ks[j].frame].id
  }

  lemma {:induction false} RunKeyframes(config: Config, xs: seq<FrameInput>, n: nat)
    requires n <= |xs|
    ensures KeyframesTrack(config, xs, n, Feed(config, xs, n))
  {
    if n > 0 {
      RunKeyframes(config, xs, n - 1);
      StepKeepsKeyframes(config, xs, Feed(config, xs, n - 1));
    }
  }

  /** One frame keeps the keyframes in step with the boundaries. */
  lemma StepKeepsKeyframes(config: Config, xs: seq<FrameInput>, s: State)
    requires s.frameCounter < |xs| && s.config == config
    requires KeyframesTrack(config, xs, s.frameCounter, s)
    ensures KeyframesTrack(config, xs, s.frameCounter + 1, Step(s, xs[s.frameCounter]))
  {
    var m := s.frameCounter;
    var r := Step(s, xs[m]);
    if config.findKeyframes {
      if !Signals(s, xs[m].distance) {
        assert r.boundaries == s.boundaries && r.keyframes == s.keyframes;
        TracksLater(xs, m, s.boundaries, s.keyframes);
      } else if Merges(s) {
        TracksMerge(xs, m, s.boundaries, s.keyframes);
      } else {
        TracksCut(xs, m, s.boundaries, s.keyframes);
      }
    }
  }

  lemma TracksLater(xs: seq<FrameInput>, n: nat, bs: seq<Boundary>, ks: seq<Keyframe>)
    requires n < |xs| && Tracks(xs, n, bs, ks)
    ensures Tracks(xs, n + 1, bs, ks)
  {
  }

  /** Replacing the last boundary by a fade reaching frame `m`, and the last
      keyframe by one of frame `m`, keeps the lists in step. */
  lemma TracksMerge(xs: seq<FrameInput>, m: nat, bs: seq<Boundary>, ks: seq<Keyframe>)
    requires m < |xs| && Tracks(xs, m, bs, ks) && |bs| > 0
    ensures Tracks(xs, m + 1, DropLast(bs) + [Fade(bs[|bs| - 1].start, m)],
                   DropLast(ks) + [Keyframe(m, xs[m].id)])
  {
  }

  /** Appending a cut at frame `m`, and a keyframe of frame `m`, keeps the
      lists in step. */
  lemma TracksCut(xs: seq<FrameInput>, m: nat, bs: seq<Boundary>, ks: seq<Keyframe>)
    requires m < |xs| && Tracks(xs, m, bs, ks)
    ensures Tracks(xs, m + 1, bs + [Cut(m)], ks + [Keyframe(m, xs[m].id)])
  {
  }

  /** With capture on, the last keyframe is a snapshot of the most recent
      signalled frame. */
  lemma LastKeyframeIsLatestSignal(config: Config, xs: seq<FrameInput>, n: nat)
    requires n <= |xs| && n > 0 && config.findKeyframes
    ensures var s := Feed(config, xs, n);
      && LastKeyframe(s).Some?
      && LastKeyframe(s).value.frame < n
      && Signalled(config.threshold, xs, LastKeyframe(s).value.frame)
      && LastKeyframe(s).value.id == xs[LastKeyframe(s).value.frame].id
      && forall i: nat :: LastKeyframe(s).value.frame < i < n ==> !Signalled(config.threshold, xs, i)
  {
    var s := Feed(config, xs, n);
    RunIsGreedy(config, xs, n);
    RunKeyframes(config, xs, n);
    LatestSignal(config.threshold, xs, n, s.boundaries);
  }

  /** With logging on, the distance log holds one entry per frame, in frame
      order: 0 for the first frame, the supplied distance for every later
      one. With logging off it stays empty. */
  lemma {:induction false} RunDifferentials(config: Config, xs: seq<FrameInput>, n: nat)
    requires n <= |xs|
    ensures var d := Feed(config, xs, n).differentials;
      if config.storeAllDiffs then
        && |d| == n
        && (n > 0 ==> d[0] == 0.0)
        && forall i :: 0 < i < n ==> d[i] == xs[i].distance
      else d == []
  {
    if n > 0 {
      var m := n - 1;
      RunDifferentials(config, xs, m);
      var s := Feed(config, xs, m);
      assert Feed(config, xs, n) == Step(s, xs[m]);
    }
  }

  /** A listener has been told of boundary `b`. */
  predicate Announced(es: seq<Event>, b: Boundary)
  {
    exists i :: 0 <= i < |es| && es[i].ShotDetected? && es[i].boundary == b
  }

  /** Every cut in the boundary list has been announced to the listeners. */
  predicate CutsAnnounced(s: State)
  {
    CutsIn(s.boundaries, s.events)
  }

  /** Every cut of `bs` has a shot event in `es`. */
  predicate CutsIn(bs: seq<Boundary>, es: seq<Event>)
  {
    forall j :: 0 <= j < |bs| && bs[j].Cut? ==> Announced(es, bs[j])
  }

  lemma {:induction false} RunCutsAnnounced(config: Config, xs: seq<FrameInput>, n: nat)
    requires n <= |xs|
    ensures CutsAnnounced(Feed(config, xs, n))
  {
    if n > 0 {
      RunCutsAnnounced(config, xs, n - 1);
      StepKeepsCutsAnnounced(Feed(config, xs, n - 1), xs[n - 1]);
    }
  }

  /** One frame keeps every cut announced: an earlier event stays in the
      log, and a new cut is announced by the frame that opens it. */
  lemma StepKeepsCutsAnnounced(s: State, x: FrameInput)
    requires CutsAnnounced(s)
    ensures CutsAnnounced(Step(s, x))
  {
    var r := Step(s, x);
    var logged := s.events + DifferentialEvents(s, x);
    CutsInLongerLog(s.boundaries, s.events, DifferentialEvents(s, x));
    if !Signals(s, x.distance) {
      CutsInLongerLog(s.boundaries, logged, r.events[|logged|..]);
      assert logged + r.events[|logged|..] == r.events;
    } else if Merges(s) {
      CutsInAfterMerge(s.boundaries, logged, s.frameCounter);
    } else {
      CutsInAfterCut(s.boundaries, logged, s.frameCounter, NewKeyframe(s, x));
    }
  }

  /** Events added to the log never un-announce a cut. */
  lemma CutsInLongerLog(bs: seq<Boundary>, es: seq<Event>, more: seq<Event>)
    requires CutsIn(bs, es)
    ensures CutsIn(bs, es + more)
  {
    forall j | 0 <= j < |bs| && bs[j].Cut?
      ensures Announced(es + more, bs[j])
    {
      var i :| 0 <= i < |es| && es[i].ShotDetected? && es[i].boundary == bs[j];
      assert (es + more)[i] == es[i];
    }
  }

  /** Turning the last boundary into a fade leaves only earlier cuts. */
  lemma CutsInAfterMerge(bs: seq<Boundary>, es: seq<Event>, n: nat)
    requires CutsIn(bs, es) && |bs| > 0
    ensures CutsIn(DropLast(bs) + [Fade(bs[|bs| - 1].start, n)], es)
  {
    var rs := DropLast(bs) + [Fade(bs[|bs| - 1].start, n)];
    forall j | 0 <= j < |rs| && rs[j].Cut?
      ensures Announced(es, rs[j])
    {
      assert rs[j] == bs[j];
    }
  }

  /** A cut appended together with its shot event is announced. */
  lemma CutsInAfterCut(bs: seq<Boundary>, es: seq<Event>, n: nat, kf: Option<Keyframe>)
    requires CutsIn(bs, es)
    ensures CutsIn(bs + [Cut(n)], es + [ShotDetected(Cut(n), kf)])
  {
    var rs, fs := bs + [Cut(n)], es + [ShotDetected(Cut(n), kf)];
    CutsInLongerLog(bs, es, [ShotDetected(Cut(n), kf)]);
    forall j | 0 <= j < |rs| && rs[j].Cut?
      ensures Announced(fs, rs[j])
    {
      if j == |bs| {
        assert fs[|es|] == ShotDetected(Cut(n), kf);
      } else {
        assert rs[j] == bs[j];
      }
    }
  }

  /** On a frame that does not signal, a shot event is fired exactly when
      the previous frame signalled and the last boundary is a fade; the
      event carries that fade and the last keyframe. */
  lemma RunFiresPendingFade(config: Config, xs: seq<FrameInput>, n: nat)
    requires n < |xs| && !Signalled(config.threshold, xs, n)
    ensures var s := Feed(config, xs, n);
      Feed(config, xs, n + 1).events
        == s.events + DifferentialEvents(s, xs[n])
           + (if Signalled(config.threshold, xs, n - 1) && s.boundaries[|s.boundaries| - 1].Fade?
              then [ShotDetected(s.boundaries[|s.boundaries| - 1], LastKeyframe(s))]
              else [])
  {
    var s := Feed(config, xs, n);
    RunIsGreedy(config, xs, n);
    LatestSignal(config.threshold, xs, n, s.boundaries);
    assert Feed(config, xs, n + 1) == Step(s, xs[n]);
  }
}
