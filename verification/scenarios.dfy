/** Whole-stream consequences of the model: the first frame, a stream with
    no change, and small concrete streams that show how fades are merged and
    when their deferred event is (or is not) fired. */
module Scenarios {
  import opened Options
  import opened Shots
  import opened Detector
  import opened Runs
  import opened RunFacts

  /** A fresh detector configured through its setters is the detector with
      that configuration; a new detector uses threshold 5000, captures
      keyframes and does not log distances. */
  lemma ConfigureFresh(t: real, k: bool, d: bool)
    ensures SetStoreAllDifferentials(SetFindKeyframes(SetThreshold(Init(DefaultConfig), t), k), d)
            == Init(Config(t, k, d))
    ensures DefaultConfig.threshold == 5000.0
    ensures DefaultConfig.findKeyframes && !DefaultConfig.storeAllDiffs
  {
  }

  /** The first frame always yields a cut at frame 0, announced at once
      (with its keyframe when capture is on), whatever its distance. */
  lemma FirstFrame(config: Config, xs: seq<FrameInput>)
    requires |xs| > 0
    ensures var s := Feed(config, xs, 1);
      && s.boundaries == [Cut(0)]
      && s.events == DifferentialEvents(Init(config), xs[0])
                     + [ShotDetected(Cut(0), NewKeyframe(Init(config), xs[0]))]
      && (config.storeAllDiffs ==> s.differentials == [0.0])
  {
  }

  /** A stream whose every later frame stays at or below the threshold has
      exactly one boundary: the cut at frame 0. */
  lemma CalmStream(config: Config, xs: seq<FrameInput>)
    requires |xs| > 0
    requires forall i :: 0 < i < |xs| ==> xs[i].distance <= config.threshold
    ensures Run(config, xs).boundaries == [Cut(0)]
  {
    var t := config.threshold;
    var bs := Run(config, xs).boundaries;
    RunIsGreedy(config, xs, |xs|);
    // the only signalled frame is frame 0
    assert forall i: nat :: 0 < i < |xs| ==> !Signalled(t, xs, i);
    LaterWindow(t, xs, |xs|, bs, 1);
    assert |bs| == 1;
    assert WindowFits(t, xs, |xs|, bs[0]);
  }

  /** One more frame of a run is one more step. */
  lemma FeedUnroll(config: Config, xs: seq<FrameInput>, n: nat)
    requires n < |xs|
    ensures Feed(config, xs, n + 1) == Step(Feed(config, xs, n), xs[n])
  {
  }

  /** Threshold 100; distances 150, 120 after the first frame, then 40, 10.
      Frames 0 to 2 merge into one fade, announced on frame 3. */
  lemma FadeMergeExample()
    ensures var xs := [FrameInput(0.0, 10), FrameInput(150.0, 11), FrameInput(120.0, 12),
                       FrameInput(40.0, 13), FrameInput(10.0, 14)];
      var s := Run(Config(100.0, true, false), xs);
      && s.boundaries == [Fade(0, 2)]
      && s.keyframes == [Keyframe(2, 12)]
      && s.events == [ShotDetected(Cut(0), Some(Keyframe(0, 10))),
                      ShotDetected(Fade(0, 2), Some(Keyframe(2, 12)))]
  {
    var xs := [FrameInput(0.0, 10), FrameInput(150.0, 11), FrameInput(120.0, 12),
               FrameInput(40.0, 13), FrameInput(10.0, 14)];
    var c := Config(100.0, true, false);
    FeedUnroll(c, xs, 0);
    FeedUnroll(c, xs, 1);
    FeedUnroll(c, xs, 2);
    FeedUnroll(c, xs, 3);
    FeedUnroll(c, xs, 4);
    FadeMergeFrames(c, xs[0], xs[1], xs[2], xs[3], xs[4]);
  }

  lemma FadeMergeFrames(c: Config, x0: FrameInput, x1: FrameInput, x2: FrameInput,
                        x3: FrameInput, x4: FrameInput)
    requires c == Config(100.0, true, false)
    requires x0 == FrameInput(0.0, 10) && x1 == FrameInput(150.0, 11) && x2 == FrameInput(120.0, 12)
    requires x3 == FrameInput(40.0, 13) && x4 == FrameInput(10.0, 14)
    ensures var e0 := ShotDetected(Cut(0), Some(Keyframe(0, 10)));
      var e3 := ShotDetected(Fade(0, 2), Some(Keyframe(2, 12)));
      Step(Step(Step(Step(Step(Init(c), x0), x1), x2), x3), x4)
        == State(c, true, 5, false, [Fade(0, 2)], [Keyframe(2, 12)], [], [e0, e3])
  {
    var e0 := ShotDetected(Cut(0), Some(Keyframe(0, 10)));
    var s2 := State(c, true, 2, true, [Fade(0, 1)], [Keyframe(1, 11)], [], [e0]);
    var e3 := ShotDetected(Fade(0, 2), Some(Keyframe(2, 12)));
    var s4 := State(c, true, 4, false, [Fade(0, 2)], [Keyframe(2, 12)], [], [e0, e3]);
    var s1 := State(c, true, 1, true, [Cut(0)], [Keyframe(0, 10)], [], [e0]);
    var s3 := State(c, true, 3, true, [Fade(0, 2)], [Keyframe(2, 12)], [], [e0]);
    StepIs(Init(c), x0, s1);
    StepIs(s1, x1, s2);
    StepIs(s2, x2, s3);
    StepIs(s3, x3, s4);
    StepIs(s4, x4, s4.(frameCounter := 5));
  }

  /** Signals on frames 0 to 4 with a calm frame 5: frames 0 to 3 form a
      fade and frame 4, four frames after its start, opens a new cut. The
      fade is in the boundary list but no listener is ever told of it,
      because the calm frame follows the cut, not the fade. */
  lemma FadeFollowedByCutIsNotAnnounced()
    ensures var xs := [FrameInput(0.0, 0), FrameInput(9.0, 1), FrameInput(9.0, 2),
                       FrameInput(9.0, 3), FrameInput(9.0, 4), FrameInput(0.0, 5)];
      var s := Run(Config(1.0, false, false), xs);
      && s.boundaries == [Fade(0, 3), Cut(4)]
      && s.events == [ShotDetected(Cut(0), None), ShotDetected(Cut(4), None)]
  {
    var xs := [FrameInput(0.0, 0), FrameInput(9.0, 1), FrameInput(9.0, 2),
               FrameInput(9.0, 3), FrameInput(9.0, 4), FrameInput(0.0, 5)];
    var c := Config(1.0, false, false);
    FeedUnroll(c, xs, 0);
    FeedUnroll(c, xs, 1);
    FeedUnroll(c, xs, 2);
    FeedUnroll(c, xs, 3);
    FeedUnroll(c, xs, 4);
    FeedUnroll(c, xs, 5);
    FadeThenCutFrames(c, xs[0], xs[1], xs[2], xs[3], xs[4], xs[5]);
  }

  lemma FadeThenCutFrames(c: Config, x0: FrameInput, x1: FrameInput, x2: FrameInput,
                          x3: FrameInput, x4: FrameInput, x5: FrameInput)
    requires c == Config(1.0, false, false)
    requires x0 == FrameInput(0.0, 0) && x1 == FrameInput(9.0, 1) && x2 == FrameInput(9.0, 2)
    requires x3 == FrameInput(9.0, 3) && x4 == FrameInput(9.0, 4) && x5 == FrameInput(0.0, 5)
    ensures var e0 := ShotDetected(Cut(0), None);
      var e4 := ShotDetected(Cut(4), None);
      Step(Step(Step(Step(Step(Step(Init(c), x0), x1), x2), x3), x4), x5)
        == State(c, true, 6, false, [Fade(0, 3), Cut(4)], [], [], [e0, e4])
  {
    var s3 := State(c, true, 3, true, [Fade(0, 2)], [], [], [ShotDetected(Cut(0), None)]);
    FadeThenCutOpening(c, x0, x1, x2);
    FadeThenCutClosing(s3, x3, x4, x5);
  }

  /** Frames 0 to 2 of the stream above: a cut stretched into a fade. */
  lemma FadeThenCutOpening(c: Config, x0: FrameInput, x1: FrameInput, x2: FrameInput)
    requires c == Config(1.0, false, false)
    requires x0 == FrameInput(0.0, 0) && x1 == FrameInput(9.0, 1) && x2 == FrameInput(9.0, 2)
    ensures Step(Step(Step(Init(c), x0), x1), x2)
            == State(c, true, 3, true, [Fade(0, 2)], [], [], [ShotDetected(Cut(0), None)])
  {
    var e0 := ShotDetected(Cut(0), None);
    var s1 := State(c, true, 1, true, [Cut(0)], [], [], [e0]);
    var s2 := State(c, true, 2, true, [Fade(0, 1)], [], [], [e0]);
    StepIs(Init(c), x0, s1);
    StepIs(s1, x1, s2);
  }

  /** Frames 3 to 5: the fade reaches frame 3, frame 4 opens a cut and the
      calm frame 5 announces nothing. */
  lemma FadeThenCutClosing(s3: State, x3: FrameInput, x4: FrameInput, x5: FrameInput)
    requires s3 == State(Config(1.0, false, false), true, 3, true, [Fade(0, 2)], [], [],
                         [ShotDetected(Cut(0), None)])
    requires x3 == FrameInput(9.0, 3) && x4 == FrameInput(9.0, 4) && x5 == FrameInput(0.0, 5)
    ensures var e0 := ShotDetected(Cut(0), None);
      var e4 := ShotDetected(Cut(4), None);
      Step(Step(Step(s3, x3), x4), x5)
        == State(s3.config, true, 6, false, [Fade(0, 3), Cut(4)], [], [], [e0, e4])
  {
    var e0 := ShotDetected(Cut(0), None);
    var e4 := ShotDetected(Cut(4), None);
    var s4 := s3.(frameCounter := 4, boundaries := [Fade(0, 3)]);
    var s5 := s3.(frameCounter := 5, boundaries := [Fade(0, 3), Cut(4)], events := [e0, e4]);
    StepIs(s3, x3, s4);
    StepIs(s4, x4, s5);
  }

  /** Signals on frames 0, 1 and 3 with calm frames 2 and 4: the fade is
      announced on frame 2 as ending at 1, stretched by frame 3 (still within
      four frames of its start) and announced again on frame 4 as ending at 3. */
  lemma StretchedFadeIsAnnouncedTwice()
    ensures var xs := [FrameInput(0.0, 0), FrameInput(9.0, 1), FrameInput(0.0, 2),
                       FrameInput(9.0, 3), FrameInput(0.0, 4)];
      var s := Run(Config(1.0, false, false), xs);
      && s.boundaries == [Fade(0, 3)]
      && s.events == [ShotDetected(Cut(0), None), ShotDetected(Fade(0, 1), None),
                      ShotDetected(Fade(0, 3), None)]
  {
    var xs := [FrameInput(0.0, 0), FrameInput(9.0, 1), FrameInput(0.0, 2),
               FrameInput(9.0, 3), FrameInput(0.0, 4)];
    var c := Config(1.0, false, false);
    FeedUnroll(c, xs, 0);
    FeedUnroll(c, xs, 1);
    FeedUnroll(c, xs, 2);
    FeedUnroll(c, xs, 3);
    FeedUnroll(c, xs, 4);
    StretchedFadeFrames(c, xs[0], xs[1], xs[2], xs[3], xs[4]);
  }

  lemma StretchedFadeFrames(c: Config, x0: FrameInput, x1: FrameInput, x2: FrameInput,
                            x3: FrameInput, x4: FrameInput)
    requires c == Config(1.0, false, false)
    requires x0 == FrameInput(0.0, 0) && x1 == FrameInput(9.0, 1) && x2 == FrameInput(0.0, 2)
    requires x3 == FrameInput(9.0, 3) && x4 == FrameInput(0.0, 4)
    ensures var e0 := ShotDetected(Cut(0), None);
      var e2 := ShotDetected(Fade(0, 1), None);
      var e4 := ShotDetected(Fade(0, 3), None);
      Step(Step(Step(Step(Step(Init(c), x0), x1), x2), x3), x4)
        == State(c, true, 5, false, [Fade(0, 3)], [], [], [e0, e2, e4])
  {
    var e0 := ShotDetected(Cut(0), None);
    var e2 := ShotDetected(Fade(0, 1), None);
    var s1 := State(c, true, 1, true, [Cut(0)], [], [], [e0]);
    var s2 := State(c, true, 2, true, [Fade(0, 1)], [], [], [e0]);
    var s3 := State(c, true, 3, false, [Fade(0, 1)], [], [], [e0, e2]);
    var s4 := State(c, true, 4, true, [Fade(0, 3)], [], [], [e0, e2]);
    StepIs(Init(c), x0, s1);
    StepIs(s1, x1, s2);
    StepIs(s2, x2, s3);
    StepIs(s3, x3, s4);
  }

  /** Names the result of one step, so that a chain of steps is checked one
      step at a time. */
  lemma StepIs(s: State, x: FrameInput, r: State)
    requires Step(s, x) == r
    ensures Step(s, x) == r
  {
  }
}
