/** Raising the threshold never yields more boundaries.

    A higher threshold signals on a subset of the frames a lower one
    signals on. The proof follows the two runs side by side and keeps the
    classic "greedy stays ahead" relation between their boundary lists: the
    higher-threshold run has fewer boundaries, or as many with a last
    window that starts no earlier. */
module Monotone {
  import opened Shots
  import opened Detector
  import opened Runs

  /** `hi` is no worse than `lo`: fewer windows, or as many and its last
      window starts at or after the last window of `lo`. */
  predicate StaysAhead(lo: seq<Boundary>, hi: seq<Boundary>)
  {
    || |hi| < |lo|
    || (&& |hi| == |lo|
        && (|hi| > 0 ==> hi[|hi| - 1].start >= lo[|lo| - 1].start))
  }

  /** A frame that signals under the higher threshold signals under the
      lower one too. */
  lemma SignalledAntitone(tLo: real, tHi: real, xs: seq<FrameInput>, i: nat)
    requires tLo <= tHi && i < |xs|
    ensures Signalled(tHi, xs, i) ==> Signalled(tLo, xs, i)
  {
  }

  lemma {:induction false} AheadInRun(lo: Config, hi: Config, xs: seq<FrameInput>, n: nat)
    requires lo.threshold <= hi.threshold
    requires n <= |xs|
    ensures StaysAhead(Feed(lo, xs, n).boundaries, Feed(hi, xs, n).boundaries)
  {
    if n > 0 {
      var m := n - 1;
      AheadInRun(lo, hi, xs, m);
      StepInRun(lo, xs, m);
      StepInRun(hi, xs, m);
      SignalledAntitone(lo.threshold, hi.threshold, xs, m);
      RunIsGreedy(lo, xs, m);
      LastStartBefore(lo.threshold, xs, m, Feed(lo, xs, m).boundaries);
      AheadNext(Feed(lo, xs, m).boundaries, Feed(hi, xs, m).boundaries, m,
                Signalled(lo.threshold, xs, m), Signalled(hi.threshold, xs, m));
    }
  }

  /** One frame keeps the relation, when the frame signals for the higher
      threshold only if it signals for the lower one, and the lower run's
      last window started before this frame. */
  lemma AheadNext(lo: seq<Boundary>, hi: seq<Boundary>, m: nat, sigLo: bool, sigHi: bool)
    requires StaysAhead(lo, hi)
    requires sigHi ==> sigLo
    requires |lo| > 0 ==> lo[|lo| - 1].start < m
    ensures StaysAhead(NextBoundaries(lo, m, sigLo), NextBoundaries(hi, m, sigHi))
  {
    NextBoundariesShape(lo, m, sigLo);
    NextBoundariesShape(hi, m, sigHi);
    var lo', hi' := NextBoundaries(lo, m, sigLo), NextBoundaries(hi, m, sigHi);
    if |hi| < |lo| {
      // the higher run grows by at most one boundary
      assert |hi'| <= |hi| + 1 && |lo| <= |lo'|;
    } else if sigHi && |hi| > 0 && m - hi[|hi| - 1].start < MergeWindow {
      // the higher run merges; the lower run merges too or opens a window
      assert |hi'| == |hi|;
    } else if sigHi {
      // the higher run opens a window at m, so the lower run must too
      assert |lo| > 0 ==> m - lo[|lo| - 1].start >= MergeWindow;
      assert |lo'| == |lo| + 1 && lo'[|lo'| - 1].start == m;
    }
  }

  /** The last window of a greedy list starts before the frame count. */
  lemma LastStartBefore(t: real, xs: seq<FrameInput>, n: nat, bs: seq<Boundary>)
    requires Greedy(t, xs, n, bs)
    ensures |bs| > 0 ==> bs[|bs| - 1].start < n
  {
    if |bs| > 0 {
      assert WindowFits(t, xs, n, bs[|bs| - 1]);
    }
  }

  /** For the same frames, a run under a higher threshold reports at most as
      many boundaries as a run under a lower one. */
  lemma ThresholdMonotone(lo: Config, hi: Config, xs: seq<FrameInput>)
    requires lo.threshold <= hi.threshold
    ensures |Run(hi, xs).boundaries| <= |Run(lo, xs).boundaries|
  {
    AheadInRun(lo, hi, xs, |xs|);
  }
}
