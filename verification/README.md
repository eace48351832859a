# Video shot detector: the per-frame boundary state machine

This project models the shot-boundary logic of OpenIMAJ's
`VideoShotDetector` in Dafny. For every frame the detector compares the frame's
histogram with the previous frame's histogram. It then decides one of three outcomes:

- a new shot boundary starts (a **cut**);
- the frame continues the last boundary, which stretches into a **fade**;
- nothing happens.

The detector keeps a list of boundaries and, optionally, a keyframe per
boundary and a log of every frame's distance. It notifies its listeners of
each detected shot. A cut is announced on the frame that opens it. A
fade's announcement is deferred: it fires on a calm frame that directly
follows a frame extending the fade. That is not always the fade's final
extent, and some fades are never announced (see below).

The model is functional:

- `Shots`: boundaries (`Cut(start)` or `Fade(start, end)`) and keyframes
  (`Keyframe(frame, id)`). A timecode is its frame number, and a captured frame
  is an opaque id.
- `Detector`: the detector state (`State`), its configuration and
  setters, the getters, and `Step`, which processes one frame. A frame arrives as a
  `FrameInput(distance, id)`: the histogram distance is an input, not a
  computation. Listener notifications are appended to an `events` log in
  the order they are sent.
- `Runs`: `Feed`/`Run` fold `Step` over a stream starting from a fresh
  detector. `Greedy` is an independent description of the boundary list:
  it is the greedy partition of the signalled frames into windows of four
  frames. `RunIsGreedy` proves that every run produces exactly that list.
- `RunFacts`: further facts about runs. The greedy list is unique. Boundaries
  are ordered. Keyframes track boundaries. The distance log is complete. Every
  cut is announced. The deferred fade event fires under a stated condition.
- `Monotone`: raising the threshold never yields more boundaries.
- `Scenarios`: the first frame, a calm stream, and three small concrete
  streams. The concrete streams are a three-frame fade (threshold 100,
  distances 150, 120, 40, 10 after the first frame) and two behaviours of the deferred fade event that a reader may not
  expect (see below).

Behaviours of the code that the model makes explicit:

- A fade that is immediately followed by a new cut is never announced. The
  calm frame that would announce it comes after the cut
  (`Scenarios.FadeFollowedByCutIsNotAnnounced`).
- A fade that is announced and then stretched again, within four frames of
  its start, is announced twice (`Scenarios.StretchedFadeIsAnnouncedTwice`).

These behaviours follow from the code as written. The model keeps them
and does not treat them as defects.

Two further points of the code that the model keeps:

- The pending-fire flag is cleared on the first calm frame after any
  boundary, whether or not an event fires (lines 302-304). `Detector.Step`
  does the same.
- `reset()` is empty (lines 417-420), so the model has no reset operation.

## Model

Source paths are relative to the repository root; all rows cite
`VideoShotDetector.java`.

| member | source | states |
|---|---|---|
| Detector.SetThreshold | video/video-processing/src/main/java/org/openimaj/video/processing/shotdetector/VideoShotDetector.java:349-352 | the threshold becomes the given value; the other two settings and the rest of the detector are unchanged |
| Detector.SetFindKeyframes | video/video-processing/src/main/java/org/openimaj/video/processing/shotdetector/VideoShotDetector.java:360-363 | keyframe capture is switched to the given value; nothing else changes |
| Detector.SetStoreAllDifferentials | video/video-processing/src/main/java/org/openimaj/video/processing/shotdetector/VideoShotDetector.java:371-374 | distance logging is switched to the given value; nothing else changes |
| Detector.LastShotBoundary | video/video-processing/src/main/java/org/openimaj/video/processing/shotdetector/VideoShotDetector.java:189-194 | no result (Java `null`) exactly when the boundary list is empty; otherwise the list's last element, which is in the list |
| Detector.LastKeyframe | video/video-processing/src/main/java/org/openimaj/video/processing/shotdetector/VideoShotDetector.java:200-205 | no result exactly when the keyframe list is empty; otherwise the list's last element |
| Detector.GetDifferentials | video/video-processing/src/main/java/org/openimaj/video/processing/shotdetector/VideoShotDetector.java:380-387 | the copy has the log's length and the log's value at every index, so insertion order is kept |
| Detector.Step | video/video-processing/src/main/java/org/openimaj/video/processing/shotdetector/VideoShotDetector.java:214-324 | per frame: the counter rises by one. With logging on, the distance log gains this frame's distance (0 on the first frame) and a distance event is sent; with logging off, neither happens. A signalled merge keeps the boundary count, turns the last boundary into a fade from the same start to this frame, replaces the last keyframe when capture is on, and fires no shot event. Any other signalled frame appends one cut, one keyframe when capture is on, and exactly one shot event, which carries that keyframe or none. A calm frame leaves boundaries and keyframes alone, clears the pending flag, and fires exactly when a fade ends on the previous frame |
| Detector.StepPreservesOrdered | video/video-processing/src/main/java/org/openimaj/video/processing/shotdetector/VideoShotDetector.java:245-323 | boundary starts strictly increase, and every boundary (a fade's end included) lies before the frame counter; every frame preserves this |
| Detector.StepChangesBoundariesIff | video/video-processing/src/main/java/org/openimaj/video/processing/shotdetector/VideoShotDetector.java:223-237 | the boundary list changes exactly when there is no previous histogram or the distance is strictly above the threshold; a distance equal to the threshold changes nothing |
| Shots.Extend | video/video-processing/src/main/java/org/openimaj/video/processing/shotdetector/VideoShotDetector.java:257-270 | merging yields a fade with the old start that reaches the current frame; an existing fade only has its end changed |
| Options.DropLast | video/video-processing/src/main/java/org/openimaj/video/processing/shotdetector/VideoShotDetector.java:264-277 | removing the last element keeps every earlier element in place; an empty list stays empty |
| Runs.Feed | video/video-processing/src/main/java/org/openimaj/video/processing/shotdetector/VideoShotDetector.java:322-323 | after n frames the counter is n, the configuration is unchanged, and a previous histogram exists exactly when n > 0 |
| Runs.NextBoundariesShape | video/video-processing/src/main/java/org/openimaj/video/processing/shotdetector/VideoShotDetector.java:249-285 | a merge keeps the list length and every earlier boundary and ends with the fade; a new boundary adds one cut at the end and keeps the rest |
| Runs.StepInRun | video/video-processing/src/main/java/org/openimaj/video/processing/shotdetector/VideoShotDetector.java:237-304 | inside a run, a frame signals exactly when it is frame 0 or its distance exceeds the threshold; the flag that an event is owed is set exactly when the frame signalled |
| Runs.RunIsGreedy | video/video-processing/src/main/java/org/openimaj/video/processing/shotdetector/VideoShotDetector.java:237-295 | after every prefix of a stream, the boundary list is the greedy partition of the signalled frames into four-frame windows. Each window starts at the first signalled frame past the previous window and reaches its last signalled frame, and it is a cut exactly when it covers one frame. The pending flag holds exactly when the previous frame signalled |
| RunFacts.GreedyUnique | video/video-processing/src/main/java/org/openimaj/video/processing/shotdetector/VideoShotDetector.java:249-250 | at most one boundary list is a greedy partition of given frames, so the signalled frames alone determine the boundaries |
| RunFacts.RunOrdered | video/video-processing/src/main/java/org/openimaj/video/processing/shotdetector/VideoShotDetector.java:245-285 | in every run, starts are at least four frames apart and ascending, each boundary lies before the frame counter, and a fade ends after it starts |
| RunFacts.RunKeyframes | video/video-processing/src/main/java/org/openimaj/video/processing/shotdetector/VideoShotDetector.java:275-289 | with capture on, there is one keyframe per boundary, taken at that boundary's latest frame and showing that frame; with capture off, there are no keyframes |
| RunFacts.LastKeyframeIsLatestSignal | video/video-processing/src/main/java/org/openimaj/video/processing/shotdetector/VideoShotDetector.java:275-289 | with capture on, after at least one frame the last keyframe is of the most recent signalled frame, and no later frame signalled |
| RunFacts.RunDifferentials | video/video-processing/src/main/java/org/openimaj/video/processing/shotdetector/VideoShotDetector.java:223-233 | with logging on, the log holds one entry per frame: 0 for the first frame and the frame's distance after that; with logging off, it is empty |
| RunFacts.RunCutsAnnounced | video/video-processing/src/main/java/org/openimaj/video/processing/shotdetector/VideoShotDetector.java:281-294 | every cut in the boundary list has a shot event in the log |
| RunFacts.RunFiresPendingFade | video/video-processing/src/main/java/org/openimaj/video/processing/shotdetector/VideoShotDetector.java:296-320 | on a calm frame, the only shot event is the last fade with the last keyframe. It fires exactly when the previous frame signalled and the last boundary is a fade |
| Monotone.ThresholdMonotone | video/video-processing/src/main/java/org/openimaj/video/processing/shotdetector/VideoShotDetector.java:237-294 | on the same frames, a higher threshold never yields more boundaries than a lower one |
| Scenarios.ConfigureFresh | video/video-processing/src/main/java/org/openimaj/video/processing/shotdetector/VideoShotDetector.java:84-93 | a new detector uses threshold 5000, captures keyframes and does not log distances; setting all three gives exactly the detector with those settings |
| Scenarios.FirstFrame | video/video-processing/src/main/java/org/openimaj/video/processing/shotdetector/VideoShotDetector.java:223-291 | the first frame, whatever its distance, yields the single boundary Cut(0) and announces it at once with its keyframe; the log records distance 0 |
| Scenarios.CalmStream | video/video-processing/src/main/java/org/openimaj/video/processing/shotdetector/VideoShotDetector.java:237 | if no later frame's distance exceeds the threshold, the run's only boundary is Cut(0) |
| Scenarios.FadeMergeExample | video/video-processing/src/main/java/org/openimaj/video/processing/shotdetector/VideoShotDetector.java:249-316 | threshold 100 and distances 150, 120, 40, 10 after the first frame give one fade from frame 0 to 2, with the keyframe of frame 2; it is announced on frame 3 after the cut at frame 0 |
| Scenarios.FadeFollowedByCutIsNotAnnounced | video/video-processing/src/main/java/org/openimaj/video/processing/shotdetector/VideoShotDetector.java:281-318 | signals on frames 0 to 4 give Fade(0, 3) and Cut(4), but only the two cuts are ever announced |
| Scenarios.StretchedFadeIsAnnouncedTwice | video/video-processing/src/main/java/org/openimaj/video/processing/shotdetector/VideoShotDetector.java:257-316 | signals on frames 0, 1 and 3 announce Fade(0, 1) on frame 2 and Fade(0, 3) on frame 4 |

## Left out

- Histogram extraction (lines 217-221) is left out. `HistogramProcessor` and the `MBFImage` band check are library code. Each frame's distance is an input instead, and every frame is assumed to leave a histogram behind.
- The Euclidean histogram comparison (line 227) is left out, since it is floating-point code inside a library. Distances are `real`. Java `double` rounding, NaN and infinities are not modelled.
- `HrsMinSecFrameTimecode` and the video's frame rate (lines 242, 306) are reduced to frame numbers. The logic only uses a timecode's frame number and equality.
- The constructors' `VideoDisplay` set-up, `process()`, `beforeUpdate`/`afterUpdate` and `processFrame` (lines 106-162, 393-398) are left out. They are UI and framework plumbing that only forward a frame to the boundary check, which `Step` models. The `System.out.println` tracing is also left out.
- `frame.clone()` (lines 278, 289) becomes an opaque frame id.
- Listener registration (lines 170-183) is not modelled. `fireShotDetected` and `fireDifferentialCalculated` (lines 405-415) become entries appended to one event log, which every registered listener receives in the same order. The log records values at the time they are fired. A Java listener holds a reference to a fade whose end may later change.
- `List.remove(Object)` (lines 265, 277) is modelled as removing the last element. The boundary removed is always the last one. For keyframes this relies on `VideoKeyframe` equality being identity; `VideoKeyframe` is not part of this model.
- `reset()` (lines 417-420) is empty in the code, so no reset operation is modelled.
- `getShotBoundaries` and `getKeyframes` (lines 330-342) are not separate members: they return the lists themselves, which are the `boundaries` and `keyframes` fields of `State`.
- Listeners are assumed never to throw. In the code, an exception from a listener ends the boundary check part-way. From `fireDifferentialCalculated` (line 232), the distance stays logged, but the boundary decision and the histogram and counter updates (lines 322-323) are skipped. From `fireShotDetected` (line 291), the cut and keyframe stay appended and the pending flag stays set, but the counter is not advanced. `Detector.Step` always completes, so these partial updates are not modelled.
- The Java `int` frame counter is a `nat`, so its wrap-around after 2^31 frames is not modelled.
- Run-level lemmas start from a fresh detector and keep one configuration for the whole run. The setters can be applied to any state, but the model proves nothing about changing a setting mid-run.
