/** Shot boundaries and keyframes. A timecode is reduced to its frame number,
    since the detector only ever reads a timecode's frame number and compares
    timecodes for equality. */
module Shots {

  /** Index of a frame within the video, counted from 0. */
  type FrameNumber = nat

  /** Opaque identity of a frame snapshot (the clone a keyframe holds). */
  type FrameId = nat

  /** A shot boundary: an instantaneous cut, or a fade spanning several
      frames. The start of a fade is the frame of the cut it grew from. */
  datatype Boundary =
    | Cut(start: FrameNumber)
    | Fade(start: FrameNumber, end: FrameNumber)

  /** A representative snapshot taken at a boundary's latest frame. */
  datatype Keyframe = Keyframe(frame: FrameNumber, id: FrameId)

  /** The latest frame a boundary covers: a cut's only frame, a fade's end. */
  function Reach(b: Boundary): FrameNumber
  {
    match b
    case Cut(s) => s
    case Fade(_, e) => e
  }

  /** The boundary that results when a further boundary frame `f` joins `b`:
      a fade is stretched to end at `f`, and a cut turns into a fade from its
      own frame to `f`. */
  function Extend(b: Boundary, f: FrameNumber): (r: Boundary)
    ensures r.Fade? && r.start == b.start && Reach(r) == f
    ensures b.Fade? ==> r == b.(end := f)
  {
    Fade(b.start, f)
  }
}
