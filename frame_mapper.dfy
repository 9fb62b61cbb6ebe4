/**
 * Conversion between media time (seconds) and frame index for a given frame rate.
 * Times are exact reals: the floating-point rounding of `frame / frameRate` is not modelled.
 */
module FrameMapper {

  /** A committed frame rate. The configuration never settles on a value below 1. */
  type Rate = r: real | r >= 1.0 witness 1.0

  /** JavaScript's `Math.round`: the nearest integer, with halves rounded up. */
  function Round(x: real): (n: int)
    ensures x - 0.5 < n as real <= x + 0.5
  {
    (x + 0.5).Floor
  }

  /** The frame shown at media time `time`: the frame nearest to `time * fr`. */
  function FrameOf(time: real, fr: Rate): (f: int)
    ensures time * fr - 0.5 < f as real <= time * fr + 0.5
  {
    Round(time * fr)
  }

  /** The media time at which frame `frame` starts: `fr` frames per second take it exactly to `frame`. */
  function TimeOf(frame: int, fr: Rate): (t: real)
    ensures t * fr == frame as real
  {
    frame as real / fr
  }

  /** The last frame index offered by the timeline slider and accepted by the interval store. */
  function MaxFrame(duration: real, fr: Rate): (m: int)
    ensures duration * fr - 0.5 < m as real <= duration * fr + 0.5
    ensures duration >= 0.0 ==> m >= 0
  {
    Round(duration * fr)
  }

  /** Rounding an integer gives it back. */
  lemma RoundOfInteger(n: int)
    ensures Round(n as real) == n
  {
  }

  /** Going from a frame to its time and back gives the same frame. */
  lemma FrameTimeRoundTrip(f: int, fr: Rate)
    ensures FrameOf(TimeOf(f, fr), fr) == f
  {
    assert TimeOf(f, fr) * fr == f as real;
    RoundOfInteger(f);
  }

  /** Going from a time to its frame and back lands within half a frame of the start. */
  lemma TimeFrameWithinHalfFrame(t: real, fr: Rate)
    ensures -0.5 / fr < TimeOf(FrameOf(t, fr), fr) - t <= 0.5 / fr
  {
    var n := FrameOf(t, fr);
    assert t * fr - 0.5 < n as real <= t * fr + 0.5;
    DivideBounds(t * fr - 0.5, n as real, t * fr + 0.5, fr);
    assert (t * fr - 0.5) / fr == t - 0.5 / fr;
    assert (t * fr + 0.5) / fr == t + 0.5 / fr;
  }

  /** Dividing by a positive rate keeps the order of a strict-then-weak chain. */
  lemma DivideBounds(lo: real, x: real, hi: real, fr: Rate)
    requires lo < x <= hi
    ensures lo / fr < x / fr <= hi / fr
  {
    assert x / fr - lo / fr == (x - lo) / fr;
    assert hi / fr - x / fr == (hi - x) / fr;
  }

  /** A frame's time is non-negative exactly when the frame is. */
  lemma TimeNonNegativeIff(f: int, fr: Rate)
    ensures TimeOf(f, fr) >= 0.0 <==> f >= 0
  {
    if f < 0 {
      assert TimeOf(f, fr) * fr == f as real;
    }
  }

  /** A time that is not negative maps to a frame that is not negative. */
  lemma FrameOfNonNegative(t: real, fr: Rate)
    requires t >= 0.0
    ensures FrameOf(t, fr) >= 0
  {
    assert t * fr >= 0.0;
  }

  /** A frame whose time is within the duration is at most the last frame. */
  lemma WithinDurationBelowMaxFrame(f: int, duration: real, fr: Rate)
    requires TimeOf(f, fr) <= duration
    ensures f <= MaxFrame(duration, fr)
  {
    assert TimeOf(f, fr) * fr == f as real;
    assert f as real <= duration * fr;
  }
}
