/**
 * The two session settings and the rules that restore a usable value when
 * their text fields lose focus. The parsed field text is an `Option`:
 * `None` is an empty field or text that parses to NaN.
 */
module SessionConfig {
  import opened Wrappers
  import opened FrameMapper

  const DefaultFrameRate: Rate := 30.0
  const DefaultFrameIntervalMs: int := 100
  const MinFrameIntervalMs: int := 10

  /** Frame rate on blur: the parsed value when it is at least 1, else the default 30. */
  function FrameRateOnBlur(parsed: Option<real>): (fr: Rate)
    ensures parsed.Some? && parsed.value >= 1.0 <==> parsed == Some(fr as real)
    ensures parsed != Some(fr as real) ==> fr == DefaultFrameRate
  {
    if parsed.None? || parsed.value < 1.0 then DefaultFrameRate else parsed.value
  }

  /** Step interval on blur: the parsed value when it is at least 10 ms, else the default 100 ms. */
  function FrameIntervalOnBlur(parsed: Option<int>): (ms: int)
    ensures ms >= MinFrameIntervalMs
    ensures parsed.Some? && parsed.value >= MinFrameIntervalMs <==> parsed == Some(ms)
    ensures parsed != Some(ms) ==> ms == DefaultFrameIntervalMs
  {
    if parsed.None? || parsed.value < MinFrameIntervalMs then DefaultFrameIntervalMs else parsed.value
  }

  /** Blurring a field that already holds a settled value leaves it as it is. */
  lemma BlurIdempotent(rate: Option<real>, interval: Option<int>)
    ensures FrameRateOnBlur(Some(FrameRateOnBlur(rate) as real)) == FrameRateOnBlur(rate)
    ensures FrameIntervalOnBlur(Some(FrameIntervalOnBlur(interval))) == FrameIntervalOnBlur(interval)
  {
  }
}
