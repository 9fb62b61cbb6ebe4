/**
 * The annotation engine of the labelling screen: one state record and one
 * transition per event handler. The screen's handlers are methods of class
 * `Annotator`; each method is specified by a transition function on `State`,
 * and the lemmas below state what those transitions promise.
 */
module Engine {
  import opened Wrappers
  import opened FrameMapper
  import opened IntervalStore
  import opened SessionConfig
  import Export

  datatype Direction = Right | Left

  /** The keys the keyboard handlers look at; `Digit(n)` is the key labelled `n`. */
  datatype Key = KeyS | KeyE | Digit(n: int) | Arrow(dir: Direction) | OtherKey

  /** `NeedStartFirst` is the "mark the start frame first" warning. */
  datatype MarkStatus = EndMarked | NeedStartFirst

  /** What a key press did. */
  datatype KeyOutcome = Ignored | StartMarked | EndMark(mark: MarkStatus) | Committed(add: AddStatus) | ArrowHeld | NoEffect

  /** Frames moved by one tick of continuous stepping. */
  function Delta(d: Direction): int
  {
    if d == Right then 1 else -1
  }

  /**
   * Everything the handlers read or write. `startField`/`endField` are the two frame text
   * fields, `markStart` the marked start, `behavior` the selected label, `arrow` the held
   * arrow key, `timerArmed` whether a continuous-step timeout is pending, `videoLoaded`
   * whether a converted video (and so the video element) is present.
   */
  datatype State = State(
    intervals: seq<Interval>, page: nat,
    currentFrame: int, currentTime: real,
    startField: Option<int>, endField: Option<int>, markStart: Option<int>,
    behavior: string, isAddingInterval: bool,
    frameRate: Rate, frameInterval: int, videoDuration: real,
    videoLoaded: bool, arrow: Option<Direction>, timerArmed: bool)

  /** The state before any video is loaded. */
  const Initial: State :=
    State([], 0, 0, 0.0, None, None, None, Behaviors[0], false,
          DefaultFrameRate, DefaultFrameIntervalMs, 0.0, false, None, false)

  /** What every handler preserves. */
  predicate Inv(s: State)
  {
    && PageValid(s.page, |s.intervals|)
    && s.frameInterval >= MinFrameIntervalMs
    && s.videoDuration >= 0.0
    && s.currentFrame >= 0 && s.currentTime >= 0.0
    && s.markStart == s.startField
    && s.behavior in Behaviors
    && (forall i :: 0 <= i < |s.intervals| ==> WellFormed(s.intervals[i]) && s.intervals[i].behavior in Behaviors)
    && (s.timerArmed ==> s.arrow.Some?)
  }

  /** Frame and time agree: the time is where the frame starts. */
  predicate FrameDriven(s: State)
  {
    s.currentTime == TimeOf(s.currentFrame, s.frameRate)
  }

  // ---------------------------------------------------------------- video binding

  /** A successful upload: position back to frame 0, store, pending mark and page cleared. */
  function NewVideoStep(s: State): State
  {
    s.(videoLoaded := true, currentTime := 0.0, currentFrame := 0, intervals := [],
       markStart := None, startField := None, endField := None, page := 0)
  }

  /**
   * The continuous-step effect re-runs whenever the duration, frame rate or step interval changes:
   * with an arrow held it schedules a fresh timeout, even one that had stopped for want of a video.
   */
  function Restart(s: State, changed: bool): State
  {
    if changed then s.(timerArmed := s.arrow.Some?) else s
  }

  function MetadataStep(s: State, duration: real): State
  {
    Restart(s.(videoDuration := duration), duration != s.videoDuration)
  }

  // ---------------------------------------------------------------- navigation

  /** A frame-driven write: the frame is authoritative and the time follows it. */
  function Seek(s: State, f: int): State
  {
    s.(currentFrame := f, currentTime := TimeOf(f, s.frameRate))
  }

  /** The playback surface reports a time; the frame is recomputed from it. */
  function TimeUpdateStep(s: State, t: real): State
  {
    if !s.videoLoaded then s else s.(currentTime := t, currentFrame := FrameOf(t, s.frameRate))
  }

  function NextFrameStep(s: State): State
  {
    if TimeOf(s.currentFrame + 1, s.frameRate) <= s.videoDuration then Seek(s, s.currentFrame + 1) else s
  }

  function PrevFrameStep(s: State): State
  {
    if TimeOf(s.currentFrame - 1, s.frameRate) >= 0.0 then Seek(s, s.currentFrame - 1) else s
  }

  /** One firing of the continuous-step timeout; without a video element it stops rescheduling. */
  function TickStep(s: State): State
    requires s.arrow.Some?
  {
    if !s.videoLoaded then s.(timerArmed := false)
    else
      var f := s.currentFrame + Delta(s.arrow.value);
      var t := TimeOf(f, s.frameRate);
      if t >= 0.0 && t <= s.videoDuration then Seek(s, f) else s
  }

  // ---------------------------------------------------------------- marking

  function MarkStartStep(s: State): State
  {
    s.(markStart := Some(s.currentFrame), startField := Some(s.currentFrame), endField := None)
  }

  function MarkEndStatus(s: State): MarkStatus
  {
    if s.markStart.None? then NeedStartFirst else EndMarked
  }

  function MarkEndStep(s: State): State
  {
    if s.markStart.None? then s else s.(endField := Some(s.currentFrame))
  }

  /** Typing into the start field also sets (or clears) the marked start. */
  function EditStartStep(s: State, v: Option<int>): State
  {
    s.(startField := v, markStart := v)
  }

  function EditEndStep(s: State, v: Option<int>): State
  {
    s.(endField := v)
  }

  // ---------------------------------------------------------------- interval store

  function AddStatusOf(s: State): AddStatus
  {
    CheckCandidate(s.startField, s.endField, MaxFrame(s.videoDuration, s.frameRate))
  }

  /** The validated insert with behaviour `b`. */
  function AddStep(s: State, b: string): State
  {
    if AddStatusOf(s) == Added then
      s.(intervals := s.intervals + [NewInterval(s.startField.value, s.endField.value, s.frameRate, b)],
         startField := None, endField := None, behavior := Behaviors[0], markStart := None, page := 0)
    else
      s.(isAddingInterval := false)
  }

  function RelabelStep(s: State, idx: int, b: string): State
  {
    s.(intervals := Relabel(s.intervals, idx, b))
  }

  function RemoveStep(s: State, idx: int): State
  {
    s.(intervals := RemoveAt(s.intervals, idx), page := PageAfterRemove(s.page, |s.intervals|))
  }

  function PrevPageStep(s: State): State
  {
    s.(page := if s.page - 1 > 0 then s.page - 1 else 0)
  }

  /** The "Next" button is disabled once the following page would be empty. */
  function NextPageStep(s: State): State
  {
    if (s.page + 1) * RowsPerPage >= |s.intervals| then s else s.(page := s.page + 1)
  }

  /** The effect that runs after the stored list has changed. */
  function IntervalsChangedStep(s: State): State
  {
    if s.isAddingInterval then s.(isAddingInterval := false) else s
  }

  // ---------------------------------------------------------------- keyboard

  /** Whether the digit key `n` commits the pending mark. */
  predicate DigitCommits(s: State, n: int)
  {
    1 <= n <= 6 && n - 1 < |Behaviors| && s.markStart.Some? && s.endField.Some?
  }

  function KeyDownStep(s: State, k: Key): State
  {
    if s.isAddingInterval then s
    else match k
      case KeyS => MarkStartStep(s)
      case KeyE => MarkEndStep(s)
      case Digit(n) =>
        if DigitCommits(s, n) then AddStep(s.(isAddingInterval := true, behavior := Behaviors[n - 1]), Behaviors[n - 1])
        else s
      case Arrow(d) => if s.arrow == Some(d) then s else s.(arrow := Some(d), timerArmed := true)
      case OtherKey => s
  }

  function KeyDownOutcome(s: State, k: Key): KeyOutcome
  {
    if s.isAddingInterval then Ignored
    else match k
      case KeyS => StartMarked
      case KeyE => EndMark(MarkEndStatus(s))
      case Digit(n) => if DigitCommits(s, n) then Committed(AddStatusOf(s)) else NoEffect
      case Arrow(_) => ArrowHeld
      case OtherKey => NoEffect
  }

  function KeyUpStep(s: State, k: Key): State
  {
    if !k.Arrow? then s
    else
      var released := s.(arrow := None, timerArmed := false);
      if released.markStart.Some? then MarkEndStep(released) else released
  }

  // ---------------------------------------------------------------- configuration

  function BlurFrameRateStep(s: State, parsed: Option<real>): State
  {
    var fr := FrameRateOnBlur(parsed);
    Restart(s.(frameRate := fr), fr != s.frameRate)
  }

  function BlurFrameIntervalStep(s: State, parsed: Option<int>): State
  {
    var ms := FrameIntervalOnBlur(parsed);
    Restart(s.(frameInterval := ms), ms != s.frameInterval)
  }

  // ================================================================ properties

  lemma InitialInv()
    ensures Inv(Initial) && FrameDriven(Initial)
  {
  }

  lemma NewVideoKeepsInv(s: State)
    requires Inv(s)
    ensures Inv(NewVideoStep(s)) && FrameDriven(NewVideoStep(s))
    ensures NewVideoStep(s).intervals == [] && NewVideoStep(s).markStart.None? && NewVideoStep(s).page == 0
  {
  }

  /** A frame-driven write of a non-negative frame keeps the invariant and leaves frame and time in sync. */
  lemma SeekKeepsInv(s: State, f: int)
    requires Inv(s) && f >= 0
    ensures Inv(Seek(s, f)) && FrameDriven(Seek(s, f))
    ensures FrameOf(Seek(s, f).currentTime, s.frameRate) == f
  {
    TimeNonNegativeIff(f, s.frameRate);
    FrameTimeRoundTrip(f, s.frameRate);
  }

  /** A time update sets the frame to the rounded time, so the time is within half a frame of it. */
  lemma TimeUpdateKeepsInv(s: State, t: real)
    requires Inv(s) && t >= 0.0
    ensures Inv(TimeUpdateStep(s, t))
    ensures s.videoLoaded ==> TimeUpdateStep(s, t).currentFrame == FrameOf(t, s.frameRate)
    ensures s.videoLoaded ==>
      -0.5 / s.frameRate < TimeOf(TimeUpdateStep(s, t).currentFrame, s.frameRate) - t <= 0.5 / s.frameRate
  {
    FrameOfNonNegative(t, s.frameRate);
    TimeFrameWithinHalfFrame(t, s.frameRate);
  }

  /**
   * "Next frame" moves forward by exactly one frame when the new time is within the
   * duration and otherwise changes nothing; a step taken stays at or below the last frame.
   */
  lemma NextFrameSpec(s: State)
    requires Inv(s)
    ensures Inv(NextFrameStep(s))
    ensures TimeOf(s.currentFrame + 1, s.frameRate) <= s.videoDuration ==>
              NextFrameStep(s) == Seek(s, s.currentFrame + 1)
              && NextFrameStep(s).currentFrame <= MaxFrame(s.videoDuration, s.frameRate)
              && FrameDriven(NextFrameStep(s))
    ensures TimeOf(s.currentFrame + 1, s.frameRate) > s.videoDuration ==> NextFrameStep(s) == s
  {
    if TimeOf(s.currentFrame + 1, s.frameRate) <= s.videoDuration {
      SeekKeepsInv(s, s.currentFrame + 1);
      WithinDurationBelowMaxFrame(s.currentFrame + 1, s.videoDuration, s.frameRate);
    }
  }

  /** "Previous frame" moves back by exactly one frame unless that would leave frame 0 behind. */
  lemma PrevFrameSpec(s: State)
    requires Inv(s)
    ensures Inv(PrevFrameStep(s))
    ensures s.currentFrame >= 1 ==> PrevFrameStep(s) == Seek(s, s.currentFrame - 1) && FrameDriven(PrevFrameStep(s))
    ensures s.currentFrame < 1 ==> PrevFrameStep(s) == s
  {
    TimeNonNegativeIff(s.currentFrame - 1, s.frameRate);
    if s.currentFrame >= 1 {
      SeekKeepsInv(s, s.currentFrame - 1);
    }
  }

  /**
   * One timer tick moves by one frame in the held direction exactly when the new time lies
   * in `[0, duration]`, and otherwise changes nothing; with a video present it stays scheduled.
   */
  lemma TickSpec(s: State)
    requires Inv(s) && s.timerArmed
    ensures Inv(TickStep(s))
    ensures s.videoLoaded ==> TickStep(s).timerArmed
    ensures !s.videoLoaded ==> TickStep(s) == s.(timerArmed := false)
    ensures s.videoLoaded ==>
      var f := s.currentFrame + Delta(s.arrow.value);
      if 0 <= f && TimeOf(f, s.frameRate) <= s.videoDuration
      then TickStep(s) == Seek(s, f) && f <= MaxFrame(s.videoDuration, s.frameRate) && FrameDriven(TickStep(s))
      else TickStep(s) == s
  {
    if s.videoLoaded {
      var f := s.currentFrame + Delta(s.arrow.value);
      TimeNonNegativeIff(f, s.frameRate);
      if 0 <= f && TimeOf(f, s.frameRate) <= s.videoDuration {
        SeekKeepsInv(s, f);
        WithinDurationBelowMaxFrame(f, s.videoDuration, s.frameRate);
      }
    }
  }

  /** Marking the start records the current frame and clears the end; marking the end needs a start. */
  lemma MarkingSpec(s: State)
    requires Inv(s)
    ensures Inv(MarkStartStep(s)) && Inv(MarkEndStep(s))
    ensures MarkStartStep(s).markStart == Some(s.currentFrame) && MarkStartStep(s).endField.None?
    ensures MarkEndStatus(s) == NeedStartFirst <==> s.markStart.None?
    ensures s.markStart.None? ==> MarkEndStep(s) == s
    ensures s.markStart.Some? ==>
              MarkEndStep(s).endField == Some(s.currentFrame) && MarkEndStep(s).markStart == s.markStart
  {
  }

  /**
   * The validated insert: it appends exactly when both frames parse, `0 <= start`,
   * `end <= maxFrame` and `start < end`. Then the one new entry carries the frames, their times
   * over the frame rate and the behaviour, earlier entries are kept, the pending mark is cleared,
   * the behaviour is reset and the first page is shown. A rejected insert leaves the store, the
   * page and the pending mark alone.
   */
  lemma AddSpec(s: State, b: string)
    requires Inv(s) && b in Behaviors
    ensures Inv(AddStep(s, b))
    ensures |AddStep(s, b).intervals| == |s.intervals| + 1 <==>
              s.startField.Some? && s.endField.Some? && 0 <= s.startField.value
              && s.endField.value <= MaxFrame(s.videoDuration, s.frameRate) && s.startField.value < s.endField.value
    ensures AddStatusOf(s) == Added ==>
              var t := AddStep(s, b);
              var st, en := s.startField.value, s.endField.value;
              && t.intervals[..|s.intervals|] == s.intervals
              && t.intervals[|s.intervals|] == Interval(st, en, st as real / s.frameRate, en as real / s.frameRate, b, false)
              && t.startField.None? && t.endField.None? && t.markStart.None?
              && t.behavior == Behaviors[0] && t.page == 0
    ensures AddStatusOf(s) != Added ==>
              AddStep(s, b) == s.(isAddingInterval := false)
  {
    if AddStatusOf(s) == Added {
      var t := AddStep(s, b);
      AcceptedIsWellFormed(s.startField.value, s.endField.value, MaxFrame(s.videoDuration, s.frameRate), s.frameRate, b);
      assert t.intervals[..|s.intervals|] == s.intervals;
    }
  }

  /** Relabelling changes only the behaviour of entry `idx`; every other entry and the page stay as they are. */
  lemma RelabelSpec(s: State, idx: int, b: string)
    requires Inv(s) && b in Behaviors
    ensures Inv(RelabelStep(s, idx, b))
    ensures |RelabelStep(s, idx, b).intervals| == |s.intervals|
    ensures forall i :: 0 <= i < |s.intervals| && i != idx ==> RelabelStep(s, idx, b).intervals[i] == s.intervals[i]
    ensures 0 <= idx < |s.intervals| ==>
              RelabelStep(s, idx, b).intervals[idx] == s.intervals[idx].(behavior := b)
    ensures RelabelStep(s, idx, b).page == s.page
  {
  }

  /**
   * Deleting a valid entry shortens the store by one, drops exactly that entry and keeps the order of
   * the rest; the page moves back by one exactly when the current page has no rows left, never below 0.
   */
  lemma RemoveSpec(s: State, idx: int)
    requires Inv(s)
    ensures Inv(RemoveStep(s, idx))
    ensures 0 <= idx < |s.intervals| ==>
              RemoveStep(s, idx).intervals == s.intervals[..idx] + s.intervals[idx + 1..]
              && |RemoveStep(s, idx).intervals| == |s.intervals| - 1
    ensures !(0 <= idx < |s.intervals|) ==> RemoveStep(s, idx).intervals == s.intervals
    ensures RemoveStep(s, idx).page ==
              if s.page * RowsPerPage >= |s.intervals| - 1 then (if s.page > 0 then s.page - 1 else 0) else s.page
  {
    var t := RemoveStep(s, idx);
    PageAfterRemoveValid(s.page, |s.intervals|, |t.intervals|);
    forall i | 0 <= i < |t.intervals|
      ensures WellFormed(t.intervals[i]) && t.intervals[i].behavior in Behaviors
    {
      if 0 <= idx < |s.intervals| {
        assert t.intervals[i] == if i < idx then s.intervals[i] else s.intervals[i + 1];
      }
    }
  }

  /** The page buttons keep the page valid. */
  lemma PagingKeepsInv(s: State)
    requires Inv(s)
    ensures Inv(PrevPageStep(s)) && Inv(NextPageStep(s))
    ensures |PageView(s.intervals, NextPageStep(s).page)| > 0 || s.intervals == []
  {
    var t := NextPageStep(s);
    if s.intervals != [] {
      ValidPageNotEmpty(s.intervals, t.page);
    }
  }

  /** While an insert is in progress every key press is ignored. */
  lemma KeyDownIgnoredWhileAdding(s: State, k: Key)
    requires s.isAddingInterval
    ensures KeyDownStep(s, k) == s && KeyDownOutcome(s, k) == Ignored
  {
  }

  /**
   * A digit key commits only with a marked start and a non-empty end, and never marks the end
   * itself: afterwards the end field is the old one or, after an accepted insert, cleared.
   */
  lemma DigitKeySpec(s: State, n: int)
    requires Inv(s) && !s.isAddingInterval
    ensures Inv(KeyDownStep(s, Digit(n)))
    ensures !DigitCommits(s, n) ==> KeyDownStep(s, Digit(n)) == s
    ensures KeyDownStep(s, Digit(n)).endField == s.endField || KeyDownStep(s, Digit(n)).endField.None?
    ensures DigitCommits(s, n) && AddStatusOf(s) == Added ==>
              |KeyDownStep(s, Digit(n)).intervals| == |s.intervals| + 1
              && KeyDownStep(s, Digit(n)).intervals[|s.intervals|].behavior == Behaviors[n - 1]
    ensures DigitCommits(s, n) && AddStatusOf(s) != Added ==>
              KeyDownStep(s, Digit(n)) == s.(behavior := Behaviors[n - 1])
  {
    if DigitCommits(s, n) {
      var s1 := s.(isAddingInterval := true, behavior := Behaviors[n - 1]);
      assert AddStatusOf(s1) == AddStatusOf(s);
      AddSpec(s1, Behaviors[n - 1]);
    }
  }

  /** Every key press keeps the invariant; an arrow press only selects the held direction. */
  lemma KeyDownKeepsInv(s: State, k: Key)
    requires Inv(s)
    ensures Inv(KeyDownStep(s, k))
    ensures !s.isAddingInterval && k.Arrow? ==>
              KeyDownStep(s, k).arrow == Some(k.dir) && KeyDownStep(s, k).intervals == s.intervals
              && KeyDownStep(s, k).currentFrame == s.currentFrame
  {
    if !s.isAddingInterval {
      match k
      case KeyS => MarkingSpec(s);
      case KeyE => MarkingSpec(s);
      case Digit(n) => DigitKeySpec(s, n);
      case Arrow(_) =>
      case OtherKey =>
    }
  }

  /** Releasing an arrow stops continuous stepping and marks the end exactly when a start is marked. */
  lemma KeyUpSpec(s: State, k: Key)
    requires Inv(s)
    ensures Inv(KeyUpStep(s, k))
    ensures k.Arrow? ==> KeyUpStep(s, k).arrow.None? && !KeyUpStep(s, k).timerArmed
    ensures k.Arrow? ==>
              (KeyUpStep(s, k).endField == Some(s.currentFrame) || s.markStart.None?)
              && KeyUpStep(s, k).markStart == s.markStart
    ensures k.Arrow? && s.markStart.None? ==> KeyUpStep(s, k).endField == s.endField
    ensures !k.Arrow? ==> KeyUpStep(s, k) == s
  {
  }

  /** Blurring a configuration field keeps the invariant: the rate stays at least 1, the step at least 10 ms. */
  lemma BlurKeepsInv(s: State, rate: Option<real>, interval: Option<int>)
    requires Inv(s)
    ensures Inv(BlurFrameRateStep(s, rate)) && Inv(BlurFrameIntervalStep(s, interval))
    ensures BlurFrameIntervalStep(s, interval).frameInterval >= MinFrameIntervalMs
    ensures BlurFrameRateStep(s, rate).intervals == s.intervals
    ensures BlurFrameRateStep(s, rate).currentFrame == s.currentFrame
    ensures BlurFrameRateStep(s, rate).currentTime == s.currentTime
  {
  }

  /**
   * A held arrow whose timer had stopped moves frames again once the duration, frame rate or step
   * interval changes; with no arrow held the timer stays off, and an unchanged setting restarts nothing.
   */
  lemma RestartSpec(s: State, duration: real, rate: Option<real>, interval: Option<int>)
    requires Inv(s)
    ensures var m := MetadataStep(s, duration);
      && m.videoDuration == duration
      && m.timerArmed == (if duration != s.videoDuration then s.arrow.Some? else s.timerArmed)
      && m == s.(videoDuration := duration, timerArmed := m.timerArmed)
    ensures var r := BlurFrameRateStep(s, rate);
      r.timerArmed == (if r.frameRate != s.frameRate then s.arrow.Some? else s.timerArmed)
    ensures var i := BlurFrameIntervalStep(s, interval);
      i.timerArmed == (if i.frameInterval != s.frameInterval then s.arrow.Some? else s.timerArmed)
    ensures s.arrow.Some? && s.videoLoaded && duration != s.videoDuration ==>
      var m := MetadataStep(s, duration);
      var f := s.currentFrame + Delta(s.arrow.value);
      && m.timerArmed
      && (0.0 <= TimeOf(f, s.frameRate) <= duration ==> TickStep(m).currentFrame == f)
  {
  }

  /**
   * A frame-rate change re-derives neither the frame nor the time, and the backward step checks only
   * `time >= 0`: at 31 fps on frame 301 of a 9.99 s video, switching to 30 fps and stepping back lands on
   * frame 300 (within `maxFrame`) at time 10, past the duration.
   */
  lemma BackStepPastDurationAfterRateChange()
    ensures
      var s := Initial.(videoLoaded := true, videoDuration := 9.99, frameRate := 31.0,
                        currentFrame := 301, currentTime := TimeOf(301, 31.0));
      var blurred := BlurFrameRateStep(s, Some(30.0));
      var t := PrevFrameStep(blurred);
      && Inv(s) && FrameDriven(s) && s.currentTime <= s.videoDuration
      && !FrameDriven(blurred)
      && Inv(t) && t.currentFrame == 300 && t.currentFrame <= MaxFrame(t.videoDuration, t.frameRate)
      && t.currentTime == 10.0 && t.currentTime > t.videoDuration
  {
    var s := Initial.(videoLoaded := true, videoDuration := 9.99, frameRate := 31.0,
                      currentFrame := 301, currentTime := TimeOf(301, 31.0));
    var blurred := BlurFrameRateStep(s, Some(30.0));
    assert TimeOf(301, 31.0) * 31.0 == 301.0;
    assert TimeOf(301, 31.0) != TimeOf(301, 30.0);
    RoundOfInteger(300);
    assert 9.99 * 30.0 == 299.7;
    PrevFrameSpec(blurred);
  }

  // ================================================================ the component

  /** The component's state, one field per piece of state the handlers update. */
  class Annotator {
    var intervals: seq<Interval>
    var page: nat
    var currentFrame: int
    var currentTime: real
    var startField: Option<int>
    var endField: Option<int>
    var markStart: Option<int>
    var behavior: string
    var isAddingInterval: bool
    var frameRate: Rate
    var frameInterval: int
    var videoDuration: real
    var videoLoaded: bool
    var arrow: Option<Direction>
    var timerArmed: bool

    function Snap(): State
      reads this
    {
      State(intervals, page, currentFrame, currentTime, startField, endField, markStart,
            behavior, isAddingInterval, frameRate, frameInterval, videoDuration,
            videoLoaded, arrow, timerArmed)
    }

    ghost predicate Valid()
      reads this
    {
      Inv(Snap())
    }

    constructor ()
      ensures Snap() == Initial && Valid()
    {
      intervals, page := [], 0;
      currentFrame, currentTime := 0, 0.0;
      startField, endField, markStart := None, None, None;
      behavior, isAddingInterval := Behaviors[0], false;
      frameRate, frameInterval, videoDuration := DefaultFrameRate, DefaultFrameIntervalMs, 0.0;
      videoLoaded, arrow, timerArmed := false, None, false;
    }

    /** The reset that follows a successful upload and conversion. */
    method ResetForNewVideo()
      requires Valid()
      modifies this
      ensures Snap() == NewVideoStep(old(Snap())) && Valid()
    {
      NewVideoKeepsInv(Snap());
      videoLoaded := true;
      currentTime := 0.0;
      currentFrame := 0;
      intervals := [];
      markStart := None;
      startField := None;
      endField := None;
      page := 0;
    }

    /** The video element reports its duration once metadata is loaded. */
    method LoadedMetadata(duration: real)
      requires Valid() && duration >= 0.0
      modifies this
      ensures Snap() == MetadataStep(old(Snap()), duration) && Valid()
    {
      if duration != videoDuration {
        timerArmed := arrow.Some?;
      }
      videoDuration := duration;
    }

    /** The surface reports a new playback time `t`. */
    method TimeUpdate(t: real)
      requires Valid() && t >= 0.0
      modifies this
      ensures Snap() == TimeUpdateStep(old(Snap()), t) && Valid()
    {
      TimeUpdateKeepsInv(Snap(), t);
      if !videoLoaded { return; }
      currentTime := t;
      currentFrame := FrameOf(t, frameRate);
    }

    /** The timeline slider moves to frame `v`; the slider only offers `0 .. maxFrame`. */
    method SliderChange(v: int)
      requires Valid() && 0 <= v <= MaxFrame(videoDuration, frameRate)
      modifies this
      ensures Snap() == Seek(old(Snap()), v) && Valid() && FrameDriven(Snap())
    {
      SeekKeepsInv(Snap(), v);
      var newTime := TimeOf(v, frameRate);
      currentTime := newTime;
      currentFrame := v;
    }

    method NextFrame()
      requires Valid()
      modifies this
      ensures Snap() == NextFrameStep(old(Snap())) && Valid()
    {
      NextFrameSpec(Snap());
      var newFrame := currentFrame + 1;
      var newTime := TimeOf(newFrame, frameRate);
      if newTime <= videoDuration {
        currentTime := newTime;
        currentFrame := newFrame;
      }
    }

    method PrevFrame()
      requires Valid()
      modifies this
      ensures Snap() == PrevFrameStep(old(Snap())) && Valid()
    {
      PrevFrameSpec(Snap());
      var newFrame := currentFrame - 1;
      var newTime := TimeOf(newFrame, frameRate);
      if newTime >= 0.0 {
        currentTime := newTime;
        currentFrame := newFrame;
      }
    }

    /** The pending continuous-step timeout fires. */
    method Tick()
      requires Valid() && timerArmed
      modifies this
      ensures Snap() == TickStep(old(Snap())) && Valid()
    {
      TickSpec(Snap());
      if !videoLoaded {
        timerArmed := false;
        return;
      }
      var newFrame := currentFrame + Delta(arrow.value);
      var newTime := TimeOf(newFrame, frameRate);
      if newTime >= 0.0 && newTime <= videoDuration {
        currentTime := newTime;
        currentFrame := newFrame;
      }
    }

    method MarkIntervalStart()
      requires Valid()
      modifies this
      ensures Snap() == MarkStartStep(old(Snap())) && Valid()
    {
      MarkingSpec(Snap());
      markStart := Some(currentFrame);
      startField := Some(currentFrame);
      endField := None;
    }

    method MarkIntervalEnd() returns (st: MarkStatus)
      requires Valid()
      modifies this
      ensures st == MarkEndStatus(old(Snap()))
      ensures Snap() == MarkEndStep(old(Snap())) && Valid()
    {
      MarkingSpec(Snap());
      if markStart.None? {
        return NeedStartFirst;
      }
      endField := Some(currentFrame);
      st := EndMarked;
    }

    /** Typing into the start frame field. */
    method EditStartField(v: Option<int>)
      requires Valid()
      modifies this
      ensures Snap() == EditStartStep(old(Snap()), v) && Valid()
    {
      startField := v;
      markStart := v;
    }

    /** Typing into the end frame field, which is disabled while the start field is empty. */
    method EditEndField(v: Option<int>)
      requires Valid() && startField.Some?
      modifies this
      ensures Snap() == EditEndStep(old(Snap()), v) && Valid()
    {
      endField := v;
    }

    /** Choosing a behaviour in the selector, which offers only the fixed labels. */
    method SelectBehavior(b: string)
      requires Valid() && b in Behaviors
      modifies this
      ensures Snap() == old(Snap()).(behavior := b) && Valid()
    {
      behavior := b;
    }

    /** The validated insert; both callers pass one of the fixed labels. */
    method AddInterval(b: string) returns (st: AddStatus)
      requires Valid() && b in Behaviors
      modifies this
      ensures st == AddStatusOf(old(Snap()))
      ensures Snap() == AddStep(old(Snap()), b) && Valid()
    {
      AddSpec(Snap(), b);
      var maxFrame := MaxFrame(videoDuration, frameRate);
      if startField.None? || endField.None? {
        isAddingInterval := false;
        return NotNumbers;
      }
      var startFrame, endFrame := startField.value, endField.value;
      if startFrame < 0 || endFrame > maxFrame {
        isAddingInterval := false;
        return OutOfBounds(maxFrame);
      }
      if startFrame >= endFrame {
        isAddingInterval := false;
        return NotIncreasing;
      }
      intervals := intervals + [Interval(startFrame, endFrame, TimeOf(startFrame, frameRate), TimeOf(endFrame, frameRate), b, false)];
      startField := None;
      endField := None;
      behavior := Behaviors[0];
      markStart := None;
      page := 0;
      st := Added;
    }

    /** The "Add" button, enabled only when both frame fields hold something. */
    method PressAdd() returns (st: AddStatus)
      requires Valid() && startField.Some? && endField.Some?
      modifies this
      ensures st == AddStatusOf(old(Snap()))
      ensures Snap() == AddStep(old(Snap()), old(behavior)) && Valid()
    {
      st := AddInterval(behavior);
    }

    method UpdateIntervalBehavior(idx: int, b: string)
      requires Valid() && b in Behaviors
      modifies this
      ensures Snap() == RelabelStep(old(Snap()), idx, b) && Valid()
    {
      RelabelSpec(Snap(), idx, b);
      intervals := Relabel(intervals, idx, b);
    }

    method RemoveInterval(idx: int)
      requires Valid()
      modifies this
      ensures Snap() == RemoveStep(old(Snap()), idx) && Valid()
    {
      RemoveSpec(Snap(), idx);
      var oldLen := |intervals|;
      intervals := RemoveAt(intervals, idx);
      if page * RowsPerPage >= oldLen - 1 {
        page := if page - 1 > 0 then page - 1 else 0;
      }
    }

    method PrevPage()
      requires Valid()
      modifies this
      ensures Snap() == PrevPageStep(old(Snap())) && Valid()
    {
      PagingKeepsInv(Snap());
      page := if page - 1 > 0 then page - 1 else 0;
    }

    method NextPage()
      requires Valid()
      modifies this
      ensures Snap() == NextPageStep(old(Snap())) && Valid()
    {
      PagingKeepsInv(Snap());
      if (page + 1) * RowsPerPage < |intervals| {
        page := page + 1;
      }
    }

    /** React's effect on a changed store: the in-progress flag is dropped. */
    method IntervalsChanged()
      requires Valid()
      modifies this
      ensures Snap() == IntervalsChangedStep(old(Snap())) && Valid()
    {
      if isAddingInterval {
        isAddingInterval := false;
      }
    }

    /** The rows of the interval table on the current page; the store itself is not reordered. */
    method VisibleRows() returns (rows: seq<Interval>)
      requires Valid()
      ensures rows == PageView(intervals, page)
      ensures |rows| <= RowsPerPage && SortedDesc(rows)
      ensures intervals != [] ==> rows != []
    {
      if intervals != [] {
        ValidPageNotEmpty(intervals, page);
      }
      rows := PageView(intervals, page);
    }

    /** The records of the exported table. */
    method ExportTable() returns (rows: seq<Export.Row>)
      ensures rows == Export.Rows(intervals)
      ensures |rows| == |intervals|
    {
      rows := Export.Rows(intervals);
    }

    method KeyDown(k: Key) returns (out: KeyOutcome)
      requires Valid()
      modifies this
      ensures out == KeyDownOutcome(old(Snap()), k)
      ensures Snap() == KeyDownStep(old(Snap()), k) && Valid()
    {
      KeyDownKeepsInv(Snap(), k);
      if isAddingInterval {
        return Ignored;
      }
      match k
      case KeyS =>
        MarkIntervalStart();
        out := StartMarked;
      case KeyE =>
        var st := MarkIntervalEnd();
        out := EndMark(st);
      case Digit(n) =>
        if 1 <= n <= 6 && n - 1 < |Behaviors| && markStart.Some? && endField.Some? {
          isAddingInterval := true;
          var selected := Behaviors[n - 1];
          behavior := selected;
          var st := AddInterval(selected);
          out := Committed(st);
        } else {
          out := NoEffect;
        }
      case Arrow(d) =>
        if arrow != Some(d) {
          arrow := Some(d);
          timerArmed := true;
        }
        out := ArrowHeld;
      case OtherKey =>
        out := NoEffect;
    }

    method KeyUp(k: Key)
      requires Valid()
      modifies this
      ensures Snap() == KeyUpStep(old(Snap()), k) && Valid()
    {
      KeyUpSpec(Snap(), k);
      if k.Arrow? {
        arrow := None;
        timerArmed := false;
        if markStart.Some? {
          var _ := MarkIntervalEnd();
        }
      }
    }

    /** The frame rate field loses focus holding the parsed value `parsed`. */
    method BlurFrameRate(parsed: Option<real>)
      requires Valid()
      modifies this
      ensures Snap() == BlurFrameRateStep(old(Snap()), parsed) && Valid()
    {
      BlurKeepsInv(Snap(), parsed, None);
      var fr := FrameRateOnBlur(parsed);
      if fr != frameRate {
        timerArmed := arrow.Some?;
      }
      frameRate := fr;
    }

    /** The step interval field loses focus holding the parsed value `parsed`. */
    method BlurFrameInterval(parsed: Option<int>)
      requires Valid()
      modifies this
      ensures Snap() == BlurFrameIntervalStep(old(Snap()), parsed) && Valid()
    {
      BlurKeepsInv(Snap(), None, parsed);
      var ms := FrameIntervalOnBlur(parsed);
      if ms != frameInterval {
        timerArmed := arrow.Some?;
      }
      frameInterval := ms;
    }
  }

  /**
   * A session at 30 frames per second on a 10-second video: start marked at frame 30,
   * seven ticks of a held right arrow, release (which marks the end at 37), then key 4.
   */
  method GroomingSession()
  {
    var a := new Annotator();
    a.ResetForNewVideo();
    a.LoadedMetadata(10.0);
    RoundOfInteger(300);
    a.SliderChange(30);
    var _ := a.KeyDown(KeyS);
    assert a.markStart == Some(30);
    var _ := a.KeyDown(Arrow(Right));
    var i := 0;
    while i < 7
      invariant 0 <= i <= 7
      invariant a.Valid() && a.timerArmed && a.videoLoaded && a.arrow == Some(Right)
      invariant a.currentFrame == 30 + i && a.videoDuration == 10.0 && a.frameRate == 30.0
      invariant a.markStart == Some(30) && a.startField == Some(30) && a.endField.None?
      invariant a.intervals == [] && !a.isAddingInterval
    {
      a.Tick();
      i := i + 1;
    }
    a.KeyUp(Arrow(Right));
    assert a.endField == Some(37);
    var out := a.KeyDown(Digit(4));
    assert out == Committed(Added);
    assert a.intervals == [Interval(30, 37, 1.0, 37.0 / 30.0, "grooming", false)];
  }
}
