# Frame-synchronised interval annotation engine

This project models the annotation core of a behaviour-labelling screen (`frontend/src/App.js`).
An annotator steps through a video frame by frame and marks start and end frames. Each finished
mark is committed as a labelled interval (`jumping`, `grooming`, …). The core keeps four things
consistent:

- the frame index and the media time;
- the pending start/end mark;
- the list of committed intervals and the page of the interval table;
- the two session settings (frame rate, and the step interval for continuous stepping).

Modules (one per component, leaf first):

- `Wrappers` — `Option`. `None` stands for an empty text field or one that parses to NaN.
- `FrameMapper` — `Round` (JavaScript `Math.round`), `FrameOf`, `TimeOf`, `MaxFrame` and their laws. Frame rates are the subset type `Rate` (reals ≥ 1). Times are exact reals.
- `IntervalStore` — the interval record and the pure list transforms used by the handlers: validation of a candidate, relabel (`map`), delete (`filter`), the page correction after a delete, the stable descending sort and the 15-row page view.
- `Export` — the one-record-per-interval export table.
- `SessionConfig` — the rules that restore the frame rate (default 30) and the step interval (default 100 ms) when their fields lose focus.
- `Engine` — the component state as one record `State`, with one transition function per event handler and lemmas about those transitions. Class `Annotator` holds the same state as mutable fields. Each event handler is a method whose `ensures` ties the new state (`Snap()`) to the transition function applied to the old state, and keeps `Valid()` (the invariant `Inv`). The method `GroomingSession` is a client. It drives the class through a scenario: 30 fps, a 10 s video, start marked at frame 30, seven ticks of a held right arrow, release, key `4`. It then checks that exactly the interval `30–37` labelled `grooming` with times `1` and `37/30` is stored.

Points where the code behaves differently from what one might expect; the model follows the code:

- Scrubbing to a frame does not reject out-of-range frames (`App.js:219-228`). It relies on the slider's own bounds `0 .. maxFrame`. `SliderChange` therefore *requires* that range instead of modelling a rejection.
- Sorting is stable; export uses the stored order. So insertion order *is* visible: among intervals with equal start frames in the table, and in the exported table.
- `end <= maxFrame` holds only when an interval is committed. A later change of frame rate or of video duration re-derives nothing. `maxFrame` rounds `duration * frameRate`, so the slider and the insert check can accept a frame whose time lies up to half a frame past the duration.
- Forward steps and continuous-step ticks never reach such a frame: they check the new time against the duration (`NextFrameSpec`, `TickSpec`). A backward step checks only `time >= 0`, so after a frame-rate change it can land past the duration (`BackStepPastDurationAfterRateChange`).
- A frame-rate change does not re-derive the playback position either. Frame and time keep their values (`BlurKeepsInv`), so `time == frame / frameRate` no longer holds until the next navigation step that moves (a time update recomputes only the frame, rounding, so it need not restore it).
- Relabelling does not check that the behaviour is a member of the label set (`App.js:307-314`). The selector offers only those labels, which the model expresses as a `requires`.

## Model

| member | source | states |
|---|---|---|
| `FrameMapper.Round` | frontend/src/App.js:214 | `Math.round`: the result is the integer within half a unit of `x`, halves rounding up |
| `FrameMapper.FrameOf` | frontend/src/App.js:214 | the frame of a time is the integer nearest to `time * frameRate` (laws: `FrameTimeRoundTrip`, `FrameOfNonNegative`) |
| `FrameMapper.TimeOf` | frontend/src/App.js:220 | the time of a frame (also used at lines 232, 246 and 277-278) is the `t` with `t * frameRate == frame`, i.e. `frame / frameRate` (laws: `FrameTimeRoundTrip`, `TimeNonNegativeIff`) |
| `FrameMapper.MaxFrame` | frontend/src/App.js:279 | the last frame is the integer nearest to `duration * frameRate`, and is non-negative for a non-negative duration (law: `WithinDurationBelowMaxFrame`) |
| `FrameMapper.RoundOfInteger` | frontend/src/App.js:214 | rounding an integer gives it back |
| `FrameMapper.FrameTimeRoundTrip` | frontend/src/App.js:214-220 | frame → time → frame is the identity for every integer frame and every rate ≥ 1 |
| `FrameMapper.TimeFrameWithinHalfFrame` | frontend/src/App.js:212-214 | time → frame → time lands within half a frame period of the reported time |
| `FrameMapper.TimeNonNegativeIff` | frontend/src/App.js:246-247 | a frame's time is ≥ 0 exactly when the frame is ≥ 0 |
| `FrameMapper.FrameOfNonNegative` | frontend/src/App.js:212-214 | a non-negative time maps to a non-negative frame |
| `FrameMapper.WithinDurationBelowMaxFrame` | frontend/src/App.js:232-233 | a frame whose time is within the duration is at most `round(duration * frameRate)` |
| `IntervalStore.CheckCandidate` | frontend/src/App.js:280-294 | the insert accepts exactly when both frames parse, `0 <= start`, `end <= maxFrame` and `start < end`; non-numeric input and out-of-bounds frames give their own reasons |
| `IntervalStore.NewInterval` | frontend/src/App.js:295-298 | the record appended (its times computed at lines 277-278) keeps both frames and the behaviour, is not automatic, and its times times the frame rate give back the frames (law: `AcceptedIsWellFormed`) |
| `IntervalStore.SameFrameRejected` | frontend/src/App.js:290-294 | start and end marked on the same frame are never accepted (inverted-range reason when in bounds) |
| `IntervalStore.AcceptedIsWellFormed` | frontend/src/App.js:277-298 | an accepted candidate yields `0 <= start < end <= maxFrame` and `0 <= startTime < endTime` |
| `IntervalStore.Relabel` | frontend/src/App.js:307-311 | same length; entry `idx` gets the new behaviour with its frames and times kept; every other entry is identical |
| `IntervalStore.RelabelUndo` | frontend/src/App.js:307-311 | relabelling back to the old behaviour restores the list |
| `IntervalStore.RemoveAt` | frontend/src/App.js:317 | a valid index removes exactly that entry and keeps the order of the rest; any other index removes nothing |
| `IntervalStore.RemoveAtReinsert` | frontend/src/App.js:317 | the list is one shorter, and putting the removed entry back at its index gives the old list and multiset |
| `IntervalStore.PageAfterRemove` | frontend/src/App.js:318-320 | the page stays or moves back by exactly one, and it moves back exactly when it is not the first page and `page * 15 >= oldLength - 1` |
| `IntervalStore.PageAfterRemoveValid` | frontend/src/App.js:316-320 | after a delete the selected page is the first page or a page that still has rows |
| `IntervalStore.InsertDesc` | frontend/src/App.js:586 | inserting adds exactly one element (multiset) and puts it or the old head first |
| `IntervalStore.InsertDescSorted` | frontend/src/App.js:586 | inserting into a list sorted by descending start keeps it sorted |
| `IntervalStore.SortDesc` | frontend/src/App.js:584-586 | the sorted copy is a permutation of the store, ordered by start frame, larger first |
| `IntervalStore.SortDescStable` | frontend/src/App.js:586 | for every start frame, the entries with that start keep their stored relative order |
| `IntervalStore.PageView` | frontend/src/App.js:584-587 | a page shows at most 15 rows, sorted; it is the slice `[page*15, (page+1)*15)` of the sorted copy, clipped at the end |
| `IntervalStore.EntryOnItsPage` | frontend/src/App.js:587 | sorted entry `k` is row `k % 15` of page `k / 15` |
| `IntervalStore.ValidPageNotEmpty` | frontend/src/App.js:621-637 | a valid page of a non-empty store shows at least one row |
| `IntervalStore.PageRowsFromStore` | frontend/src/App.js:584-587 | every row shown is an entry of the store |
| `Export.RowOf` | frontend/src/App.js:325-332 | the record has type `interval` and reads back as the interval itself, `auto` aside (law: `ExportRoundTrip`) |
| `Export.Rows` | frontend/src/App.js:325-332 | one record per stored interval, in stored order, with type `interval`, both times, both frames and the behaviour |
| `Export.ExportRoundTrip` | frontend/src/App.js:325-332 | reading the records back as interval entries gives the store unchanged |
| `Export.RowsAppend` | frontend/src/App.js:295-298 | after an insert the table is the old table plus one record for the new interval |
| `Export.RowsRelabel` | frontend/src/App.js:307-311 | after a relabel only the behaviour column of that record changes |
| `SessionConfig.FrameRateOnBlur` | frontend/src/App.js:382-390 | the frame rate becomes the parsed value when it is a number ≥ 1, and 30 otherwise |
| `SessionConfig.FrameIntervalOnBlur` | frontend/src/App.js:411-419 | the step interval is always ≥ 10; it becomes the parsed value when that is ≥ 10, and 100 otherwise |
| `SessionConfig.BlurIdempotent` | frontend/src/App.js:382-419 | blurring a field that already holds the settled value leaves it unchanged |
| `Engine.InitialInv` | frontend/src/App.js:18-35 | the initial state satisfies the invariant, with frame and time in sync |
| `Engine.NewVideoKeepsInv` | frontend/src/App.js:90-98 | a new video resets to frame 0 / time 0, an empty store, no pending mark, page 0, and keeps the invariant |
| `Engine.SeekKeepsInv` | frontend/src/App.js:219-223 | a frame-driven write sets the time to `frame / frameRate`; the frame of that time is the frame itself |
| `Engine.TimeUpdateKeepsInv` | frontend/src/App.js:210-217 | a time update sets the frame to `round(time * frameRate)`, within half a frame of the time |
| `Engine.NextFrameSpec` | frontend/src/App.js:230-242 | +1 frame exactly when `(frame+1)/frameRate <= duration`, staying at or below the last frame, time in sync; otherwise nothing changes |
| `Engine.PrevFrameSpec` | frontend/src/App.js:244-256 | −1 frame exactly when `(frame-1)/frameRate >= 0`, time in sync; otherwise nothing changes |
| `Engine.TickSpec` | frontend/src/App.js:176-189 | a tick moves ±1 in the held direction exactly when the new time is in `[0, duration]`, otherwise changes nothing, and stays scheduled; without a video element it stops |
| `Engine.MarkingSpec` | frontend/src/App.js:258-272 | mark start records the current frame and clears the end; mark end warns and changes nothing without a start, otherwise records the end and keeps the start |
| `Engine.AddSpec` | frontend/src/App.js:274-305 | appends exactly one interval `{start, end, start/fr, end/fr, behaviour}` exactly when the checks pass, keeping earlier entries, clearing the pending mark, resetting the behaviour and page; a rejection changes only the in-progress flag |
| `Engine.RelabelSpec` | frontend/src/App.js:307-314 | only the behaviour of entry `idx` changes; length, the other entries and the page are kept |
| `Engine.RemoveSpec` | frontend/src/App.js:316-321 | a valid delete drops exactly that entry in order; page becomes `max(0, page-1)` exactly when `page*15 >= oldLength-1`; the invariant is kept |
| `Engine.RestartSpec` | frontend/src/App.js:174-202 | a changed duration, frame rate or step interval arms the timer exactly when an arrow is held, and an unchanged one leaves it alone; after new metadata a held arrow that had stopped for want of a video moves frames again |
| `Engine.BackStepPastDurationAfterRateChange` | frontend/src/App.js:244-256 | after switching from 31 to 30 fps on frame 301 of a 9.99 s video, a backward step reaches frame 300 at time 10, past the duration yet within `maxFrame`, with the invariant kept |
| `Engine.PagingKeepsInv` | frontend/src/App.js:621-637 | the page buttons keep the page valid, and the page after "Next" has rows unless the store is empty |
| `Engine.KeyDownIgnoredWhileAdding` | frontend/src/App.js:134 | while an insert is in progress every key press is ignored |
| `Engine.DigitKeySpec` | frontend/src/App.js:139-147 | a digit commits only with a marked start and a non-empty end, never marks the end itself, and labels the new interval with behaviour `n-1`; a rejected commit only leaves that behaviour selected |
| `Engine.KeyDownKeepsInv` | frontend/src/App.js:132-151 | every key press keeps the invariant; an arrow press selects the held direction and moves nothing |
| `Engine.KeyUpSpec` | frontend/src/App.js:153-160 | releasing an arrow clears the direction and the timer, and marks the end at the current frame exactly when a start is marked |
| `Engine.BlurKeepsInv` | frontend/src/App.js:382-419 | blurring either setting keeps the invariant and leaves the store, the frame and the time alone |
| `Engine.Annotator.constructor` | frontend/src/App.js:18-35 | the initial state: empty store, frame 0, rate 30, step 100 ms, no video |
| `Engine.Annotator.ResetForNewVideo` | frontend/src/App.js:90-98 | performs the new-video reset and keeps the invariant |
| `Engine.Annotator.LoadedMetadata` | frontend/src/App.js:113-116 | records the video duration; a changed duration restarts the continuous-step timer when an arrow is held, and nothing else changes |
| `Engine.Annotator.TimeUpdate` | frontend/src/App.js:210-217 | performs the time-authoritative update and keeps the invariant |
| `Engine.Annotator.SliderChange` | frontend/src/App.js:219-228 | seeks to the slider's frame with the time in sync, keeping the invariant |
| `Engine.Annotator.NextFrame` | frontend/src/App.js:230-242 | performs the bounded forward step and keeps the invariant |
| `Engine.Annotator.PrevFrame` | frontend/src/App.js:244-256 | performs the bounded backward step and keeps the invariant |
| `Engine.Annotator.Tick` | frontend/src/App.js:176-189 | performs one continuous-step tick and keeps the invariant |
| `Engine.Annotator.MarkIntervalStart` | frontend/src/App.js:258-263 | performs mark start and keeps the invariant |
| `Engine.Annotator.MarkIntervalEnd` | frontend/src/App.js:265-272 | performs mark end and returns the warning status exactly when no start is marked |
| `Engine.Annotator.EditStartField` | frontend/src/App.js:522-528 | the start field and the marked start both take the typed value |
| `Engine.Annotator.EditEndField` | frontend/src/App.js:537-545 | the end field takes the typed value; it is editable only when the start field is filled |
| `Engine.Annotator.SelectBehavior` | frontend/src/App.js:549-553 | only the selected behaviour changes |
| `Engine.Annotator.AddInterval` | frontend/src/App.js:274-305 | returns the validation outcome and performs the validated insert, keeping the invariant |
| `Engine.Annotator.PressAdd` | frontend/src/App.js:559-566 | the Add button inserts with the selected behaviour |
| `Engine.Annotator.UpdateIntervalBehavior` | frontend/src/App.js:307-314 | performs the relabel and keeps the invariant |
| `Engine.Annotator.RemoveInterval` | frontend/src/App.js:316-321 | performs the delete with its page correction and keeps the invariant |
| `Engine.Annotator.PrevPage` | frontend/src/App.js:623-630 | moves one page back, never below 0 |
| `Engine.Annotator.NextPage` | frontend/src/App.js:631-638 | moves one page forward only when that page has rows |
| `Engine.Annotator.IntervalsChanged` | frontend/src/App.js:204-208 | clears the in-progress flag after the store changed |
| `Engine.Annotator.VisibleRows` | frontend/src/App.js:584-587 | returns the current page's rows (at most 15, sorted, never empty for a non-empty store) without touching the store |
| `Engine.Annotator.ExportTable` | frontend/src/App.js:325-332 | returns one export record per stored interval |
| `Engine.Annotator.KeyDown` | frontend/src/App.js:132-151 | performs the key-press transition (S, E, digits, arrows, gating) and returns what it did |
| `Engine.Annotator.KeyUp` | frontend/src/App.js:153-160 | performs the key-release transition and keeps the invariant |
| `Engine.Annotator.BlurFrameRate` | frontend/src/App.js:382-390 | applies the frame-rate blur rule, restarts a held arrow's timer when the rate changes, and keeps the invariant |
| `Engine.Annotator.BlurFrameInterval` | frontend/src/App.js:411-419 | applies the step-interval blur rule, restarts a held arrow's timer when the interval changes, and keeps the invariant |

## Left out

- `backend.py`: an HTTP endpoint, temporary files and an `ffmpeg` subprocess. It is I/O with no state the core depends on.
- The upload handshake (`App.js:59-106`): the file check, `fetch`, busy flags and alerts are I/O. Only the reset after a successful conversion is modelled (`ResetForNewVideo`). A failed upload changes only the busy flags, which are not modelled.
- Video element wiring (`App.js:108-129`): setting the source, loading and the error alert. The surface's duration enters through `LoadedMetadata`; its times enter as the argument of `TimeUpdate`. The writes `videoRef.current.currentTime = …` that seek the surface are not modelled.
- Real timers: `setTimeout`/`clearTimeout` and the millisecond cadence. Continuous stepping is a held `arrow`, a `timerArmed` flag and one `Tick` per firing. The effect restarts the timer when the frame rate, duration or step interval change (`Restart`). The settings fields are modelled only by their settled values, so the restarts that intermediate keystrokes cause (each one stores a new raw value) are folded into the one at blur time, and a blur that settles on the value already held restarts nothing.
- React semantics: batched state updates, and listeners that capture state from an earlier render. The keyboard listeners are re-registered only when `markStart`, `intervalEndFrame` or `isAddingInterval` change, so `addInterval` called from a digit key may read an older frame rate or duration. The model has every handler read the current state. `currentFrame` and `currentFrameRef` are one field; they agree at every event boundary.
- Fields are modelled as already-parsed integers (`None` for text `parseInt` rejects), and the marked start as equal to the parsed start field.
- Engine.Annotator.EditStartField: does not model the state where `markStart` is non-null while the start field does not parse. The field sets the mark with `Number(v)` for any non-empty text (`App.js:526`), but the insert parses it with `parseInt` (`App.js:275`). Text such as `.5` gives a mark of 0.5 and a `NaN` start. In the code, E and an arrow release then set the end (`App.js:156,266`), and a digit commits and fails with "must be valid numbers" (`App.js:141-146,280-283`). In the model, E reports `NeedStartFirst`, the release sets no end and the digit does nothing. The gates at `App.js:141` (end field), `545` (end field enabled) and `563` (Add enabled) test for non-empty text, not for text that parses. The model merges the two, so `EditEndField` and `PressAdd` require a parsed value.
- The keystroke filters of the two settings fields (`App.js:370-381`, `399-410`) and the raw text they keep while a field is being edited. The model keeps only the settled values that the blur rules produce.
- CSV and zip serialisation, the header row, and the two-decimal `toFixed(2)` formatting of the export times: foreign libraries and float formatting.
- IEEE floating point in `frame / frameRate` and `time * frameRate`: exact reals are used.
- Theme, layout, rendering, `console.log` and alert texts: alerts are returned status values (`AddStatus`, `MarkStatus`, `KeyOutcome`).
- The `auto` field of an interval is always `false` in this code. It is kept in the record but nothing sets it.
- The table rows find their store index with `intervals.indexOf(interval)`, a lookup by object identity (`App.js:597,610`). The model takes the store index `idx` directly and does not model that row-to-index mapping.
