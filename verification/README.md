# Focus Guard and Air Writer, modelled in Dafny

A Dafny model of the logic inside a study-session web application
(React/TypeScript). It covers three parts of that application.

* **The presence tracker** of the focus screen. Each face-detector result is one
  step of a state machine over `present | warning | absent | unknown`. A step
  keeps present and absent time, counts absence runs, and decides when to warn
  and when to sound the alarm. Ending the session builds a graded record, with
  each subject's timing preset looked up in a table.
* **The air-writing screen.** This part has four pieces:
  - the hand-gesture classifier over 21 landmarks;
  - the cooldowns that gate the colour and save commands;
  - stroke start and continuation between camera frames;
  - the bounded undo history.
* **The dashboard figures**: the total focus time, the average focus, the
  experience level and its progress bar, the heart count, the water counter
  and the colour of each log entry.

All operations are pure functions.

* Time is a `Date.now()` reading: an integer number of milliseconds since the
  epoch, passed in by the caller. The tracker's time counters are
  milliseconds too; the source keeps them in seconds, which are milliseconds
  divided by 1000.
* Audio, speech and canvas drawing are returned as event lists.
* Canvas snapshots are an opaque type parameter.
* Arithmetic is exact. `Math.round`, `Math.ceil`, `Math.floor`, the `%` operator
  and `toFixed(1)` are stated over reals in `Common`.

Files:

| file | module | contents |
|---|---|---|
| `common.dfy` | `Common` | `Option` and the JavaScript number operations |
| `types.dfy` | `Types` | presence states, subject presets, the session record |
| `focus_guard.dfy` | `FocusGuard` | one detection step, the session record, grade and bar colour |
| `session_runs.dfy` | `SessionRuns` | the tracker over input sequences, and worked sessions |
| `gesture.dfy` | `Gesture` | the gesture classifier |
| `canvas_history.dfy` | `CanvasHistory` | `saveToHistory`, `undo`, `clearCanvas` |
| `stroke_history.dfy` | `StrokeHistory` | undo seen at the level of whole strokes (see Findings) |
| `air_writer.dfy` | `AirWriter` | cooldown gate, colour cycling, the per-frame handler |
| `dashboard.dfy` | `Dashboard` | the dashboard figures |

Three behaviours of the code are easy to miss:

* **Time gaps.** The gap between two samples is not clamped: a clock reading
  earlier than the last check subtracts time (`SessionRuns.BackwardsClockLosesTime`).
* **Pausing.** A paused call returns before the last-check time is updated. So
  the first sample after resuming credits the whole paused interval
  (`SessionRuns.PausedIntervalAccrues`).
* **Recovery speech.** Only recovering from the alarm is answered with
  speech; recovering from a warning is silent. The warning and the alarm say
  the same phrase.

The grade thresholds (FocusGuard.tsx:100-103) include each tier's lower
bound and are applied to the unrounded percentage, so 89.9 is "great"
(`FocusGuard.GradeBoundaryExamples`).

A hand with fewer than 21 landmarks would make the source fail when it reads a
missing landmark. Here it gives `None`.

The model makes `now >= lastCheck` a lemma hypothesis, not a precondition of
the step. The step is defined for every clock reading, as the source is.
`SessionRuns.RunKeepsCountersNonNegative` shows that readings which never go
backwards keep every counter non-negative.

## Model

| member | source | states |
|---|---|---|
| `Types.PersonStateIsFourValued` | src/types.ts:1 | a presence state is one of exactly four distinct values |
| `Types.ConfigFor` | src/components/FocusGuard.tsx:26 | for every subject the dashboard offers: a known subject gets its own preset, any other the Self Study preset 180/20/60; the warning delay is always below the alarm delay |
| `Types.PresetTable` | src/types.ts:25-31 | every preset warns before it alarms; the five subjects are exactly the table's keys; SQL is 15/45; Maths, Physics and Chemistry are 120/10/30; Self Study is 180/20/60 |
| `Types.GradeLabelsDistinct` | src/components/FocusGuard.tsx:100-103 | the four grade texts stored in a record are pairwise different, so the text identifies the grade |
| `FocusGuard.HandleDetection` | src/components/FocusGuard.tsx:48-93 | see the note below the table |
| `FocusGuard.Init` | src/components/FocusGuard.tsx:16-28 | a tracker mounted at `now` is unknown, running and silent, with no time tracked, no absence run and `lastCheck` at `now` |
| `FocusGuard.Step` | src/components/FocusGuard.tsx:165-184 | the pause button toggles the paused flag and resume clears it; neither touches time, counters or events |
| `FocusGuard.FocusPercent` | src/components/FocusGuard.tsx:98-99 | 0 when no time was tracked; otherwise the percentage times the total equals 100 times present; within [0,100] for non-negative counters; exactly 100 iff there was presence and no absence |
| `FocusGuard.GradeFor` | src/components/FocusGuard.tsx:100-103 | excellent iff at least 90, great iff in [75,90), good iff in [60,75), needs work iff below 60 |
| `FocusGuard.GradeMonotone` | src/components/FocusGuard.tsx:100-103 | a higher percentage never earns a lower grade |
| `FocusGuard.GradeBoundaryExamples` | src/components/FocusGuard.tsx:100-103 | 89.9 is great, 90 is excellent, 75 is great, 60 is good, 59.9 needs work |
| `FocusGuard.EndSession` | src/components/FocusGuard.tsx:97-115 | see the note below the table |
| `FocusGuard.DisplayVersusRecord` | src/components/FocusGuard.tsx:121 | the live figure equals the record's unrounded percentage once time is tracked; before that the live figure shows 100 and the record 0 |
| `FocusGuard.DisplayFocus` | src/components/FocusGuard.tsx:121 | 100 before any time is tracked; otherwise the figure times the total equals 100 times present; within [0,100] for non-negative counters |
| `FocusGuard.FocusBarColour` | src/components/FocusGuard.tsx:206 | the bar is green iff above 80, yellow iff in (60,80], red iff at most 60 |
| `SessionRuns.Run` | src/components/FocusGuard.tsx:51-58 | over any input sequence the consistency invariant survives; session time, and present plus absent time, both grow by exactly the advance of the last-check time |
| `SessionRuns.RunAudioAlternates` | src/components/FocusGuard.tsx:60-84 | the alarm sound is started only while silent and stopped only while playing; afterwards the alarm flag says whether it plays |
| `SessionRuns.AbsentRunCountsOnce` | src/components/FocusGuard.tsx:70-74 | a stretch of absent samples adds one to the count if no run was open, otherwise nothing; the run starts at the first absent sample, or stays where it was |
| `SessionRuns.AbsentStep` | src/components/FocusGuard.tsx:70-91 | an absent sample is silent, gives the warning (raising its flag), or starts the alarm (raising its flag); no flag is lowered |
| `SessionRuns.AbsentRunAlarmOnce` | src/components/FocusGuard.tsx:78-91 | see the note below the table |
| `SessionRuns.RunKeepsAlarmInv` | src/components/FocusGuard.tsx:78-84 | with readings that never go backwards: the alarm sounds iff the state is absent, and only once the open run is at least the alarm delay old |
| `SessionRuns.RunKeepsCountersNonNegative` | src/components/FocusGuard.tsx:51-58 | with readings that never go backwards, session, present, absent and elapsed-absence times stay non-negative |
| `SessionRuns.FreshTrackerInvariants` | src/components/FocusGuard.tsx:16-28 | a freshly mounted tracker meets the consistency invariant, the alarm invariant and non-negative counters |
| `SessionRuns.FreshSessionInvariants` | src/components/FocusGuard.tsx:16-93 | from mounting on, with clock readings that never go backwards, the alarm sounds iff the state is absent and every counter stays non-negative |
| `SessionRuns.BackwardsClockLosesTime` | src/components/FocusGuard.tsx:52 | a reading 3 s before the last check takes 3 s off the present time |
| `SessionRuns.AbsentIsSticky` | src/components/FocusGuard.tsx:78-84 | with clock readings that never go backwards: once the alarm has set the state to absent, further absent samples keep it absent, keep the alarm on and emit nothing |
| `SessionRuns.CorrectedCountsEveryRun` | src/components/FocusGuard.tsx:57-74 | in the corrected variant the absence count grows by exactly the number of maximal absent stretches in the samples |
| `SessionRuns.ShortAbsenceMergesRuns` | src/components/FocusGuard.tsx:59-68 | see the note below the table |
| `SessionRuns.ShortAbsenceStaysOpen` | src/components/FocusGuard.tsx:59-91 | for every tracker and preset: an absent sample below both delays leaves the state present and silent; as written the following present sample keeps the absence run open from its start, while the corrected variant closes it; both count the absence once |
| `SessionRuns.MathsSession` | src/components/FocusGuard.tsx:70-91 | see the note below the table |
| `SessionRuns.PausedIntervalAccrues` | src/components/FocusGuard.tsx:49-58 | from any running tracker: pause, any detections while paused, resume and a present sample at `now` — the present and session times both gain the whole interval from the last check before the pause to `now`, absent time is unchanged |
| `SessionRuns.PausedPrefixIgnored` | src/components/FocusGuard.tsx:49 | detections while paused change nothing: a run that starts with them ends exactly as the run without them |
| `Common.CountTrue` | src/components/AirWriter.tsx:108 | the count of raised fingers is at most four; it is four iff all are up and 0 iff none is |
| `Common.Floor` | src/components/Dashboard.tsx:31 | `Math.floor`: the greatest integer not above the input |
| `Common.Ceil` | src/components/Dashboard.tsx:45 | `Math.ceil`: the least integer not below the input |
| `Common.JsRound` | src/components/FocusGuard.tsx:109 | `Math.round`: the result is the integer within half of the input, a tie going up |
| `Common.JsRem` | src/components/Dashboard.tsx:32 | the JavaScript `%`: within [0,b) for a non-negative dividend and (-b,0] for a negative one, and a whole number of divisors away from the dividend — rounding the quotient down for a non-negative dividend and up for a negative one |
| `Common.ToFixed1` | src/components/FocusGuard.tsx:110-112 | `Number(x.toFixed(1))`: within 0.05 of `x` and of the same sign |
| `Gesture.DetectGesture` | src/components/AirWriter.tsx:98-135 | see the note below the table |
| `Gesture.FistNeverPinches` | src/components/AirWriter.tsx:124-128 | with no finger up the result is pause or save, never a pinch |
| `Gesture.IndexFingerDraws` | src/components/AirWriter.tsx:121-122 | index up alone draws at the index tip, whatever the thumb does |
| `CanvasHistory.SaveToHistory` | src/components/AirWriter.tsx:53-63 | the snapshot becomes the newest; only the newest entries survive, in order; exactly one is dropped at the limit of 20; the bound is kept; the redo stack is emptied |
| `CanvasHistory.Undo` | src/components/AirWriter.tsx:65-76 | see the note below the table |
| `CanvasHistory.ClearCanvas` | src/components/AirWriter.tsx:78-85 | the blank canvas becomes the newest snapshot above the previous ones, which are all kept below the limit (only the oldest is dropped at it); the redo stack is emptied; the bound is kept |
| `CanvasHistory.UndoAfterSave` | src/components/AirWriter.tsx:53-76 | undo right after a save repaints the previous newest snapshot, puts the saved one on the redo stack and restores the history; at the limit the oldest entry is gone for good |
| `CanvasHistory.UndoAfterClear` | src/components/AirWriter.tsx:65-85 | undo right after a clear repaints the newest snapshot from before the clear, and below the limit restores the history exactly |
| `CanvasHistory.ApplyAll` | src/components/AirWriter.tsx:53-85 | no sequence of saves, undos and clears takes the history over 20 |
| `CanvasHistory.HistoryNeverEmpties` | src/components/AirWriter.tsx:65-69 | once non-empty, the history stays non-empty under any sequence of operations |
| `CanvasHistory.FirstSaveCannotBeUndone` | src/components/AirWriter.tsx:66 | after a single save into an empty history, undo does nothing |
| `StrokeHistory.UndoStrokeAsWritten` | src/components/AirWriter.tsx:65-76 | see the note below the table |
| `StrokeHistory.DrawStroke` | src/components/AirWriter.tsx:154-166 | after a stroke the canvas is the drawn one and the redo stack is empty; the snapshot saved on top of the history is the canvas from before the stroke, pushed on the unchanged history below the limit; the bound is kept |
| `StrokeHistory.ClearBoard` | src/components/AirWriter.tsx:78-85 | after a clear the canvas is blank and the redo stack empty; the snapshot saved on top of the history is that blank canvas, the state after the change, pushed on the unchanged history below the limit; the bound is kept |
| `StrokeHistory.UndoBoard` | src/components/AirWriter.tsx:65-76 | with more than one snapshot the newest moves onto the redo stack and the canvas becomes the snapshot below it; with at most one nothing changes; the bound is kept |
| `StrokeHistory.UndoClearAsWritten` | src/components/AirWriter.tsx:65-85 | as written, undoing a clear that follows a stroke returns to the canvas before that stroke, so the stroke is lost too |
| `StrokeHistory.UndoRemovesTwoStrokes` | src/components/AirWriter.tsx:65-76 | two strokes on a fresh canvas and one undo leave the canvas empty, not showing the first stroke |
| `StrokeHistory.UndoBoardCorrected` | src/components/AirWriter.tsx:65-76 | corrected undo repaints the newest snapshot, pops it, and keeps the undone canvas for redo; with no snapshot it does nothing |
| `StrokeHistory.UndoRestoresPreviousCanvas` | src/components/AirWriter.tsx:65-85 | with the correction, undo after any stroke or clear gives back exactly the canvas before it |
| `StrokeHistory.CorrectedUndoRemovesOneStroke` | src/components/AirWriter.tsx:65-76 | with the correction, two undos after two strokes show the first stroke, then the empty canvas |
| `AirWriter.TryFire` | src/components/AirWriter.tsx:181-197 | a command fires iff strictly more than its cooldown has passed since it last fired (never-fired counts as 0); firing records `now`; the other command's time is untouched |
| `AirWriter.FiringsAreSpaced` | src/components/AirWriter.tsx:183-195 | however often a gesture is seen, successive firings are more than the cooldown apart, and the first is more than the cooldown after the last recorded one |
| `AirWriter.DueFrameFires` | src/components/AirWriter.tsx:183-185 | a frame past the cooldown always fires |
| `AirWriter.PeaceSignIsRateLimited` | src/components/AirWriter.tsx:180-187 | over any frames that all show the peace sign, the handler emits exactly one colour change per firing of the 1000 ms gate over the frames' times, each change one palette step further; the colour ends that many steps on; firings are more than 1000 ms apart; the history is untouched |
| `AirWriter.ThumbsUpIsRateLimited` | src/components/AirWriter.tsx:189-196 | over any frames that all show a thumbs-up fist, the handler saves the image exactly once per firing of the 2000 ms gate, the firings more than 2000 ms apart; colour and history are untouched |
| `AirWriter.FreshColorFrameFires` | src/components/AirWriter.tsx:180-187 | on a fresh screen the first peace sign at any clock reading past 1000 ms (every real `Date.now()`) changes the colour from green to blue and records its time |
| `AirWriter.FreshPeaceSign` | src/components/AirWriter.tsx:180-187 | on a fresh screen, peace-sign frames at a reading `t` past 1000 ms, at `t` + 0.7 s and at `t` + 2 s fire at `t` and `t` + 2 s, changing the colour twice, from green to yellow |
| `AirWriter.NextColor` | src/components/AirWriter.tsx:184 | the colour index advances by one and wraps from the last colour to the first; it stays within the seven colours |
| `AirWriter.ColorCycle` | src/components/AirWriter.tsx:14-22 | seven changes return to the same colour, and every colour is reached within six |
| `AirWriter.InitWriter` | src/components/AirWriter.tsx:14-35 | a fresh screen is idle and green, with no stroke, empty history and redo stacks, and both command timers at 0 |
| `AirWriter.ToCanvas` | src/components/AirWriter.tsx:151-152 | a detector point in the unit square maps into the 1280 x 720 canvas |
| `AirWriter.HandleResults` | src/components/AirWriter.tsx:137-214 | see the note below the table |
| `AirWriter.RunFrames` | src/components/AirWriter.tsx:137-214 | over any frames the colour stays in the palette and the history within its bound |
| `AirWriter.StrokeContinues` | src/components/AirWriter.tsx:154-166 | drawing on from a stroke in progress adds one chained segment per frame and saves nothing |
| `AirWriter.StrokeSavesOnce` | src/components/AirWriter.tsx:154-169 | a whole stroke saves the canvas once, on its first frame, and then draws one segment per later frame, each continuing the last |
| `Dashboard.Sum` | src/components/Dashboard.tsx:26 | a sum of non-negative values is non-negative |
| `Dashboard.SumBounds` | src/components/Dashboard.tsx:26-28 | entries within [lo,hi] put the sum within the count times those bounds |
| `Dashboard.SumAppend` | src/components/Dashboard.tsx:26 | the sum of a concatenation is the sum of the sums |
| `Dashboard.TotalFocusTime` | src/components/Dashboard.tsx:26 | 0 with no sessions; one session's present minutes for a single session; non-negative when every session's present minutes are |
| `Dashboard.TotalFocusTimeAdds` | src/components/Dashboard.tsx:26 | the total over two lists of sessions is the sum of their totals |
| `Dashboard.TotalFocusTimeSnoc` | src/components/Dashboard.tsx:26 | one more session adds exactly its present minutes to the total |
| `Dashboard.TotalFocusTimeIsPresentTotal` | src/components/Dashboard.tsx:26 | the total equals the in-order sum of every session's present minutes |
| `Dashboard.AvgFocus` | src/components/Dashboard.tsx:27-29 | 0 with no sessions; otherwise the average times the count is the sum of the percentages; within [0,100] when every percentage is |
| `Dashboard.AverageBounds` | src/components/Dashboard.tsx:27-29 | the mean of values within [lo,hi] lies within [lo,hi] |
| `Dashboard.XpLevel` | src/components/Dashboard.tsx:31 | the level is the number of full hours plus one; at least 1 for a non-negative total |
| `Dashboard.XpLevelMonotone` | src/components/Dashboard.tsx:31 | more focus time never lowers the level |
| `Dashboard.XpProgress` | src/components/Dashboard.tsx:32 | within [0,100) for a non-negative total, and within (-100,0] for a negative one |
| `Dashboard.LevelAndProgress` | src/components/Dashboard.tsx:31-32 | for a non-negative total, the hours below the current level plus the bar's share of an hour give the total back |
| `Dashboard.FilledSlots` | src/components/Dashboard.tsx:44-45 | slots below k are filled: none for k at most 0, k for k in range, all when k exceeds the slots |
| `Dashboard.FilledHearts` | src/components/Dashboard.tsx:44-45 | see the note below the table |
| `Dashboard.HeartsMonotone` | src/components/Dashboard.tsx:45 | a higher average never shows fewer hearts |
| `Dashboard.WaterClick` | src/components/Dashboard.tsx:78 | a click adds one below the goal of 8 and stays at 8 from there |
| `Dashboard.WaterCounterCaps` | src/components/Dashboard.tsx:78 | from zero, n clicks show n up to 8 and 8 after that |
| `Dashboard.LogTierFor` | src/components/Dashboard.tsx:155-156 | green iff at least 80, yellow iff in [60,80), red iff below 60 |
| `Dashboard.TiersAgreeOffThresholds` | src/components/Dashboard.tsx:155-156 | the log colour and the live bar's colour agree except at exactly 80 and 60; there the log is green or yellow while the bar is yellow or red |

Notes on the rows above that say "see the note below the table":

* **`FocusGuard.HandleDetection`**
  - A paused call changes nothing, `lastCheck` included.
  - Otherwise the gap goes to the session time and to exactly one of present and absent time.
  - An absent sample opens a run and adds one to the count only when no run is open.
  - The alarm starts, with speech, iff the run has reached the alarm delay and the alarm is off. Once the alarm is on, further samples say nothing and leave the state.
  - The warning is spoken iff the run is between the two delays and the warning was not yet given.
  - An absent sample that says nothing leaves the state and both flags as they were.
  - On recovery, the sound stops and the recovery phrase is spoken iff the alarm was on, and the run, the state and the flags are reset.
  - A present sample while already present changes only the time counters.
  - The consistency invariant is kept.
* **`FocusGuard.EndSession`**
  - The record has no id.
  - It spans exactly the session time.
  - The duration is the session minutes rounded half up.
  - The minute and percentage fields are within 0.05 of the exact values.
  - The percentage is 0 with no tracked time and lies within [0,100].
  - The absence count is copied from the tracker.
  - The grade is taken from the unrounded percentage.
* **`SessionRuns.AbsentRunAlarmOnce`**: within a run of absent samples,
  - the alarm starts at most once, and never if it already sounds;
  - nothing stops it;
  - every phrase beyond the one that comes with the alarm is the single warning.
* **`SessionRuns.ShortAbsenceMergesRuns`**: a trace with two absence runs.
  - As written, the source counts one run and sounds the alarm at once.
  - The corrected variant counts two and stays silent.
* **`SessionRuns.MathsSession`** follows a Maths session sample by sample:
  - the warning comes exactly at 10 s into the run;
  - nothing is said at 20 s;
  - the alarm comes at 30 s;
  - nothing more is said after that.
* **`Gesture.DetectGesture`** gives no result for fewer than 21 landmarks. Otherwise:
  - erase iff all four fingers are up, at the palm centroid;
  - colour iff the peace sign, at the index tip;
  - draw iff the index is up alone, at the index tip;
  - pause iff a fist with the thumb down, at the palm;
  - save iff a fist with the thumb up, at the thumb tip;
  - otherwise none: a squared thumb–index distance below 0.05² gives the index tip and the distance; anything else gives no anchor.
* **`CanvasHistory.Undo`**
  - With at most one snapshot, undo does nothing.
  - Otherwise the newest snapshot moves to the redo stack and the one below it is repainted.
  - Snapshots only move between the stacks, none is lost or invented.
  - The history stays non-empty and bounded.
* **`StrokeHistory.UndoStrokeAsWritten`**: as written, undoing a stroke
  - repaints the snapshot taken before the previous stroke;
  - cannot undo a stroke made on an empty history.
* **`AirWriter.HandleResults`**
  - No hand: idle, and any stroke ends.
  - A too-short landmark list gives no result.
  - The mode is the classifier's.
  - A stroke point is kept iff the mode is draw. A drawing frame adds a segment from the previous point, or saves the canvas on a stroke's first frame.
  - Only drawing saves.
  - The eraser clears an 80-pixel square centred on the palm.
  - A colour change or a save happens iff its cooldown has run out.
  - A colour frame sets the colour timer as the gate does, and moves the colour one step on iff the gate fired.
  - A save frame sets the save timer as the gate does and keeps the colour.
  - Any other frame leaves both timers and the colour unchanged.
  - Pause and idle frames do nothing.
  - The colour stays in the palette and the history within its bound.
* **`Dashboard.FilledHearts`**
  - There are at most 10 hearts.
  - For an average in [0,100] the count is the ceiling of a tenth of it.
  - No heart is filled iff the average is at most 0.
  - All ten are filled above 90.

## Left out

- Camera capture, the face and hand detectors and their hooks. The tracker
  receives `present` and the frame handler receives landmark lists directly.
- Audio playback and speech synthesis, beyond the start, stop and speak events
  the tracker emits.
- Canvas pixels and `ImageData`.
  - Snapshots are a type parameter.
  - The eraser and stroke segments are returned as effects.
  - The cursor, stroke colour and thickness, dashed outline, confetti, the
    download link and notification texts are not modelled.
- The pinch result's `extra` data is not used by the frame handler. The pinch
  reading is still produced, with the squared distance instead of the
  distance, so no square root is needed.
- The redo stack is filled but never read: there is no redo control. The model
  keeps the stack and adds no redo operation.
- Date and time formatting of the record's start and end. They are kept as
  millisecond timestamps.
- The dashboard's fetch and the server's storage: the dashboard functions take
  the session list directly.
- The constant "Energy" row of eight icons and the log's `toFixed(0)` label:
  display only.
- React state and closure timing. Each detection and each frame is one atomic
  update of one state record.
- Binary floating point. Sums, divisions and rounding are exact over reals.
- `Types.ConfigFor`: the preset lookup is an own-key lookup. In the source a
  subject named after an inherited object member (`toString`, `constructor`)
  would find that member, and its session would never warn or alarm. The
  dashboard only offers the subjects of the preset table, so no such name
  reaches the lookup.
- `Dashboard.TotalFocusTime` and the other dashboard figures are over the
  sessions the dashboard receives. The server sends only the latest 50, so in
  the application the total and the level can drop as old sessions fall off.
- `Common.ToFixed1`: stated as within 0.05 of its input with the same sign,
  not as the exact decimal string conversion.
- `FocusGuard.EndSession`: `toFixed(1)` is stated as within 0.05 of the exact
  value with the right sign, not as the exact decimal string conversion.

## Findings

| source | as written | input that shows it | evidently intended | confidence | as-written member | corrected member |
|---|---|---|---|---|---|---|
| src/components/FocusGuard.tsx:59-68 | A present sample resets the absence run only when the state is not yet `present`. An absence too short to warn leaves the state `present`, so its run stays open. | Maths preset. Present at 1 s, absent at 2 s, present at 3 s, absent at 100 s. The source counts 1 absence and sounds the alarm at 100 s, timing the run from 2 s. | Every return of the student closes the absence run. That gives 2 absences and no alarm at 100 s. | not executed; high | `SessionRuns.ShortAbsenceMergesRuns` | `SessionRuns.CorrectedCountsEveryRun` |
| src/components/AirWriter.tsx:65-76 | A stroke saves the canvas before the stroke (lines 163-165). Undo treats the newest snapshot as the current canvas, so it discards that snapshot and repaints the one below it. | Two strokes on a fresh canvas, then Undo: the canvas becomes empty. After a single stroke, Undo does nothing. | Undo takes back exactly the last stroke or clear: it repaints the newest snapshot and pops it. | not executed; high | `StrokeHistory.UndoRemovesTwoStrokes` | `StrokeHistory.UndoRestoresPreviousCanvas` |

The tracker takes a `Variant` parameter. `AsWritten` is the source. `Corrected`
always closes the run on a present sample. Every other property above holds for
both variants.

The stroke-level undo model has two forms. `StrokeHistory.UndoBoard` is the
code as written. `StrokeHistory.UndoBoardCorrected` is the corrected form, and
it saves before every change, clears included.
