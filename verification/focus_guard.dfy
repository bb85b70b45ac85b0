/** The presence session tracker of the focus screen
    (src/components/FocusGuard.tsx): one step per face-detector result, and the
    record built when the session ends.

    Time is an integer number of milliseconds, passed in rather than read from
    a clock; the source keeps seconds (milliseconds / 1000), so every
    comparison below is the source's multiplied by 1000. Audio and speech are
    returned as events instead of being performed. */
module FocusGuard {
  import opened Common
  import opened Types

  /** `AsWritten` is the source's behaviour. `Corrected` differs in one place:
      a present sample always closes the absence run, even when the state is
      already `Present` (see `SessionRuns.CorrectedCountsEveryRun`). */
  datatype Variant = AsWritten | Corrected

  /** The two phrases the tracker speaks: `RecoveryPhrase` when the student
      comes back while the alarm sounds, `AbsencePhrase` both when the warning
      fires and when the alarm fires. */
  datatype Phrase = RecoveryPhrase | AbsencePhrase

  /** Side effects of one detection: start or stop the looping alarm sound,
      or say a phrase. */
  datatype Event = PlayAlarm | PauseAlarm | Speak(phrase: Phrase)

  /** The component's state and refs, as one record.
      `lastCheck` is `lastCheckRef`, `absentSince` is `absentSinceRef`. */
  datatype Tracker = Tracker(
    state: PersonState,
    paused: bool,
    lastCheck: int,
    sessionMs: int,
    presentMs: int,
    absentMs: int,
    absentSince: Option<int>,
    elapsedAbsentMs: int,
    absencesCount: nat,
    alarmActive: bool,
    warningSent: bool)

  /** The tracker as the component mounts at time `now`. */
  function Init(now: int): (t: Tracker)
    // nothing tracked yet: no time, no absence run, no warning, no alarm
    ensures t.state == Unknown && t.lastCheck == now && !t.paused
    ensures t.sessionMs == 0 && t.presentMs == 0 && t.absentMs == 0 && t.elapsedAbsentMs == 0
    ensures t.absentSince.None? && t.absencesCount == 0 && !t.alarmActive && !t.warningSent
  {
    Tracker(Unknown, false, now, 0, 0, 0, None, 0, 0, false, false)
  }

  /** What can happen to a tracker: a detection result, the pause button
      (which toggles), or the overlay's resume button (which clears). */
  datatype Input = Detection(present: bool, now: int) | TogglePause | Resume

  datatype StepResult = StepResult(tracker: Tracker, events: seq<Event>)

  /** Start of the absence run an absent sample at `now` belongs to: the open
      run's start, or `now` itself when no run is open. */
  function RunStart(t: Tracker, now: int): int {
    t.absentSince.GetOr(now)
  }

  /** An absent sample at `now` is at least the alarm delay into its run. */
  predicate AlarmDue(cfg: Preset, t: Tracker, now: int) {
    now - RunStart(t, now) >= cfg.alarmDelay * 1000
  }

  /** An absent sample at `now` is at least the warning delay into its run. */
  predicate WarningDue(cfg: Preset, t: Tracker, now: int) {
    now - RunStart(t, now) >= cfg.warningDelay * 1000
  }

  /** The parts of the tracker other than time keeping. */
  predicate SameFlags(a: Tracker, b: Tracker) {
    && a.state == b.state
    && a.paused == b.paused
    && a.absentSince == b.absentSince
    && a.elapsedAbsentMs == b.elapsedAbsentMs
    && a.absencesCount == b.absencesCount
    && a.alarmActive == b.alarmActive
    && a.warningSent == b.warningSent
  }

  /** The tracker's consistency: the session time is split exactly into
      present and absent time; the warning and alarm flags are only up while
      the state says so; and a warning or absent state always has an open
      absence run. */
  predicate Inv(t: Tracker) {
    && t.sessionMs == t.presentMs + t.absentMs
    && (t.alarmActive || t.warningSent ==> t.state == Warning || t.state == Absent)
    && (t.state == Warning || t.state == Absent ==> t.absentSince.Some?)
  }

  /** handleDetection: one face-detector result at time `now`. */
  function HandleDetection(v: Variant, cfg: Preset, t: Tracker, present: bool, now: int): (r: StepResult)
    // paused: nothing at all changes, not even the last-check time
    ensures t.paused ==> r == StepResult(t, [])
    // time keeping: the gap since the last check goes to the session and to
    // exactly one of the present and absent buckets
    ensures !t.paused ==> r.tracker.lastCheck == now && !r.tracker.paused
    ensures !t.paused ==> r.tracker.sessionMs == t.sessionMs + (now - t.lastCheck)
    ensures !t.paused && present ==>
              r.tracker.presentMs == t.presentMs + (now - t.lastCheck) && r.tracker.absentMs == t.absentMs
    ensures !t.paused && !present ==>
              r.tracker.absentMs == t.absentMs + (now - t.lastCheck) && r.tracker.presentMs == t.presentMs
    // absence runs: an absent sample opens a run only when none is open, and
    // only opening one is counted
    ensures !t.paused && !present ==> r.tracker.absentSince == Some(RunStart(t, now))
    ensures !t.paused && !present ==> r.tracker.elapsedAbsentMs == now - RunStart(t, now)
    ensures r.tracker.absencesCount == t.absencesCount + 1 <==> !t.paused && !present && t.absentSince.None?
    ensures r.tracker.absencesCount == t.absencesCount || r.tracker.absencesCount == t.absencesCount + 1
    // alarm: fires once, when the run reaches the alarm delay
    ensures PlayAlarm in r.events <==> !t.paused && !present && AlarmDue(cfg, t, now) && !t.alarmActive
    ensures PlayAlarm in r.events ==>
              r.events == [PlayAlarm, Speak(AbsencePhrase)] && r.tracker.alarmActive && r.tracker.state == Absent
    ensures !t.paused && !present && AlarmDue(cfg, t, now) && t.alarmActive ==>
              r.events == [] && r.tracker.state == t.state
    // warning: only between the two delays, once per run; the alarm test comes first
    ensures r.events == [Speak(AbsencePhrase)] <==>
              !t.paused && !present && WarningDue(cfg, t, now) && !AlarmDue(cfg, t, now) && !t.warningSent
    ensures r.events == [Speak(AbsencePhrase)] ==> r.tracker.state == Warning && r.tracker.warningSent
    // a silent absent sample leaves the state and both flags as they were
    ensures !t.paused && !present && r.events == [] ==>
              r.tracker.state == t.state && r.tracker.alarmActive == t.alarmActive &&
              r.tracker.warningSent == t.warningSent
    // recovery: a present sample after a non-present state resets the run;
    // only a sounding alarm is stopped and answered, a warning is not
    ensures PauseAlarm in r.events <==> !t.paused && present && t.state != Present && t.alarmActive
    ensures PauseAlarm in r.events ==> r.events == [PauseAlarm, Speak(RecoveryPhrase)]
    ensures present && !t.alarmActive ==> r.events == []
    ensures !t.paused && present && t.state != Present ==>
              && r.tracker.state == Present && r.tracker.absentSince.None?
              && !r.tracker.warningSent && !r.tracker.alarmActive
              && r.tracker.absencesCount == t.absencesCount
    ensures !t.paused && present && t.state == Present && v == AsWritten ==>
              r.events == [] && SameFlags(t, r.tracker)
    ensures !t.paused && present && t.state == Present && v == Corrected ==>
              r.events == [] && SameFlags(t.(absentSince := None), r.tracker)
    ensures Inv(t) ==> Inv(r.tracker)
  {
    if t.paused then StepResult(t, [])
    else
      var delta := now - t.lastCheck;
      var t1 := t.(lastCheck := now, sessionMs := t.sessionMs + delta);
      if present then
        var t2 := t1.(presentMs := t1.presentMs + delta);
        if t.state != Present then
          var events := if t.alarmActive then [PauseAlarm, Speak(RecoveryPhrase)] else [];
          StepResult(t2.(alarmActive := false, state := Present, absentSince := None, warningSent := false), events)
        else if v == Corrected then
          StepResult(t2.(absentSince := None), [])
        else
          StepResult(t2, [])
      else
        var t2 := t1.(absentMs := t1.absentMs + delta);
        var t3 := if t2.absentSince.None? then t2.(absentSince := Some(now), absencesCount := t2.absencesCount + 1) else t2;
        var elapsed := now - t3.absentSince.value;
        var t4 := t3.(elapsedAbsentMs := elapsed);
        if elapsed >= cfg.alarmDelay * 1000 then
          if !t.alarmActive then StepResult(t4.(alarmActive := true, state := Absent), [PlayAlarm, Speak(AbsencePhrase)])
          else StepResult(t4, [])
        else if elapsed >= cfg.warningDelay * 1000 then
          if !t.warningSent then StepResult(t4.(warningSent := true, state := Warning), [Speak(AbsencePhrase)])
          else StepResult(t4, [])
        else StepResult(t4, [])
  }

  /** One input applied to the tracker. */
  function Step(v: Variant, cfg: Preset, t: Tracker, input: Input): (r: StepResult)
    ensures !input.Detection? ==> r.events == [] && r.tracker.lastCheck == t.lastCheck
    ensures input.TogglePause? ==> r.tracker.paused == !t.paused
    ensures input.Resume? ==> !r.tracker.paused
    ensures !input.Detection? ==> r.tracker == t.(paused := r.tracker.paused)
  {
    match input
    case Detection(present, now) => HandleDetection(v, cfg, t, present, now)
    case TogglePause => StepResult(t.(paused := !t.paused), [])
    case Resume => StepResult(t.(paused := false), [])
  }

  // ---------------------------------------------------------------------
  // Ending the session

  /** Share of the tracked time spent present, in percent; 0 when no time
      has been tracked. */
  function FocusPercent(presentMs: int, absentMs: int): (p: real)
    ensures presentMs + absentMs <= 0 ==> p == 0.0
    ensures presentMs + absentMs > 0 ==> p * (presentMs + absentMs) as real == 100.0 * presentMs as real
    ensures 0 <= presentMs && 0 <= absentMs ==> 0.0 <= p <= 100.0
    ensures 0 <= presentMs && 0 <= absentMs ==> (p == 100.0 <==> presentMs > 0 && absentMs == 0)
  {
    var total := presentMs + absentMs;
    if total > 0 then
      var p := presentMs as real / total as real * 100.0;
      FocusBounds(presentMs, absentMs);
      p
    else 0.0
  }

  lemma FocusBounds(presentMs: int, absentMs: int)
    requires presentMs + absentMs > 0
    ensures var p := presentMs as real / (presentMs + absentMs) as real * 100.0;
            && p * (presentMs + absentMs) as real == 100.0 * presentMs as real
            && (0 <= presentMs && 0 <= absentMs ==> 0.0 <= p <= 100.0)
            && (0 <= presentMs && 0 <= absentMs ==> (p == 100.0 <==> absentMs == 0))
  {
    var total := (presentMs + absentMs) as real;
    var p := presentMs as real / total * 100.0;
    assert p * total == 100.0 * presentMs as real;
    if 0 <= presentMs && 0 <= absentMs {
      MulMonotone(p, 0.0, total);
      MulMonotone(100.0, p, total);
      MulMonotone(p, 100.0, total);
    }
  }

  /** The grade of a focus percentage; each tier includes its lower bound. */
  function GradeFor(p: real): (g: Grade)
    ensures g == Excellent <==> p >= 90.0
    ensures g == Great <==> 75.0 <= p < 90.0
    ensures g == Good <==> 60.0 <= p < 75.0
    ensures g == NeedsWork <==> p < 60.0
  {
    if p >= 90.0 then Excellent
    else if p >= 75.0 then Great
    else if p >= 60.0 then Good
    else NeedsWork
  }

  /** Position of a grade, worst first. */
  function Rank(g: Grade): nat {
    match g
    case NeedsWork => 0
    case Good => 1
    case Great => 2
    case Excellent => 3
  }

  /** A higher focus percentage never earns a lower grade. */
  lemma GradeMonotone(p: real, q: real)
    requires p <= q
    ensures Rank(GradeFor(p)) <= Rank(GradeFor(q))
  {
  }

  /** The grade at the tier boundaries: 89.9 is still `Great`, and each
      tier's lower bound belongs to it. */
  lemma GradeBoundaryExamples()
    ensures GradeFor(89.9) == Great && GradeFor(90.0) == Excellent
    ensures GradeFor(75.0) == Great && GradeFor(60.0) == Good && GradeFor(59.9) == NeedsWork
  {
  }

  /** handleEndSession: the record handed to the caller when the session ends
      at time `now`. The grade is taken from the unrounded percentage. */
  function EndSession(t: Tracker, subject: string, now: int): (r: SessionRecord)
    ensures r.id.None? && r.subject == subject
    ensures r.endMs == now && r.endMs - r.startMs == t.sessionMs
    ensures r.durationMins as real - 0.5 <= t.sessionMs as real / 60000.0 < r.durationMins as real + 0.5
    ensures -0.05 <= r.presentMins - t.presentMs as real / 60000.0 <= 0.05
    ensures -0.05 <= r.absentMins - t.absentMs as real / 60000.0 <= 0.05
    ensures -0.05 <= r.focusPercentage - FocusPercent(t.presentMs, t.absentMs) <= 0.05
    ensures t.presentMs + t.absentMs <= 0 ==> r.focusPercentage == 0.0
    ensures 0 <= t.presentMs && 0 <= t.absentMs ==> 0.0 <= r.focusPercentage <= 100.0
    ensures r.absencesCount == t.absencesCount
    ensures r.grade == GradeFor(FocusPercent(t.presentMs, t.absentMs))
  {
    var pct := FocusPercent(t.presentMs, t.absentMs);
    RoundedPercentInRange(pct);
    SessionRecord(
      None,
      subject,
      now - t.sessionMs,
      now,
      JsRound(t.sessionMs as real / 1000.0 / 60.0),
      ToFixed1(t.presentMs as real / 1000.0 / 60.0),
      ToFixed1(t.absentMs as real / 1000.0 / 60.0),
      ToFixed1(pct),
      t.absencesCount,
      GradeFor(pct))
  }

  /** Rounding to one decimal keeps a percentage within [0, 100]. */
  lemma RoundedPercentInRange(p: real)
    ensures 0.0 <= p <= 100.0 ==> 0.0 <= ToFixed1(p) <= 100.0
  {
    if 0.0 <= p <= 100.0 {
      ToFixed1Monotone(p, 100.0);
      ToFixed1Exact(1000);
      assert 1000 as real / 10.0 == 100.0;
    }
  }

  /** The live focus figure on screen (line 121): the same percentage, but 100
      rather than 0 before any time has been tracked. */
  function DisplayFocus(t: Tracker): (d: real)
    ensures t.presentMs + t.absentMs <= 0 ==> d == 100.0
    ensures t.presentMs + t.absentMs > 0 ==> d * (t.presentMs + t.absentMs) as real == 100.0 * t.presentMs as real
    ensures 0 <= t.presentMs && 0 <= t.absentMs ==> 0.0 <= d <= 100.0
  {
    var total := t.presentMs + t.absentMs;
    if total > 0 then
      FocusBounds(t.presentMs, t.absentMs);
      t.presentMs as real / total as real * 100.0
    else 100.0
  }

  /** The on-screen figure and the record's unrounded percentage agree once
      time has been tracked, and differ (100 against 0) before that. */
  lemma DisplayVersusRecord(t: Tracker)
    ensures t.presentMs + t.absentMs > 0 ==> DisplayFocus(t) == FocusPercent(t.presentMs, t.absentMs)
    ensures t.presentMs + t.absentMs <= 0 ==> DisplayFocus(t) == 100.0 && FocusPercent(t.presentMs, t.absentMs) == 0.0
  {
  }

  /** The colour of the on-screen focus bar (line 206): strict thresholds,
      unlike the dashboard's log tiers. */
  datatype BarColour = BarGreen | BarYellow | BarRed

  function FocusBarColour(p: real): (c: BarColour)
    ensures c == BarGreen <==> p > 80.0
    ensures c == BarYellow <==> 60.0 < p <= 80.0
    ensures c == BarRed <==> p <= 60.0
  {
    if p > 80.0 then BarGreen else if p > 60.0 then BarYellow else BarRed
  }
}
