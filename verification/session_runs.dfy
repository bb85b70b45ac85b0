/** Properties of the presence tracker over whole sequences of inputs: time
    accounting, the alarm sound never being started twice, one count per
    absence run, and the absent state being final within a run. */
module SessionRuns {
  import opened Common
  import opened Types
  import opened FocusGuard

  /** The inputs applied one after another; the events are concatenated in
      order. */
  function Run(v: Variant, cfg: Preset, t: Tracker, ins: seq<Input>): (r: StepResult)
    // the consistency invariant survives any input sequence
    ensures Inv(t) ==> Inv(r.tracker)
    // session time grows by exactly the span between the first and the last
    // check, paused stretches included (a paused call leaves lastCheck behind)
    ensures r.tracker.sessionMs - t.sessionMs == r.tracker.lastCheck - t.lastCheck
    ensures r.tracker.presentMs + r.tracker.absentMs - t.presentMs - t.absentMs == r.tracker.lastCheck - t.lastCheck
    decreases |ins|
  {
    if ins == [] then StepResult(t, [])
    else
      var first := Step(v, cfg, t, ins[0]);
      var rest := Run(v, cfg, first.tracker, ins[1..]);
      StepResult(rest.tracker, first.events + rest.events)
  }

  // ---------------------------------------------------------------------
  // The alarm sound is toggled, never restarted or re-stopped

  /** Whether the alarm sound is playing after the events, starting from `on`. */
  function AudioAfter(on: bool, evs: seq<Event>): bool
    decreases |evs|
  {
    if evs == [] then on
    else if evs[0] == PlayAlarm then AudioAfter(true, evs[1..])
    else if evs[0] == PauseAlarm then AudioAfter(false, evs[1..])
    else AudioAfter(on, evs[1..])
  }

  /** Every start of the sound finds it stopped and every stop finds it
      playing. */
  predicate Alternates(on: bool, evs: seq<Event>)
    decreases |evs|
  {
    if evs == [] then true
    else if evs[0] == PlayAlarm then !on && Alternates(true, evs[1..])
    else if evs[0] == PauseAlarm then on && Alternates(false, evs[1..])
    else Alternates(on, evs[1..])
  }

  lemma {:induction false} AlternatesAppend(on: bool, a: seq<Event>, b: seq<Event>)
    ensures AudioAfter(on, a + b) == AudioAfter(AudioAfter(on, a), b)
    ensures Alternates(on, a + b) <==> Alternates(on, a) && Alternates(AudioAfter(on, a), b)
    decreases |a|
  {
    if a == [] {
      assert a + b == b;
    } else {
      assert (a + b)[0] == a[0];
      assert (a + b)[1..] == a[1..] + b;
      var next := if a[0] == PlayAlarm then true else if a[0] == PauseAlarm then false else on;
      AlternatesAppend(next, a[1..], b);
    }
  }

  /** Over any input sequence the alarm sound is started only while it is
      silent and stopped only while it plays, and `alarmActive` tells whether
      it is playing. */
  lemma {:induction false} RunAudioAlternates(v: Variant, cfg: Preset, t: Tracker, ins: seq<Input>)
    ensures Alternates(t.alarmActive, Run(v, cfg, t, ins).events)
    ensures AudioAfter(t.alarmActive, Run(v, cfg, t, ins).events) == Run(v, cfg, t, ins).tracker.alarmActive
    decreases |ins|
  {
    if ins != [] {
      var first := Step(v, cfg, t, ins[0]);
      var rest := Run(v, cfg, first.tracker, ins[1..]);
      if PlayAlarm in first.events {
        assert first.events == [PlayAlarm, Speak(AbsencePhrase)];
        assert first.events[1..] == [Speak(AbsencePhrase)];
        assert [Speak(AbsencePhrase)][1..] == [];
        assert AudioAfter(true, [Speak(AbsencePhrase)]) == true;
        assert first.tracker.alarmActive;
      } else if PauseAlarm in first.events {
        assert first.events == [PauseAlarm, Speak(RecoveryPhrase)];
        assert first.events[1..] == [Speak(RecoveryPhrase)];
        assert [Speak(RecoveryPhrase)][1..] == [];
        assert AudioAfter(false, [Speak(RecoveryPhrase)]) == false;
        assert !first.tracker.alarmActive;
      } else {
        assert first.events == [] || first.events == [Speak(AbsencePhrase)];
        assert first.tracker.alarmActive == t.alarmActive;
      }
      assert Alternates(t.alarmActive, first.events);
      assert AudioAfter(t.alarmActive, first.events) == first.tracker.alarmActive;
      RunAudioAlternates(v, cfg, first.tracker, ins[1..]);
      AlternatesAppend(t.alarmActive, first.events, rest.events);
    }
  }

  // ---------------------------------------------------------------------
  // Absence runs

  /** Only absent detection results. */
  predicate AllAbsent(ins: seq<Input>) {
    forall i :: 0 <= i < |ins| ==> ins[i].Detection? && !ins[i].present
  }

  /** A run of absent samples is counted once: only when no run was open
      before it, and its start is the first sample's time. */
  lemma {:induction false} AbsentRunCountsOnce(v: Variant, cfg: Preset, t: Tracker, ins: seq<Input>)
    requires AllAbsent(ins) && !t.paused
    ensures Run(v, cfg, t, ins).tracker.absencesCount
              == t.absencesCount + (if t.absentSince.None? && |ins| > 0 then 1 else 0)
    ensures |ins| > 0 ==> Run(v, cfg, t, ins).tracker.absentSince == Some(t.absentSince.GetOr(ins[0].now))
    decreases |ins|
  {
    if ins != [] {
      var first := Step(v, cfg, t, ins[0]);
      assert AllAbsent(ins[1..]) by {
        forall i | 0 <= i < |ins[1..]| ensures ins[1..][i].Detection? && !ins[1..][i].present {
          assert ins[1..][i] == ins[i + 1];
        }
      }
      AbsentRunCountsOnce(v, cfg, first.tracker, ins[1..]);
    }
  }

  /** One absent sample: it says nothing, gives the warning (raising the
      warning flag), or starts the alarm (raising the alarm flag); neither
      flag is ever lowered. */
  lemma AbsentStep(v: Variant, cfg: Preset, t: Tracker, now: int)
    ensures var r := Step(v, cfg, t, Detection(false, now));
            && (|| r.events == []
                || (r.events == [Speak(AbsencePhrase)] && !t.warningSent && r.tracker.warningSent)
                || (r.events == [PlayAlarm, Speak(AbsencePhrase)] && !t.alarmActive && r.tracker.alarmActive))
            && (t.alarmActive ==> r.tracker.alarmActive)
            && (t.warningSent ==> r.tracker.warningSent)
  {
  }

  /** Within a run of absent samples the alarm starts at most once (never if
      it already sounds), nothing stops it, and the warning speech is given at
      most once (never if it was already given): every phrase beyond the one
      that comes with the alarm is a warning. */
  lemma {:induction false} AbsentRunAlarmOnce(v: Variant, cfg: Preset, t: Tracker, ins: seq<Input>)
    requires AllAbsent(ins)
    ensures var evs := multiset(Run(v, cfg, t, ins).events);
            && evs[PlayAlarm] <= (if t.alarmActive then 0 else 1)
            && evs[PauseAlarm] == 0
            && evs[Speak(RecoveryPhrase)] == 0
            && evs[Speak(AbsencePhrase)] <= evs[PlayAlarm] + (if t.warningSent then 0 else 1)
    ensures t.alarmActive ==> Run(v, cfg, t, ins).tracker.alarmActive
    ensures t.warningSent ==> Run(v, cfg, t, ins).tracker.warningSent
    decreases |ins|
  {
    if ins != [] {
      var first := Step(v, cfg, t, ins[0]);
      var rest := Run(v, cfg, first.tracker, ins[1..]);
      assert AllAbsent(ins[1..]) by {
        forall i | 0 <= i < |ins[1..]| ensures ins[1..][i].Detection? && !ins[1..][i].present {
          assert ins[1..][i] == ins[i + 1];
        }
      }
      AbsentStep(v, cfg, t, ins[0].now);
      AbsentRunAlarmOnce(v, cfg, first.tracker, ins[1..]);
      assert multiset(first.events + rest.events) == multiset(first.events) + multiset(rest.events);
    }
  }

  // ---------------------------------------------------------------------
  // With clock readings that never go backwards

  /** Detection times never decrease, starting from `from`; pause inputs
      carry no time. */
  predicate Chronological(from: int, ins: seq<Input>)
    decreases |ins|
  {
    if ins == [] then true
    else match ins[0]
      case Detection(_, now) => from <= now && Chronological(now, ins[1..])
      case _ => Chronological(from, ins[1..])
  }

  /** The alarm sounds exactly while the state is `Absent`, and only once the
      open run is older than the alarm delay. */
  predicate AlarmInv(cfg: Preset, t: Tracker) {
    && Inv(t)
    && (t.alarmActive <==> t.state == Absent)
    && (t.alarmActive ==> t.absentSince.Some? && t.absentSince.value + cfg.alarmDelay * 1000 <= t.lastCheck)
  }

  /** With chronological clock readings the alarm invariant, which a fresh
      tracker satisfies, is kept. */
  lemma {:induction false} RunKeepsAlarmInv(v: Variant, cfg: Preset, t: Tracker, from: int, ins: seq<Input>)
    requires AlarmInv(cfg, t) && t.lastCheck <= from && Chronological(from, ins)
    ensures AlarmInv(cfg, Run(v, cfg, t, ins).tracker)
    decreases |ins|
  {
    if ins != [] {
      var first := Step(v, cfg, t, ins[0]);
      var from' := if ins[0].Detection? then ins[0].now else from;
      assert AlarmInv(cfg, first.tracker);
      RunKeepsAlarmInv(v, cfg, first.tracker, from', ins[1..]);
    }
  }

  /** Non-negative time counters. */
  predicate CountersNonNegative(t: Tracker) {
    0 <= t.sessionMs && 0 <= t.presentMs && 0 <= t.absentMs && 0 <= t.elapsedAbsentMs
  }

  /** The tracker the component mounts with meets every invariant. */
  lemma FreshTrackerInvariants(cfg: Preset, now: int)
    ensures Inv(Init(now)) && AlarmInv(cfg, Init(now)) && CountersNonNegative(Init(now))
  {
  }

  /** A session started at `now` keeps the alarm invariant and non-negative
      counters for as long as the clock readings never go backwards. */
  lemma {:induction false} FreshSessionInvariants(v: Variant, cfg: Preset, now: int, ins: seq<Input>)
    requires Chronological(now, ins)
    ensures AlarmInv(cfg, Run(v, cfg, Init(now), ins).tracker)
    ensures CountersNonNegative(Run(v, cfg, Init(now), ins).tracker)
  {
    RunKeepsAlarmInv(v, cfg, Init(now), now, ins);
    RunKeepsCountersNonNegative(v, cfg, Init(now), now, ins);
  }

  /** The source does not clamp the gap between two checks, so only clock
      readings that never go backwards keep the counters non-negative. */
  lemma {:induction false} RunKeepsCountersNonNegative(v: Variant, cfg: Preset, t: Tracker, from: int, ins: seq<Input>)
    requires CountersNonNegative(t) && t.lastCheck <= from && Chronological(from, ins)
    requires t.absentSince.Some? ==> t.absentSince.value <= t.lastCheck
    ensures CountersNonNegative(Run(v, cfg, t, ins).tracker)
    decreases |ins|
  {
    if ins != [] {
      var first := Step(v, cfg, t, ins[0]);
      var from' := if ins[0].Detection? then ins[0].now else from;
      RunKeepsCountersNonNegative(v, cfg, first.tracker, from', ins[1..]);
    }
  }

  /** A clock reading earlier than the last check subtracts time. */
  lemma BackwardsClockLosesTime()
    ensures Step(AsWritten, Preset(120, 10, 30), Init(5000), Detection(true, 2000)).tracker.presentMs == -3000
  {
  }

  /** Once the alarm has put the state to `Absent`, further absent samples
      (with clock readings that do not go backwards) leave it there, keep the
      alarm sounding and say nothing: only a present sample ends it. */
  lemma {:induction false} AbsentIsSticky(v: Variant, cfg: Preset, t: Tracker, ins: seq<Input>)
    requires AlarmInv(cfg, t) && t.state == Absent
    requires AllAbsent(ins) && Chronological(t.lastCheck, ins)
    ensures Run(v, cfg, t, ins).tracker.state == Absent
    ensures Run(v, cfg, t, ins).tracker.alarmActive
    ensures Run(v, cfg, t, ins).events == []
    decreases |ins|
  {
    if ins != [] {
      var first := Step(v, cfg, t, ins[0]);
      assert first.events == [] && first.tracker.state == Absent;
      assert AlarmInv(cfg, first.tracker);
      assert AllAbsent(ins[1..]) by {
        forall i | 0 <= i < |ins[1..]| ensures ins[1..][i].Detection? && !ins[1..][i].present {
          assert ins[1..][i] == ins[i + 1];
        }
      }
      AbsentIsSticky(v, cfg, first.tracker, ins[1..]);
    }
  }

  // ---------------------------------------------------------------------
  // Counting absence runs: the source against the corrected variant

  /** Number of maximal stretches of `false` (absent) in `s`; `prevAbsent`
      says whether the stretch before `s` was already absent. */
  function AbsenceRuns(prevAbsent: bool, s: seq<bool>): nat
    decreases |s|
  {
    if s == [] then 0
    else (if !s[0] && !prevAbsent then 1 else 0) + AbsenceRuns(!s[0], s[1..])
  }

  /** Only detection results, no pause buttons. */
  predicate AllDetections(ins: seq<Input>) {
    forall i :: 0 <= i < |ins| ==> ins[i].Detection?
  }

  /** The presence flags of the inputs, in order. */
  function Presences(ins: seq<Input>): (s: seq<bool>)
    ensures |s| == |ins|
    decreases |ins|
  {
    if ins == [] then [] else [ins[0].Detection? && ins[0].present] + Presences(ins[1..])
  }

  /** In the corrected variant every absence run is counted exactly once: the
      counter grows by the number of maximal absent stretches in the samples. */
  lemma {:induction false} CorrectedCountsEveryRun(cfg: Preset, t: Tracker, ins: seq<Input>)
    requires !t.paused && AllDetections(ins)
    ensures Run(Corrected, cfg, t, ins).tracker.absencesCount
              == t.absencesCount + AbsenceRuns(t.absentSince.Some?, Presences(ins))
    decreases |ins|
  {
    if ins != [] {
      var first := Step(Corrected, cfg, t, ins[0]);
      assert first.tracker.absentSince.Some? == !ins[0].present;
      assert AllDetections(ins[1..]) by {
        forall i | 0 <= i < |ins[1..]| ensures ins[1..][i].Detection? {
          assert ins[1..][i] == ins[i + 1];
        }
      }
      CorrectedCountsEveryRun(cfg, first.tracker, ins[1..]);
    }
  }

  /** Running a non-empty sequence is its first step followed by the rest. */
  lemma RunCons(v: Variant, cfg: Preset, t: Tracker, x: Input, rest: seq<Input>)
    ensures var first := Step(v, cfg, t, x);
            var r := Run(v, cfg, first.tracker, rest);
            Run(v, cfg, t, [x] + rest) == StepResult(r.tracker, first.events + r.events)
  {
    assert ([x] + rest)[1..] == rest;
  }

  /** The source merges a short absence with the next one. Present at 1 s,
      absent at 2 s (too short for a warning, so the state stays `Present`),
      present at 3 s, absent again at 100 s: two absence runs, but the source
      counts one, because the present sample at 3 s found the state already
      `Present` and left the run open; the second run is then timed from 2 s
      and sets off the alarm at once. The corrected variant counts two and
      stays quiet. */
  lemma ShortAbsenceMergesRuns()
    ensures var ins := ShortAbsenceTrace();
            var cfg := ConfigFor("Maths");
            var asWritten := Run(AsWritten, cfg, Init(0), ins);
            var corrected := Run(Corrected, cfg, Init(0), ins);
            && AbsenceRuns(false, Presences(ins)) == 2
            && asWritten.tracker.absencesCount == 1
            && asWritten.events == [PlayAlarm, Speak(AbsencePhrase)]
            && corrected.tracker.absencesCount == 2
            && corrected.events == []
  {
    assert ConfigFor("Maths") == Preset(120, 10, 30);
    ShortAbsenceRunCount();
    ShortAbsenceAsWritten();
    ShortAbsenceCorrected();
  }

  /** Any absence too short to warn keeps the tracker `Present` and silent,
      so the return that follows takes the "already present" branch: as
      written the absence run stays open across the return, while the
      corrected variant closes it. Both count the absence once. */
  lemma ShortAbsenceStaysOpen(cfg: Preset, t: Tracker, away: int, back: int)
    requires !t.paused && t.state == Present
    requires !WarningDue(cfg, t, away) && !AlarmDue(cfg, t, away)
    ensures var s1 := HandleDetection(AsWritten, cfg, t, false, away);
            && s1.events == [] && s1.tracker.state == Present
            && s1.tracker.absentSince == Some(RunStart(t, away))
    ensures var s1 := HandleDetection(AsWritten, cfg, t, false, away);
            var s2 := HandleDetection(AsWritten, cfg, s1.tracker, true, back);
            && s2.events == [] && s2.tracker.state == Present
            && s2.tracker.absentSince == Some(RunStart(t, away))
            && s2.tracker.absencesCount == t.absencesCount + (if t.absentSince.None? then 1 else 0)
    ensures var s1 := HandleDetection(Corrected, cfg, t, false, away);
            var s2 := HandleDetection(Corrected, cfg, s1.tracker, true, back);
            && s2.events == [] && s2.tracker.state == Present && s2.tracker.absentSince.None?
            && s2.tracker.absencesCount == t.absencesCount + (if t.absentSince.None? then 1 else 0)
  {
  }

  /** Present at 1 s, absent at 2 s, present at 3 s, absent at 100 s. */
  function ShortAbsenceTrace(): seq<Input> {
    [Detection(true, 1000), Detection(false, 2000), Detection(true, 3000), Detection(false, 100000)]
  }

  lemma ShortAbsenceRunCount()
    ensures AbsenceRuns(false, Presences(ShortAbsenceTrace())) == 2
  {
    var ins := ShortAbsenceTrace();
    assert ins[1..][1..][1..][1..] == [];
    assert Presences(ins) == [true, false, true, false];
  }

  lemma ShortAbsenceAsWritten()
    ensures Run(AsWritten, Preset(120, 10, 30), Init(0), ShortAbsenceTrace()) == StepResult(
              Tracker(Absent, false, 100000, 100000, 2000, 98000, Some(2000), 98000, 1, true, false),
              [PlayAlarm, Speak(AbsencePhrase)])
  {
    var t1, t2, t3, t4 := ShortAbsenceStepsAsWritten();
    RunFromSteps(AsWritten, Preset(120, 10, 30), Init(0), ShortAbsenceTrace(), [t1, t2, t3, t4],
                   [[], [], [], [PlayAlarm, Speak(AbsencePhrase)]]);
  }

  /** The single steps of the short-absence trace as written: the return
      at 3 s keeps the start of the first absence. */
  lemma ShortAbsenceStepsAsWritten() returns (t1: Tracker, t2: Tracker, t3: Tracker, t4: Tracker)
    ensures t1 == Tracker(Present, false, 1000, 1000, 1000, 0, None, 0, 0, false, false)
    ensures t2 == Tracker(Present, false, 2000, 2000, 1000, 1000, Some(2000), 0, 1, false, false)
    ensures t3 == Tracker(Present, false, 3000, 3000, 2000, 1000, Some(2000), 0, 1, false, false)
    ensures t4 == Tracker(Absent, false, 100000, 100000, 2000, 98000, Some(2000), 98000, 1, true, false)
    ensures Step(AsWritten, Preset(120, 10, 30), Init(0), Detection(true, 1000)) == StepResult(t1, [])
    ensures Step(AsWritten, Preset(120, 10, 30), t1, Detection(false, 2000)) == StepResult(t2, [])
    ensures Step(AsWritten, Preset(120, 10, 30), t2, Detection(true, 3000)) == StepResult(t3, [])
    ensures Step(AsWritten, Preset(120, 10, 30), t3, Detection(false, 100000))
            == StepResult(t4, [PlayAlarm, Speak(AbsencePhrase)])
  {
    t1 := Tracker(Present, false, 1000, 1000, 1000, 0, None, 0, 0, false, false);
    t2 := Tracker(Present, false, 2000, 2000, 1000, 1000, Some(2000), 0, 1, false, false);
    t3 := Tracker(Present, false, 3000, 3000, 2000, 1000, Some(2000), 0, 1, false, false);
    t4 := Tracker(Absent, false, 100000, 100000, 2000, 98000, Some(2000), 98000, 1, true, false);
  }

  lemma ShortAbsenceCorrected()
    ensures Run(Corrected, Preset(120, 10, 30), Init(0), ShortAbsenceTrace()) == StepResult(
              Tracker(Present, false, 100000, 100000, 2000, 98000, Some(100000), 0, 2, false, false),
              [])
  {
    var t1, t2, t3, t4 := ShortAbsenceStepsCorrected();
    RunFromSteps(Corrected, Preset(120, 10, 30), Init(0), ShortAbsenceTrace(), [t1, t2, t3, t4], [[], [], [], []]);
  }

  /** The single steps of the short-absence trace, corrected: the return at
      3 s clears the absence, and the sample at 100 s opens a second one. */
  lemma ShortAbsenceStepsCorrected() returns (t1: Tracker, t2: Tracker, t3: Tracker, t4: Tracker)
    ensures t1 == Tracker(Present, false, 1000, 1000, 1000, 0, None, 0, 0, false, false)
    ensures t2 == Tracker(Present, false, 2000, 2000, 1000, 1000, Some(2000), 0, 1, false, false)
    ensures t3 == Tracker(Present, false, 3000, 3000, 2000, 1000, None, 0, 1, false, false)
    ensures t4 == Tracker(Present, false, 100000, 100000, 2000, 98000, Some(100000), 0, 2, false, false)
    ensures Step(Corrected, Preset(120, 10, 30), Init(0), Detection(true, 1000)) == StepResult(t1, [])
    ensures Step(Corrected, Preset(120, 10, 30), t1, Detection(false, 2000)) == StepResult(t2, [])
    ensures Step(Corrected, Preset(120, 10, 30), t2, Detection(true, 3000)) == StepResult(t3, [])
    ensures Step(Corrected, Preset(120, 10, 30), t3, Detection(false, 100000)) == StepResult(t4, [])
  {
    t1 := Tracker(Present, false, 1000, 1000, 1000, 0, None, 0, 0, false, false);
    t2 := Tracker(Present, false, 2000, 2000, 1000, 1000, Some(2000), 0, 1, false, false);
    t3 := Tracker(Present, false, 3000, 3000, 2000, 1000, None, 0, 1, false, false);
    t4 := Tracker(Present, false, 100000, 100000, 2000, 98000, Some(100000), 0, 2, false, false);
  }

  /** The events of several steps, in order. */
  function Concat(es: seq<seq<Event>>): (r: seq<Event>)
    ensures |es| == 1 ==> r == es[0]
    decreases |es|
  {
    if es == [] then [] else es[0] + Concat(es[1..])
  }

  /** Inputs whose single steps are known: the run ends in the last step's
      tracker with every step's events in order. */
  lemma {:induction false} RunFromSteps(v: Variant, cfg: Preset, t: Tracker, ins: seq<Input>, ts: seq<Tracker>, es: seq<seq<Event>>)
    requires 1 <= |ins| && |ts| == |ins| && |es| == |ins|
    requires Step(v, cfg, t, ins[0]) == StepResult(ts[0], es[0])
    requires forall i :: 1 <= i < |ins| ==> Step(v, cfg, ts[i - 1], ins[i]) == StepResult(ts[i], es[i])
    ensures Run(v, cfg, t, ins) == StepResult(ts[|ts| - 1], Concat(es))
    decreases |ins|
  {
    if |ins| == 1 {
      RunCons(v, cfg, t, ins[0], []);
      assert [ins[0]] + [] == ins;
    } else {
      var ins', ts', es' := ins[1..], ts[1..], es[1..];
      forall i | 1 <= i < |ins'|
        ensures Step(v, cfg, ts'[i - 1], ins'[i]) == StepResult(ts'[i], es'[i])
      {
        assert ins'[i] == ins[i + 1] && ts'[i - 1] == ts[i] && ts'[i] == ts[i + 1] && es'[i] == es[i + 1];
      }
      RunFromSteps(v, cfg, ts[0], ins', ts', es');
      RunCons(v, cfg, t, ins[0], ins');
      assert [ins[0]] + ins' == ins;
    }
  }

  // ---------------------------------------------------------------------
  // Worked sessions

  /** A "Maths" session (warning 10 s, alarm 30 s), sample by sample:
      present at 0, absent from 1 s on. The sample at 11 s is 10 s into the
      run and gives the warning; the one at 21 s repeats nothing; the one at
      31 s is 30 s in and starts the alarm; the one at 41 s adds nothing. */
  lemma MathsSession()
    ensures ConfigFor("Maths") == Preset(120, 10, 30)
    ensures Step(AsWritten, Preset(120, 10, 30), Init(0), Detection(true, 0))
            == StepResult(Tracker(Present, false, 0, 0, 0, 0, None, 0, 0, false, false), [])
    ensures Step(AsWritten, Preset(120, 10, 30),
                 Tracker(Present, false, 0, 0, 0, 0, None, 0, 0, false, false), Detection(false, 1000))
            == StepResult(Tracker(Present, false, 1000, 1000, 0, 1000, Some(1000), 0, 1, false, false), [])
    ensures Step(AsWritten, Preset(120, 10, 30),
                 Tracker(Present, false, 1000, 1000, 0, 1000, Some(1000), 0, 1, false, false), Detection(false, 11000))
            == StepResult(Tracker(Warning, false, 11000, 11000, 0, 11000, Some(1000), 10000, 1, false, true),
                          [Speak(AbsencePhrase)])
    ensures Step(AsWritten, Preset(120, 10, 30),
                 Tracker(Warning, false, 11000, 11000, 0, 11000, Some(1000), 10000, 1, false, true), Detection(false, 21000))
            == StepResult(Tracker(Warning, false, 21000, 21000, 0, 21000, Some(1000), 20000, 1, false, true), [])
    ensures Step(AsWritten, Preset(120, 10, 30),
                 Tracker(Warning, false, 21000, 21000, 0, 21000, Some(1000), 20000, 1, false, true), Detection(false, 31000))
            == StepResult(Tracker(Absent, false, 31000, 31000, 0, 31000, Some(1000), 30000, 1, true, true),
                          [PlayAlarm, Speak(AbsencePhrase)])
    ensures Step(AsWritten, Preset(120, 10, 30),
                 Tracker(Absent, false, 31000, 31000, 0, 31000, Some(1000), 30000, 1, true, true), Detection(false, 41000))
            == StepResult(Tracker(Absent, false, 41000, 41000, 0, 41000, Some(1000), 40000, 1, true, true), [])
  {
  }

  /** While paused, detection results change nothing at all: a run that
      starts with them goes on as if they had not been there. */
  lemma {:induction false} PausedPrefixIgnored(v: Variant, cfg: Preset, t: Tracker, ins: seq<Input>, rest: seq<Input>)
    requires t.paused && AllDetections(ins)
    ensures Run(v, cfg, t, ins + rest) == Run(v, cfg, t, rest)
    decreases |ins|
  {
    if ins == [] {
      assert ins + rest == rest;
    } else {
      assert ins[0].Detection?;
      assert AllDetections(ins[1..]) by {
        forall i | 0 <= i < |ins[1..]| ensures ins[1..][i].Detection? {
          assert ins[1..][i] == ins[i + 1];
        }
      }
      PausedPrefixIgnored(v, cfg, t, ins[1..], rest);
      assert ins + rest == [ins[0]] + (ins[1..] + rest);
      RunCons(v, cfg, t, ins[0], ins[1..] + rest);
      assert Step(v, cfg, t, ins[0]) == StepResult(t, []);
      var r := Run(v, cfg, t, rest);
      assert [] + r.events == r.events;
    }
  }

  /** The source does not stop the clock while paused: a paused call returns
      before the last-check time moves, so the first sample after resuming
      carries the whole interval since the last sample before the pause.
      Whatever was detected in between, that interval counts as present (or
      absent) time. */
  lemma {:induction false} PausedIntervalAccrues(v: Variant, cfg: Preset, t: Tracker, whilePaused: seq<Input>, now: int)
    requires !t.paused && AllDetections(whilePaused)
    ensures var r := Run(v, cfg, t, [TogglePause] + whilePaused + [TogglePause, Detection(true, now)]);
            && r.tracker.lastCheck == now
            && r.tracker.presentMs == t.presentMs + (now - t.lastCheck)
            && r.tracker.sessionMs == t.sessionMs + (now - t.lastCheck)
            && r.tracker.absentMs == t.absentMs
  {
    var paused := t.(paused := true);
    var now' := Detection(true, now);
    var resume := [TogglePause, now'];
    assert [TogglePause] + whilePaused + resume == [TogglePause] + (whilePaused + resume);
    RunCons(v, cfg, t, TogglePause, whilePaused + resume);
    PausedPrefixIgnored(v, cfg, paused, whilePaused, resume);
    assert [TogglePause] + [now'] == resume;
    RunCons(v, cfg, paused, TogglePause, [now']);
    assert Step(v, cfg, paused, TogglePause).tracker == t;
    assert [now'] + [] == [now'];
    RunCons(v, cfg, t, now', []);
  }
}
