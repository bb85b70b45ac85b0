/** The shared vocabulary of the application (src/types.ts): the four presence
    states, the per-subject timing presets and the shape of a finished session
    record. */
module Types {
  import opened Common

  /** What the face detector currently believes about the student. */
  datatype PersonState = Present | Warning | Absent | Unknown

  /** Every presence state, in declaration order of the source's union type. */
  const AllStates: seq<PersonState> := [Present, Warning, Absent, Unknown]

  /** `PersonState` has exactly the four values of the source's union type. */
  lemma PersonStateIsFourValued(s: PersonState)
    ensures s in AllStates
    ensures |AllStates| == 4
    ensures forall i, j :: 0 <= i < j < |AllStates| ==> AllStates[i] != AllStates[j]
  {
  }

  /** Timing preset of one subject: the target length in minutes and the
      absence delays, in seconds, after which the warning and the alarm fire. */
  datatype Preset = Preset(duration: nat, warningDelay: nat, alarmDelay: nat)

  /** The subject used when a name is not in the table. */
  const DefaultSubject: string := "Self Study"

  /** The subjects in table order (the order the dashboard lists them in). */
  const SubjectNames: seq<string> := ["SQL", "Maths", "Physics", "Chemistry", DefaultSubject]

  /** SUBJECT_PRESETS. */
  const SubjectPresets: map<string, Preset> := map[
    "SQL" := Preset(120, 15, 45),
    "Maths" := Preset(120, 10, 30),
    "Physics" := Preset(120, 10, 30),
    "Chemistry" := Preset(120, 10, 30),
    DefaultSubject := Preset(180, 20, 60)
  ]

  /** The preset a session runs with: the subject's own entry, or the
      "Self Study" entry for a subject the table does not know. */
  function ConfigFor(subject: string): (p: Preset)
    ensures subject in SubjectPresets ==> p == SubjectPresets[subject]
    ensures subject !in SubjectPresets ==> p == Preset(180, 20, 60)
    ensures p.warningDelay < p.alarmDelay
  {
    if subject in SubjectPresets then SubjectPresets[subject]
    else SubjectPresets[DefaultSubject]
  }

  /** The table's contents: every entry warns strictly before it alarms, the
      listed subjects are exactly its keys, and the values are the source's. */
  lemma PresetTable()
    ensures forall s :: s in SubjectPresets ==> SubjectPresets[s].warningDelay < SubjectPresets[s].alarmDelay
    ensures forall s :: s in SubjectPresets <==> s in SubjectNames
    ensures SubjectPresets[DefaultSubject] == Preset(180, 20, 60)
    ensures SubjectPresets["SQL"].warningDelay == 15 && SubjectPresets["SQL"].alarmDelay == 45
    ensures forall s :: s in ["Maths", "Physics", "Chemistry"] ==> SubjectPresets[s] == Preset(120, 10, 30)
  {
  }

  /** The four grades a session can earn. */
  datatype Grade = Excellent | Great | Good | NeedsWork

  /** The text stored in a record's `grade` field. */
  function GradeLabel(g: Grade): string {
    match g
    case Excellent => "\U{1F3C6} EXCELLENT"
    case Great => "⭐ GREAT"
    case Good => "\U{1F44D} GOOD"
    case NeedsWork => "\U{1F4AA} NEEDS WORK"
  }

  /** Different grades are stored as different texts, so the text gives the
      grade back. */
  lemma GradeLabelsDistinct(g: Grade, h: Grade)
    ensures GradeLabel(g) == GradeLabel(h) ==> g == h
  {
  }

  /** A finished session. `id` is assigned by storage and is optional; every
      other field is always present. Start and end are kept as millisecond
      timestamps (their text formatting is not modelled); the minute and
      percentage fields hold the one-decimal values the record stores. */
  datatype SessionRecord = SessionRecord(
    id: Option<int>,
    subject: string,
    startMs: int,
    endMs: int,
    durationMins: int,
    presentMins: real,
    absentMins: real,
    focusPercentage: real,
    absencesCount: int,
    grade: Grade)
}
