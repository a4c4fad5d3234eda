/** The domain records of the timetable application: days and periods,
    slots, rooms, teachers and their assignments, per-subject overlap
    configuration, bell schedules, the teacher-page layout and the results
    the validation returns. Optional TypeScript fields are `Option`s. */
module Types {
  import opened Basics

  /** The five school days 월..금. */
  datatype Day = Mon | Tue | Wed | Thu | Fri
  {
    /** The Korean symbol the application stores for the day. */
    function Symbol(): (c: string)
      ensures |c| == 1
    {
      match this
      case Mon => "월"
      case Tue => "화"
      case Wed => "수"
      case Thu => "목"
      case Fri => "금"
    }
  }

  const Days: seq<Day> := [Mon, Tue, Wed, Thu, Fri]

  /** Reads a stored day symbol back; any other text is not a day. */
  function DayOfSymbol(s: string): (d: Option<Day>)
    ensures d.Some? ==> d.value.Symbol() == s
  {
    if s == "월" then Some(Mon)
    else if s == "화" then Some(Tue)
    else if s == "수" then Some(Wed)
    else if s == "목" then Some(Thu)
    else if s == "금" then Some(Fri)
    else None
  }

  /** Every day is listed once, and its symbol reads back as that day, so
      the five symbols are distinct. */
  lemma DaySymbolRoundTrip(d: Day)
    ensures d in Days
    ensures DayOfSymbol(d.Symbol()) == Some(d)
  {
  }

  /** A lesson period: an integer from 1 to 15 (breaks and lunch may take
      period numbers of their own). */
  type Period = p: int | 1 <= p <= 15 witness 1

  const MaxPeriod: int := 15

  datatype SubjectStyle = SubjectStyle(
    bgColor: string, textColor: string, borderColor: string,
    borderWidth: string, borderStyle: string, fontWeight: string)

  datatype RichTextStyle = RichTextStyle(
    color: Option<string>, fontSize: Option<string>,
    isBold: Option<bool>, isUnderline: Option<bool>, isItalic: Option<bool>)

  datatype RichTextLine = RichTextLine(id: string, text: string, style: RichTextStyle)

  /** One placed lesson. A homeroom lesson has neither a teacher nor a room. */
  datatype TimeSlot = TimeSlot(
    id: string,
    day: Day,
    period: Period,
    classId: string,
    subject: string,
    teacherId: Option<string>,
    roomId: Option<string>,
    customText: Option<string>,
    customStyle: Option<SubjectStyle>,
    richText: Option<seq<RichTextLine>>)
  {
    /** The two slots sit in the same timetable cell. */
    predicate SameCell(other: TimeSlot) {
      day == other.day && period == other.period
    }
  }

  /** A special room; `capacity` is how many classes it hosts at once. */
  datatype Room = Room(id: string, name: string, capacity: int)

  /** One subject a teacher teaches. Absent or empty `targets` means every
      grade row; `hours` is the weekly number of sessions per class. */
  datatype TeacherAssignment = TeacherAssignment(
    subject: string,
    roomId: Option<string>,
    targets: Option<seq<string>>,
    hours: Option<int>)

  datatype Teacher = Teacher(
    id: string, name: string, color: string,
    assignments: seq<TeacherAssignment>,
    maxHours: Option<int>, memo: Option<string>)

  /** Layout of the teacher page: the grade rows (`'1'`..`'6'` or
      `custom-…`), extra classes per row, custom labels, hidden level
      classes and level-class counts. */
  datatype TeacherLayoutConfig = TeacherLayoutConfig(
    grades: seq<string>,
    extraClassCounts: map<string, int>,
    customLabels: map<string, string>,
    hiddenLevel: seq<string>,
    levelClassCounts: Option<map<string, int>>)

  /** Overlap policy of a subject: a global flag plus the grades in which
      the same subject may run for overlapping populations. An absent
      `allowOverlap` behaves as `false` everywhere it is read. */
  datatype SubjectConfig = SubjectConfig(
    allowOverlap: bool,
    syncGradeClasses: Option<bool>,
    allowOverlapByGrade: Option<seq<int>>)

  /** `Partial<SubjectConfig>`: the fields a settings dialog changes. */
  datatype SubjectConfigPatch = SubjectConfigPatch(
    allowOverlap: Option<bool>,
    syncGradeClasses: Option<bool>,
    allowOverlapByGrade: Option<seq<int>>)

  datatype PeriodType = Class | Etc

  /** One row of a bell schedule. Grade filtering treats a row without a
      type as a class period; editing a start recomputes the end only for
      rows typed as class periods. */
  datatype PeriodInfo = PeriodInfo(
    start: string, end: string, name: Option<string>, kind: Option<PeriodType>)
  {
    predicate IsEtc() {
      kind == Some(Etc)
    }
  }

  /** A bell schedule: the grades it serves and its periods by number. */
  datatype BellSchedule = BellSchedule(
    id: string, name: string, targetGrades: seq<int>, periods: map<int, PeriodInfo>)

  datatype SchoolInfo = SchoolInfo(
    name: string,
    classesPerGrade: map<int, int>,
    maxPeriods: map<int, int>,
    bellSchedules: seq<BellSchedule>,
    hasDistinctSchedules: bool)

  /** One still-unplaced weekly session of a specialist subject. */
  datatype ClassBlock = ClassBlock(
    id: string, grade: int, classNum: int, classId: string, subject: string,
    teacherId: Option<string>, requiredSessions: int, assignedSessions: int,
    roomId: Option<string>)

  /** The validation verdict for a candidate slot. */
  datatype Conflict = Conflict(
    hasConflict: bool, reason: Option<string>, conflictingSlots: Option<seq<TimeSlot>>)
  {
    /** The reported slots, `[]` when the field is absent. */
    function Slots(): seq<TimeSlot> {
      if conflictingSlots.Some? then conflictingSlots.value else []
    }
  }

  /** JavaScript truthiness of an optional string: present and non-empty. */
  predicate Truthy(x: Option<string>) {
    x.Some? && x.value != ""
  }
}
