/** The logic of the per-teacher timetable page: how a class id is labelled,
    which lesson a cell shows, which bell schedule the page shows beside
    the grid, and the lines the rich-text editor starts from.

    The period column (`activePeriods`) and the bell times beside it
    (`getBellTime`) are `BellSchedules.ActivePeriods` and
    `BellSchedules.GetBellTime`. */
module TeacherTimetable {
  import opened Basics
  import opened JsText
  import opened Types
  import opened ClassIds
  import RoomAssignment
  import MasterSchedule
  import ClassSchedule

  // ------------------------------------------------------------ class labels

  /** `config.customLabels[prefix] || prefix`: a grade row's label, or the
      row id itself when it has none. */
  function GradeLabelOr(labels: map<string, string>, row: string): string {
    if HasCustomLabel(labels, row) then labels[row] else row
  }

  /** The label of a level class `{prefix}레벨{suffix}`: the grade's label
      followed by `학년 L` and the mark of the level number, with no mark
      when the suffix is missing, empty or not a number. */
  function LevelText(classId: string, labels: map<string, string>): (r: string)
    ensures StartsWith(r, LevelLabel(GradeLabelOr(labels, SplitHead(classId, LevelMarker)), ""))
  {
    var prefix := SplitHead(classId, LevelMarker);
    var suffix := SplitSecond(classId, LevelMarker);
    var gradeLabel := GradeLabelOr(labels, prefix);
    if suffix.None? || suffix.value == "" then LevelLabel(gradeLabel, "")
    else match ParseInt(suffix.value)
      case Some(n) => LevelLabel(gradeLabel, LevelMark(n))
      case None => LevelLabel(gradeLabel, "")
  }

  /** The grade row and class number of a dashed class id: a `custom-` id
      splits at its last dash, any other id at its first. */
  function DashParts(classId: string): (string, string) {
    if StartsWith(classId, CustomPrefix) then
      var lastDash := LastIndexOf(classId, '-');
      if lastDash > -1 then (classId[..lastDash], classId[lastDash + 1..])
      else (classId, "")
    else
      var parts := Split(classId, "-");
      (parts[0], if |parts| >= 2 then parts[1] else "")
  }

  /** The label of a dashed class id: `{row label}-{n}` when its grade row
      is labelled, the bare class number for an unlabelled `custom-` row,
      the id itself otherwise. */
  function DashedText(classId: string, labels: map<string, string>): string {
    var (gradeId, classNum) := DashParts(classId);
    if HasCustomLabel(labels, gradeId) then labels[gradeId] + "-" + classNum
    else if StartsWith(classId, CustomPrefix) then classNum
    else classId
  }

  /** `formatClassId` of the teacher page: '-' for an unassigned lesson,
      '기타' for an other activity, a non-empty custom label of the id, the
      level-class label, the dashed-class label, and the id itself for
      anything else. */
  function FormatClassId(classId: string, labels: map<string, string>): (r: string)
    ensures classId == Unassigned ==> r == "-"
    ensures classId == OtherActivity ==> r == OtherActivity
    ensures !IsSentinel(classId) && HasCustomLabel(labels, classId) ==> r == labels[classId]
    ensures (!IsSentinel(classId) && !HasCustomLabel(labels, classId) && Contains(classId, LevelMarker))
            ==> StartsWith(r, LevelLabel(GradeLabelOr(labels, SplitHead(classId, LevelMarker)), ""))
    ensures (!IsSentinel(classId) && !HasCustomLabel(labels, classId)
             && !Contains(classId, LevelMarker) && !Contains(classId, "-")) ==> r == classId
  {
    if classId == Unassigned then "-"
    else if classId == OtherActivity then OtherActivity
    else if HasCustomLabel(labels, classId) then labels[classId]
    else if Contains(classId, LevelMarker) then LevelText(classId, labels)
    else if Contains(classId, "-") then DashedText(classId, labels)
    else classId
  }

  /** A `g-c` id starts with a digit, so it is no `custom-` id. */
  lemma ClassIdIsNotCustom(g: nat, c: nat)
    ensures !StartsWith(ClassIdOf(g, c), CustomPrefix)
  {
    var id := ClassIdOf(g, c);
    assert id[0] == NatToString(g)[0];
    hide NatToString;
    assert IsDigit(id[0]);
  }

  /** What the teacher page reads off a `g-c` id: no sentinel, no level
      marker, no `custom-` prefix, a dash, and the two numerals around it. */
  lemma ClassIdShape(g: nat, c: nat)
    ensures !IsSentinel(ClassIdOf(g, c)) && Contains(ClassIdOf(g, c), "-")
    ensures !Contains(ClassIdOf(g, c), LevelMarker) && !StartsWith(ClassIdOf(g, c), CustomPrefix)
    ensures DashParts(ClassIdOf(g, c)) == (NatToString(g), NatToString(c))
  {
    RoomAssignment.ClassIdReadsBack(g, c);
    RoomAssignment.LevelMarkerNotInClassId(g, c);
    ClassIdIsNotCustom(g, c);
  }

  /** Class `c` of grade `g` reads `{row label}-{c}` when the grade row is
      labelled and `g-c` otherwise. */
  lemma NumberedClassLabel(g: nat, c: nat, labels: map<string, string>)
    requires !HasCustomLabel(labels, ClassIdOf(g, c))
    ensures FormatClassId(ClassIdOf(g, c), labels) ==
              if HasCustomLabel(labels, NatToString(g)) then labels[NatToString(g)] + "-" + NatToString(c)
              else ClassIdOf(g, c)
  {
    ClassIdShape(g, c);
    hide ClassIdOf, NatToString, Contains, StartsWith, IsSentinel;
  }

  /** The teacher page and the room page label every numbered class the
      same way. */
  lemma NumberedClassLabelAgreesWithRoomView(g: nat, c: nat, labels: map<string, string>)
    ensures FormatClassId(ClassIdOf(g, c), labels) == RoomAssignment.FormatClass(ClassIdOf(g, c), labels)
  {
    if HasCustomLabel(labels, ClassIdOf(g, c)) {
      ClassIdShape(g, c);
    } else {
      NumberedClassLabel(g, c, labels);
      if HasCustomLabel(labels, NatToString(g)) {
        RoomAssignment.FormatClassOfLabelledGrade(g, c, labels);
      } else {
        RoomAssignment.ClassIdReadsBack(g, c);
      }
    }
  }

  /** `{g}레벨{n}` reads as the grade's label (or `g`) followed by `학년 L`
      and the circled numeral of `n`. */
  lemma LevelClassLabel(g: nat, n: nat, labels: map<string, string>)
    requires !HasCustomLabel(labels, LevelClassId(g, n))
    ensures FormatClassId(LevelClassId(g, n), labels) ==
              LevelLabel(GradeLabelOr(labels, NatToString(g)), LevelMark(n))
  {
    LevelClassIdParts(g, n);
    RoomAssignment.LevelClassIdGrade(g, n);
    assert NatToString(n) != "";
    hide LevelClassId, NatToString, Contains, IsSentinel, ExtractGrade;
  }

  /** On an unlabelled grade row the teacher page labels level classes as
      the master grid does. */
  lemma LevelClassLabelAgreesWithMasterGrid(g: nat, n: nat, labels: map<string, string>)
    requires !HasCustomLabel(labels, LevelClassId(g, n)) && !HasCustomLabel(labels, NatToString(g))
    ensures FormatClassId(LevelClassId(g, n), labels) == MasterSchedule.FormatClassId(LevelClassId(g, n), labels)
  {
    LevelClassLabel(g, n, labels);
    MasterSchedule.LevelClassLabel(g, n, labels);
  }

  /** Two level classes of one grade row never share a label. */
  lemma LevelClassLabelsDistinct(g: nat, n1: nat, n2: nat, labels: map<string, string>)
    requires !HasCustomLabel(labels, LevelClassId(g, n1)) && !HasCustomLabel(labels, LevelClassId(g, n2))
    requires n1 != n2
    ensures FormatClassId(LevelClassId(g, n1), labels) != FormatClassId(LevelClassId(g, n2), labels)
  {
    var prefix := GradeLabelOr(labels, NatToString(g));
    LevelClassLabel(g, n1, labels);
    LevelClassLabel(g, n2, labels);
    if LevelLabel(prefix, LevelMark(n1)) == LevelLabel(prefix, LevelMark(n2)) {
      MasterSchedule.LevelLabelCancel(prefix, LevelMark(n1), LevelMark(n2));
      LevelMarkInjective(n1, n2);
    }
  }

  /** Text holding neither character of the level marker. */
  predicate FreeOfMarkerChars(t: string) {
    forall k :: 0 <= k < |t| ==> t[k] != LevelMarker[0] && t[k] != LevelMarker[1]
  }

  /** Appending marker-free text to a string without the marker cannot
      create one. */
  lemma NoMarkerAfterAppend(row: string, t: string)
    requires !Contains(row, LevelMarker) && FreeOfMarkerChars(t)
    ensures !Contains(row + t, LevelMarker)
  {
    var s := row + t;
    forall i ensures !OccursAt(s, LevelMarker, i) {
      MarkerOccurrence(row, t, i);
    }
  }

  /** Where an occurrence of the marker in `row + t` lies: inside `row`,
      across the seam, or inside `t`. */
  lemma MarkerOccurrence(row: string, t: string, i: int)
    ensures OccursAt(row + t, LevelMarker, i) ==>
              (i + 2 <= |row| && OccursAt(row, LevelMarker, i))
              || (i + 1 == |row| && t[0] == LevelMarker[1])
              || (i >= |row| && t[i - |row|] == LevelMarker[0])
  {
    var s := row + t;
    if OccursAt(s, LevelMarker, i) {
      if i + 2 <= |row| {
        assert s[i..i + 2] == row[i..i + 2];
      } else if i + 1 == |row| {
        assert s[i + 1] == LevelMarker[1];
      } else {
        assert s[i] == LevelMarker[0];
      }
    }
  }

  /** `-{n}` is marker-free. */
  lemma DashNumeralFreeOfMarker(n: nat)
    ensures FreeOfMarkerChars("-" + NatToString(n))
  {
    var t := "-" + NatToString(n);
    forall k | 1 <= k < |t| ensures IsDigit(t[k]) {
      assert t[k] == NatToString(n)[k - 1];
    }
  }

  /** The last dash of `{row}-{n}` is the one before the numeral. */
  lemma LastDashBeforeNumeral(row: string, n: nat)
    ensures LastIndexOf(row + "-" + NatToString(n), '-') == |row|
  {
    var d := NatToString(n);
    var id := row + "-" + d;
    assert id[|row|] == '-';
    assert forall i :: |row| < i < |id| ==> id[i] == d[i - |row| - 1];
    hide NatToString;
    assert forall i :: |row| < i < |id| ==> id[i] != '-';
  }

  /** Class `n` of a `custom-` grade row (an id without the level marker)
      reads `{row label}-{n}` when the row is labelled and the bare number
      `n` otherwise: the row's own dashes are kept in the row id. */
  lemma CustomRowClassLabel(row: string, n: nat, labels: map<string, string>)
    requires StartsWith(row, CustomPrefix) && !Contains(row, LevelMarker)
    requires !HasCustomLabel(labels, row + "-" + NatToString(n))
    ensures FormatClassId(row + "-" + NatToString(n), labels) ==
              if HasCustomLabel(labels, row) then labels[row] + "-" + NatToString(n) else NatToString(n)
  {
    CustomRowIdShape(row, n);
    hide NatToString, DashParts, Contains, StartsWith, IsSentinel;
  }

  /** What the teacher page reads off `{row}-{n}` for a `custom-` row
      without the level marker. */
  lemma CustomRowIdShape(row: string, n: nat)
    requires StartsWith(row, CustomPrefix) && !Contains(row, LevelMarker)
    ensures !IsSentinel(row + "-" + NatToString(n)) && Contains(row + "-" + NatToString(n), "-")
    ensures !Contains(row + "-" + NatToString(n), LevelMarker)
    ensures StartsWith(row + "-" + NatToString(n), CustomPrefix)
    ensures DashParts(row + "-" + NatToString(n)) == (row, NatToString(n))
  {
    var id := row + "-" + NatToString(n);
    assert id == row + ("-" + NatToString(n));
    DashNumeralFreeOfMarker(n);
    NoMarkerAfterAppend(row, "-" + NatToString(n));
    CustomRowIdSplits(row, n);
  }

  lemma CustomRowIdSplits(row: string, n: nat)
    requires StartsWith(row, CustomPrefix)
    ensures !IsSentinel(row + "-" + NatToString(n)) && Contains(row + "-" + NatToString(n), "-")
    ensures StartsWith(row + "-" + NatToString(n), CustomPrefix)
    ensures DashParts(row + "-" + NatToString(n)) == (row, NatToString(n))
  {
    CustomRowIdPrefix(row, n);
    CustomRowIdParts(row, n);
    hide NatToString, LastIndexOf, StartsWith;
  }

  lemma CustomRowIdPrefix(row: string, n: nat)
    requires StartsWith(row, CustomPrefix)
    ensures !IsSentinel(row + "-" + NatToString(n)) && Contains(row + "-" + NatToString(n), "-")
    ensures StartsWith(row + "-" + NatToString(n), CustomPrefix)
  {
    var d := NatToString(n);
    var id := row + "-" + d;
    assert id[..|CustomPrefix|] == row[..|CustomPrefix|];
    assert OccursAt(id, "-", |row|);
    assert id[0] == 'c';
  }

  lemma CustomRowIdParts(row: string, n: nat)
    ensures var id := row + "-" + NatToString(n);
            LastIndexOf(id, '-') == |row| && id[..|row|] == row && id[|row| + 1..] == NatToString(n)
  {
    var d := NatToString(n);
    var id := row + "-" + d;
    LastDashBeforeNumeral(row, n);
    assert id[..|row|] == row && id[|row| + 1..] == d;
  }

  // ------------------------------------------------------------ cell lookup

  /** Marks the id of a lesson copied in by synchronisation. */
  const SyncMarker: string := "-sync-"

  /** The lesson of the teacher in the cell, unless it is a synchronised copy. */
  predicate ShownInCell(t: TimeSlot, teacherId: string, day: Day, period: int) {
    t.teacherId == Some(teacherId) && t.day == day && t.period == period && !Contains(t.id, SyncMarker)
  }

  function ShownIn(teacherId: string, day: Day, period: int): TimeSlot -> bool {
    (t: TimeSlot) => ShownInCell(t, teacherId, day, period)
  }

  /** `getSlot`: the first lesson of the teacher in the cell whose id is not
      a synchronised copy's; none exactly when every such lesson is one. */
  function GetSlot(tt: seq<TimeSlot>, teacherId: string, day: Day, period: int): (r: Option<TimeSlot>)
    ensures r.Some? ==> r.value in tt && r.value.teacherId == Some(teacherId)
                        && r.value.day == day && r.value.period == period
                        && !Contains(r.value.id, SyncMarker)
    ensures r.None? <==> forall t :: (t in tt && t.teacherId == Some(teacherId) && t.day == day
                                      && t.period == period) ==> Contains(t.id, SyncMarker)
  {
    Find(tt, ShownIn(teacherId, day, period))
  }

  /** An element failing the test is invisible to `find`, wherever it sits. */
  lemma {:induction false} FindSkips<T(!new)>(a: seq<T>, x: T, b: seq<T>, p: T -> bool)
    requires !p(x)
    ensures Find(a + [x] + b, p) == Find(a + b, p)
  {
    if a == [] {
      assert a + [x] + b == [x] + b && a + b == b;
      FindPastHead([x] + b, p);
      assert ([x] + b)[1..] == b;
    } else if p(a[0]) {
      FindAtHead(a + [x] + b, p);
      FindAtHead(a + b, p);
    } else {
      FindSkips(a[1..], x, b, p);
      FindPastHead(a + [x] + b, p);
      FindPastHead(a + b, p);
      assert (a + [x] + b)[1..] == a[1..] + [x] + b;
      assert (a + b)[1..] == a[1..] + b;
    }
  }

  /** `find` stops at a head that passes. */
  lemma FindAtHead<T(!new)>(s: seq<T>, p: T -> bool)
    requires s != [] && p(s[0])
    ensures Find(s, p) == Some(s[0])
  {
  }

  /** `find` looks past a head that fails. */
  lemma FindPastHead<T(!new)>(s: seq<T>, p: T -> bool)
    requires s != [] && !p(s[0])
    ensures Find(s, p) == Find(s[1..], p)
  {
  }

  /** A synchronised copy, wherever it is inserted, never changes what any
      cell of the teacher page shows. */
  lemma SyncCopyIsNeverShown(a: seq<TimeSlot>, s: TimeSlot, b: seq<TimeSlot>, teacherId: string,
                             day: Day, period: int)
    requires Contains(s.id, SyncMarker)
    ensures GetSlot(a + [s] + b, teacherId, day, period) == GetSlot(a + b, teacherId, day, period)
  {
    FindSkips(a, s, b, ShownIn(teacherId, day, period));
  }

  /** A lesson of another teacher never changes what the page shows. */
  lemma OtherTeachersLessonIsNeverShown(a: seq<TimeSlot>, s: TimeSlot, b: seq<TimeSlot>, teacherId: string,
                                        day: Day, period: int)
    requires s.teacherId != Some(teacherId)
    ensures GetSlot(a + [s] + b, teacherId, day, period) == GetSlot(a + b, teacherId, day, period)
  {
    FindSkips(a, s, b, ShownIn(teacherId, day, period));
  }

  // ----------------------------------------------------- bell schedule variant

  /** The bell-schedule choice of the page: the explicit dual view, or the
      automatic choice from the grades the teacher teaches. */
  datatype BellMode = DualMode | AutoMode

  /** Which schedules the grid shows beside the periods. */
  datatype Layout = OnlyA | OnlyB | BothAB

  /** `showB ? 1 : 0`: the schedule shown on the left. */
  function LeftScheduleIndex(l: Layout): (i: nat)
    ensures i <= 1 && (i == 1 <==> l == OnlyB)
  {
    if l == OnlyB then 1 else 0
  }

  /** A lesson of the teacher whose grade decides the layout. */
  predicate CountedLesson(t: TimeSlot, teacherId: string) {
    t.teacherId == Some(teacherId) && t.subject != Unassigned
  }

  /** The positive grades of the teacher's lessons (other than unassigned
      ones). */
  function LessonGrades(tt: seq<TimeSlot>, teacherId: string): (gs: set<int>)
    ensures forall g :: g in gs <==> g > 0 && exists t :: t in tt && CountedLesson(t, teacherId)
                                                        && ExtractGrade(t.classId) == g
  {
    set t | t in tt && CountedLesson(t, teacherId) && ExtractGrade(t.classId) > 0 :: ExtractGrade(t.classId) as int
  }

  function TargetsOf(a: TeacherAssignment): seq<string> {
    if a.targets.Some? then a.targets.value else []
  }

  /** `g` is read off target `t`: its positive grade, or its `parseInt`. */
  predicate GradeOfTarget(t: string, g: int) {
    (ExtractGrade(t) > 0 && g == ExtractGrade(t) as int) || ParseInt(t) == Some(g)
  }

  /** The grades read off the assignment targets: each target's positive
      `extractGrade`, and its `parseInt` when that is a number. */
  function TargetGrades(assignments: seq<TeacherAssignment>): (gs: set<int>)
    ensures forall a, t :: a in assignments && t in TargetsOf(a) && ExtractGrade(t) > 0 ==> ExtractGrade(t) as int in gs
    ensures forall a, t :: a in assignments && t in TargetsOf(a) && ParseInt(t).Some? ==> ParseInt(t).value in gs
    ensures forall g :: g in gs <==>
              exists a, t :: a in assignments && t in TargetsOf(a) && GradeOfTarget(t, g)
  {
    var extracted := set a, t | a in assignments && t in TargetsOf(a) && ExtractGrade(t) > 0 :: ExtractGrade(t) as int;
    var parsed := set a, t | a in assignments && t in TargetsOf(a) && ParseInt(t).Some? :: ParseInt(t).value;
    forall g ensures g in extracted + parsed <==>
                       exists a, t :: a in assignments && t in TargetsOf(a) && GradeOfTarget(t, g)
    {
      if g in extracted {
        var a, t :| a in assignments && t in TargetsOf(a) && ExtractGrade(t) > 0 && g == ExtractGrade(t) as int;
        assert GradeOfTarget(t, g);
      } else if g in parsed {
        var a, t :| a in assignments && t in TargetsOf(a) && ParseInt(t).Some? && g == ParseInt(t).value;
        assert GradeOfTarget(t, g);
      }
    }
    extracted + parsed
  }

  /** The grades the automatic choice looks at: those of the lessons, or
      the targets' when no lesson has a grade. */
  function TaughtGrades(tt: seq<TimeSlot>, teacher: Teacher): set<int> {
    var gs := LessonGrades(tt, teacher.id);
    if gs == {} then TargetGrades(teacher.assignments) else gs
  }

  predicate HasLow(gs: set<int>) {
    exists g :: g in gs && g <= 2
  }

  predicate HasHigh(gs: set<int>) {
    exists g :: g in gs && g >= 3
  }

  /** The schedule layout of a teacher's grid: schedule A alone without
      distinct schedules; both for the thumbnail views and the dual mode;
      in automatic mode both when the teacher has lower (1-2) and upper
      (3+) grades, schedule B for upper grades only, schedule A otherwise. */
  function AutoLayout(tt: seq<TimeSlot>, teacher: Teacher, hasDual: bool, mode: BellMode, isMini: bool): (l: Layout)
    ensures !hasDual ==> l == OnlyA
    ensures hasDual && (isMini || mode == DualMode) ==> l == BothAB
    ensures hasDual && !isMini && mode == AutoMode ==>
              var gs := TaughtGrades(tt, teacher);
              (l == BothAB <==> HasLow(gs) && HasHigh(gs)) && (l == OnlyB <==> !HasLow(gs) && HasHigh(gs))
  {
    if !hasDual then OnlyA
    else if isMini || mode == DualMode then BothAB
    else
      var gs := TaughtGrades(tt, teacher);
      if HasLow(gs) && HasHigh(gs) then BothAB
      else if HasHigh(gs) then OnlyB
      else OnlyA
  }

  /** A teacher with a lesson in grade 1 or 2 and one in grade 3 or above
      sees both schedules. */
  lemma MixedGradesShowBoth(tt: seq<TimeSlot>, teacher: Teacher, low: TimeSlot, high: TimeSlot)
    requires low in tt && high in tt && CountedLesson(low, teacher.id) && CountedLesson(high, teacher.id)
    requires 1 <= ExtractGrade(low.classId) <= 2 && ExtractGrade(high.classId) >= 3
    ensures AutoLayout(tt, teacher, true, AutoMode, false) == BothAB
  {
    var gs := LessonGrades(tt, teacher.id);
    assert ExtractGrade(low.classId) as int in gs;
    assert ExtractGrade(high.classId) as int in gs;
  }

  /** A teacher whose graded lessons are all in grade 3 or above, with at
      least one of them, sees schedule B alone, on the left. */
  lemma UpperGradesUseScheduleB(tt: seq<TimeSlot>, teacher: Teacher, high: TimeSlot)
    requires high in tt && CountedLesson(high, teacher.id) && ExtractGrade(high.classId) >= 3
    requires forall t :: t in tt && CountedLesson(t, teacher.id) ==> ExtractGrade(t.classId) == 0 || ExtractGrade(t.classId) >= 3
    ensures AutoLayout(tt, teacher, true, AutoMode, false) == OnlyB
    ensures LeftScheduleIndex(AutoLayout(tt, teacher, true, AutoMode, false)) == 1
  {
    var gs := LessonGrades(tt, teacher.id);
    assert ExtractGrade(high.classId) as int in gs;
    assert !HasLow(gs);
  }

  /** Once a lesson carries a grade, the assignment targets no longer
      matter. */
  lemma LessonsOverrideTargets(tt: seq<TimeSlot>, t1: Teacher, t2: Teacher, lesson: TimeSlot,
                               hasDual: bool, mode: BellMode, isMini: bool)
    requires t1.id == t2.id && lesson in tt && CountedLesson(lesson, t1.id) && ExtractGrade(lesson.classId) > 0
    ensures AutoLayout(tt, t1, hasDual, mode, isMini) == AutoLayout(tt, t2, hasDual, mode, isMini)
  {
    assert ExtractGrade(lesson.classId) as int in LessonGrades(tt, t1.id);
  }

  /** Unassigned lessons and other teachers' lessons never change the
      layout. */
  lemma UncountedLessonKeepsLayout(tt: seq<TimeSlot>, s: TimeSlot, teacher: Teacher,
                                   hasDual: bool, mode: BellMode, isMini: bool)
    requires !CountedLesson(s, teacher.id)
    ensures AutoLayout(tt + [s], teacher, hasDual, mode, isMini) == AutoLayout(tt, teacher, hasDual, mode, isMini)
  {
    assert LessonGrades(tt + [s], teacher.id) == LessonGrades(tt, teacher.id) by {
      forall t | t in tt + [s] && CountedLesson(t, teacher.id) ensures t in tt {
      }
    }
  }

  /** Without graded lessons, targets naming class `c1` of grade 1 or 2
      and class `c2` of grade 3 or above show both schedules. */
  lemma TargetsDecideWithoutLessons(tt: seq<TimeSlot>, teacher: Teacher, a: TeacherAssignment,
                                    g1: nat, c1: nat, g2: nat, c2: nat)
    requires LessonGrades(tt, teacher.id) == {}
    requires a in teacher.assignments && ClassIdOf(g1, c1) in TargetsOf(a) && ClassIdOf(g2, c2) in TargetsOf(a)
    requires 1 <= g1 <= 2 && g2 >= 3
    ensures AutoLayout(tt, teacher, true, AutoMode, false) == BothAB
  {
    ExtractGradeOfClassId(g1, c1);
    ExtractGradeOfClassId(g2, c2);
    var gs := TargetGrades(teacher.assignments);
    assert g1 as int in gs && g2 as int in gs;
  }

  // ---------------------------------------------------------- editor lines

  const TitleStyle: RichTextStyle := RichTextStyle(Some("text-slate-800"), Some("text-base"), Some(true), None, None)
  const BodyStyle: RichTextStyle := RichTextStyle(Some("text-slate-700"), Some("text-sm"), Some(false), None, None)

  predicate HasText(l: RichTextLine) {
    l.text != ""
  }

  /** The slot already carries rich text to edit. */
  predicate HasRichText(slot: TimeSlot) {
    slot.richText.Some? && slot.richText.value != []
  }

  /** `openEditor`: a copy of the slot's rich text when it has some;
      otherwise a bold title line and a smaller body line — the class label
      and the subject, or for an other activity its custom text (or
      '기타') alone — with empty lines dropped (the two-line `filter`
      written out). */
  function EditorLines(slot: TimeSlot, labels: map<string, string>): (r: seq<RichTextLine>)
    ensures HasRichText(slot) ==> r == slot.richText.value
    ensures !HasRichText(slot) ==> |r| <= 2 && forall i :: 0 <= i < |r| ==> r[i].text != ""
    ensures !HasRichText(slot) && slot.subject == OtherActivity ==>
              |r| == 1 && r[0].text == OrElse(slot.customText, OtherActivity) && r[0].style == TitleStyle
    ensures !HasRichText(slot) && slot.subject != OtherActivity ==>
              var name := FormatClassId(slot.classId, labels);
              |r| == (if name != "" then 1 else 0) + (if slot.subject != "" then 1 else 0)
              && (name != "" ==> r[0] == RichTextLine("line-1", name, TitleStyle))
              && (slot.subject != "" ==> r[|r| - 1] == RichTextLine("line-2", slot.subject, BodyStyle))
  {
    if HasRichText(slot) then slot.richText.value
    else
      var className := FormatClassId(slot.classId, labels);
      var isOther := slot.subject == OtherActivity;
      var displaySubject := if isOther && Truthy(slot.customText) then slot.customText.value else slot.subject;
      var title := RichTextLine("line-1", if isOther then displaySubject else className, TitleStyle);
      var body := RichTextLine("line-2", if isOther then "" else displaySubject, BodyStyle);
      (if HasText(title) then [title] else []) + (if HasText(body) then [body] else [])
  }

  /** With no rich text, the last default line of a lesson that has a
      subject is what the class page exports for that lesson. */
  lemma EditorEndsWithExportedText(slot: TimeSlot, labels: map<string, string>)
    requires !HasRichText(slot) && slot.subject != ""
    ensures var r := EditorLines(slot, labels);
            r != [] && r[|r| - 1].text == ClassSchedule.CellText(Some(slot))
  {
  }
}
