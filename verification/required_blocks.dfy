/** Derivation of the still-unplaced weekly sessions of a specialist teacher
    (`getUnassignedSpecialistBlocks`): every assignment's targets are
    expanded into class ids, duplicates are dropped, and each class yields
    one unit block per missing session. */
module RequiredBlocks {
  import opened Basics
  import opened JsText
  import opened Types
  import opened ClassIds

  /** The targets of an assignment: its own list when non-empty, otherwise
      every grade row of the teacher page. */
  function TargetsOf(a: TeacherAssignment, layout: TeacherLayoutConfig): seq<string> {
    if a.targets.Some? && a.targets.value != [] then a.targets.value else layout.grades
  }

  /** A target that names a whole grade row: listed among the rows and
      holding neither a dash nor the level marker. */
  predicate IsGradeRow(target: string, layout: TeacherLayoutConfig) {
    target in layout.grades && !Contains(target, "-") && !Contains(target, LevelMarker)
  }

  /** `(classesPerGrade[g] || 0) + (extraClassCounts[g] || 0)`. */
  function GradeClassCount(school: SchoolInfo, layout: TeacherLayoutConfig, grade: int): int {
    GetOr(school.classesPerGrade, grade, 0) + GetOr(layout.extraClassCounts, IntToString(grade), 0)
  }

  /** One target as the list of class ids it stands for. A grade row whose
      `parseInt` is a number expands to its numbered classes; one that is
      not a number expands to the numbered classes of a `custom-` row, or to
      nothing; any other target stands for itself. */
  function ExpandTarget(target: string, school: SchoolInfo, layout: TeacherLayoutConfig): seq<string> {
    if IsGradeRow(target, layout) then
      match ParseInt(target)
      case Some(g) => NumberedClasses(IntToString(g), GradeClassCount(school, layout, g))
      case None =>
        if StartsWith(target, CustomPrefix)
        then NumberedClasses(target, GetOr(layout.extraClassCounts, target, 0))
        else []
    else [target]
  }

  /** The `custom-` expansion can never be reached: a grade row holds no
      dash, and every `custom-` id does. */
  lemma CustomExpansionUnreachable(target: string, layout: TeacherLayoutConfig)
    requires IsGradeRow(target, layout)
    ensures !StartsWith(target, CustomPrefix)
  {
    if StartsWith(target, CustomPrefix) {
      assert target[6..7] == CustomPrefix[6..7];
      assert OccursAt(target, "-", 6);
      assert false;
    }
  }

  /** What a target expands to, stated without the loop: a numeric grade
      row `g` gives exactly the ids `g-c` with `1 <= c <= count`, a
      non-numeric grade row gives nothing, any other target gives itself. */
  lemma ExpandTargetMembership(target: string, school: SchoolInfo, layout: TeacherLayoutConfig,
                               x: string)
    ensures !IsGradeRow(target, layout) ==> (x in ExpandTarget(target, school, layout) <==> x == target)
    ensures IsGradeRow(target, layout) && ParseInt(target).None? ==>
              x !in ExpandTarget(target, school, layout)
    ensures IsGradeRow(target, layout) && ParseInt(target).Some? ==>
              (x in ExpandTarget(target, school, layout) <==>
                 exists c :: 1 <= c <= GradeClassCount(school, layout, ParseInt(target).value)
                             && x == ClassIdOf(ParseInt(target).value, c))
  {
    if IsGradeRow(target, layout) {
      CustomExpansionUnreachable(target, layout);
      if ParseInt(target).Some? {
        var g := ParseInt(target).value;
        var r := ExpandTarget(target, school, layout);
        if x in r {
          var i :| 0 <= i < |r| && r[i] == x;
          assert x == ClassIdOf(g, i + 1);
        }
        if exists c :: 1 <= c <= GradeClassCount(school, layout, g) && x == ClassIdOf(g, c) {
          var c :| 1 <= c <= GradeClassCount(school, layout, g) && x == ClassIdOf(g, c);
          assert r[c - 1] == x;
        }
      }
    }
  }

  function ExpandTargets(targets: seq<string>, school: SchoolInfo, layout: TeacherLayoutConfig)
    : (r: seq<string>)
    ensures forall x :: x in r <==> exists k :: 0 <= k < |targets| && x in ExpandTarget(targets[k], school, layout)
  {
    if targets == [] then []
    else
      var rest := ExpandTargets(targets[1..], school, layout);
      assert forall x :: x in rest <==> exists k :: 1 <= k < |targets| && x in ExpandTarget(targets[k], school, layout) by {
        forall x | x in rest ensures exists k :: 1 <= k < |targets| && x in ExpandTarget(targets[k], school, layout) {
          var k :| 0 <= k < |targets[1..]| && x in ExpandTarget(targets[1..][k], school, layout);
          assert x in ExpandTarget(targets[k + 1], school, layout);
        }
      }
      ExpandTarget(targets[0], school, layout) + rest
  }

  /** The deduplicated class ids an assignment covers. */
  function AssignmentClasses(a: TeacherAssignment, school: SchoolInfo, layout: TeacherLayoutConfig)
    : (r: seq<string>)
    ensures NoDups(r)
    ensures forall x :: x in r <==>
              exists k :: 0 <= k < |TargetsOf(a, layout)| && x in ExpandTarget(TargetsOf(a, layout)[k], school, layout)
  {
    Dedup(ExpandTargets(TargetsOf(a, layout), school, layout))
  }

  /** `assign.hours || 0`. */
  function WeeklyHours(a: TeacherAssignment): int {
    if a.hours.Some? then a.hours.value else 0
  }

  function PlacedLesson(teacherId: string, subject: string, cls: string): TimeSlot -> bool {
    (t: TimeSlot) => t.teacherId == Some(teacherId) && t.subject == subject && t.classId == cls
  }

  /** How many lessons of the subject the teacher already has in the class. */
  function Placed(tt: seq<TimeSlot>, teacherId: string, subject: string, cls: string): nat {
    Count(tt, PlacedLesson(teacherId, subject, cls))
  }

  /** The number of sessions of a class still to be placed. */
  function Missing(tt: seq<TimeSlot>, teacherId: string, a: TeacherAssignment, cls: string): nat {
    var n := WeeklyHours(a) - Placed(tt, teacherId, a.subject, cls);
    if n > 0 then n else 0
  }

  /** `parseInt(cls.split('-')[1]) || 0`. */
  function ClassNumber(cls: string): int {
    match SplitSecond(cls, "-")
    case None => 0
    case Some(p) => if ParseInt(p).Some? then ParseInt(p).value else 0
  }

  /** The `i`-th unit block of a class. The source leaves its teacher unset. */
  function UnitBlock(tt: seq<TimeSlot>, teacherId: string, a: TeacherAssignment, cls: string, i: int)
    : ClassBlock
  {
    ClassBlock(
      teacherId + "-" + cls + "-" + a.subject + "-" + IntToString(i),
      ExtractGrade(cls), ClassNumber(cls), cls, a.subject, None,
      WeeklyHours(a), Placed(tt, teacherId, a.subject, cls), a.roomId)
  }

  /** The unit blocks of one class: one per missing session. */
  function ClassBlocks(tt: seq<TimeSlot>, teacherId: string, a: TeacherAssignment, cls: string)
    : (r: seq<ClassBlock>)
    ensures |r| == Missing(tt, teacherId, a, cls)
    ensures forall b :: b in r ==>
              b.classId == cls && b.subject == a.subject && b.roomId == a.roomId
              && b.assignedSessions + |r| == b.requiredSessions
  {
    seq(Missing(tt, teacherId, a, cls), (i: int) => UnitBlock(tt, teacherId, a, cls, i))
  }

  /** The blocks of all given classes of one assignment, class by class. */
  function BlocksOfClasses(tt: seq<TimeSlot>, teacherId: string, a: TeacherAssignment, classes: seq<string>)
    : (r: seq<ClassBlock>)
    ensures forall b :: b in r ==> b.classId in classes && b.subject == a.subject
  {
    if classes == [] then []
    else ClassBlocks(tt, teacherId, a, classes[0]) + BlocksOfClasses(tt, teacherId, a, classes[1..])
  }

  function AssignmentBlocks(tt: seq<TimeSlot>, teacherId: string, a: TeacherAssignment,
                            school: SchoolInfo, layout: TeacherLayoutConfig): seq<ClassBlock>
  {
    BlocksOfClasses(tt, teacherId, a, AssignmentClasses(a, school, layout))
  }

  function BlocksOfAssignments(tt: seq<TimeSlot>, teacherId: string, assignments: seq<TeacherAssignment>,
                               school: SchoolInfo, layout: TeacherLayoutConfig): (r: seq<ClassBlock>)
    ensures forall b :: b in r ==> exists k :: 0 <= k < |assignments| && b.subject == assignments[k].subject
  {
    if assignments == [] then []
    else
      var rest := BlocksOfAssignments(tt, teacherId, assignments[1..], school, layout);
      assert forall b :: b in rest ==> exists k :: 1 <= k < |assignments| && b.subject == assignments[k].subject by {
        forall b | b in rest ensures exists k :: 1 <= k < |assignments| && b.subject == assignments[k].subject {
          var k :| 0 <= k < |assignments[1..]| && b.subject == assignments[1..][k].subject;
          assert b.subject == assignments[k + 1].subject;
        }
      }
      AssignmentBlocks(tt, teacherId, assignments[0], school, layout) + rest
  }

  function HasId(teacherId: string): Teacher -> bool {
    (t: Teacher) => t.id == teacherId
  }

  /** `getUnassignedSpecialistBlocks`: the unit blocks of every assignment
      of the first teacher with the id; none for an unknown teacher. */
  function GetUnassignedSpecialistBlocks(teachers: seq<Teacher>, school: SchoolInfo,
                                         layout: TeacherLayoutConfig, tt: seq<TimeSlot>,
                                         teacherId: string): (r: seq<ClassBlock>)
    ensures (forall t :: t in teachers ==> t.id != teacherId) ==> r == []
    ensures r != [] ==> exists t :: t in teachers && t.id == teacherId
    ensures forall b :: b in r ==> exists t, a :: t in teachers && t.id == teacherId
                                                && a in t.assignments && b.subject == a.subject
  {
    match Find(teachers, HasId(teacherId))
    case None => []
    case Some(t) =>
      var r := BlocksOfAssignments(tt, teacherId, t.assignments, school, layout);
      assert forall b :: b in r ==> exists a :: a in t.assignments && b.subject == a.subject by {
        forall b | b in r ensures exists a :: a in t.assignments && b.subject == a.subject {
          var k :| 0 <= k < |t.assignments| && b.subject == t.assignments[k].subject;
          assert t.assignments[k] in t.assignments;
        }
      }
      r
  }

  function IsOfClass(cls: string): ClassBlock -> bool {
    (b: ClassBlock) => b.classId == cls
  }

  /** Over a duplicate-free class list, a class gets exactly its missing
      sessions, and a class outside the list gets none. */
  lemma {:induction false} BlocksOfClassesCount(tt: seq<TimeSlot>, teacherId: string, a: TeacherAssignment,
                                                classes: seq<string>, cls: string)
    requires NoDups(classes)
    ensures |Filter(BlocksOfClasses(tt, teacherId, a, classes), IsOfClass(cls))|
         == if cls in classes then Missing(tt, teacherId, a, cls) else 0
  {
    if classes != [] {
      var head := ClassBlocks(tt, teacherId, a, classes[0]);
      var tail := classes[1..];
      assert NoDups(tail) by {
        forall i, j | 0 <= i < j < |tail| ensures tail[i] != tail[j] {
          assert tail[i] == classes[i + 1] && tail[j] == classes[j + 1];
        }
      }
      BlocksOfClassesCount(tt, teacherId, a, tail, cls);
      FilterConcat(head, BlocksOfClasses(tt, teacherId, a, tail), IsOfClass(cls));
      if classes[0] == cls {
        FilterAll(head, IsOfClass(cls));
        assert cls !in tail by {
          forall k | 0 <= k < |tail| ensures tail[k] != cls {
            assert tail[k] == classes[k + 1];
          }
        }
      } else {
        assert Count(head, IsOfClass(cls)) == 0;
        assert cls in classes <==> cls in tail;
      }
    }
  }

  /** One assignment yields, for every class it covers, exactly
      `max(0, hours - placed)` blocks, and nothing for any other class. */
  lemma AssignmentBlocksPerClass(tt: seq<TimeSlot>, teacherId: string, a: TeacherAssignment,
                                 school: SchoolInfo, layout: TeacherLayoutConfig, cls: string)
    ensures |Filter(AssignmentBlocks(tt, teacherId, a, school, layout), IsOfClass(cls))|
         == if cls in AssignmentClasses(a, school, layout) then Missing(tt, teacherId, a, cls) else 0
  {
    BlocksOfClassesCount(tt, teacherId, a, AssignmentClasses(a, school, layout), cls);
  }

  function IsOfClassAndSubject(cls: string, subject: string): ClassBlock -> bool {
    (b: ClassBlock) => b.classId == cls && b.subject == subject
  }

  /** The sessions of `subject` still missing for a class, summed over the
      assignments of that subject that cover the class. */
  function MissingTotal(tt: seq<TimeSlot>, teacherId: string, assignments: seq<TeacherAssignment>,
                        school: SchoolInfo, layout: TeacherLayoutConfig, cls: string, subject: string): nat
  {
    if assignments == [] then 0
    else
      var a := assignments[0];
      (if a.subject == subject && cls in AssignmentClasses(a, school, layout)
       then Missing(tt, teacherId, a, cls) else 0)
      + MissingTotal(tt, teacherId, assignments[1..], school, layout, cls, subject)
  }

  /** One assignment's blocks of a class and subject: its missing sessions
      when the assignment is of that subject and covers the class, none
      otherwise. */
  lemma AssignmentBlocksOfSubject(tt: seq<TimeSlot>, teacherId: string, a: TeacherAssignment,
                                  school: SchoolInfo, layout: TeacherLayoutConfig, cls: string, subject: string)
    ensures |Filter(AssignmentBlocks(tt, teacherId, a, school, layout), IsOfClassAndSubject(cls, subject))|
         == if a.subject == subject && cls in AssignmentClasses(a, school, layout)
            then Missing(tt, teacherId, a, cls) else 0
  {
    var r := AssignmentBlocks(tt, teacherId, a, school, layout);
    AssignmentBlocksPerClass(tt, teacherId, a, school, layout, cls);
    if a.subject == subject {
      FilterCongruent(r, IsOfClassAndSubject(cls, subject), IsOfClass(cls));
    } else {
      FilterNone(r, IsOfClassAndSubject(cls, subject));
    }
  }

  lemma {:induction false} BlocksOfAssignmentsCount(tt: seq<TimeSlot>, teacherId: string,
                                                    assignments: seq<TeacherAssignment>, school: SchoolInfo,
                                                    layout: TeacherLayoutConfig, cls: string, subject: string)
    ensures |Filter(BlocksOfAssignments(tt, teacherId, assignments, school, layout), IsOfClassAndSubject(cls, subject))|
         == MissingTotal(tt, teacherId, assignments, school, layout, cls, subject)
  {
    if assignments != [] {
      var p := IsOfClassAndSubject(cls, subject);
      BlocksOfAssignmentsCount(tt, teacherId, assignments[1..], school, layout, cls, subject);
      AssignmentBlocksOfSubject(tt, teacherId, assignments[0], school, layout, cls, subject);
      FilterConcat(AssignmentBlocks(tt, teacherId, assignments[0], school, layout),
                   BlocksOfAssignments(tt, teacherId, assignments[1..], school, layout), p);
    }
  }

  /** For a known teacher, every class gets, in every subject, exactly the
      sessions still missing over the teacher's assignments of that subject
      that cover the class; an unknown teacher gets none. */
  lemma SpecialistBlocksPerClass(teachers: seq<Teacher>, school: SchoolInfo, layout: TeacherLayoutConfig,
                                 tt: seq<TimeSlot>, teacherId: string, cls: string, subject: string)
    ensures |Filter(GetUnassignedSpecialistBlocks(teachers, school, layout, tt, teacherId),
                    IsOfClassAndSubject(cls, subject))|
         == match Find(teachers, HasId(teacherId))
            case None => 0
            case Some(t) => MissingTotal(tt, teacherId, t.assignments, school, layout, cls, subject)
  {
    match Find(teachers, HasId(teacherId))
    case None =>
    case Some(t) =>
      BlocksOfAssignmentsCount(tt, teacherId, t.assignments, school, layout, cls, subject);
  }

  /** With one assignment per subject, the sum has a single term. */
  lemma {:induction false} MissingTotalOfDistinct(tt: seq<TimeSlot>, teacherId: string,
                                                  assignments: seq<TeacherAssignment>, school: SchoolInfo,
                                                  layout: TeacherLayoutConfig, cls: string, k: nat)
    requires k < |assignments|
    requires forall i, j :: 0 <= i < j < |assignments| ==> assignments[i].subject != assignments[j].subject
    ensures MissingTotal(tt, teacherId, assignments, school, layout, cls, assignments[k].subject)
         == if cls in AssignmentClasses(assignments[k], school, layout)
            then Missing(tt, teacherId, assignments[k], cls) else 0
  {
    var subject := assignments[k].subject;
    if k == 0 {
      MissingTotalAbsent(tt, teacherId, assignments[1..], school, layout, cls, subject);
    } else {
      assert assignments[0].subject != subject;
      assert assignments[1..][k - 1] == assignments[k];
      MissingTotalOfDistinct(tt, teacherId, assignments[1..], school, layout, cls, k - 1);
    }
  }

  /** No assignment of the subject, nothing missing in it. */
  lemma {:induction false} MissingTotalAbsent(tt: seq<TimeSlot>, teacherId: string,
                                              assignments: seq<TeacherAssignment>, school: SchoolInfo,
                                              layout: TeacherLayoutConfig, cls: string, subject: string)
    requires forall i :: 0 <= i < |assignments| ==> assignments[i].subject != subject
    ensures MissingTotal(tt, teacherId, assignments, school, layout, cls, subject) == 0
  {
    if assignments != [] {
      MissingTotalAbsent(tt, teacherId, assignments[1..], school, layout, cls, subject);
    }
  }

  /** A teacher with one assignment per subject gets, for each assignment
      and class, exactly `max(0, hours - placed)` blocks when the assignment
      covers the class and none otherwise. */
  lemma SpecialistBlocksOfDistinctSubjects(teachers: seq<Teacher>, school: SchoolInfo,
                                           layout: TeacherLayoutConfig, tt: seq<TimeSlot>,
                                           teacherId: string, t: Teacher, k: nat, cls: string)
    requires Find(teachers, HasId(teacherId)) == Some(t)
    requires k < |t.assignments|
    requires forall i, j :: 0 <= i < j < |t.assignments| ==> t.assignments[i].subject != t.assignments[j].subject
    ensures |Filter(GetUnassignedSpecialistBlocks(teachers, school, layout, tt, teacherId),
                    IsOfClassAndSubject(cls, t.assignments[k].subject))|
         == if cls in AssignmentClasses(t.assignments[k], school, layout)
            then Missing(tt, teacherId, t.assignments[k], cls) else 0
  {
    SpecialistBlocksPerClass(teachers, school, layout, tt, teacherId, cls, t.assignments[k].subject);
    MissingTotalOfDistinct(tt, teacherId, t.assignments, school, layout, cls, k);
  }

  /** A class whose lessons are all placed yields no block. */
  lemma FullyPlacedYieldsNothing(tt: seq<TimeSlot>, teacherId: string, a: TeacherAssignment,
                                 school: SchoolInfo, layout: TeacherLayoutConfig, cls: string)
    requires Placed(tt, teacherId, a.subject, cls) >= WeeklyHours(a)
    ensures forall b :: b in AssignmentBlocks(tt, teacherId, a, school, layout) ==> b.classId != cls
  {
    var r := AssignmentBlocks(tt, teacherId, a, school, layout);
    AssignmentBlocksPerClass(tt, teacherId, a, school, layout, cls);
    assert Count(r, IsOfClass(cls)) == 0;
  }

  /** Placing one more lesson of a class that still misses sessions removes
      exactly one of its blocks. */
  lemma PlacingReducesMissing(tt: seq<TimeSlot>, teacherId: string, a: TeacherAssignment,
                              cls: string, slot: TimeSlot)
    requires slot.teacherId == Some(teacherId) && slot.subject == a.subject && slot.classId == cls
    requires Missing(tt, teacherId, a, cls) > 0
    ensures Missing(tt + [slot], teacherId, a, cls) == Missing(tt, teacherId, a, cls) - 1
  {
    FilterConcat(tt, [slot], PlacedLesson(teacherId, a.subject, cls));
  }
}
