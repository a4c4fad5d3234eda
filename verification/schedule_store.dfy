/** The application store and its mutators: the timetable operations
    (`addTimeSlot`, `removeTimeSlot`, `updateTimeSlot`), teacher removal
    with its cascade, clearing a teacher's schedule, subject renaming, and
    the derived queries `getRequiredHours` and `getClassList`. Each store
    setter is a pure function from the old value to the new one. */
module ScheduleStore {
  import opened Basics
  import opened JsText
  import opened Types
  import opened ClassIds

  datatype Store = Store(
    school: SchoolInfo,
    teachers: seq<Teacher>,
    rooms: seq<Room>,
    subjects: seq<string>,
    timetable: seq<TimeSlot>,
    subjectStyles: map<string, SubjectStyle>,
    subjectConfigs: map<string, SubjectConfig>,
    subjectHours: map<string, int>,
    teacherConfig: TeacherLayoutConfig)

  // ------------------------------------------------------------- timetable

  /** `addTimeSlot`: append the slot. */
  function AddTimeSlot(tt: seq<TimeSlot>, slot: TimeSlot): (r: seq<TimeSlot>)
    ensures multiset(r) == multiset(tt) + multiset{slot}
    ensures |r| == |tt| + 1 && r[..|tt|] == tt && r[|tt|] == slot
  {
    tt + [slot]
  }

  function IdIsNot(id: string): TimeSlot -> bool {
    (t: TimeSlot) => t.id != id
  }

  /** `removeTimeSlot`: drop every slot carrying the id, keeping the order
      of the rest. */
  function RemoveTimeSlot(tt: seq<TimeSlot>, id: string): (r: seq<TimeSlot>)
    ensures forall t :: t in r <==> t in tt && t.id != id
    ensures |r| <= |tt|
  {
    Filter(tt, IdIsNot(id))
  }

  function ReplaceById(slot: TimeSlot): TimeSlot -> TimeSlot {
    (t: TimeSlot) => if t.id == slot.id then slot else t
  }

  /** `updateTimeSlot`: every slot with the new slot's id is replaced by it;
      every other slot stays where it is. */
  function UpdateTimeSlot(tt: seq<TimeSlot>, slot: TimeSlot): (r: seq<TimeSlot>)
    ensures |r| == |tt|
    ensures forall i :: 0 <= i < |tt| && tt[i].id != slot.id ==> r[i] == tt[i]
    ensures forall i :: 0 <= i < |tt| && tt[i].id == slot.id ==> r[i] == slot
  {
    Map(tt, ReplaceById(slot))
  }

  /** Removing an id nobody carries leaves the timetable unchanged. */
  lemma RemoveUnknownId(tt: seq<TimeSlot>, id: string)
    requires forall t :: t in tt ==> t.id != id
    ensures RemoveTimeSlot(tt, id) == tt
  {
    FilterAll(tt, IdIsNot(id));
  }

  /** Adding a slot with a fresh id and removing that id restores the
      timetable. */
  lemma RemoveUndoesAdd(tt: seq<TimeSlot>, slot: TimeSlot)
    requires forall t :: t in tt ==> t.id != slot.id
    ensures RemoveTimeSlot(AddTimeSlot(tt, slot), slot.id) == tt
  {
    FilterConcat(tt, [slot], IdIsNot(slot.id));
    FilterAll(tt, IdIsNot(slot.id));
  }

  /** Applying the same update twice is applying it once. */
  lemma UpdateIdempotent(tt: seq<TimeSlot>, slot: TimeSlot)
    ensures UpdateTimeSlot(UpdateTimeSlot(tt, slot), slot) == UpdateTimeSlot(tt, slot)
  {
  }

  /** Updating with an id nobody carries leaves the timetable unchanged. */
  lemma UpdateUnknownId(tt: seq<TimeSlot>, slot: TimeSlot)
    requires forall t :: t in tt ==> t.id != slot.id
    ensures UpdateTimeSlot(tt, slot) == tt
  {
    assert forall i :: 0 <= i < |tt| ==> tt[i] in tt;
  }

  // ---------------------------------------------------------------- teachers

  function NotTaughtBy(teacherId: string): TimeSlot -> bool {
    (t: TimeSlot) => t.teacherId != Some(teacherId)
  }

  function TeacherIdIsNot(id: string): Teacher -> bool {
    (t: Teacher) => t.id != id
  }

  /** `clearTeacherSchedule`: drop exactly the slots the teacher teaches. */
  function ClearTeacherSchedule(tt: seq<TimeSlot>, teacherId: string): (r: seq<TimeSlot>)
    ensures forall t :: t in r <==> t in tt && t.teacherId != Some(teacherId)
  {
    Filter(tt, NotTaughtBy(teacherId))
  }

  /** `addTeacher`. */
  function AddTeacher(s: Store, t: Teacher): (r: Store)
    ensures r.teachers == s.teachers + [t]
    ensures r.(teachers := s.teachers) == s
  {
    s.(teachers := s.teachers + [t])
  }

  function ReplaceTeacher(t: Teacher): Teacher -> Teacher {
    (x: Teacher) => if x.id == t.id then t else x
  }

  /** `updateTeacher`: the teacher with the same id is replaced in place. */
  function UpdateTeacher(s: Store, t: Teacher): (r: Store)
    ensures |r.teachers| == |s.teachers|
    ensures forall i :: 0 <= i < |s.teachers| ==>
              r.teachers[i] == (if s.teachers[i].id == t.id then t else s.teachers[i])
    ensures r.(teachers := s.teachers) == s
  {
    s.(teachers := Map(s.teachers, ReplaceTeacher(t)))
  }

  /** `removeTeacher`: drop the teacher and, with it, exactly the slots
      carrying its id; nothing else in the store changes. */
  function RemoveTeacher(s: Store, id: string): (r: Store)
    ensures forall t :: t in r.teachers <==> t in s.teachers && t.id != id
    ensures forall t :: t in r.timetable <==> t in s.timetable && t.teacherId != Some(id)
    ensures r.(teachers := s.teachers, timetable := s.timetable) == s
  {
    s.(teachers := Filter(s.teachers, TeacherIdIsNot(id)),
       timetable := ClearTeacherSchedule(s.timetable, id))
  }

  /** Every slot that survives the cascade is kept in its place: removal
      of a teacher loses exactly that teacher's lessons. */
  lemma RemoveTeacherCounts(s: Store, id: string)
    ensures |RemoveTeacher(s, id).timetable|
         == |s.timetable| - Count(s.timetable, (t: TimeSlot) => t.teacherId == Some(id))
  {
    CountComplement(s.timetable, NotTaughtBy(id), (t: TimeSlot) => t.teacherId == Some(id));
  }

  /** A predicate and its negation split a sequence's length. */
  lemma {:induction false} CountComplement<T(!new)>(s: seq<T>, p: T -> bool, q: T -> bool)
    requires forall x :: q(x) == !p(x)
    ensures |Filter(s, p)| + |Filter(s, q)| == |s|
  {
    if s != [] {
      CountComplement(s[1..], p, q);
    }
  }

  // ---------------------------------------------------------------- subjects

  /** `subjectHours[subject] || 2`: a missing or zero entry means 2. */
  function GetRequiredHours(hours: map<string, int>, subject: string): (h: int)
    ensures h != 0
    ensures subject in hours && hours[subject] != 0 ==> h == hours[subject]
    ensures !(subject in hours && hours[subject] != 0) ==> h == 2
  {
    if subject in hours && hours[subject] != 0 then hours[subject] else 2
  }

  /** `{ ...old, ...patch }` for a subject config; a missing old config
      contributes nothing. */
  function MergeConfig(prev: Option<SubjectConfig>, patch: SubjectConfigPatch): (c: SubjectConfig)
    ensures patch.allowOverlap.Some? ==> c.allowOverlap == patch.allowOverlap.value
    ensures patch.allowOverlap.None? ==> c.allowOverlap == (prev.Some? && prev.value.allowOverlap)
    ensures patch.syncGradeClasses.Some? ==> c.syncGradeClasses == patch.syncGradeClasses
    ensures patch.syncGradeClasses.None? ==>
              c.syncGradeClasses == (if prev.Some? then prev.value.syncGradeClasses else None)
    ensures patch.allowOverlapByGrade.Some? ==> c.allowOverlapByGrade == patch.allowOverlapByGrade
    ensures patch.allowOverlapByGrade.None? ==>
              c.allowOverlapByGrade == (if prev.Some? then prev.value.allowOverlapByGrade else None)
  {
    var base := if prev.Some? then prev.value else SubjectConfig(false, None, None);
    SubjectConfig(
      if patch.allowOverlap.Some? then patch.allowOverlap.value else base.allowOverlap,
      if patch.syncGradeClasses.Some? then patch.syncGradeClasses else base.syncGradeClasses,
      if patch.allowOverlapByGrade.Some? then patch.allowOverlapByGrade else base.allowOverlapByGrade)
  }

  function RenameSubject(from: string, to: string): string -> string {
    (s: string) => if s == from then to else s
  }

  function RenameInAssignment(from: string, to: string): TeacherAssignment -> TeacherAssignment {
    (a: TeacherAssignment) => if a.subject == from then a.(subject := to) else a
  }

  function RenameInTeacher(from: string, to: string): Teacher -> Teacher {
    (t: Teacher) => t.(assignments := Map(t.assignments, RenameInAssignment(from, to)))
  }

  function RenameInSlot(from: string, to: string): TimeSlot -> TimeSlot {
    (t: TimeSlot) => if t.subject == from then t.(subject := to) else t
  }

  /** The timetable part of a rename: every lesson of `from` becomes a
      lesson of `to`, nothing else about any slot changes. */
  function RenameInTimetable(tt: seq<TimeSlot>, from: string, to: string): (r: seq<TimeSlot>)
    ensures |r| == |tt|
    ensures forall i :: 0 <= i < |tt| ==> r[i].(subject := tt[i].subject) == tt[i]
    ensures forall i :: 0 <= i < |tt| ==> r[i].subject == if tt[i].subject == from then to else tt[i].subject
    ensures from != to ==> forall t :: t in r ==> t.subject != from
  {
    Map(tt, RenameInSlot(from, to))
  }

  /** `subjects.map(s => s === from ? to : s)`. */
  function RenameInList(subjects: seq<string>, from: string, to: string): (r: seq<string>)
    ensures |r| == |subjects|
    ensures forall i :: 0 <= i < |subjects| ==> r[i] == if subjects[i] == from then to else subjects[i]
  {
    Map(subjects, RenameSubject(from, to))
  }

  /** Every teacher's assignments of `from` become assignments of `to`;
      nothing else about a teacher changes. */
  function RenameInTeachers(teachers: seq<Teacher>, from: string, to: string): (r: seq<Teacher>)
    ensures |r| == |teachers|
    ensures forall i :: 0 <= i < |teachers| ==>
              && r[i].(assignments := teachers[i].assignments) == teachers[i]
              && |r[i].assignments| == |teachers[i].assignments|
    ensures forall i, j :: 0 <= i < |teachers| && 0 <= j < |teachers[i].assignments| ==>
              var a := teachers[i].assignments[j];
              r[i].assignments[j] == if a.subject == from then a.(subject := to) else a
  {
    Map(teachers, RenameInTeacher(from, to))
  }

  /** `{ ...m, [to]: v }` with the entry of `from` deleted when the key
      changes: `to` holds `v`, `from` is gone after a rename, and every
      other key keeps its entry. */
  function Rekey<V>(m: map<string, V>, from: string, to: string, v: V): (r: map<string, V>)
    ensures to in r && r[to] == v
    ensures from != to ==> from !in r
    ensures forall k :: k != from && k != to ==> (k in r <==> k in m) && (k in r ==> r[k] == m[k])
  {
    if from != to then m[to := v] - {from} else m[to := v]
  }

  /** Renaming a subject to itself changes no list. */
  lemma RenameToItself(s: Store, subject: string)
    ensures RenameInList(s.subjects, subject, subject) == s.subjects
    ensures RenameInTeachers(s.teachers, subject, subject) == s.teachers
    ensures RenameInTimetable(s.timetable, subject, subject) == s.timetable
  {
    var ts := RenameInTeachers(s.teachers, subject, subject);
    forall i | 0 <= i < |s.teachers| ensures ts[i] == s.teachers[i] {
      assert ts[i].assignments == s.teachers[i].assignments;
    }
  }

  /** `updateSubjectDetails`: a rename moves the subject everywhere (subject
      list, assignments, lessons, style and config keys) and merges the
      config patch; otherwise only the style and config are updated, which
      is the same as renaming the subject to itself. */
  function UpdateSubjectDetails(s: Store, subject: string, newName: string,
                                style: SubjectStyle, patch: SubjectConfigPatch): (r: Store)
    ensures r.school == s.school && r.rooms == s.rooms && r.subjectHours == s.subjectHours
            && r.teacherConfig == s.teacherConfig
    ensures r.subjects == RenameInList(s.subjects, subject, newName)
    ensures r.teachers == RenameInTeachers(s.teachers, subject, newName)
    ensures r.timetable == RenameInTimetable(s.timetable, subject, newName)
    ensures r.subjectStyles == Rekey(s.subjectStyles, subject, newName, style)
    ensures r.subjectConfigs == Rekey(s.subjectConfigs, subject, newName, MergeConfig(ConfigOf(s, subject), patch))
    ensures subject == newName ==>
              r.subjects == s.subjects && r.timetable == s.timetable && r.teachers == s.teachers
  {
    var restyled := s.(subjectStyles := Rekey(s.subjectStyles, subject, newName, style),
                       subjectConfigs := Rekey(s.subjectConfigs, subject, newName,
                                               MergeConfig(ConfigOf(s, subject), patch)));
    if subject != newName then
      restyled.(subjects := RenameInList(s.subjects, subject, newName),
                teachers := RenameInTeachers(s.teachers, subject, newName),
                timetable := RenameInTimetable(s.timetable, subject, newName))
    else
      RenameToItself(s, subject);
      restyled
  }

  /** `subjectConfigs[subject]`, absent when the subject has none. */
  function ConfigOf(s: Store, subject: string): Option<SubjectConfig> {
    if subject in s.subjectConfigs then Some(s.subjectConfigs[subject]) else None
  }

  /** What `updateSubjectDetails` does entry by entry: every occurrence of
      the subject in the subject list, the assignments and the lessons
      becomes the new name and nothing else changes; the new name's style
      is the given one and its config is the old config merged with the
      patch; a rename drops the old keys; every other key keeps its entry. */
  lemma UpdateSubjectDetailsEntries(s: Store, subject: string, newName: string,
                                    style: SubjectStyle, patch: SubjectConfigPatch)
    ensures var r := UpdateSubjectDetails(s, subject, newName, style, patch);
            && |r.subjects| == |s.subjects|
            && (forall i :: 0 <= i < |s.subjects| ==>
                  r.subjects[i] == if s.subjects[i] == subject then newName else s.subjects[i])
            && |r.teachers| == |s.teachers|
            && (forall i :: 0 <= i < |s.teachers| ==>
                  && r.teachers[i].(assignments := s.teachers[i].assignments) == s.teachers[i]
                  && |r.teachers[i].assignments| == |s.teachers[i].assignments|)
            && (forall i, j :: 0 <= i < |s.teachers| && 0 <= j < |s.teachers[i].assignments| ==>
                  var a := s.teachers[i].assignments[j];
                  r.teachers[i].assignments[j] == if a.subject == subject then a.(subject := newName) else a)
            && |r.timetable| == |s.timetable|
            && (forall i :: 0 <= i < |s.timetable| ==>
                  && r.timetable[i].(subject := s.timetable[i].subject) == s.timetable[i]
                  && r.timetable[i].subject
                     == if s.timetable[i].subject == subject then newName else s.timetable[i].subject)
            && newName in r.subjectStyles && r.subjectStyles[newName] == style
            && newName in r.subjectConfigs
            && r.subjectConfigs[newName] == MergeConfig(ConfigOf(s, subject), patch)
            && (subject != newName ==> subject !in r.subjectStyles && subject !in r.subjectConfigs)
            && (forall k :: k != subject && k != newName ==>
                  && (k in r.subjectStyles <==> k in s.subjectStyles)
                  && (k in r.subjectStyles ==> r.subjectStyles[k] == s.subjectStyles[k])
                  && (k in r.subjectConfigs <==> k in s.subjectConfigs)
                  && (k in r.subjectConfigs ==> r.subjectConfigs[k] == s.subjectConfigs[k]))
  {
    hide UpdateSubjectDetails, RenameInList, RenameInTeachers, RenameInTimetable, Rekey, MergeConfig;
  }

  /** The patch a settings dialog sends when it re-enters every field of
      `c`. */
  function PatchOf(c: SubjectConfig): SubjectConfigPatch {
    SubjectConfigPatch(Some(c.allowOverlap), c.syncGradeClasses, c.allowOverlapByGrade)
  }

  /** The patch sets no optional field that `c` leaves unset. */
  predicate KeepsUnset(c: SubjectConfig, patch: SubjectConfigPatch) {
    && (c.syncGradeClasses.None? ==> patch.syncGradeClasses.None?)
    && (c.allowOverlapByGrade.None? ==> patch.allowOverlapByGrade.None?)
  }

  /** Re-entering a config's fields after merging a patch into it gives the
      config back. */
  lemma MergeBack(c: SubjectConfig, patch: SubjectConfigPatch)
    requires KeepsUnset(c, patch)
    ensures MergeConfig(Some(MergeConfig(Some(c), patch)), PatchOf(c)) == c
  {
  }

  /** Moving an entry to a fresh key and back restores the map. */
  lemma RekeyBack<V>(m: map<string, V>, from: string, to: string, v: V)
    requires from != to && from in m && to !in m
    ensures Rekey(Rekey(m, from, to, v), to, from, m[from]) == m
  {
    var r := Rekey(Rekey(m, from, to, v), to, from, m[from]);
    assert forall k :: k in r <==> k in m;
  }

  /** Renaming to a name the list does not hold, and back, restores it. */
  lemma RenameListBack(subjects: seq<string>, from: string, to: string)
    requires to !in subjects
    ensures RenameInList(RenameInList(subjects, from, to), to, from) == subjects
  {
    var r := RenameInList(RenameInList(subjects, from, to), to, from);
    forall i | 0 <= i < |subjects| ensures r[i] == subjects[i] {
      assert subjects[i] in subjects;
    }
  }

  /** No assignment of any teacher is of the subject. */
  predicate NotTaught(teachers: seq<Teacher>, subject: string) {
    forall i, j :: 0 <= i < |teachers| && 0 <= j < |teachers[i].assignments| ==>
      teachers[i].assignments[j].subject != subject
  }

  /** Renaming assignments to a subject nobody teaches, and back, restores
      every teacher. */
  lemma RenameTeachersBack(teachers: seq<Teacher>, from: string, to: string)
    requires NotTaught(teachers, to)
    ensures RenameInTeachers(RenameInTeachers(teachers, from, to), to, from) == teachers
  {
    var r := RenameInTeachers(RenameInTeachers(teachers, from, to), to, from);
    forall i | 0 <= i < |teachers| ensures r[i] == teachers[i] {
      assert r[i].assignments == teachers[i].assignments;
    }
  }

  /** Renaming a subject to an unused name and renaming it back, re-entering
      its old style and config, restores the whole store. */
  lemma SubjectRenameRoundTrip(s: Store, subject: string, newName: string,
                               style: SubjectStyle, patch: SubjectConfigPatch)
    requires subject != newName
    requires subject in s.subjectStyles && subject in s.subjectConfigs
    requires newName !in s.subjectStyles && newName !in s.subjectConfigs
    requires newName !in s.subjects && NotTaught(s.teachers, newName)
    requires forall t :: t in s.timetable ==> t.subject != newName
    requires KeepsUnset(s.subjectConfigs[subject], patch)
    ensures UpdateSubjectDetails(UpdateSubjectDetails(s, subject, newName, style, patch),
                                 newName, subject, s.subjectStyles[subject],
                                 PatchOf(s.subjectConfigs[subject])) == s
  {
    var c := s.subjectConfigs[subject];
    var s1 := UpdateSubjectDetails(s, subject, newName, style, patch);
    var s2 := UpdateSubjectDetails(s1, newName, subject, s.subjectStyles[subject], PatchOf(c));
    RenameListBack(s.subjects, subject, newName);
    RenameTeachersBack(s.teachers, subject, newName);
    RenameRoundTrip(s.timetable, subject, newName);
    RekeyBack(s.subjectStyles, subject, newName, style);
    MergeBack(c, patch);
    assert ConfigOf(s1, newName) == Some(MergeConfig(Some(c), patch));
    RekeyBack(s.subjectConfigs, subject, newName, MergeConfig(Some(c), patch));
    hide UpdateSubjectDetails, RenameInList, RenameInTeachers, RenameInTimetable, Rekey, MergeConfig;
    assert s2.subjectConfigs == s.subjectConfigs;
  }

  /** Renaming a subject and renaming it back restores every lesson, as long
      as no lesson already had the new name. */
  lemma RenameRoundTrip(tt: seq<TimeSlot>, from: string, to: string)
    requires forall t :: t in tt ==> t.subject != to
    ensures RenameInTimetable(RenameInTimetable(tt, from, to), to, from) == tt
  {
    var r := RenameInTimetable(RenameInTimetable(tt, from, to), to, from);
    forall i | 0 <= i < |tt| ensures r[i] == tt[i] {
      assert tt[i] in tt;
    }
  }

  // ------------------------------------------------------------ class list

  function ClassesOfGrades(grades: seq<int>, classesPerGrade: map<int, int>): seq<string>
    requires forall g :: g in grades ==> g in classesPerGrade
  {
    if grades == [] then []
    else NumberedClasses(IntToString(grades[0]), classesPerGrade[grades[0]])
         + ClassesOfGrades(grades[1..], classesPerGrade)
  }

  /** `getClassList`: for every grade key in ascending order, its classes
      `g-1 .. g-count`. */
  function GetClassList(school: SchoolInfo): seq<string> {
    ClassesOfGrades(SortedElements(school.classesPerGrade.Keys), school.classesPerGrade)
  }

  lemma {:induction false} ClassesOfGradesMembership(grades: seq<int>, cpg: map<int, int>, x: string)
    requires forall g :: g in grades ==> g in cpg
    ensures x in ClassesOfGrades(grades, cpg)
        <==> exists g, c :: g in grades && 1 <= c <= cpg[g] && x == ClassIdOf(g, c)
  {
    hide IntToString, NumberedClasses;
    if grades != [] {
      ClassesOfGradesMembership(grades[1..], cpg, x);
      var g0 := grades[0];
      var head := NumberedClasses(IntToString(g0), cpg[g0]);
      if x in head {
        var i :| 0 <= i < |head| && head[i] == x;
        assert g0 in grades && 1 <= i + 1 <= cpg[g0] && x == ClassIdOf(g0, i + 1);
      }
      if exists g, c :: g in grades && 1 <= c <= cpg[g] && x == ClassIdOf(g, c) {
        var g, c :| g in grades && 1 <= c <= cpg[g] && x == ClassIdOf(g, c);
        if g == g0 {
          assert head[c - 1] == x;
        } else {
          assert g in grades[1..];
        }
      }
    }
  }

  /** The class list holds exactly the ids `g-c` for every grade `g` and
      every class number from 1 to that grade's class count. */
  lemma ClassListMembership(school: SchoolInfo, x: string)
    ensures x in GetClassList(school)
        <==> exists g, c :: g in school.classesPerGrade && 1 <= c <= school.classesPerGrade[g]
                            && x == ClassIdOf(g, c)
  {
    ClassesOfGradesMembership(SortedElements(school.classesPerGrade.Keys), school.classesPerGrade, x);
  }
}
