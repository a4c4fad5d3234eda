/** The editing logic of the master (all-teachers) grid: class labels, the
    grade row a target belongs to, swapping two lessons of a teacher, the
    blocks offered for an empty cell and placing one of them.

    The grid's state (the swap source, the active cell) and the store's
    contents are parameters; `Date.now()` in a new slot's id is the
    `stamp` parameter. */
module MasterSchedule {
  import opened Basics
  import opened JsText
  import opened Types
  import opened ClassIds
  import opened ConflictEngine
  import opened ScheduleStore
  import opened RequiredBlocks
  import opened BellSchedules

  // ------------------------------------------------------------ class labels

  /** `formatClassId` of the master grid: '-' for the unassigned sentinel, a
      non-empty custom label when there is one, `{prefix}학년 L{mark}` for a
      level class (no mark when the number does not read), the id itself
      otherwise. */
  function FormatClassId(classId: string, customLabels: map<string, string>): (r: string)
    ensures classId == Unassigned ==> r == "-"
    ensures classId != Unassigned && HasCustomLabel(customLabels, classId) ==> r == customLabels[classId]
    ensures (classId != Unassigned && !HasCustomLabel(customLabels, classId)
             && !Contains(classId, LevelMarker)) ==> r == classId
    ensures (classId != Unassigned && !HasCustomLabel(customLabels, classId)
             && Contains(classId, LevelMarker))
            ==> StartsWith(r, LevelLabel(SplitHead(classId, LevelMarker), ""))
  {
    if classId == Unassigned then "-"
    else if HasCustomLabel(customLabels, classId) then customLabels[classId]
    else if Contains(classId, LevelMarker) then
      var prefix := SplitHead(classId, LevelMarker);
      var suffix := SplitSecond(classId, LevelMarker);
      var n := if suffix.Some? then ParseInt(suffix.value) else None;
      if n.Some? then LevelLabel(prefix, LevelMark(n.value)) else LevelLabel(prefix, "")
    else classId
  }

  /** An unlabelled level class `{g}레벨{n}` is shown as `{g}학년 L` followed
      by the circled numeral of `n` (or `(n)` past 20). */
  lemma LevelClassLabel(g: nat, n: nat, customLabels: map<string, string>)
    requires !HasCustomLabel(customLabels, LevelClassId(g, n))
    ensures FormatClassId(LevelClassId(g, n), customLabels) == LevelLabel(NatToString(g), LevelMark(n))
  {
    LevelClassIdParts(g, n);
  }

  /** Labels of the same length prefix differ exactly when their marks do. */
  lemma LevelLabelCancel(prefix: string, m1: string, m2: string)
    requires LevelLabel(prefix, m1) == LevelLabel(prefix, m2)
    ensures m1 == m2
  {
    var k := |prefix + "학년 L"|;
    assert m1 == LevelLabel(prefix, m1)[k..];
    assert m2 == LevelLabel(prefix, m2)[k..];
  }

  /** Two unlabelled level classes of one grade row are never shown alike. */
  lemma LevelClassLabelsDistinct(g: nat, n1: nat, n2: nat, customLabels: map<string, string>)
    requires !HasCustomLabel(customLabels, LevelClassId(g, n1))
    requires !HasCustomLabel(customLabels, LevelClassId(g, n2))
    requires n1 != n2
    ensures FormatClassId(LevelClassId(g, n1), customLabels) != FormatClassId(LevelClassId(g, n2), customLabels)
  {
    LevelClassLabel(g, n1, customLabels);
    LevelClassLabel(g, n2, customLabels);
    if LevelLabel(NatToString(g), LevelMark(n1)) == LevelLabel(NatToString(g), LevelMark(n2)) {
      LevelLabelCancel(NatToString(g), LevelMark(n1), LevelMark(n2));
      LevelMarkInjective(n1, n2);
    }
  }

  // ------------------------------------------------------- row of a target

  /** The target names the grade row: it is the row id, or a class
      `{row}-…` or a level class `{row}레벨…` of it. */
  predicate InRow(target: string, rowId: string) {
    target == rowId || StartsWith(target, rowId + "-") || StartsWith(target, rowId + LevelMarker)
  }

  predicate LongestFirst(xs: seq<string>) {
    forall i, j :: 0 <= i < j < |xs| ==> |xs[i]| >= |xs[j]|
  }

  /** Inserts `x` in front of the first element no longer than it. */
  function InsertByLength(x: string, xs: seq<string>): (r: seq<string>)
    requires LongestFirst(xs)
    ensures LongestFirst(r)
    ensures multiset(r) == multiset(xs) + multiset{x}
  {
    if xs == [] || |x| >= |xs[0]| then [x] + xs
    else
      var rest := InsertByLength(x, xs[1..]);
      assert xs == [xs[0]] + xs[1..];
      PrependLongest(xs[0], rest, xs[1..], x);
      [xs[0]] + rest
  }

  /** A head at least as long as everything after it keeps a longest-first
      list longest-first. */
  lemma PrependLongest(h: string, rest: seq<string>, ys: seq<string>, x: string)
    requires LongestFirst(rest) && multiset(rest) == multiset(ys) + multiset{x}
    requires |x| <= |h| && forall k :: 0 <= k < |ys| ==> |ys[k]| <= |h|
    ensures LongestFirst([h] + rest)
  {
    forall k | 0 <= k < |rest| ensures |rest[k]| <= |h| {
      assert rest[k] in multiset(rest);
      if rest[k] != x {
        assert rest[k] in multiset(ys);
      }
    }
  }

  /** `[...grades].sort((a, b) => b.length - a.length)`: a stable sort,
      longest first. */
  function ByLengthDescending(xs: seq<string>): (r: seq<string>)
    ensures LongestFirst(r)
    ensures multiset(r) == multiset(xs)
  {
    if xs == [] then []
    else
      assert xs == [xs[0]] + xs[1..];
      InsertByLength(xs[0], ByLengthDescending(xs[1..]))
  }

  function InRowOf(target: string): string -> bool {
    (g: string) => InRow(target, g)
  }

  /** `getRowIdFromTarget`: '' for an empty target; otherwise the longest
      grade row the target names (the first listed among equally long
      ones), or failing that the target's leading digit run. */
  function GetRowIdFromTarget(target: string, grades: seq<string>): (r: string)
    ensures target == "" ==> r == ""
    ensures target != "" && (exists g :: g in grades && InRow(target, g)) ==>
              r in grades && InRow(target, r)
              && forall g :: g in grades && InRow(target, g) ==> |g| <= |r|
    ensures target != "" && (forall g :: g in grades ==> !InRow(target, g)) ==> r == DigitRun(target)
  {
    if target == "" then ""
    else
      var sorted := ByLengthDescending(grades);
      assert forall g :: g in grades <==> g in sorted by {
        forall g ensures g in grades <==> g in sorted {
          assert g in grades <==> g in multiset(grades);
        }
      }
      match FindIndex(sorted, InRowOf(target))
      case Some(i) =>
        FirstMatchIsLongest(sorted, target, i);
        sorted[i]
      case None => DigitRun(target)
  }

  /** In a longest-first list, the first row a target names is at least as
      long as every other row it names. */
  lemma FirstMatchIsLongest(sorted: seq<string>, target: string, i: nat)
    requires LongestFirst(sorted)
    requires FindIndex(sorted, InRowOf(target)) == Some(i)
    ensures forall g :: g in sorted && InRow(target, g) ==> |g| <= |sorted[i]|
  {
    forall g | g in sorted && InRow(target, g) ensures |g| <= |sorted[i]| {
      var j :| 0 <= j < |sorted| && sorted[j] == g;
      assert InRowOf(target)(sorted[j]);
    }
  }

  /** A class id `{row}-{n}` of a listed row leads back to that row when no
      longer row also names it. */
  lemma RowOfClassId(row: string, n: nat, grades: seq<string>)
    requires row != "" && row in grades
    requires forall g :: g in grades && g != row ==> !InRow(row + "-" + NatToString(n), g) || |g| < |row|
    ensures GetRowIdFromTarget(row + "-" + NatToString(n), grades) == row
  {
    var target := row + "-" + NatToString(n);
    assert StartsWith(target, row + "-") by {
      assert target[..|row + "-"|] == row + "-";
    }
  }

  // ----------------------------------------------------------------- lookups

  function HasSlotId(id: string): TimeSlot -> bool {
    (t: TimeSlot) => t.id == id
  }

  /** The slot of a teacher in a cell of the grid. */
  function InTeacherCell(teacherId: string, day: Day, period: Period): TimeSlot -> bool {
    (t: TimeSlot) => t.teacherId == Some(teacherId) && t.day == day && t.period == period
  }

  /** `timetable.find(t => t.teacherId === teacherId && t.day === day &&
      t.period === period)`. */
  function TeacherCellSlot(tt: seq<TimeSlot>, teacherId: string, day: Day, period: Period): (r: Option<TimeSlot>)
    ensures r.Some? ==> r.value in tt && InTeacherCell(teacherId, day, period)(r.value)
    ensures r.None? <==> forall t :: t in tt ==> !InTeacherCell(teacherId, day, period)(t)
  {
    Find(tt, InTeacherCell(teacherId, day, period))
  }

  /** No two slots share an id. */
  predicate UniqueIds(tt: seq<TimeSlot>) {
    forall i, j :: 0 <= i < |tt| && 0 <= j < |tt| && tt[i].id == tt[j].id ==> i == j
  }

  /** A teacher teaches at most one lesson per cell: the grid's invariant. */
  predicate OneLessonPerCell(tt: seq<TimeSlot>) {
    forall i, j :: 0 <= i < |tt| && 0 <= j < |tt| && Clash(tt[i], tt[j]) ==> i == j
  }

  /** Two lessons of the same teacher in the same cell. */
  predicate Clash(x: TimeSlot, y: TimeSlot) {
    x.teacherId.Some? && x.teacherId == y.teacherId && x.SameCell(y)
  }

  /** `find` returns the one element satisfying the predicate. */
  lemma FindOnly<T(!new)>(s: seq<T>, p: T -> bool, x: T)
    requires x in s && p(x)
    requires forall y :: y in s && p(y) ==> y == x
    ensures Find(s, p) == Some(x)
  {
  }

  // -------------------------------------------------------------------- swap

  /** The bell schedule the swap check reads for a grade: the first
      schedule, replaced by the first one targeting the grade when the
      schedules are distinct and the grade is positive. */
  function SwapSchedule(school: SchoolInfo, grade: int): (r: Option<BellSchedule>)
    ensures school.bellSchedules == [] ==> r.None?
    ensures r.Some? ==> r.value in school.bellSchedules
    ensures school.hasDistinctSchedules && grade > 0
            && (exists s :: s in school.bellSchedules && grade in s.targetGrades)
            ==> r.Some? && grade in r.value.targetGrades
    ensures school.hasDistinctSchedules && grade > 0
            && (exists s :: s in school.bellSchedules && grade in s.targetGrades)
            ==> exists i :: FirstTargeting(school.bellSchedules, grade, i) && r == Some(school.bellSchedules[i])
    ensures !(school.hasDistinctSchedules && grade > 0
              && (exists s :: s in school.bellSchedules && grade in s.targetGrades))
            ==> r == if school.bellSchedules == [] then None else Some(school.bellSchedules[0])
  {
    ScheduleForGrade(school, if grade > 0 then Some(grade) else None)
  }

  /** `schedule?.periods?.[period]?.type === 'ETC'`. */
  predicate EtcIn(s: Option<BellSchedule>, period: int) {
    s.Some? && period in s.value.periods && s.value.periods[period].IsEtc()
  }

  /** The source lesson moved to the target cell and teacher. */
  function SourceAtTarget(source: TimeSlot, teacherId: string, day: Day, period: Period): TimeSlot {
    source.(teacherId := Some(teacherId), day := day, period := period)
  }

  /** The target lesson moved to the source's cell, taught by the source's
      teacher. */
  function TargetAtSource(target: TimeSlot, source: TimeSlot): TimeSlot {
    target.(teacherId := source.teacherId, day := source.day, period := source.period)
  }

  function NotSwapped(source: TimeSlot, target: Option<TimeSlot>): TimeSlot -> bool {
    (t: TimeSlot) => t.id != source.id && (target.None? || t.id != target.value.id)
  }

  /** The timetable the moved copies are checked against: everything but
      the two lessons being exchanged. */
  function SwapBackground(tt: seq<TimeSlot>, source: TimeSlot, target: Option<TimeSlot>): (r: seq<TimeSlot>)
    ensures forall t :: t in r <==> t in tt && t.id != source.id && (target.None? || t.id != target.value.id)
  {
    Filter(tt, NotSwapped(source, target))
  }

  /** `checkSwapPossible`: whether the swap source (`sourceId`, taught by
      `sourceTeacherId`) may be exchanged with the cell (`day`, `period`)
      of `teacherId`. */
  function CheckSwapPossible(school: SchoolInfo, rooms: seq<Room>, configs: map<string, SubjectConfig>,
                             tt: seq<TimeSlot>, sourceId: Option<string>, sourceTeacherId: Option<string>,
                             teacherId: string, day: Day, period: Period): (ok: bool)
    ensures !Truthy(sourceId) || !Truthy(sourceTeacherId) ==> !ok
    ensures Truthy(sourceTeacherId) && teacherId != sourceTeacherId.value ==> !ok
    ensures Truthy(sourceId) && (forall t :: t in tt ==> t.id != sourceId.value) ==> !ok
    ensures ok <==>
              && Truthy(sourceId) && Truthy(sourceTeacherId) && teacherId == sourceTeacherId.value
              && Find(tt, HasSlotId(sourceId.value)).Some?
              && var source := Find(tt, HasSlotId(sourceId.value)).value;
                 var target := TeacherCellSlot(tt, teacherId, day, period);
                 var bg := SwapBackground(tt, source, target);
                 && source in tt && source.id == sourceId.value
                 && !(source.day == day && source.period == period)
                 && !EtcIn(SwapSchedule(school, ExtractGrade(source.classId)), period)
                 && !CheckConflict(SourceAtTarget(source, teacherId, day, period).(id := "temp-swap-1"),
                                   bg, rooms, configs).hasConflict
                 && (target.Some? ==>
                       !EtcIn(SwapSchedule(school, ExtractGrade(target.value.classId)), source.period)
                       && !CheckConflict(TargetAtSource(target.value, source).(id := "temp-swap-2"),
                                         bg, rooms, configs).hasConflict)
  {
    if !Truthy(sourceId) || !Truthy(sourceTeacherId) then false
    else if teacherId != sourceTeacherId.value then false
    else match Find(tt, HasSlotId(sourceId.value))
      case None => false
      case Some(source) =>
        if source.day == day && source.period == period then false
        else
          var target := TeacherCellSlot(tt, teacherId, day, period);
          var bg := SwapBackground(tt, source, target);
          if EtcIn(SwapSchedule(school, ExtractGrade(source.classId)), period) then false
          else if CheckConflict(SourceAtTarget(source, teacherId, day, period).(id := "temp-swap-1"),
                                bg, rooms, configs).hasConflict then false
          else match target
            case None => true
            case Some(t) =>
              if EtcIn(SwapSchedule(school, ExtractGrade(t.classId)), source.period) then false
              else !CheckConflict(TargetAtSource(t, source).(id := "temp-swap-2"), bg, rooms, configs).hasConflict
  }

  /** The two `updateTimeSlot` calls of a swap: the source lesson moves to
      the target cell, the target lesson (if any) to the source's cell, and
      every other lesson stays as it is. */
  function Exchange(tt: seq<TimeSlot>, source: TimeSlot, target: Option<TimeSlot>,
                    teacherId: string, day: Day, period: Period): (r: seq<TimeSlot>)
    ensures |r| == |tt|
    ensures forall i :: 0 <= i < |tt| ==> r[i].id == tt[i].id
    ensures forall i :: 0 <= i < |tt| && NotSwapped(source, target)(tt[i]) ==> r[i] == tt[i]
    ensures forall i :: 0 <= i < |tt| && tt[i].id == source.id && (target.None? || target.value.id != source.id)
              ==> r[i] == SourceAtTarget(source, teacherId, day, period)
    ensures forall i :: 0 <= i < |tt| && target.Some? && tt[i].id == target.value.id
              ==> r[i] == TargetAtSource(target.value, source)
  {
    var moved := UpdateTimeSlot(tt, SourceAtTarget(source, teacherId, day, period));
    match target
    case None => moved
    case Some(t) => UpdateTimeSlot(moved, TargetAtSource(t, source))
  }

  /** `handleSwapTargetClick`: without a swap source, or when the source
      lesson is gone, nothing changes. */
  function HandleSwapTargetClick(tt: seq<TimeSlot>, sourceId: Option<string>,
                                 teacherId: string, day: Day, period: Period): (r: seq<TimeSlot>)
    ensures !Truthy(sourceId) ==> r == tt
    ensures Truthy(sourceId) && (forall t :: t in tt ==> t.id != sourceId.value) ==> r == tt
    ensures Truthy(sourceId) && (exists t :: t in tt && t.id == sourceId.value) ==>
              var source := Find(tt, HasSlotId(sourceId.value)).value;
              r == Exchange(tt, source, TeacherCellSlot(tt, teacherId, day, period), teacherId, day, period)
  {
    if !Truthy(sourceId) then tt
    else match Find(tt, HasSlotId(sourceId.value))
      case None => tt
      case Some(source) =>
        Exchange(tt, source, TeacherCellSlot(tt, teacherId, day, period), teacherId, day, period)
  }

  /** With unique ids, looking a lesson up by its id finds that lesson. */
  lemma FindById(tt: seq<TimeSlot>, x: TimeSlot)
    requires UniqueIds(tt) && x in tt
    ensures Find(tt, HasSlotId(x.id)) == Some(x)
  {
    forall y | y in tt && HasSlotId(x.id)(y) ensures y == x {
      var i :| 0 <= i < |tt| && tt[i] == x;
      var j :| 0 <= j < |tt| && tt[j] == y;
    }
    FindOnly(tt, HasSlotId(x.id), x);
  }

  /** The facts a swap of lesson `s` of teacher `tid` into the cell
      (`day`, `period`) works with. */
  predicate SwapSetting(tt: seq<TimeSlot>, s: TimeSlot, tid: string, day: Day, period: Period) {
    UniqueIds(tt) && OneLessonPerCell(tt) && s in tt && s.id != ""
    && s.teacherId == Some(tid) && !(s.day == day && s.period == period)
  }

  /** The lesson found in the target cell is not the source itself. */
  lemma TargetIsNotSource(tt: seq<TimeSlot>, s: TimeSlot, tid: string, day: Day, period: Period)
    requires SwapSetting(tt, s, tid, day, period)
    ensures var target := TeacherCellSlot(tt, tid, day, period);
            target.Some? ==> target.value.id != s.id && target.value.teacherId == Some(tid)
                             && target.value.day == day && target.value.period == period
  {
    var target := TeacherCellSlot(tt, tid, day, period);
    if target.Some? {
      var a :| 0 <= a < |tt| && tt[a] == s;
      var b :| 0 <= b < |tt| && tt[b] == target.value;
      assert a != b;
    }
  }

  /** After the exchange, the source's old cell holds for the teacher
      exactly the moved target lesson, if there was one. */
  lemma CellAfterExchange(tt: seq<TimeSlot>, s: TimeSlot, tid: string, day: Day, period: Period)
    requires SwapSetting(tt, s, tid, day, period)
    ensures var target := TeacherCellSlot(tt, tid, day, period);
            var r := Exchange(tt, s, target, tid, day, period);
            TeacherCellSlot(r, tid, s.day, s.period)
              == if target.Some? then Some(TargetAtSource(target.value, s)) else None
  {
    hide Exchange, TeacherCellSlot, Find, UniqueIds, OneLessonPerCell;
    var target := TeacherCellSlot(tt, tid, day, period);
    TargetIsNotSource(tt, s, tid, day, period);
    var r := Exchange(tt, s, target, tid, day, period);
    var p := InTeacherCell(tid, s.day, s.period);
    var a :| 0 <= a < |tt| && tt[a] == s;
    forall i | 0 <= i < |r| ensures p(r[i]) ==> target.Some? && r[i] == TargetAtSource(target.value, s) {
      RowInOldCell(tt, s, target, tid, day, period, a, i);
    }
    if target.Some? {
      var b :| 0 <= b < |tt| && tt[b] == target.value;
      assert r[b] == TargetAtSource(target.value, s);
      FindOnly(r, p, TargetAtSource(target.value, s));
    }
  }

  /** One row of the exchanged timetable sits in the source's old cell of
      the teacher only if it is the moved target lesson. */
  lemma RowInOldCell(tt: seq<TimeSlot>, s: TimeSlot, target: Option<TimeSlot>,
                     tid: string, day: Day, period: Period, a: nat, i: nat)
    requires OneLessonPerCell(tt) && a < |tt| && tt[a] == s && i < |tt|
    requires s.teacherId == Some(tid) && !(s.day == day && s.period == period)
    requires target.Some? ==> target.value.id != s.id
    ensures var r := Exchange(tt, s, target, tid, day, period);
            InTeacherCell(tid, s.day, s.period)(r[i]) ==> target.Some? && r[i] == TargetAtSource(target.value, s)
  {
    var r := Exchange(tt, s, target, tid, day, period);
    if tt[i].id == s.id {
      assert r[i] == SourceAtTarget(s, tid, day, period);
    } else if target.None? || tt[i].id != target.value.id {
      assert r[i] == tt[i];
    }
  }

  /** The exchange keeps every id where it was. */
  lemma ExchangeKeepsIds(tt: seq<TimeSlot>, source: TimeSlot, target: Option<TimeSlot>,
                         tid: string, day: Day, period: Period)
    requires UniqueIds(tt)
    ensures UniqueIds(Exchange(tt, source, target, tid, day, period))
  {
    var r := Exchange(tt, source, target, tid, day, period);
    assert forall i :: 0 <= i < |r| ==> r[i].id == tt[i].id;
  }

  /** Swapping a lesson into a cell and then swapping it back from its old
      cell restores the timetable, as long as ids are unique and every
      teacher has at most one lesson per cell. */
  lemma SwapBackRestores(tt: seq<TimeSlot>, s: TimeSlot, tid: string, day: Day, period: Period)
    requires SwapSetting(tt, s, tid, day, period)
    ensures var r := HandleSwapTargetClick(tt, Some(s.id), tid, day, period);
            HandleSwapTargetClick(r, Some(s.id), tid, s.day, s.period) == tt
  {
    var target := TeacherCellSlot(tt, tid, day, period);
    var r := Exchange(tt, s, target, tid, day, period);
    var target2 := if target.Some? then Some(TargetAtSource(target.value, s)) else None;
    FirstSwap(tt, s, tid, day, period);
    SecondSwap(tt, s, tid, day, period);
    TargetIsNotSource(tt, s, tid, day, period);
    hide *;
    ExchangeBack(tt, r, s, target, target2, tid, day, period);
  }

  /** The first swap exchanges the source with the target cell's lesson. */
  lemma FirstSwap(tt: seq<TimeSlot>, s: TimeSlot, tid: string, day: Day, period: Period)
    requires SwapSetting(tt, s, tid, day, period)
    ensures HandleSwapTargetClick(tt, Some(s.id), tid, day, period)
            == Exchange(tt, s, TeacherCellSlot(tt, tid, day, period), tid, day, period)
    ensures UniqueIds(tt) && s in tt && s.teacherId == Some(tid)
    ensures var target := TeacherCellSlot(tt, tid, day, period);
            target.Some? ==> target.value in tt
  {
    FindById(tt, s);
  }

  /** Swapping back finds the moved source by its id and the moved target
      in the source's old cell. */
  lemma SecondSwap(tt: seq<TimeSlot>, s: TimeSlot, tid: string, day: Day, period: Period)
    requires SwapSetting(tt, s, tid, day, period)
    ensures var target := TeacherCellSlot(tt, tid, day, period);
            var r := Exchange(tt, s, target, tid, day, period);
            var target2 := if target.Some? then Some(TargetAtSource(target.value, s)) else None;
            HandleSwapTargetClick(r, Some(s.id), tid, s.day, s.period)
              == Exchange(r, SourceAtTarget(s, tid, day, period), target2, tid, s.day, s.period)
  {
    var target := TeacherCellSlot(tt, tid, day, period);
    var r := Exchange(tt, s, target, tid, day, period);
    var s1 := SourceAtTarget(s, tid, day, period);
    TargetIsNotSource(tt, s, tid, day, period);
    CellAfterExchange(tt, s, tid, day, period);
    ExchangeKeepsIds(tt, s, target, tid, day, period);
    var a :| 0 <= a < |tt| && tt[a] == s;
    assert r[a] == s1;
    FindById(r, s1);
  }

  lemma ExchangeBack(tt: seq<TimeSlot>, r: seq<TimeSlot>, s: TimeSlot, target: Option<TimeSlot>,
                     target2: Option<TimeSlot>, tid: string, day: Day, period: Period)
    requires UniqueIds(tt) && s in tt && (target.Some? ==> target.value in tt)
    requires s.teacherId == Some(tid)
    requires target.Some? ==> target.value.id != s.id && target.value.teacherId == Some(tid)
                              && target.value.day == day && target.value.period == period
    requires target2 == if target.Some? then Some(TargetAtSource(target.value, s)) else None
    requires r == Exchange(tt, s, target, tid, day, period)
    ensures Exchange(r, SourceAtTarget(s, tid, day, period), target2, tid, s.day, s.period) == tt
  {
    var s1 := SourceAtTarget(s, tid, day, period);
    var r2 := Exchange(r, s1, target2, tid, s.day, s.period);
    var a :| 0 <= a < |tt| && tt[a] == s;
    forall i | 0 <= i < |tt| ensures r2[i] == tt[i] {
      if target.Some? && tt[i].id == target.value.id {
        var b :| 0 <= b < |tt| && tt[b] == target.value;
        assert i == b;
        assert r[i] == TargetAtSource(target.value, s);
        assert r2[i] == TargetAtSource(target2.value, s1);
      } else if tt[i].id == s.id {
        assert i == a;
        assert r2[i] == SourceAtTarget(s1, tid, s.day, s.period);
      } else {
        assert r[i] == tt[i];
      }
    }
  }

  /** A swap keeps every teacher to one lesson per cell. */
  lemma SwapKeepsOneLessonPerCell(tt: seq<TimeSlot>, s: TimeSlot, tid: string, day: Day, period: Period)
    requires SwapSetting(tt, s, tid, day, period)
    ensures OneLessonPerCell(HandleSwapTargetClick(tt, Some(s.id), tid, day, period))
  {
    var target := TeacherCellSlot(tt, tid, day, period);
    FindById(tt, s);
    TargetIsNotSource(tt, s, tid, day, period);
    var r := Exchange(tt, s, target, tid, day, period);
    assert HandleSwapTargetClick(tt, Some(s.id), tid, day, period) == r;
    var a :| 0 <= a < |tt| && tt[a] == s;
    hide HandleSwapTargetClick, TeacherCellSlot, Find, Exchange, Clash, UniqueIds;
    forall i, j | 0 <= i < |r| && 0 <= j < |r| && Clash(r[i], r[j]) ensures i == j {
      ExchangedPair(tt, s, target, tid, day, period, a, i, j);
    }
  }

  /** Which of the exchange's three cases a row falls in. */
  datatype RowKind = SourceRow | TargetRow | Untouched

  function KindOf(tt: seq<TimeSlot>, s: TimeSlot, target: Option<TimeSlot>, i: nat): RowKind
    requires i < |tt|
  {
    if target.Some? && tt[i].id == target.value.id then TargetRow
    else if tt[i].id == s.id then SourceRow
    else Untouched
  }

  /** The facts about the looked-up rows a swap relies on. */
  predicate ExchangeSetting(tt: seq<TimeSlot>, s: TimeSlot, target: Option<TimeSlot>,
                            tid: string, day: Day, period: Period, a: nat) {
    UniqueIds(tt) && OneLessonPerCell(tt) && a < |tt| && tt[a] == s
    && s.teacherId == Some(tid) && !(s.day == day && s.period == period)
    && target == TeacherCellSlot(tt, tid, day, period)
    && (target.Some? ==> target.value.id != s.id)
  }

  /** One pair of rows of an exchanged timetable: when they clash they are
      the same row. */
  lemma ExchangedPair(tt: seq<TimeSlot>, s: TimeSlot, target: Option<TimeSlot>,
                      tid: string, day: Day, period: Period, a: nat, i: nat, j: nat)
    requires ExchangeSetting(tt, s, target, tid, day, period, a)
    requires i < |tt| && j < |tt|
    ensures var r := Exchange(tt, s, target, tid, day, period);
            Clash(r[i], r[j]) ==> i == j
  {
    var ki := KindOf(tt, s, target, i);
    var kj := KindOf(tt, s, target, j);
    if ki == kj {
      SameKindPair(tt, s, target, tid, day, period, a, i, j);
    } else if ki == Untouched {
      UntouchedPair(tt, s, target, tid, day, period, a, i, j);
    } else if kj == Untouched {
      UntouchedPair(tt, s, target, tid, day, period, a, j, i);
    } else {
      SourceTargetPair(tt, s, target, tid, day, period, a, i, j);
    }
  }

  lemma SameKindPair(tt: seq<TimeSlot>, s: TimeSlot, target: Option<TimeSlot>,
                     tid: string, day: Day, period: Period, a: nat, i: nat, j: nat)
    requires ExchangeSetting(tt, s, target, tid, day, period, a)
    requires i < |tt| && j < |tt| && KindOf(tt, s, target, i) == KindOf(tt, s, target, j)
    ensures var r := Exchange(tt, s, target, tid, day, period);
            Clash(r[i], r[j]) ==> i == j
  {
    var r := Exchange(tt, s, target, tid, day, period);
    if KindOf(tt, s, target, i) == Untouched {
      assert r[i] == tt[i] && r[j] == tt[j];
    } else {
      assert tt[i].id == tt[j].id;
    }
  }

  /** The source row and the target row end up in different cells. */
  lemma SourceTargetPair(tt: seq<TimeSlot>, s: TimeSlot, target: Option<TimeSlot>,
                         tid: string, day: Day, period: Period, a: nat, i: nat, j: nat)
    requires ExchangeSetting(tt, s, target, tid, day, period, a)
    requires i < |tt| && j < |tt| && KindOf(tt, s, target, i) != KindOf(tt, s, target, j)
    requires KindOf(tt, s, target, i) != Untouched && KindOf(tt, s, target, j) != Untouched
    ensures var r := Exchange(tt, s, target, tid, day, period);
            !Clash(r[i], r[j])
  {
  }

  /** An untouched row clashes with neither moved row: it would have
      clashed with the lesson that was in that cell before. */
  lemma UntouchedPair(tt: seq<TimeSlot>, s: TimeSlot, target: Option<TimeSlot>,
                      tid: string, day: Day, period: Period, a: nat, u: nat, m: nat)
    requires ExchangeSetting(tt, s, target, tid, day, period, a)
    requires u < |tt| && m < |tt| && KindOf(tt, s, target, u) == Untouched
    requires KindOf(tt, s, target, m) != Untouched
    ensures var r := Exchange(tt, s, target, tid, day, period);
            !Clash(r[u], r[m]) && !Clash(r[m], r[u])
  {
    var r := Exchange(tt, s, target, tid, day, period);
    assert r[u] == tt[u];
    if KindOf(tt, s, target, m) == SourceRow {
      if InTeacherCell(tid, day, period)(tt[u]) {
        CellLessonIsFound(tt, Cell(tid, day, period), tt[u]);
      }
    }
  }

  // -------------------------------------------------- blocks for a cell

  /** A block offered for a cell, with its conflict verdict. */
  datatype BlockChoice = BlockChoice(block: ClassBlock, conflict: Conflict)

  /** The lesson a block would become in the teacher's cell. */
  function PlacedBlock(id: string, teacherId: string, day: Day, period: Period, block: ClassBlock): TimeSlot {
    TimeSlot(id, day, period, block.classId, block.subject, Some(teacherId), block.roomId, None, None, None)
  }

  function NotInTeacherCell(teacherId: string, day: Day, period: Period): TimeSlot -> bool {
    (t: TimeSlot) => !InTeacherCell(teacherId, day, period)(t)
  }

  /** `conflict.hasConflict && conflict.conflictingSlots?.some(s =>
      s.teacherId === teacherId)`. */
  predicate TeacherBusy(c: Conflict, teacherId: string) {
    c.hasConflict && c.conflictingSlots.Some?
    && exists t :: t in c.conflictingSlots.value && t.teacherId == Some(teacherId)
  }

  function ChoiceFor(store: Store, teacherId: string, day: Day, period: Period): ClassBlock -> BlockChoice {
    (b: ClassBlock) =>
      var others := Filter(store.timetable, NotInTeacherCell(teacherId, day, period));
      BlockChoice(b, CheckConflict(PlacedBlock("temp-check", teacherId, day, period, b),
                                   others, store.rooms, store.subjectConfigs))
  }

  function NotTeacherBusy(teacherId: string): BlockChoice -> bool {
    (c: BlockChoice) => !TeacherBusy(c.conflict, teacherId)
  }

  /** `getFilteredBlocks`: the teacher's still-missing blocks, each checked
      in the cell against the timetable without the teacher's lesson
      there, keeping those whose conflicts do not involve the teacher. */
  function GetFilteredBlocks(store: Store, teacherId: string, day: Day, period: Period): (r: seq<BlockChoice>)
    ensures forall c :: c in r ==> !TeacherBusy(c.conflict, teacherId)
    ensures forall c :: c in r ==>
              c.block in GetUnassignedSpecialistBlocks(store.teachers, store.school, store.teacherConfig,
                                                       store.timetable, teacherId)
              && c == ChoiceFor(store, teacherId, day, period)(c.block)
  {
    var blocks := GetUnassignedSpecialistBlocks(store.teachers, store.school, store.teacherConfig,
                                                store.timetable, teacherId);
    var f := ChoiceFor(store, teacherId, day, period);
    ChoicesOfBlocks(blocks, f);
    Filter(Map(blocks, f), NotTeacherBusy(teacherId))
  }

  /** Each checked choice carries the block it was made for. */
  lemma ChoicesOfBlocks(blocks: seq<ClassBlock>, f: ClassBlock -> BlockChoice)
    requires forall b :: f(b).block == b
    ensures forall c :: c in Map(blocks, f) ==> c.block in blocks && c == f(c.block)
  {
    var choices := Map(blocks, f);
    forall c | c in choices ensures c.block in blocks && c == f(c.block) {
      var k :| 0 <= k < |choices| && choices[k] == c;
      assert c == f(blocks[k]);
    }
  }

  /** A block checked in a cell emptied of the teacher's lesson never
      conflicts with the teacher: every reported slot sits in that cell and
      is not the teacher's. */
  lemma ChoiceNeverTeacherBusy(store: Store, teacherId: string, day: Day, period: Period, b: ClassBlock)
    ensures !TeacherBusy(ChoiceFor(store, teacherId, day, period)(b).conflict, teacherId)
  {
    var slot := PlacedBlock("temp-check", teacherId, day, period, b);
    var others := Filter(store.timetable, NotInTeacherCell(teacherId, day, period));
    var c := CheckConflict(slot, others, store.rooms, store.subjectConfigs);
    assert ChoiceFor(store, teacherId, day, period)(b).conflict == c;
    forall t | t in c.Slots() ensures t.teacherId != Some(teacherId) {
      assert t in others && t.SameCell(slot);
      assert NotInTeacherCell(teacherId, day, period)(t);
      assert !InTeacherCell(teacherId, day, period)(t);
    }
    assert c.conflictingSlots.Some? ==> c.Slots() == c.conflictingSlots.value;
  }

  /** The filter of `getFilteredBlocks` never drops a block: every missing
      block of the teacher is offered, in order. */
  lemma FilteredBlocksKeepEvery(store: Store, teacherId: string, day: Day, period: Period)
    ensures var blocks := GetUnassignedSpecialistBlocks(store.teachers, store.school, store.teacherConfig,
                                                        store.timetable, teacherId);
            var r := GetFilteredBlocks(store, teacherId, day, period);
            |r| == |blocks| && forall i :: 0 <= i < |r| ==> r[i].block == blocks[i]
  {
    var blocks := GetUnassignedSpecialistBlocks(store.teachers, store.school, store.teacherConfig,
                                                store.timetable, teacherId);
    var f := ChoiceFor(store, teacherId, day, period);
    var choices := Map(blocks, f);
    assert GetFilteredBlocks(store, teacherId, day, period) == Filter(choices, NotTeacherBusy(teacherId));
    hide GetUnassignedSpecialistBlocks, GetFilteredBlocks, CheckConflict, Filter;
    forall k | 0 <= k < |choices| ensures NotTeacherBusy(teacherId)(choices[k]) {
      ChoiceNeverTeacherBusy(store, teacherId, day, period, blocks[k]);
    }
    FilterAll(choices, NotTeacherBusy(teacherId));
    forall i | 0 <= i < |choices| ensures choices[i].block == blocks[i] {
      assert choices[i] == f(blocks[i]);
    }
  }

  // ------------------------------------------------------- placing a block

  /** The cell the context menu was opened on. */
  datatype Cell = Cell(teacherId: string, day: Day, period: Period)

  /** `${teacherId}-${day}-${period}-${Date.now()}`. */
  function NewSlotId(cell: Cell, stamp: string): string {
    cell.teacherId + "-" + cell.day.Symbol() + "-" + IntToString(cell.period) + "-" + stamp
  }

  /** The timetable with the teacher's lesson in the cell (if any) removed. */
  function ClearedCell(tt: seq<TimeSlot>, cell: Cell): (r: seq<TimeSlot>)
    ensures var existing := TeacherCellSlot(tt, cell.teacherId, cell.day, cell.period);
            forall t :: t in r <==> t in tt && (existing.None? || t.id != existing.value.id)
  {
    var existing := TeacherCellSlot(tt, cell.teacherId, cell.day, cell.period);
    if existing.Some? then RemoveTimeSlot(tt, existing.value.id) else tt
  }

  /** `handleAssignBlock`: the teacher's lesson in the active cell (if any)
      is removed, then the block is added there as a new lesson. Without
      an active cell nothing changes. */
  function HandleAssignBlock(tt: seq<TimeSlot>, activeCell: Option<Cell>, block: ClassBlock, stamp: string)
    : (r: seq<TimeSlot>)
    ensures activeCell.None? ==> r == tt
    ensures activeCell.Some? ==>
              var cell := activeCell.value;
              var existing := TeacherCellSlot(tt, cell.teacherId, cell.day, cell.period);
              && |r| >= 1
              && r[|r| - 1] == PlacedBlock(NewSlotId(cell, stamp), cell.teacherId, cell.day, cell.period, block)
              && (forall t :: t in r[..|r| - 1] <==> t in tt && (existing.None? || t.id != existing.value.id))
  {
    match activeCell
    case None => tt
    case Some(cell) =>
      var kept := ClearedCell(tt, cell);
      var r := AddTimeSlot(kept, PlacedBlock(NewSlotId(cell, stamp), cell.teacherId, cell.day, cell.period, block));
      assert r[..|r| - 1] == kept;
      r
  }

  /** With one lesson per teacher and cell, a lesson in the cell is the one
      the lookup finds. */
  lemma CellLessonIsFound(tt: seq<TimeSlot>, cell: Cell, x: TimeSlot)
    requires OneLessonPerCell(tt) && x in tt && InTeacherCell(cell.teacherId, cell.day, cell.period)(x)
    ensures TeacherCellSlot(tt, cell.teacherId, cell.day, cell.period) == Some(x)
  {
    var p := InTeacherCell(cell.teacherId, cell.day, cell.period);
    forall y | y in tt && p(y) ensures y == x {
      var a :| 0 <= a < |tt| && tt[a] == x;
      var b :| 0 <= b < |tt| && tt[b] == y;
    }
    FindOnly(tt, p, x);
  }

  /** Emptying the cell leaves the teacher no lesson there. */
  lemma ClearedCellIsEmpty(tt: seq<TimeSlot>, cell: Cell)
    requires OneLessonPerCell(tt)
    ensures forall t :: t in ClearedCell(tt, cell) ==> !InTeacherCell(cell.teacherId, cell.day, cell.period)(t)
  {
    forall t | t in ClearedCell(tt, cell) && InTeacherCell(cell.teacherId, cell.day, cell.period)(t)
      ensures TeacherCellSlot(tt, cell.teacherId, cell.day, cell.period) == Some(t)
    {
      CellLessonIsFound(tt, cell, t);
    }
  }

  /** Keeping some lessons of a timetable keeps one lesson per cell. */
  lemma {:induction false} FilterKeepsOneLesson(tt: seq<TimeSlot>, p: TimeSlot -> bool)
    requires OneLessonPerCell(tt)
    ensures OneLessonPerCell(Filter(tt, p))
  {
    if tt != [] {
      var rest := Filter(tt[1..], p);
      assert OneLessonPerCell(tt[1..]) by {
        forall i, j | 0 <= i < |tt| - 1 && 0 <= j < |tt| - 1 && tt[1..][i].teacherId.Some?
                      && tt[1..][i].teacherId == tt[1..][j].teacherId && tt[1..][i].SameCell(tt[1..][j])
          ensures i == j
        {
          assert tt[1..][i] == tt[i + 1] && tt[1..][j] == tt[j + 1];
        }
      }
      FilterKeepsOneLesson(tt[1..], p);
      if p(tt[0]) {
        forall t | t in rest ensures !(t.teacherId.Some? && t.teacherId == tt[0].teacherId && t.SameCell(tt[0])) {
          var k :| 0 <= k < |tt[1..]| && tt[1..][k] == t;
          assert tt[k + 1] == t;
        }
        AppendFrontKeepsOneLesson(tt[0], rest);
      }
    }
  }

  lemma AppendFrontKeepsOneLesson(x: TimeSlot, rest: seq<TimeSlot>)
    requires OneLessonPerCell(rest)
    requires forall t :: t in rest ==> !(t.teacherId.Some? && t.teacherId == x.teacherId && t.SameCell(x))
    ensures OneLessonPerCell([x] + rest)
  {
    var r := [x] + rest;
    forall i, j | 0 <= i < |r| && 0 <= j < |r| && r[i].teacherId.Some?
                  && r[i].teacherId == r[j].teacherId && r[i].SameCell(r[j])
      ensures i == j
    {
      if i > 0 && j > 0 {
        assert r[i] == rest[i - 1] && r[j] == rest[j - 1];
      } else if i > 0 {
        assert r[i] in rest;
      }
    }
  }

  lemma AppendBackKeepsOneLesson(rest: seq<TimeSlot>, x: TimeSlot)
    requires OneLessonPerCell(rest)
    requires forall t :: t in rest ==> !(t.teacherId.Some? && t.teacherId == x.teacherId && t.SameCell(x))
    ensures OneLessonPerCell(rest + [x])
  {
    var r := rest + [x];
    var n := |rest|;
    forall i, j | 0 <= i < |r| && 0 <= j < |r| && r[i].teacherId.Some?
                  && r[i].teacherId == r[j].teacherId && r[i].SameCell(r[j])
      ensures i == j
    {
      if i < n && j < n {
        assert r[i] == rest[i] && r[j] == rest[j];
      } else if j < n {
        assert r[j] in rest;
      }
    }
  }

  /** Placing a block keeps a teacher to one lesson per cell, and the
      placed lesson is the teacher's only one in that cell. */
  lemma AssignKeepsOneLessonPerCell(tt: seq<TimeSlot>, cell: Cell, block: ClassBlock, stamp: string)
    requires OneLessonPerCell(tt)
    ensures var r := HandleAssignBlock(tt, Some(cell), block, stamp);
            OneLessonPerCell(r)
            && forall t :: t in r && InTeacherCell(cell.teacherId, cell.day, cell.period)(t)
                 ==> t == r[|r| - 1]
  {
    var kept := ClearedCell(tt, cell);
    var placed := PlacedBlock(NewSlotId(cell, stamp), cell.teacherId, cell.day, cell.period, block);
    assert HandleAssignBlock(tt, Some(cell), block, stamp) == kept + [placed];
    var existing := TeacherCellSlot(tt, cell.teacherId, cell.day, cell.period);
    if existing.Some? {
      FilterKeepsOneLesson(tt, IdIsNot(existing.value.id));
    }
    ClearedCellIsEmpty(tt, cell);
    AppendBackKeepsOneLesson(kept, placed);
  }
}
