/** The per-class timetable view: which lesson a class's cell shows (its
    own, or a grade-wide level/integrated lesson of its grade), the
    homeroom teacher's edits (placing a subject, placing a custom block,
    removing a lesson, clearing the class) and the lock that protects
    specialist and grade-wide lessons from them, and the grid handed to the
    decorator page.

    `Date.now()` in a new slot's id is the `stamp` parameter; the custom
    block dialog's pending cell, text and style are parameters. */
module ClassSchedule {
  import opened Basics
  import opened JsText
  import opened Types
  import opened ClassIds
  import opened ScheduleStore
  import opened BellSchedules
  import MasterSchedule

  // ------------------------------------------------------------ cell lookup

  /** A lesson of exactly this class in the cell. */
  function OwnLessonAt(classId: string, day: Day, period: int): TimeSlot -> bool {
    (t: TimeSlot) => t.classId == classId && t.day == day && t.period == period
  }

  /** A lesson in the cell whose id names grade `g` as integrated or level
      (`'{g}통합'` or `'{g}레벨'` occurs in it). */
  function GradeWideAt(g: int, day: Day, period: int): TimeSlot -> bool {
    (t: TimeSlot) => t.day == day && t.period == period
                     && (Contains(t.classId, IntToString(g) + IntegratedMarker)
                         || Contains(t.classId, IntToString(g) + LevelMarker))
  }

  /** `parseInt(classId.split('-')[0])`. */
  function GradeOfClass(classId: string): Option<int> {
    ParseInt(SplitHead(classId, "-"))
  }

  /** `getSlot`: the first lesson of the class itself in the cell; failing
      that, when the class id starts with a grade number, the first
      grade-wide lesson of that grade in the cell; nothing otherwise. */
  function GetSlot(tt: seq<TimeSlot>, classId: string, day: Day, period: int): (r: Option<TimeSlot>)
    ensures r.Some? ==> r.value in tt && r.value.day == day && r.value.period == period
    ensures Find(tt, OwnLessonAt(classId, day, period)).Some? ==>
              r == Find(tt, OwnLessonAt(classId, day, period)) && r.value.classId == classId
    ensures Find(tt, OwnLessonAt(classId, day, period)).None? ==>
              r == (if GradeOfClass(classId).None? then None
                    else Find(tt, GradeWideAt(GradeOfClass(classId).value, day, period)))
    ensures r.None? <==> (forall t :: t in tt ==> !OwnLessonAt(classId, day, period)(t))
                         && (GradeOfClass(classId).None?
                             || forall t :: t in tt ==> !GradeWideAt(GradeOfClass(classId).value, day, period)(t))
  {
    var direct := Find(tt, OwnLessonAt(classId, day, period));
    if direct.Some? then direct
    else
      var grade := GradeOfClass(classId);
      if grade.None? then None
      else Find(tt, GradeWideAt(grade.value, day, period))
  }

  /** The grade of a `g-c` class is `g`. */
  lemma GradeOfClassId(g: nat, c: nat)
    ensures GradeOfClass(ClassIdOf(g, c)) == Some(g)
  {
    SplitClassId(g, c);
    ParseIntOfNat(g, "");
    assert NatToString(g) + "" == NatToString(g);
  }

  /** A level lesson of grade `g` is a grade-wide lesson of that grade. */
  lemma LevelLessonIsGradeWide(g: nat, n: nat, t: TimeSlot)
    requires t.classId == LevelClassId(g, n)
    ensures GradeWideAt(g, t.day, t.period)(t)
  {
    var pre := NatToString(g) + LevelMarker;
    assert t.classId == pre + NatToString(n);
    assert OccursAt(t.classId, pre, 0) by {
      assert t.classId[0..|pre|] == pre;
    }
  }

  /** A class without a lesson of its own in a cell shows the grade's
      level lesson there: the cell is never blank while a grade-wide lesson
      of its grade sits in it. */
  lemma ClassShowsGradeLevelLesson(tt: seq<TimeSlot>, g: nat, c: nat, n: nat, s: TimeSlot)
    requires s in tt && s.classId == LevelClassId(g, n)
    requires forall t :: t in tt ==> !OwnLessonAt(ClassIdOf(g, c), s.day, s.period)(t)
    ensures var r := GetSlot(tt, ClassIdOf(g, c), s.day, s.period);
            r.Some? && GradeWideAt(g, s.day, s.period)(r.value)
  {
    GradeOfClassId(g, c);
    LevelLessonIsGradeWide(g, n, s);
  }

  // ------------------------------------------------------------------ locks

  /** A lesson the homeroom view may not replace or delete: one placed by a
      specialist teacher, or a grade-wide (integrated or level) lesson. */
  predicate IsLocked(slot: TimeSlot) {
    Truthy(slot.teacherId) || Contains(slot.classId, IntegratedMarker) || Contains(slot.classId, LevelMarker)
  }

  /** A cell's lesson that is not locked is the class's own lesson: a
      lesson found through the grade-wide fallback is always locked. */
  lemma UnlockedCellLessonIsOwn(tt: seq<TimeSlot>, classId: string, day: Day, period: int)
    requires GetSlot(tt, classId, day, period).Some? && !IsLocked(GetSlot(tt, classId, day, period).value)
    ensures GetSlot(tt, classId, day, period).value.classId == classId
  {
    var grade := GradeOfClass(classId);
    if Find(tt, OwnLessonAt(classId, day, period)).None? && grade.Some? {
      var t := GetSlot(tt, classId, day, period).value;
      assert GradeWideAt(grade.value, day, period)(t);
      if Contains(t.classId, IntToString(grade.value) + IntegratedMarker) {
        ContainsSuffix(t.classId, IntToString(grade.value), IntegratedMarker);
      } else {
        ContainsSuffix(t.classId, IntToString(grade.value), LevelMarker);
      }
    }
  }

  /** Text holding `a + b` holds `b`. */
  lemma ContainsSuffix(s: string, a: string, b: string)
    requires Contains(s, a + b)
    ensures Contains(s, b)
  {
    var i :| OccursAt(s, a + b, i);
    assert s[i + |a|..i + |a| + |b|] == (a + b)[|a|..];
    assert OccursAt(s, b, i + |a|);
  }

  // --------------------------------------------------------- homeroom edits

  /** What a homeroom edit does. */
  datatype EditOutcome =
    | Ignored
    | OpenCustomDialog(classId: string, day: Day, period: Period)
    | Locked
    | Edited(timetable: seq<TimeSlot>)

  /** `'__custom__'`: the menu entry that opens the custom block dialog. */
  const CustomChoice: string := "__custom__"

  /** The cell's lesson is removed (by id) unless there is none; a locked
      lesson stops the edit before this point. */
  function ClearCell(tt: seq<TimeSlot>, existing: Option<TimeSlot>): (r: seq<TimeSlot>)
    ensures existing.None? ==> r == tt
    ensures existing.Some? ==> forall t :: t in r <==> t in tt && t.id != existing.value.id
  {
    if existing.Some? then RemoveTimeSlot(tt, existing.value.id) else tt
  }

  /** The homeroom lesson placed for a subject: no teacher, no room. */
  function HomeroomSlot(classId: string, day: Day, period: Period, subject: string, stamp: string): TimeSlot {
    TimeSlot(classId + "-" + day.Symbol() + "-" + IntToString(period) + "-homeroom-" + stamp,
             day, period, classId, subject, None, None, None, None, None)
  }

  /** `handleHomeroomAssign`: an empty choice does nothing; the custom
      entry opens the dialog for the cell; a locked lesson in the cell is
      kept and the edit refused; otherwise the cell's lesson (if any) is
      removed and one homeroom lesson of the chosen subject is appended. */
  function HandleHomeroomAssign(tt: seq<TimeSlot>, classId: string, day: Day, period: Period, value: string,
                                stamp: string): (r: EditOutcome)
    ensures r.Ignored? <==> value == ""
    ensures r.OpenCustomDialog? <==> value == CustomChoice
    ensures r.OpenCustomDialog? ==> r.classId == classId && r.day == day && r.period == period
    ensures value != "" && value != CustomChoice ==>
              (r.Locked? <==> var e := GetSlot(tt, classId, day, period); e.Some? && IsLocked(e.value))
    ensures r.Edited? ==>
              var e := GetSlot(tt, classId, day, period);
              (e.Some? ==> !IsLocked(e.value) && e.value.classId == classId)
              && r.timetable == AddTimeSlot(ClearCell(tt, e), HomeroomSlot(classId, day, period, value, stamp))
  {
    if value == "" then Ignored
    else if value == CustomChoice then OpenCustomDialog(classId, day, period)
    else
      var existing := GetSlot(tt, classId, day, period);
      if existing.Some? && IsLocked(existing.value) then Locked
      else
        UnlockedOwnLesson(tt, classId, day, period);
        Edited(AddTimeSlot(ClearCell(tt, existing), HomeroomSlot(classId, day, period, value, stamp)))
  }

  lemma UnlockedOwnLesson(tt: seq<TimeSlot>, classId: string, day: Day, period: int)
    ensures var e := GetSlot(tt, classId, day, period);
            e.Some? && !IsLocked(e.value) ==> e.value.classId == classId
  {
    var e := GetSlot(tt, classId, day, period);
    if e.Some? && !IsLocked(e.value) {
      UnlockedCellLessonIsOwn(tt, classId, day, period);
    }
  }

  /** A homeroom edit never touches a locked lesson: with ids unique, every
      specialist or grade-wide lesson is still in the timetable after any
      homeroom edit. */
  lemma HomeroomKeepsLockedLessons(tt: seq<TimeSlot>, classId: string, day: Day, period: Period, value: string,
                                   stamp: string, t: TimeSlot)
    requires MasterSchedule.UniqueIds(tt) && t in tt && IsLocked(t)
    requires HandleHomeroomAssign(tt, classId, day, period, value, stamp).Edited?
    ensures t in HandleHomeroomAssign(tt, classId, day, period, value, stamp).timetable
  {
    var e := GetSlot(tt, classId, day, period);
    if e.Some? {
      SameIdSameSlot(tt, t, e.value);
    }
    assert t in ClearCell(tt, e);
  }

  /** In a timetable with unique ids, two of its slots with the same id are
      the same slot. */
  lemma SameIdSameSlot(tt: seq<TimeSlot>, x: TimeSlot, y: TimeSlot)
    requires MasterSchedule.UniqueIds(tt) && x in tt && y in tt
    ensures x.id == y.id ==> x == y
  {
    var i :| 0 <= i < |tt| && tt[i] == x;
    var j :| 0 <= j < |tt| && tt[j] == y;
  }

  /** After a homeroom edit the class shows the new lesson in that cell,
      as long as the class had no other lesson of its own there besides
      the one replaced. */
  lemma HomeroomLessonIsShown(tt: seq<TimeSlot>, classId: string, day: Day, period: Period, value: string,
                              stamp: string)
    requires HandleHomeroomAssign(tt, classId, day, period, value, stamp).Edited?
    requires forall t :: t in tt && OwnLessonAt(classId, day, period)(t) ==>
               GetSlot(tt, classId, day, period).Some? && t.id == GetSlot(tt, classId, day, period).value.id
    ensures GetSlot(HandleHomeroomAssign(tt, classId, day, period, value, stamp).timetable, classId, day, period)
         == Some(HomeroomSlot(classId, day, period, value, stamp))
  {
    var e := GetSlot(tt, classId, day, period);
    var cleared := ClearCell(tt, e);
    var s := HomeroomSlot(classId, day, period, value, stamp);
    var p := OwnLessonAt(classId, day, period);
    assert forall t :: t in cleared ==> !p(t);
    FindIndexAfterPrefix(cleared, [s], p);
    assert Find(cleared + [s], p) == Some(s);
  }

  /** The style of a custom block when none was picked. */
  const DefaultBlockStyle: SubjectStyle :=
    SubjectStyle("bg-gray-100", "text-gray-800", "border-gray-300", "border", "border-solid", "font-normal")

  /** The cell the custom block dialog was opened for. */
  datatype PendingCell = PendingCell(classId: string, day: Day, period: Period)

  /** The custom block placed in a cell: subject '기타', the typed text
      (or '기타'), the picked style (or the default). */
  function CustomBlockSlot(cell: PendingCell, text: string, style: Option<SubjectStyle>, stamp: string): TimeSlot {
    TimeSlot(cell.classId + "-" + cell.day.Symbol() + "-" + IntToString(cell.period) + "-custom-" + stamp,
             cell.day, cell.period, cell.classId, OtherActivity, None, None,
             Some(if text != "" then text else OtherActivity),
             Some(if style.Some? then style.value else DefaultBlockStyle), None)
  }

  /** `handleSaveCustomBlock`: without a pending cell nothing happens; a
      locked lesson in the cell refuses the block; otherwise the cell's
      lesson (if any) is removed and the custom block appended. */
  function HandleSaveCustomBlock(tt: seq<TimeSlot>, pending: Option<PendingCell>, text: string,
                                 style: Option<SubjectStyle>, stamp: string): (r: EditOutcome)
    ensures r.Ignored? <==> pending.None?
    ensures !r.OpenCustomDialog?
    ensures pending.Some? ==>
              var e := GetSlot(tt, pending.value.classId, pending.value.day, pending.value.period);
              (r.Locked? <==> e.Some? && IsLocked(e.value))
              && (r.Edited? ==>
                    r.timetable == AddTimeSlot(ClearCell(tt, e), CustomBlockSlot(pending.value, text, style, stamp)))
  {
    if pending.None? then Ignored
    else
      var cell := pending.value;
      var existing := GetSlot(tt, cell.classId, cell.day, cell.period);
      if existing.Some? && IsLocked(existing.value) then Locked
      else Edited(AddTimeSlot(ClearCell(tt, existing), CustomBlockSlot(cell, text, style, stamp)))
  }

  /** A custom block is an other-activity lesson without teacher or room
      whose text is never empty. */
  lemma CustomBlockShape(cell: PendingCell, text: string, style: Option<SubjectStyle>, stamp: string)
    ensures var s := CustomBlockSlot(cell, text, style, stamp);
            s.subject == OtherActivity && s.teacherId.None? && s.roomId.None?
            && Truthy(s.customText) && (text != "" ==> s.customText == Some(text))
            && s.customStyle.Some? && (style.None? ==> s.customStyle == Some(DefaultBlockStyle))
  {
  }

  /** `handleRemoveSlot`: a locked lesson stays; any other is removed with
      every slot sharing its id. */
  function RemoveFromClassView(tt: seq<TimeSlot>, slot: TimeSlot): (r: seq<TimeSlot>)
    ensures IsLocked(slot) ==> r == tt
    ensures !IsLocked(slot) ==> forall t :: t in r <==> t in tt && t.id != slot.id
  {
    if IsLocked(slot) then tt else RemoveTimeSlot(tt, slot.id)
  }

  // --------------------------------------------------------- clearing a class

  /** A lesson of the class that the homeroom teacher placed (no teacher). */
  function Clearable(classId: string): TimeSlot -> bool {
    (t: TimeSlot) => t.classId == classId && !Truthy(t.teacherId)
  }

  function SlotId(t: TimeSlot): string {
    t.id
  }

  /** `removeTimeSlot` of each id in turn. */
  function {:induction false} RemoveEach(tt: seq<TimeSlot>, ids: seq<string>): (r: seq<TimeSlot>)
    ensures forall t :: t in r <==> t in tt && t.id !in ids
    decreases |ids|
  {
    if ids == [] then tt
    else
      var rest := RemoveEach(RemoveTimeSlot(tt, ids[0]), ids[1..]);
      assert forall x :: x in ids <==> x == ids[0] || x in ids[1..];
      rest
  }

  /** `handleClearClassSchedule`: every lesson of the class without a
      teacher is removed by id, in timetable order. */
  function HandleClearClassSchedule(tt: seq<TimeSlot>, classId: string): (r: seq<TimeSlot>)
    ensures forall t :: t in r ==> t in tt
    ensures forall t :: (t in tt && !Clearable(classId)(t)
                         && forall s :: s in tt && Clearable(classId)(s) ==> s.id != t.id) ==> t in r
    ensures forall t :: t in r ==> !Clearable(classId)(t)
  {
    var ids := Map(Filter(tt, Clearable(classId)), SlotId);
    forall t | t in tt && Clearable(classId)(t) ensures t.id in ids {
      MapMember(Filter(tt, Clearable(classId)), SlotId, t);
    }
    forall t | t in tt && t.id in ids ensures exists s :: s in tt && Clearable(classId)(s) && s.id == t.id {
      var k :| 0 <= k < |ids| && ids[k] == t.id;
      var s := Filter(tt, Clearable(classId))[k];
      assert s in Filter(tt, Clearable(classId));
    }
    RemoveEach(tt, ids)
  }

  /** With unique ids, clearing a class removes exactly its lessons that
      have no teacher: the specialist lessons of the class and every lesson
      of other classes stay. */
  lemma ClearRemovesExactly(tt: seq<TimeSlot>, classId: string)
    requires MasterSchedule.UniqueIds(tt)
    ensures forall t :: t in HandleClearClassSchedule(tt, classId) <==> t in tt && !Clearable(classId)(t)
  {
    forall t | t in tt && !Clearable(classId)(t)
      ensures forall s :: s in tt && Clearable(classId)(s) ==> s.id != t.id
    {
      forall s | s in tt && Clearable(classId)(s) ensures s.id != t.id {
        SameIdSameSlot(tt, s, t);
      }
    }
  }

  /** Clearing a class twice is clearing it once. */
  lemma ClearIdempotent(tt: seq<TimeSlot>, classId: string)
    requires MasterSchedule.UniqueIds(tt)
    ensures forall t :: t in HandleClearClassSchedule(HandleClearClassSchedule(tt, classId), classId)
                        <==> t in HandleClearClassSchedule(tt, classId)
  {
    ClearRemovesExactly(tt, classId);
  }

  // ------------------------------------------------------- decorator export

  /** One exported period row: `{n}교시` with the period's name and time
      and one text per school day. */
  datatype GridRow = GridRow(key: string, name: string, time: string, days: seq<string>)

  /** What a cell exports: '-' when empty, the custom text (or '기타') of
      an other-activity lesson, the subject otherwise. */
  function CellText(slot: Option<TimeSlot>): string {
    if slot.None? then "-"
    else if slot.value.subject == OtherActivity then OrElse(slot.value.customText, OtherActivity)
    else slot.value.subject
  }

  /** A period row the export keeps: it exists in the class's schedule and
      is not a break. */
  predicate Exported(row: PeriodRow) {
    row.exists_ && row.kind != Etc
  }

  function IsExported(): PeriodRow -> bool {
    (row: PeriodRow) => Exported(row)
  }

  function DayText(tt: seq<TimeSlot>, classId: string, period: int): Day -> string {
    (d: Day) => CellText(GetSlot(tt, classId, d, period))
  }

  /** The exported row of one period: `{n}교시`, the period's name and
      time, and the cell text of each school day in order. */
  function GridRowFor(tt: seq<TimeSlot>, classId: string, row: PeriodRow): (g: GridRow)
    ensures g.key == PeriodKey(row.id) && g.name == row.name && g.time == row.time
    ensures |g.days| == 5
    ensures forall k :: 0 <= k < 5 ==> g.days[k] == CellText(GetSlot(tt, classId, Days[k], row.id))
  {
    GridRow(PeriodKey(row.id), row.name, row.time, Map(Days, DayText(tt, classId, row.id)))
  }

  /** `${row.id}교시`. */
  function PeriodKey(id: int): string {
    IntToString(id) + "교시"
  }

  /** Different periods get different keys. */
  lemma PeriodKeyInjective(a: int, b: int)
    ensures PeriodKey(a) == PeriodKey(b) ==> a == b
  {
    if PeriodKey(a) == PeriodKey(b) {
      SuffixCancel(IntToString(a), IntToString(b), "교시");
      IntToStringInjective(a, b);
    }
  }

  function GridRowOf(tt: seq<TimeSlot>, classId: string): PeriodRow -> GridRow {
    (row: PeriodRow) => GridRowFor(tt, classId, row)
  }

  /** The grid of `handleDecorateClick`: one row per existing non-break
      period of the class's schedule, in period order. */
  function DecoratorGrid(school: SchoolInfo, tt: seq<TimeSlot>, classId: string): (r: seq<GridRow>)
    ensures var kept := Filter(PeriodsForGrade(school, classId), IsExported());
            |r| == |kept|
            && forall i :: 0 <= i < |r| ==> Exported(kept[i]) && r[i] == GridRowFor(tt, classId, kept[i])
  {
    Map(Filter(PeriodsForGrade(school, classId), IsExported()), GridRowOf(tt, classId))
  }

  /** The exported grid covers each exported period once: its keys are
      distinct. */
  lemma DecoratorGridKeysDistinct(school: SchoolInfo, tt: seq<TimeSlot>, classId: string, i: nat, j: nat)
    requires i < j < |DecoratorGrid(school, tt, classId)|
    ensures DecoratorGrid(school, tt, classId)[i].key != DecoratorGrid(school, tt, classId)[j].key
  {
    var rows := PeriodsForGrade(school, classId);
    var kept := Filter(rows, IsExported());
    var r := DecoratorGrid(school, tt, classId);
    assert r[i].key == PeriodKey(kept[i].id) && r[j].key == PeriodKey(kept[j].id);
    PeriodRowsIncrease(school, classId);
    hide DecoratorGrid, PeriodsForGrade, GridRowFor, PeriodKey, Filter;
    FilterKeepsIncreasingIds(rows, IsExported());
    assert kept[i].id < kept[j].id;
    PeriodKeyInjective(kept[i].id, kept[j].id);
  }

  /** The period column lists its period numbers in increasing order. */
  lemma PeriodRowsIncrease(school: SchoolInfo, classId: string)
    ensures IdsIncrease(PeriodsForGrade(school, classId))
  {
    var rows := PeriodsForGrade(school, classId);
    var ids := PeriodRows(school.bellSchedules);
    forall a, b | 0 <= a < b < |rows| ensures rows[a].id < rows[b].id {
      assert rows[a].id == ids[a] && rows[b].id == ids[b];
    }
  }

  /** The rows' period ids increase strictly. */
  predicate IdsIncrease(rows: seq<PeriodRow>) {
    forall i, j :: 0 <= i < j < |rows| ==> rows[i].id < rows[j].id
  }

  /** Filtering rows with increasing ids keeps the ids increasing. */
  lemma {:induction false} FilterKeepsIncreasingIds(rows: seq<PeriodRow>, p: PeriodRow -> bool)
    requires IdsIncrease(rows)
    ensures IdsIncrease(Filter(rows, p))
    decreases |rows|
  {
    if rows != [] {
      var rest := Filter(rows[1..], p);
      FilterKeepsIncreasingIds(rows[1..], p);
      forall x | x in rest ensures rows[0].id < x.id {
        var k :| 0 <= k < |rows[1..]| && rows[1..][k] == x;
        assert rows[k + 1] == x;
      }
      if p(rows[0]) {
        PrependKeepsIncrease(rows[0], rest);
      }
    }
  }

  lemma PrependKeepsIncrease(x: PeriodRow, rest: seq<PeriodRow>)
    requires IdsIncrease(rest) && forall y :: y in rest ==> x.id < y.id
    ensures IdsIncrease([x] + rest)
  {
    var kept := [x] + rest;
    forall i, j | 0 <= i < j < |kept| ensures kept[i].id < kept[j].id {
      assert kept[j] == rest[j - 1];
      if i > 0 {
        assert kept[i] == rest[i - 1];
      } else {
        assert rest[j - 1] in rest;
      }
    }
  }
}
