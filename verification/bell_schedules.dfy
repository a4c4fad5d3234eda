/** Reading the bell schedules: the period rows shown in every grid (the
    union of all schedules' period numbers), the schedule a grade follows,
    break (ETC) blocking of a period, and the time of a period. */
module BellSchedules {
  import opened Basics
  import opened JsText
  import opened Types

  /** Every period number used by some schedule. */
  function PeriodKeySet(schedules: seq<BellSchedule>): (ks: set<int>)
    ensures forall p :: p in ks <==> exists i :: 0 <= i < |schedules| && p in schedules[i].periods
  {
    if schedules == [] then {}
    else
      var rest := PeriodKeySet(schedules[1..]);
      assert forall p :: p in rest <==> exists i :: 1 <= i < |schedules| && p in schedules[i].periods by {
        forall p | p in rest ensures exists i :: 1 <= i < |schedules| && p in schedules[i].periods {
          var i :| 0 <= i < |schedules[1..]| && p in schedules[1..][i].periods;
          assert p in schedules[i + 1].periods;
        }
      }
      schedules[0].periods.Keys + rest
  }

  /** The sorted union of period numbers across all schedules. */
  function PeriodRows(schedules: seq<BellSchedule>): (r: seq<int>)
    ensures Increasing(r)
    ensures forall p :: p in r <==> exists i :: 0 <= i < |schedules| && p in schedules[i].periods
  {
    SortedElements(PeriodKeySet(schedules))
  }

  const DefaultPeriods: seq<int> := [1, 2, 3, 4, 5, 6]

  /** `activePeriods` of the teacher timetable: the sorted union, or
      periods 1..6 when no schedule defines any period. */
  function ActivePeriods(schedules: seq<BellSchedule>): (r: seq<int>)
    ensures Increasing(r) && r != []
    ensures (forall i :: 0 <= i < |schedules| ==> schedules[i].periods == map[]) ==> r == DefaultPeriods
    ensures (exists i :: 0 <= i < |schedules| && schedules[i].periods != map[]) ==>
              forall p :: p in r <==> exists i :: 0 <= i < |schedules| && p in schedules[i].periods
  {
    var rows := PeriodRows(schedules);
    if rows == [] then
      DefaultPeriods
    else
      rows
  }

  /** The schedule a grade follows: with distinct schedules, the first one
      targeting the grade; otherwise (or when none targets it) the first
      schedule. A grade that could not be read (`None`) gets the fallback
      too; `None` comes back only when there are no schedules. */
  function ScheduleForGrade(school: SchoolInfo, grade: Option<int>): (r: Option<BellSchedule>)
    ensures school.bellSchedules == [] ==> r.None?
    ensures r.Some? ==> r.value in school.bellSchedules
    ensures school.hasDistinctSchedules && grade.Some?
            && (exists s :: s in school.bellSchedules && grade.value in s.targetGrades)
            ==> r.Some? && grade.value in r.value.targetGrades
    ensures school.hasDistinctSchedules && grade.Some?
            && (exists s :: s in school.bellSchedules && grade.value in s.targetGrades)
            ==> exists i :: FirstTargeting(school.bellSchedules, grade.value, i)
                            && r == Some(school.bellSchedules[i])
    ensures !(school.hasDistinctSchedules && grade.Some?
              && (exists s :: s in school.bellSchedules && grade.value in s.targetGrades))
            ==> r == if school.bellSchedules == [] then None else Some(school.bellSchedules[0])
  {
    var fallback := if school.bellSchedules == [] then None else Some(school.bellSchedules[0]);
    if school.hasDistinctSchedules && grade.Some? then
      match FindIndex(school.bellSchedules, Targets(grade.value))
      case Some(i) =>
        assert FirstTargeting(school.bellSchedules, grade.value, i);
        Some(school.bellSchedules[i])
      case None =>
        assert forall s :: s in school.bellSchedules ==> grade.value !in s.targetGrades;
        fallback
    else fallback
  }

  function Targets(grade: int): BellSchedule -> bool {
    (s: BellSchedule) => grade in s.targetGrades
  }

  /** Schedule `i` is the first one listing the grade. */
  predicate FirstTargeting(schedules: seq<BellSchedule>, grade: int, i: int) {
    && 0 <= i < |schedules|
    && grade in schedules[i].targetGrades
    && forall j :: 0 <= j < i ==> grade !in schedules[j].targetGrades
  }

  /** One row of a class's period column. */
  datatype PeriodRow = PeriodRow(
    id: int, name: string, time: string,
    nameA: string, timeA: string, nameB: string, timeB: string,
    kind: PeriodType, exists_: bool)

  /** `p?.name || (p ? `${n}교시` : '-')`. */
  function RowName(p: Option<PeriodInfo>, n: int): string {
    if p.Some? && Truthy(p.value.name) then p.value.name.value
    else if p.Some? then IntToString(n) + "교시"
    else "-"
  }

  /** `p ? `${start}~${end}` : ''`. */
  function RowTime(p: Option<PeriodInfo>): string {
    if p.Some? then p.value.start + "~" + p.value.end else ""
  }

  function PeriodOf(s: Option<BellSchedule>, n: int): Option<PeriodInfo> {
    if s.Some? && n in s.value.periods then Some(s.value.periods[n]) else None
  }

  function ScheduleAt(schedules: seq<BellSchedule>, i: nat): Option<BellSchedule> {
    if i < |schedules| then Some(schedules[i]) else None
  }

  /** The grade of a class id as the period column reads it:
      `parseInt(classId.split('-')[0])`. */
  function LeadingGrade(classId: string): Option<int> {
    ParseInt(SplitHead(classId, "-"))
  }

  /** One row of the period column: the name, time and type come from the
      schedule the class follows, an untyped period counting as a class
      period; the A and B columns come from schedules 0 and 1. */
  function MakeRow(school: SchoolInfo, chosen: Option<BellSchedule>, n: int): (r: PeriodRow)
    ensures r.id == n
    ensures r.exists_ <==> chosen.Some? && n in chosen.value.periods
    ensures chosen.Some? && n in chosen.value.periods ==>
              var p := chosen.value.periods[n];
              && r.name == (if Truthy(p.name) then p.name.value else IntToString(n) + "교시")
              && r.time == p.start + "~" + p.end
              && r.kind == (if p.kind.Some? then p.kind.value else Class)
    ensures !(chosen.Some? && n in chosen.value.periods) ==>
              r.name == "-" && r.time == "" && r.kind == Class
    ensures r.nameA == RowName(PeriodOf(ScheduleAt(school.bellSchedules, 0), n), n)
            && r.timeA == RowTime(PeriodOf(ScheduleAt(school.bellSchedules, 0), n))
    ensures school.hasDistinctSchedules ==>
              r.nameB == RowName(PeriodOf(ScheduleAt(school.bellSchedules, 1), n), n)
              && r.timeB == RowTime(PeriodOf(ScheduleAt(school.bellSchedules, 1), n))
    ensures !school.hasDistinctSchedules ==> r.nameB == "-" && r.timeB == ""
  {
    var cur := PeriodOf(chosen, n);
    var a := PeriodOf(ScheduleAt(school.bellSchedules, 0), n);
    var b := if school.hasDistinctSchedules then PeriodOf(ScheduleAt(school.bellSchedules, 1), n) else None;
    PeriodRow(n, RowName(cur, n), RowTime(cur), RowName(a, n), RowTime(a), RowName(b, n), RowTime(b),
              if cur.Some? && cur.value.kind.Some? then cur.value.kind.value else Class,
              cur.Some?)
  }

  /** `getPeriodsForGrade`: one row per period number of any schedule, in
      ascending order, read from the schedule the class's grade follows. */
  function PeriodsForGrade(school: SchoolInfo, classId: string): (rows: seq<PeriodRow>)
    ensures |rows| == |PeriodRows(school.bellSchedules)|
    ensures forall i :: 0 <= i < |rows| ==> rows[i].id == PeriodRows(school.bellSchedules)[i]
    ensures forall i :: 0 <= i < |rows| ==>
              ReadsFrom(rows[i], school, ScheduleForGrade(school, LeadingGrade(classId)))
  {
    RowsOf(school, ScheduleForGrade(school, LeadingGrade(classId)), PeriodRows(school.bellSchedules))
  }

  /** The rows of the given period numbers, read from `chosen`. */
  function RowsOf(school: SchoolInfo, chosen: Option<BellSchedule>, ids: seq<int>): (rows: seq<PeriodRow>)
    ensures |rows| == |ids|
    ensures forall i :: 0 <= i < |rows| ==> rows[i].id == ids[i]
    ensures forall i :: 0 <= i < |rows| ==> ReadsFrom(rows[i], school, chosen)
  {
    var rows := Map(ids, (n: int) => MakeRow(school, chosen, n));
    forall i | 0 <= i < |rows| ensures ReadsFrom(rows[i], school, chosen) {
      assert rows[i] == MakeRow(school, chosen, ids[i]);
      MakeRowReadsFrom(school, chosen, ids[i]);
    }
    rows
  }

  lemma MakeRowReadsFrom(school: SchoolInfo, chosen: Option<BellSchedule>, n: int)
    ensures ReadsFrom(MakeRow(school, chosen, n), school, chosen)
  {
  }

  /** A period marked ETC in the schedule. */
  predicate EtcIn(chosen: Option<BellSchedule>, n: int) {
    chosen.Some? && n in chosen.value.periods && chosen.value.periods[n].kind == Some(Etc)
  }

  /** The row is built from the schedule the class follows: it exists
      exactly when that schedule has the period, it is an ETC row exactly
      when that period is marked ETC, and all its texts are those of
      `MakeRow`. */
  predicate ReadsFrom(row: PeriodRow, school: SchoolInfo, chosen: Option<BellSchedule>) {
    && (row.exists_ <==> chosen.Some? && row.id in chosen.value.periods)
    && (row.kind == Etc <==> EtcIn(chosen, row.id))
    && row == MakeRow(school, chosen, row.id)
  }

  /** The row list covers each period number once, in ascending order. */
  lemma PeriodsForGradeOrdered(school: SchoolInfo, classId: string)
    ensures Increasing(Map(PeriodsForGrade(school, classId), (r: PeriodRow) => r.id))
  {
  }

  /** A period marked ETC in a schedule. */
  predicate IsEtcIn(s: BellSchedule, period: int) {
    period in s.periods && s.periods[period].IsEtc()
  }

  datatype EtcInfo = EtcInfo(name: string, isBlocked: bool)

  /** `getEtcInfo`: the break information of a period for the master grid. */
  function GetEtcInfo(school: SchoolInfo, period: int): (r: Option<EtcInfo>)
    ensures r.Some? ==> r.value.isBlocked && r.value.name != ""
  {
    var ss := school.bellSchedules;
    if ss == [] then None
    else if IsEtcIn(ss[0], period) then
      Some(EtcInfo(OrElse(ss[0].periods[period].name, "기타"), true))
    else if school.hasDistinctSchedules && |ss| > 1 && IsEtcIn(ss[1], period) then
      Some(EtcInfo(OrElse(ss[1].periods[period].name, "기타"), true))
    else None
  }

  /** A period is blocked in the master grid exactly when the first schedule
      marks it ETC, or the schedules are distinct and the second one does;
      without schedules nothing is blocked. */
  lemma EtcBlockedIff(school: SchoolInfo, period: int)
    ensures GetEtcInfo(school, period).Some? <==>
              (|school.bellSchedules| > 0 && IsEtcIn(school.bellSchedules[0], period))
              || (school.hasDistinctSchedules && |school.bellSchedules| > 1
                  && IsEtcIn(school.bellSchedules[1], period))
  {
  }

  /** `getBellTime`: the period of the indexed schedule, absent when the
      schedule or the period is. */
  function GetBellTime(schedules: seq<BellSchedule>, index: int, period: int): (r: Option<PeriodInfo>)
    ensures r.Some? <==> 0 <= index < |schedules| && period in schedules[index].periods
    ensures r.Some? ==> r.value == schedules[index].periods[period]
  {
    if 0 <= index < |schedules| && period in schedules[index].periods
    then Some(schedules[index].periods[period]) else None
  }
}
