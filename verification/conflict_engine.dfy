/** `checkConflict`: validation of a candidate slot against a timetable.

    Three independent checks run in order and their findings are unioned:
    the teacher is already teaching in that cell (first such slot only), the
    class's population is already busy (every such slot, subject to the
    overlap policy), and the candidate's room is already at capacity (all
    occupants). The room registry and the subject configs, which the
    application reads from its store, are explicit parameters here. */
module ConflictEngine {
  import opened Basics
  import opened JsText
  import opened Types
  import opened ClassIds
  import opened OverlapPolicy

  const TeacherReason: string := "교사 중복 배정"
  const CrossSubjectReason: string := "학급 중복 배정 (타교과)"
  const CrossSubjectMore: string := ", 학급 중복(타교과)"
  const SameSubjectReason: string := "학급 중복 배정"
  const SameSubjectMore: string := ", 학급 중복"
  const RoomMore: string := ", 특별실 초과"

  function RoomReason(roomName: string): string {
    "특별실(" + roomName + ") 정원 초과"
  }

  /** `reason ? `${reason}${more}` : first`. */
  function AddReason(reason: string, more: string, first: string): (r: string)
    requires first != ""
    ensures r != ""
    ensures reason != "" ==> StartsWith(r, reason)
  {
    if reason != "" then reason + more else first
  }

  /** Findings collected so far: the reported slots and the reason text. */
  datatype Findings = Findings(slots: seq<TimeSlot>, reason: string)

  // ------------------------------------------------------------ the checks

  /** The teacher-check predicate of the `find` call. */
  function SameTeacherBusy(slot: TimeSlot): TimeSlot -> bool {
    (t: TimeSlot) => t.id != slot.id && t.teacherId == slot.teacherId && t.SameCell(slot)
  }

  /** Teacher check: at most the first other slot of the same teacher in
      the same cell. */
  function TeacherPart(slot: TimeSlot, tt: seq<TimeSlot>): (f: Findings)
    ensures |f.slots| <= 1
    ensures Truthy(slot.teacherId) && (exists t :: t in tt && SameTeacherBusy(slot)(t))
            ==> |f.slots| == 1 && f.reason == TeacherReason
    ensures f.slots == [] ==> f.reason == ""
    ensures forall t :: t in f.slots ==> t in tt && SameTeacherBusy(slot)(t)
  {
    if Truthy(slot.teacherId) then
      match Find(tt, SameTeacherBusy(slot))
      case Some(t) => Findings([t], TeacherReason)
      case None => Findings([], "")
    else Findings([], "")
  }

  /** The class-check filter of the source, case by case: same slot, other
      cell and sentinel ids never count; an equal id counts; otherwise the
      same non-zero grade counts when either side is a grade-wide class. */
  function ClassBusyFilter(slot: TimeSlot): TimeSlot -> bool {
    (t: TimeSlot) =>
      if t.id == slot.id then false
      else if t.day != slot.day || t.period != slot.period then false
      else if IsSentinel(t.classId) then false
      else if t.classId == slot.classId then true
      else
        var slotGrade := ExtractGrade(slot.classId);
        var tGrade := ExtractGrade(t.classId);
        if slotGrade != 0 && tGrade != 0 && slotGrade == tGrade then
          IsAggregate(slot.classId) || IsAggregate(t.classId)
        else false
  }

  /** Two class ids denote overlapping student populations: the same id, or
      the same non-zero grade with at least one side grade-wide. */
  predicate PopulationOverlap(a: string, b: string) {
    a == b
    || (ExtractGrade(a) != 0 && ExtractGrade(a) == ExtractGrade(b)
        && (IsAggregate(a) || IsAggregate(b)))
  }

  /** Whether a population collision between a candidate of `subject` in
      grade `grade` and a busy slot is reported: always for different
      subjects; for the same subject unless the policy allows overlap for the
      candidate's grade or for the busy slot's grade. */
  predicate CollisionReported(configs: map<string, SubjectConfig>, subject: string, grade: int,
                              busy: TimeSlot) {
    subject != busy.subject
    || (!OverlapAllowed(configs, subject, grade)
        && !OverlapAllowed(configs, busy.subject, ExtractGrade(busy.classId)))
  }

  function ReportedBy(configs: map<string, SubjectConfig>, subject: string, grade: int): TimeSlot -> bool {
    (b: TimeSlot) => CollisionReported(configs, subject, grade, b)
  }

  /** One turn of the loop over the busy list: a reported collision is
      appended and extends the reason with the cross-subject or
      same-subject wording. */
  function ClassStep(configs: map<string, SubjectConfig>, subject: string, grade: int,
                     b: TimeSlot, acc: Findings): (r: Findings)
    ensures r.slots == acc.slots + (if CollisionReported(configs, subject, grade, b) then [b] else [])
    ensures acc.reason != "" ==> r.reason != ""
    ensures CollisionReported(configs, subject, grade, b) ==> r.reason != ""
    ensures !CollisionReported(configs, subject, grade, b) ==> r == acc
  {
    if subject != b.subject then
      Findings(acc.slots + [b], AddReason(acc.reason, CrossSubjectMore, CrossSubjectReason))
    else if !OverlapAllowed(configs, subject, grade)
         && !OverlapAllowed(configs, b.subject, ExtractGrade(b.classId)) then
      Findings(acc.slots + [b], AddReason(acc.reason, SameSubjectMore, SameSubjectReason))
    else acc
  }

  /** The loop over the busy list of a candidate of `subject` in `grade`. */
  function ClassFold(configs: map<string, SubjectConfig>, subject: string, grade: int,
                     busy: seq<TimeSlot>, acc: Findings): (r: Findings)
    ensures r.slots == acc.slots + Filter(busy, ReportedBy(configs, subject, grade))
    decreases |busy|
  {
    if busy == [] then acc
    else
      var p := ReportedBy(configs, subject, grade);
      var next := ClassStep(configs, subject, grade, busy[0], acc);
      var head := if p(busy[0]) then [busy[0]] else [];
      var tail := Filter(busy[1..], p);
      assert (acc.slots + head) + tail == acc.slots + (head + tail);
      ClassFold(configs, subject, grade, busy[1..], next)
  }

  /** Once the class check has reported anything, the reason is non-empty. */
  lemma {:induction false} ClassFoldReason(configs: map<string, SubjectConfig>, subject: string,
                                           grade: int, busy: seq<TimeSlot>, acc: Findings)
    requires acc.reason != "" || acc.slots == []
    ensures var r := ClassFold(configs, subject, grade, busy, acc);
            (r.slots != [] ==> r.reason != "") && (acc.reason != "" ==> r.reason != "")
    decreases |busy|
  {
    if busy != [] {
      var next := ClassStep(configs, subject, grade, busy[0], acc);
      ClassFoldReason(configs, subject, grade, busy[1..], next);
    }
  }

  /** Class check over the whole timetable, skipped for an empty or
      sentinel candidate id. */
  function ClassPart(configs: map<string, SubjectConfig>, slot: TimeSlot,
                     tt: seq<TimeSlot>, acc: Findings): (r: Findings)
    ensures forall t :: t in r.slots ==> t in acc.slots || (t in tt && t.id != slot.id && t.SameCell(slot))
  {
    if slot.classId != "" && !IsSentinel(slot.classId) then
      ClassFold(configs, slot.subject, ExtractGrade(slot.classId), Filter(tt, ClassBusyFilter(slot)), acc)
    else acc
  }

  lemma ClassPartReason(configs: map<string, SubjectConfig>, slot: TimeSlot,
                        tt: seq<TimeSlot>, acc: Findings)
    requires acc.reason != "" || acc.slots == []
    ensures var r := ClassPart(configs, slot, tt, acc);
            (r.slots != [] ==> r.reason != "") && (acc.reason != "" ==> r.reason != "")
  {
    if slot.classId != "" && !IsSentinel(slot.classId) {
      ClassFoldReason(configs, slot.subject, ExtractGrade(slot.classId),
                      Filter(tt, ClassBusyFilter(slot)), acc);
    }
  }

  function RoomOccupantFilter(slot: TimeSlot): TimeSlot -> bool {
    (t: TimeSlot) => t.id != slot.id && t.roomId == slot.roomId && t.SameCell(slot)
  }

  /** The other slots in the candidate's room and cell. */
  function Occupants(slot: TimeSlot, tt: seq<TimeSlot>): (occ: seq<TimeSlot>)
    ensures forall t :: t in occ <==> t in tt && RoomOccupantFilter(slot)(t)
  {
    Filter(tt, RoomOccupantFilter(slot))
  }

  function RoomWithId(id: string): Room -> bool {
    (r: Room) => r.id == id
  }

  /** The room the candidate names, when its `roomId` is set and resolves. */
  function ResolvedRoom(slot: TimeSlot, rooms: seq<Room>): (r: Option<Room>)
    ensures r.Some? ==> Truthy(slot.roomId) && r.value in rooms && r.value.id == slot.roomId.value
    ensures Truthy(slot.roomId) && (exists x :: x in rooms && x.id == slot.roomId.value) ==> r.Some?
  {
    if Truthy(slot.roomId) then Find(rooms, RoomWithId(slot.roomId.value)) else None
  }

  /** Room check: when the room resolves and already holds at least its
      capacity in other slots, every occupant is reported. */
  function RoomPart(slot: TimeSlot, tt: seq<TimeSlot>, rooms: seq<Room>, acc: Findings): (r: Findings)
    ensures forall t :: t in r.slots ==> t in acc.slots || (t in tt && t.id != slot.id && t.SameCell(slot))
    ensures r.slots != acc.slots ==> r.reason != ""
  {
    match ResolvedRoom(slot, rooms)
    case None => acc
    case Some(room) =>
      var occ := Occupants(slot, tt);
      if |occ| >= room.capacity then
        Findings(acc.slots + occ, AddReason(acc.reason, RoomMore, RoomReason(room.name)))
      else acc
  }

  /** `checkConflict(slot, timetable)`. */
  function CheckConflict(slot: TimeSlot, tt: seq<TimeSlot>, rooms: seq<Room>,
                         configs: map<string, SubjectConfig>): (c: Conflict)
    ensures c.hasConflict <==> c.Slots() != []
    ensures forall t :: t in c.Slots() ==> t in tt && t.id != slot.id && t.SameCell(slot)
    ensures c.hasConflict ==> c.reason.Some? && c.reason.value != ""
    ensures !Truthy(slot.teacherId) && slot.classId == "" ==> c == Conflict(false, None, None)
  {
    if !Truthy(slot.teacherId) && slot.classId == "" then Conflict(false, None, None)
    else
      var f1 := TeacherPart(slot, tt);
      var f2 := ClassPart(configs, slot, tt, f1);
      ClassPartReason(configs, slot, tt, f1);
      var f3 := RoomPart(slot, tt, rooms, f2);
      Conflict(|f3.slots| > 0, Some(f3.reason), Some(f3.slots))
  }

  // ------------------------------------------ declarative characterisation

  /** The candidate is validated at all: it names a teacher or a class. */
  predicate Checked(slot: TimeSlot) {
    Truthy(slot.teacherId) || slot.classId != ""
  }

  /** `t` is the first slot of the timetable that double-books the
      candidate's teacher. */
  predicate FirstTeacherClash(slot: TimeSlot, tt: seq<TimeSlot>, t: TimeSlot) {
    Truthy(slot.teacherId)
    && exists i :: 0 <= i < |tt| && tt[i] == t && SameTeacherBusy(slot)(t)
                && forall j :: 0 <= j < i ==> !SameTeacherBusy(slot)(tt[j])
  }

  /** `t` is a reported population collision with the candidate. */
  predicate ClassClash(configs: map<string, SubjectConfig>, slot: TimeSlot, t: TimeSlot) {
    slot.classId != "" && !IsSentinel(slot.classId)
    && t.id != slot.id && t.SameCell(slot) && !IsSentinel(t.classId)
    && PopulationOverlap(slot.classId, t.classId)
    && CollisionReported(configs, slot.subject, ExtractGrade(slot.classId), t)
  }

  /** The candidate's room resolves and is already full without it. */
  predicate RoomFull(slot: TimeSlot, tt: seq<TimeSlot>, rooms: seq<Room>) {
    ResolvedRoom(slot, rooms).Some?
    && |Occupants(slot, tt)| >= ResolvedRoom(slot, rooms).value.capacity
  }

  /** The source's case-by-case filter is exactly "other slot, same cell,
      not a sentinel, overlapping population". */
  lemma ClassBusyFilterMeaning(slot: TimeSlot, t: TimeSlot)
    ensures ClassBusyFilter(slot)(t)
        <==> t.id != slot.id && t.SameCell(slot) && !IsSentinel(t.classId)
             && PopulationOverlap(slot.classId, t.classId)
  {
  }

  /** Population overlap does not depend on which slot is the candidate. */
  lemma PopulationOverlapSymmetric(a: string, b: string)
    ensures PopulationOverlap(a, b) <==> PopulationOverlap(b, a)
  {
  }

  lemma TeacherPartMeaning(slot: TimeSlot, tt: seq<TimeSlot>, t: TimeSlot)
    ensures t in TeacherPart(slot, tt).slots <==> FirstTeacherClash(slot, tt, t)
  {
    if Truthy(slot.teacherId) {
      var k := FindIndex(tt, SameTeacherBusy(slot));
      if FirstTeacherClash(slot, tt, t) {
        var i :| 0 <= i < |tt| && tt[i] == t && SameTeacherBusy(slot)(t)
                 && forall j :: 0 <= j < i ==> !SameTeacherBusy(slot)(tt[j]);
        assert k == Some(i);
      }
      if k.Some? {
        assert FirstTeacherClash(slot, tt, tt[k.value]);
      }
    }
  }

  lemma ClassPartMeaning(configs: map<string, SubjectConfig>, slot: TimeSlot,
                         tt: seq<TimeSlot>, acc: Findings, t: TimeSlot)
    ensures t in ClassPart(configs, slot, tt, acc).slots
        <==> t in acc.slots || (t in tt && ClassClash(configs, slot, t))
  {
    if slot.classId != "" && !IsSentinel(slot.classId) {
      ClassBusyFilterMeaning(slot, t);
    }
  }

  /** Exactly which slots `checkConflict` reports: the first slot
      double-booking the teacher, every reported population collision, and
      all occupants of a full room; nothing at all for a candidate naming
      neither a teacher nor a class. */
  lemma ReportedSlots(slot: TimeSlot, tt: seq<TimeSlot>, rooms: seq<Room>,
                      configs: map<string, SubjectConfig>, t: TimeSlot)
    ensures t in CheckConflict(slot, tt, rooms, configs).Slots()
        <==> Checked(slot)
             && (FirstTeacherClash(slot, tt, t)
                 || (t in tt && ClassClash(configs, slot, t))
                 || (RoomFull(slot, tt, rooms) && t in tt && RoomOccupantFilter(slot)(t)))
  {
    if Checked(slot) {
      var f1 := TeacherPart(slot, tt);
      TeacherPartMeaning(slot, tt, t);
      ClassPartMeaning(configs, slot, tt, f1, t);
    }
  }

  /** `hasConflict` holds exactly when one of the three checks fires. */
  lemma ConflictIff(slot: TimeSlot, tt: seq<TimeSlot>, rooms: seq<Room>,
                    configs: map<string, SubjectConfig>)
    ensures CheckConflict(slot, tt, rooms, configs).hasConflict
        <==> Checked(slot)
             && ((Truthy(slot.teacherId) && exists t :: t in tt && SameTeacherBusy(slot)(t))
                 || (exists t :: t in tt && ClassClash(configs, slot, t))
                 || (RoomFull(slot, tt, rooms) && Occupants(slot, tt) != []))
  {
    var c := CheckConflict(slot, tt, rooms, configs);
    if c.hasConflict {
      var t := c.Slots()[0];
      ReportedSlots(slot, tt, rooms, configs, t);
      if FirstTeacherClash(slot, tt, t) {
        assert t in tt && SameTeacherBusy(slot)(t);
      }
      if RoomFull(slot, tt, rooms) && t in tt && RoomOccupantFilter(slot)(t) {
        assert t in Occupants(slot, tt);
      }
    } else if Checked(slot) {
      forall t | t in tt
        ensures !ClassClash(configs, slot, t)
        ensures !(RoomFull(slot, tt, rooms) && RoomOccupantFilter(slot)(t))
      {
        ReportedSlots(slot, tt, rooms, configs, t);
      }
      assert Occupants(slot, tt) != [] ==> Occupants(slot, tt)[0] in Occupants(slot, tt);
    }
  }

  /** A busy population with a different subject is always reported. */
  lemma CrossSubjectAlwaysReported(slot: TimeSlot, tt: seq<TimeSlot>, rooms: seq<Room>,
                                   configs: map<string, SubjectConfig>, t: TimeSlot)
    requires slot.classId != "" && !IsSentinel(slot.classId)
    requires t in tt && t.id != slot.id && t.SameCell(slot) && !IsSentinel(t.classId)
    requires PopulationOverlap(slot.classId, t.classId)
    requires t.subject != slot.subject
    ensures t in CheckConflict(slot, tt, rooms, configs).Slots()
  {
    ReportedSlots(slot, tt, rooms, configs, t);
  }

  /** The class check suppresses a same-subject collision exactly when the
      policy allows overlap for the candidate's grade or the busy slot's
      grade. */
  lemma SameSubjectSuppressedIff(configs: map<string, SubjectConfig>, slot: TimeSlot, t: TimeSlot)
    requires slot.classId != "" && !IsSentinel(slot.classId)
    requires t.id != slot.id && t.SameCell(slot) && !IsSentinel(t.classId)
    requires PopulationOverlap(slot.classId, t.classId)
    requires t.subject == slot.subject
    ensures !ClassClash(configs, slot, t)
        <==> OverlapAllowed(configs, slot.subject, ExtractGrade(slot.classId))
             || OverlapAllowed(configs, t.subject, ExtractGrade(t.classId))
  {
  }

  /** Sentinel ids take no part in the class check on either side. */
  lemma SentinelsNeverCollide(configs: map<string, SubjectConfig>, slot: TimeSlot, t: TimeSlot)
    requires IsSentinel(slot.classId) || IsSentinel(t.classId)
    ensures !ClassClash(configs, slot, t)
  {
  }

  /** A `roomId` that names no room imposes nothing: the verdict is the
      one for the same slot without a room. */
  lemma UnresolvedRoomIgnored(slot: TimeSlot, tt: seq<TimeSlot>, rooms: seq<Room>,
                              configs: map<string, SubjectConfig>)
    requires forall r :: r in rooms ==> !(slot.roomId == Some(r.id))
    ensures CheckConflict(slot, tt, rooms, configs)
         == CheckConflict(slot.(roomId := None), tt, rooms, configs)
  {
    var s2 := slot.(roomId := None);
    assert ResolvedRoom(slot, rooms).None?;
    TeacherPartIgnoresRoom(slot, tt);
    assert ClassBusyFilter(slot) == ClassBusyFilter(s2);
  }

  lemma TeacherPartIgnoresRoom(slot: TimeSlot, tt: seq<TimeSlot>)
    ensures TeacherPart(slot, tt) == TeacherPart(slot.(roomId := None), tt)
  {
  }

  /** The room check fires exactly at the capacity boundary: with `n`
      other slots already in the room, a room of capacity `n` is full and
      one of capacity `n + 1` is not. */
  lemma RoomCapacityBoundary(slot: TimeSlot, tt: seq<TimeSlot>, rooms: seq<Room>)
    requires ResolvedRoom(slot, rooms).Some?
    ensures RoomFull(slot, tt, rooms)
        <==> ResolvedRoom(slot, rooms).value.capacity <= |Occupants(slot, tt)|
  {
  }

  /** Widening the overlap policy never adds a reported slot: a grant can
      only remove conflicts. */
  lemma GrantNeverAddsConflicts(slot: TimeSlot, tt: seq<TimeSlot>, rooms: seq<Room>,
                                configs: map<string, SubjectConfig>, subject: string,
                                grade: int, t: TimeSlot)
    requires t in CheckConflict(slot, tt, rooms, AddSubjectGradeOverlap(configs, subject, grade)).Slots()
    ensures t in CheckConflict(slot, tt, rooms, configs).Slots()
  {
    var granted := AddSubjectGradeOverlap(configs, subject, grade);
    ReportedSlots(slot, tt, rooms, granted, t);
    ReportedSlots(slot, tt, rooms, configs, t);
    GrantAllowsExactly(configs, subject, grade, slot.subject, ExtractGrade(slot.classId));
    GrantAllowsExactly(configs, subject, grade, t.subject, ExtractGrade(t.classId));
  }

  /** The grant that the teacher page requests for a level class silences
      a same-subject collision in that grade. */
  lemma GrantSuppressesCollision(configs: map<string, SubjectConfig>, slot: TimeSlot, t: TimeSlot)
    requires t.subject == slot.subject
    ensures !ClassClash(AddSubjectGradeOverlap(configs, slot.subject, ExtractGrade(slot.classId)), slot, t)
  {
    GrantAllowsExactly(configs, slot.subject, ExtractGrade(slot.classId),
                       slot.subject, ExtractGrade(slot.classId));
  }
}
