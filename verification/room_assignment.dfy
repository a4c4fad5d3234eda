/** The special-room view: the class list offered for selection, how a class
    is labelled, placing one or more classes into a room cell (capacity
    first, then every class checked on its own against the timetable as it
    was before the batch), the forced placement after a confirmation, and
    which placed lessons may be deleted from here.

    The view's state (selected room, mode, selection, subject, direct
    inputs) is the `AssignRequest`; `Date.now()` in a new slot's id is the
    `stamp` parameter. */
module RoomAssignment {
  import opened Basics
  import opened JsText
  import opened Types
  import opened ClassIds
  import opened ConflictEngine
  import opened ScheduleStore
  import TeacherManagement

  // ------------------------------------------------------------ class list

  /** One row of selectable classes. */
  datatype ClassOption = ClassOption(gradeId: string, classes: seq<string>)

  /** `base + extra` for a row, without clamping at zero. */
  function RowTotal(gradeId: string, school: SchoolInfo, layout: TeacherLayoutConfig): int {
    TeacherManagement.BaseCount(gradeId, school) + GetOr(layout.extraClassCounts, gradeId, 0)
  }

  /** The option a row contributes: its numbered classes when the total is
      positive; a `custom-` row is given a second chance on its extra count
      alone, which is the same number (see `CustomRowFallbackIsEmpty`). */
  function RowOption(gradeId: string, school: SchoolInfo, layout: TeacherLayoutConfig): seq<ClassOption> {
    var total := RowTotal(gradeId, school, layout);
    if total > 0 then [ClassOption(gradeId, NumberedClasses(gradeId, total))]
    else if StartsWith(gradeId, CustomPrefix) then
      var count := GetOr(layout.extraClassCounts, gradeId, 0);
      if count > 0 then [ClassOption(gradeId, NumberedClasses(gradeId, count))] else []
    else []
  }

  /** `classOptions`: one option per row of the teacher page that has
      classes, in row order, listing the same classes the teacher page
      shows for the row. */
  function ClassOptions(school: SchoolInfo, layout: TeacherLayoutConfig): (r: seq<ClassOption>)
    ensures forall o :: o in r ==> o.gradeId in layout.grades && o.classes != []
    ensures forall o :: o in r ==> o.classes == TeacherManagement.RowClasses(o.gradeId, school, layout)
    ensures forall g :: g in layout.grades && RowTotal(g, school, layout) > 0 ==>
              exists o :: o in r && o.gradeId == g
    ensures forall o :: o in r ==> RowTotal(o.gradeId, school, layout) > 0
                                   && |o.classes| == RowTotal(o.gradeId, school, layout)
    ensures forall o, i :: o in r && 0 <= i < |o.classes| ==>
              o.classes[i] == o.gradeId + "-" + IntToString(i + 1)
    decreases |layout.grades|
  {
    var r := OptionsOf(layout.grades, school, layout);
    forall o | o in r
      ensures RowTotal(o.gradeId, school, layout) > 0 && |o.classes| == RowTotal(o.gradeId, school, layout)
    {
      assert |TeacherManagement.RowClasses(o.gradeId, school, layout)| > 0;
    }
    r
  }

  function OptionsOf(rows: seq<string>, school: SchoolInfo, layout: TeacherLayoutConfig): (r: seq<ClassOption>)
    ensures forall o :: o in r ==> o.gradeId in rows && o.classes != []
    ensures forall o :: o in r ==> o.classes == TeacherManagement.RowClasses(o.gradeId, school, layout)
    ensures forall g :: g in rows && RowTotal(g, school, layout) > 0 ==>
              exists o :: o in r && o.gradeId == g
    decreases |rows|
  {
    if rows == [] then []
    else
      CustomRowFallbackIsEmpty(rows[0], school, layout);
      hide RowOption, TeacherManagement.RowClasses, RowTotal;
      var head := RowOption(rows[0], school, layout);
      var rest := OptionsOf(rows[1..], school, layout);
      assert forall g :: g in rows && g != rows[0] ==> g in rows[1..];
      head + rest
  }

  /** A `custom-` row's fallback never adds anything: its base count is 0,
      so its extra count is the total that was already not positive. A row
      contributes exactly its clamped class list, or nothing when that is
      empty. */
  lemma CustomRowFallbackIsEmpty(gradeId: string, school: SchoolInfo, layout: TeacherLayoutConfig)
    ensures RowTotal(gradeId, school, layout) > 0 ==>
              RowOption(gradeId, school, layout)
                == [ClassOption(gradeId, TeacherManagement.RowClasses(gradeId, school, layout))]
    ensures RowTotal(gradeId, school, layout) <= 0 ==> RowOption(gradeId, school, layout) == []
    ensures RowTotal(gradeId, school, layout) > 0 ==> TeacherManagement.RowClasses(gradeId, school, layout) != []
  {
    if StartsWith(gradeId, CustomPrefix) {
      CustomRowIsNotNumber(gradeId);
    }
  }

  /** `parseInt` of a `custom-` id is NaN: it starts with a letter. */
  lemma CustomRowIsNotNumber(gradeId: string)
    requires StartsWith(gradeId, CustomPrefix)
    ensures ParseInt(gradeId).None?
  {
    assert gradeId[0] == 'c';
    TrimStartNoSpace(gradeId);
  }

  // ----------------------------------------------------------- class label

  /** `formatClass`: the sentinels as they are, a non-empty custom label of
      the class, `{row label}-{n}` for a `row-n` class whose row has a
      non-empty label, the id itself otherwise. */
  function FormatClass(classId: string, labels: map<string, string>): (r: string)
    ensures IsSentinel(classId) ==> r == classId
    ensures !IsSentinel(classId) && HasCustomLabel(labels, classId) ==> r == labels[classId]
    ensures !IsSentinel(classId) && !HasCustomLabel(labels, classId) && !Contains(classId, "-") ==> r == classId
  {
    if IsSentinel(classId) then classId
    else if HasCustomLabel(labels, classId) then labels[classId]
    else if Contains(classId, "-") then
      var parts := Split(classId, "-");
      if |parts| == 2 && NumberOf(parts[1]).Some? && HasCustomLabel(labels, parts[0])
      then labels[parts[0]] + "-" + parts[1]
      else classId
    else classId
  }

  function FormatWith(labels: map<string, string>): string -> string {
    (c: string) => FormatClass(c, labels)
  }

  /** Class `c` of grade `g` is shown under its grade row's label. */
  lemma FormatClassOfLabelledGrade(g: nat, c: nat, labels: map<string, string>)
    requires HasCustomLabel(labels, NatToString(g)) && !HasCustomLabel(labels, ClassIdOf(g, c))
    ensures FormatClass(ClassIdOf(g, c), labels) == labels[NatToString(g)] + "-" + NatToString(c)
  {
    ClassIdReadsBack(g, c);
    hide NatToString, Split, NumberOf, Contains, ClassIdOf, IsSentinel;
  }

  /** What `formatClass` reads off a `g-c` id: it is no sentinel, it
      holds a dash, it splits into the two numerals and the second is a
      number. */
  lemma ClassIdReadsBack(g: nat, c: nat)
    ensures !IsSentinel(ClassIdOf(g, c)) && Contains(ClassIdOf(g, c), "-")
    ensures Split(ClassIdOf(g, c), "-") == [NatToString(g), NatToString(c)]
    ensures NumberOf(NatToString(c)).Some?
  {
    SplitClassId(g, c);
    NumberOfDigits(NatToString(c));
    ClassIdHasDash(g, c);
  }

  lemma ClassIdHasDash(g: nat, c: nat)
    ensures !IsSentinel(ClassIdOf(g, c)) && Contains(ClassIdOf(g, c), "-")
  {
    var id := ClassIdOf(g, c);
    var n := |NatToString(g)|;
    assert id == NatToString(g) + "-" + NatToString(c);
    hide NatToString;
    assert OccursAt(id, "-", n) by {
      assert id[n..n + 1] == "-";
    }
    assert id[0] == NatToString(g)[0];
  }

  // --------------------------------------------------------------- placing

  /** `getCellSlots`: the lessons already in the room at that day and period. */
  function InRoomCell(roomId: string, day: Day, period: Period): TimeSlot -> bool {
    (t: TimeSlot) => t.roomId == Some(roomId) && t.day == day && t.period == period
  }

  function CellSlots(tt: seq<TimeSlot>, roomId: string, day: Day, period: Period): (r: seq<TimeSlot>)
    ensures forall t :: t in r <==> t in tt && t.roomId == Some(roomId) && t.day == day && t.period == period
  {
    Filter(tt, InRoomCell(roomId, day, period))
  }

  datatype AssignMode = Single | Grade | Multi | Direct

  /** The view's inputs when a cell is clicked. */
  datatype AssignRequest = AssignRequest(
    roomId: string, mode: AssignMode, selected: seq<string>, subject: string,
    directTarget: string, directSubject: string)
  {
    /** The classes to place: the typed target in direct mode, the
        selection otherwise. */
    function Targets(): seq<string> {
      if mode == Direct then [directTarget] else selected
    }

    /** The subject the placement is checked with. */
    function CheckedSubject(): string {
      if mode == Direct then directSubject else subject
    }
  }

  /** What the view does after a cell click. */
  datatype AssignOutcome =
    | NoRoom
    | MissingInput
    | NoTargets
    | NeedsForce(day: Day, period: Period, targets: seq<string>, reasons: seq<string>,
                 customSubject: Option<string>)
    | Added(timetable: seq<TimeSlot>)

  /** Everything a pre-check needs: the timetable before the batch, the
      rooms and overlap configs, the cell, the subject and the room. */
  datatype CheckContext = CheckContext(
    tt: seq<TimeSlot>, rooms: seq<Room>, configs: map<string, SubjectConfig>,
    day: Day, period: Period, subject: string, roomId: string)

  /** The candidate `{ id: 'check', … }` built for one target. */
  function ProbeSlot(ctx: CheckContext, target: string): TimeSlot {
    TimeSlot("check", ctx.day, ctx.period, target, ctx.subject, None, Some(ctx.roomId), None, None, None)
  }

  function ProbeConflict(ctx: CheckContext, target: string): Conflict {
    CheckConflict(ProbeSlot(ctx, target), ctx.tt, ctx.rooms, ctx.configs)
  }

  function Conflicting(ctx: CheckContext): string -> bool {
    (t: string) => ProbeConflict(ctx, t).hasConflict
  }

  /** `${conflict.reason}`. */
  function ReasonText(c: Conflict): string {
    if c.reason.Some? then c.reason.value else "undefined"
  }

  function ReasonLine(ctx: CheckContext, show: string -> string): string -> string {
    (t: string) => show(t) + ": " + ReasonText(ProbeConflict(ctx, t))
  }

  /** One reason per conflicting target, in target order; none exactly when
      every target passes its own check. */
  function ConflictReasons(ctx: CheckContext, targets: seq<string>, show: string -> string)
    : (r: seq<string>)
    ensures r == [] <==> forall t :: t in targets ==> !ProbeConflict(ctx, t).hasConflict
  {
    hide CheckConflict, ReasonLine;
    var bad := Filter(targets, Conflicting(ctx));
    Map(bad, ReasonLine(ctx, show))
  }

  /** `정원 초과 (…)`: present when the room resolves and its occupants
      plus the new classes exceed its capacity. */
  function CapacityReasons(room: Option<Room>, occupants: nat, added: nat): (r: seq<string>)
    ensures r != [] <==> room.Some? && occupants + added > room.value.capacity
  {
    if room.Some? && occupants + added > room.value.capacity then
      ["정원 초과 (" + IntToString(occupants) + "반 + " + IntToString(added) + "반 > "
       + IntToString(room.value.capacity) + "반)"]
    else []
  }

  function RoomOf(rooms: seq<Room>, roomId: string): Option<Room> {
    Find(rooms, RoomWithId(roomId))
  }

  /** The room resolves and the batch would take it past its capacity. */
  predicate OverCapacity(tt: seq<TimeSlot>, rooms: seq<Room>, req: AssignRequest, day: Day, period: Period) {
    var room := RoomOf(rooms, req.roomId);
    room.Some? && |CellSlots(tt, req.roomId, day, period)| + |req.Targets()| > room.value.capacity
  }

  function ContextOf(tt: seq<TimeSlot>, rooms: seq<Room>, configs: map<string, SubjectConfig>,
                     req: AssignRequest, day: Day, period: Period): CheckContext {
    CheckContext(tt, rooms, configs, day, period, req.CheckedSubject(), req.roomId)
  }

  /** The inputs name a room and something to place. */
  predicate Complete(req: AssignRequest) {
    req.roomId != ""
    && (req.mode == Direct ==> Trim(req.directTarget) != "" && Trim(req.directSubject) != "")
    && (req.mode != Direct ==> req.selected != [])
  }

  /** `customSub || selectedSubject`. */
  function SubjectToUse(customSubject: Option<string>, selectedSubject: string): string {
    if Truthy(customSubject) then customSubject.value else selectedSubject
  }

  /** The slot `executeBatchAssign` adds for one target: the room and
      subject of the batch, no teacher. */
  function BatchSlot(subject: string, roomId: string, day: Day, period: Period, stamp: string)
    : string -> TimeSlot
  {
    (target: string) =>
      TimeSlot(target + BatchIdSuffix(subject, roomId, day, period, stamp), day, period, target, subject,
               None, Some(roomId), None, None, None)
  }

  /** `-${subject}-${room}-${day}-${period}-${stamp}`. */
  function BatchIdSuffix(subject: string, roomId: string, day: Day, period: Period, stamp: string): string {
    "-" + subject + "-" + roomId + "-" + day.Symbol() + "-" + IntToString(period) + "-" + stamp
  }

  /** `executeBatchAssign`: one added slot per target, in target order,
      after the existing lessons, which stay as they were. */
  function ExecuteBatchAssign(tt: seq<TimeSlot>, targets: seq<string>, subject: string, roomId: string,
                              day: Day, period: Period, stamp: string): (r: seq<TimeSlot>)
    ensures |r| == |tt| + |targets| && r[..|tt|] == tt
    ensures forall i :: 0 <= i < |targets| ==>
              var s := r[|tt| + i];
              s.classId == targets[i] && s.subject == subject && s.roomId == Some(roomId)
              && s.teacherId.None? && s.day == day && s.period == period
  {
    var added := Map(targets, BatchSlot(subject, roomId, day, period, stamp));
    assert (tt + added)[..|tt|] == tt;
    tt + added
  }

  /** The batch passes every check: the room is not overfilled and each
      target passes its own check against the timetable before the batch. */
  predicate PassesChecks(tt: seq<TimeSlot>, rooms: seq<Room>, configs: map<string, SubjectConfig>,
                         req: AssignRequest, day: Day, period: Period) {
    !OverCapacity(tt, rooms, req, day, period)
    && forall t :: t in req.Targets() ==>
         !ProbeConflict(ContextOf(tt, rooms, configs, req, day, period), t).hasConflict
  }

  /** The view's answer once the reasons are known: a forced-placement
      request when there is any, the placed batch otherwise. */
  function Decide(tt: seq<TimeSlot>, targets: seq<string>, reasons: seq<string>, subject: string,
                  custom: Option<string>, roomId: string, day: Day, period: Period, stamp: string)
    : (r: AssignOutcome)
    ensures r.Added? || r.NeedsForce?
    ensures r.Added? <==> reasons == []
    ensures r.Added? ==>
              r.timetable == ExecuteBatchAssign(tt, targets, SubjectToUse(custom, subject), roomId, day, period, stamp)
    ensures r.NeedsForce? ==> r == NeedsForce(day, period, targets, reasons, custom)
  {
    if reasons != [] then NeedsForce(day, period, targets, reasons, custom)
    else Added(ExecuteBatchAssign(tt, targets, SubjectToUse(custom, subject), roomId, day, period, stamp))
  }

  /** The reasons collected for a batch: the capacity reason, then one per
      target that fails its own check against the timetable before the
      batch, each labelled with `show`. None exactly when the room is not
      overfilled and every target passes. */
  function BatchReasons(tt: seq<TimeSlot>, rooms: seq<Room>, configs: map<string, SubjectConfig>,
                        req: AssignRequest, show: string -> string, day: Day, period: Period)
    : (r: seq<string>)
    ensures r == [] <==> PassesChecks(tt, rooms, configs, req, day, period)
  {
    var over := CapacityReasons(RoomOf(rooms, req.roomId), |CellSlots(tt, req.roomId, day, period)|,
                                |req.Targets()|);
    var bad := ConflictReasons(ContextOf(tt, rooms, configs, req, day, period), req.Targets(), show);
    NoReasonIff(tt, rooms, configs, req, show, day, period, over, bad);
    over + bad
  }

  /** Neither check raises a reason exactly when the batch passes both. */
  lemma NoReasonIff(tt: seq<TimeSlot>, rooms: seq<Room>, configs: map<string, SubjectConfig>,
                    req: AssignRequest, show: string -> string, day: Day, period: Period,
                    over: seq<string>, bad: seq<string>)
    requires over == CapacityReasons(RoomOf(rooms, req.roomId), |CellSlots(tt, req.roomId, day, period)|,
                                     |req.Targets()|)
    requires bad == ConflictReasons(ContextOf(tt, rooms, configs, req, day, period), req.Targets(), show)
    ensures over + bad == [] <==> PassesChecks(tt, rooms, configs, req, day, period)
  {
    OverCapacityReason(tt, rooms, req, day, period);
    hide CellSlots, CapacityReasons, ConflictReasons, RoomOf, ProbeConflict, OverCapacity, ContextOf;
    assert |over + bad| == |over| + |bad|;
  }

  /** The capacity check raises a reason exactly when the room is overfilled. */
  lemma OverCapacityReason(tt: seq<TimeSlot>, rooms: seq<Room>, req: AssignRequest, day: Day, period: Period)
    ensures CapacityReasons(RoomOf(rooms, req.roomId), |CellSlots(tt, req.roomId, day, period)|, |req.Targets()|) == []
        <==> !OverCapacity(tt, rooms, req, day, period)
  {
    hide CellSlots, RoomOf;
  }

  /** The checks after the inputs are accepted: with any reason the view
      asks for a forced placement (keeping `custom` as the subject to use),
      with none the batch is placed. */
  function CheckAndPlace(tt: seq<TimeSlot>, rooms: seq<Room>, configs: map<string, SubjectConfig>,
                         req: AssignRequest, show: string -> string, custom: Option<string>,
                         day: Day, period: Period, stamp: string): (r: AssignOutcome)
    ensures r.Added? || r.NeedsForce?
    ensures r.Added? <==> PassesChecks(tt, rooms, configs, req, day, period)
    ensures r.Added? ==>
              r.timetable == ExecuteBatchAssign(tt, req.Targets(), SubjectToUse(custom, req.subject), req.roomId,
                                                day, period, stamp)
    ensures r.NeedsForce? ==>
              r.day == day && r.period == period && r.targets == req.Targets() && r.reasons != []
              && r.customSubject == custom
  {
    Decide(tt, req.Targets(), BatchReasons(tt, rooms, configs, req, show, day, period), req.subject, custom,
           req.roomId, day, period, stamp)
  }

  /** A typed subject that is not blank is the one used. */
  lemma TypedSubjectIsUsed(typed: string, selected: string)
    requires Trim(typed) != ""
    ensures SubjectToUse(Some(typed), selected) == typed
  {
    TrimEmptyIff(typed);
  }

  /** `handleAssign`: nothing without a room; in direct mode a blank target
      or subject is refused; in a selection mode an empty selection is
      refused. Otherwise the batch is checked and placed, or the view asks
      for a forced placement (see `CheckAndPlace`). */
  function HandleAssign(tt: seq<TimeSlot>, rooms: seq<Room>, configs: map<string, SubjectConfig>,
                        labels: map<string, string>, req: AssignRequest, day: Day, period: Period,
                        stamp: string): (r: AssignOutcome)
    ensures r.NoRoom? <==> req.roomId == ""
    ensures req.roomId != "" && req.mode == Direct ==>
              (r.MissingInput? <==> Trim(req.directTarget) == "" || Trim(req.directSubject) == "")
    ensures req.roomId != "" && req.mode != Direct ==> (r.NoTargets? <==> req.selected == [])
    ensures Complete(req) ==> r.Added? || r.NeedsForce?
    ensures Complete(req) ==>
              (r.Added? <==> PassesChecks(tt, rooms, configs, req, day, period))
    ensures PlacesBatch(r, tt, req, day, period, stamp) && AsksForForce(r, req, day, period)
  {
    hide PassesChecks, Trim, ExecuteBatchAssign, DirectAssign, SelectionAssign;
    if req.roomId == "" then NoRoom
    else if req.mode == Direct then DirectAssign(tt, rooms, configs, req, day, period, stamp)
    else SelectionAssign(tt, rooms, configs, labels, req, day, period, stamp)
  }

  /** A placement adds the request's targets with its subject, after the
      existing lessons. */
  predicate PlacesBatch(r: AssignOutcome, tt: seq<TimeSlot>, req: AssignRequest, day: Day, period: Period,
                        stamp: string) {
    r.Added? ==>
      r.timetable == ExecuteBatchAssign(tt, req.Targets(), req.CheckedSubject(), req.roomId, day, period, stamp)
  }

  /** A forced-placement request keeps the cell, the request's targets and
      at least one reason; it carries the typed subject exactly in direct
      mode. */
  predicate AsksForForce(r: AssignOutcome, req: AssignRequest, day: Day, period: Period) {
    r.NeedsForce? ==>
      r.day == day && r.period == period && r.targets == req.Targets() && r.reasons != []
      && r.customSubject == (if req.mode == Direct then Some(req.directSubject) else None)
  }

  /** The direct mode of `handleAssign`: the typed target and subject. */
  function DirectAssign(tt: seq<TimeSlot>, rooms: seq<Room>, configs: map<string, SubjectConfig>,
                        req: AssignRequest, day: Day, period: Period, stamp: string): (r: AssignOutcome)
    requires req.mode == Direct
    ensures r.MissingInput? <==> Trim(req.directTarget) == "" || Trim(req.directSubject) == ""
    ensures r.MissingInput? || r.Added? || r.NeedsForce?
    ensures !r.MissingInput? ==> (r.Added? <==> PassesChecks(tt, rooms, configs, req, day, period))
    ensures PlacesBatch(r, tt, req, day, period, stamp) && AsksForForce(r, req, day, period)
  {
    if Trim(req.directTarget) == "" || Trim(req.directSubject) == "" then MissingInput
    else
      TypedSubjectIsUsed(req.directSubject, req.subject);
      CheckAndPlace(tt, rooms, configs, req, (c: string) => c, Some(req.directSubject), day, period, stamp)
  }

  /** The selection modes of `handleAssign`: the selected classes with the
      selected subject, labelled with their custom labels in the reasons. */
  function SelectionAssign(tt: seq<TimeSlot>, rooms: seq<Room>, configs: map<string, SubjectConfig>,
                           labels: map<string, string>, req: AssignRequest, day: Day, period: Period,
                           stamp: string): (r: AssignOutcome)
    requires req.mode != Direct
    ensures r.NoTargets? <==> req.selected == []
    ensures r.NoTargets? || r.Added? || r.NeedsForce?
    ensures !r.NoTargets? ==> (r.Added? <==> PassesChecks(tt, rooms, configs, req, day, period))
    ensures PlacesBatch(r, tt, req, day, period, stamp) && AsksForForce(r, req, day, period)
  {
    if req.selected == [] then NoTargets
    else CheckAndPlace(tt, rooms, configs, req, FormatWith(labels), None, day, period, stamp)
  }

  /** `confirmForceAssign`: the asked-for batch is placed after all, with
      the typed subject in direct mode and the selected subject otherwise. */
  function ConfirmForceAssign(tt: seq<TimeSlot>, force: AssignOutcome, selectedSubject: string,
                              roomId: string, stamp: string): (r: seq<TimeSlot>)
    requires force.NeedsForce?
    ensures |r| == |tt| + |force.targets| && r[..|tt|] == tt
    ensures forall i :: 0 <= i < |force.targets| ==>
              r[|tt| + i].classId == force.targets[i] && r[|tt| + i].roomId == Some(roomId)
              && r[|tt| + i].subject == SubjectToUse(force.customSubject, selectedSubject)
              && r[|tt| + i].day == force.day && r[|tt| + i].period == force.period
              && r[|tt| + i].teacherId.None?
  {
    ExecuteBatchAssign(tt, force.targets, SubjectToUse(force.customSubject, selectedSubject), roomId,
                       force.day, force.period, stamp)
  }

  // ------------------------------------------------------ placement results

  /** A batch puts exactly its targets into the room cell: the cell's
      lesson count grows by the number of targets. */
  lemma BatchFillsCell(tt: seq<TimeSlot>, targets: seq<string>, subject: string, roomId: string,
                       day: Day, period: Period, stamp: string)
    ensures |CellSlots(ExecuteBatchAssign(tt, targets, subject, roomId, day, period, stamp), roomId, day, period)|
         == |CellSlots(tt, roomId, day, period)| + |targets|
  {
    var added := Map(targets, BatchSlot(subject, roomId, day, period, stamp));
    var p := InRoomCell(roomId, day, period);
    assert ExecuteBatchAssign(tt, targets, subject, roomId, day, period, stamp) == tt + added;
    FilterConcat(tt, added, p);
    assert forall s :: s in added ==> p(s);
    FilterAll(added, p);
  }

  /** A placement made without forcing never takes a resolved room past
      its capacity. */
  lemma UnforcedPlacementFitsRoom(tt: seq<TimeSlot>, rooms: seq<Room>, configs: map<string, SubjectConfig>,
                                  labels: map<string, string>, req: AssignRequest, day: Day, period: Period,
                                  stamp: string)
    requires HandleAssign(tt, rooms, configs, labels, req, day, period, stamp).Added?
    requires RoomOf(rooms, req.roomId).Some?
    ensures |CellSlots(HandleAssign(tt, rooms, configs, labels, req, day, period, stamp).timetable,
                       req.roomId, day, period)|
         <= RoomOf(rooms, req.roomId).value.capacity
  {
    BatchFillsCell(tt, req.Targets(), req.CheckedSubject(), req.roomId, day, period, stamp);
  }

  /** Different targets of a batch get different slot ids. */
  lemma BatchIdsDistinct(targets: seq<string>, subject: string, roomId: string, day: Day, period: Period,
                         stamp: string, i: nat, j: nat)
    requires i < |targets| && j < |targets| && targets[i] != targets[j]
    ensures BatchSlot(subject, roomId, day, period, stamp)(targets[i]).id
         != BatchSlot(subject, roomId, day, period, stamp)(targets[j]).id
  {
    var s := BatchIdSuffix(subject, roomId, day, period, stamp);
    if targets[i] + s == targets[j] + s {
      SuffixCancel(targets[i], targets[j], s);
    }
  }

  /** Every class of a batch is checked against the timetable as it was
      before the batch, not against the classes placed with it: a class of
      grade `g` and a level class of the same grade are placed together in
      an empty cell although the second then collides with the first. */
  lemma BatchNotCheckedAgainstItself(g: nat, c: nat, n: nat, roomId: string, subject: string,
                                     day: Day, period: Period, stamp: string)
    requires g != 0 && roomId != ""
    ensures var req := AssignRequest(roomId, Multi, [ClassIdOf(g, c), LevelClassId(g, n)], subject, "", "");
            var r := HandleAssign([], [], map[], map[], req, day, period, stamp);
            r.Added? && |r.timetable| == 2
            && r.timetable[0] in CheckConflict(r.timetable[1], r.timetable, [], map[]).Slots()
  {
    var req := AssignRequest(roomId, Multi, [ClassIdOf(g, c), LevelClassId(g, n)], subject, "", "");
    EmptyCellPasses(req, day, period);
    hide HandleAssign, PassesChecks, ExecuteBatchAssign, CheckConflict, ClassIdOf, LevelClassId;
    var r := HandleAssign([], [], map[], map[], req, day, period, stamp);
    assert r.Added? && r.timetable == ExecuteBatchAssign([], req.Targets(), subject, roomId, day, period, stamp);
    LevelAndClassCollide(r.timetable, g, c, n, roomId, subject, day, period, stamp, req);
  }

  /** In an empty timetable without rooms every batch passes its checks. */
  lemma EmptyCellPasses(req: AssignRequest, day: Day, period: Period)
    ensures PassesChecks([], [], map[], req, day, period)
  {
    var ctx := ContextOf([], [], map[], req, day, period);
    forall t | t in req.Targets() ensures !ProbeConflict(ctx, t).hasConflict {
      assert ProbeConflict(ctx, t).Slots() == [];
    }
  }

  lemma LevelAndClassCollide(tt: seq<TimeSlot>, g: nat, c: nat, n: nat, roomId: string, subject: string,
                             day: Day, period: Period, stamp: string, req: AssignRequest)
    requires g != 0
    requires req == AssignRequest(roomId, Multi, [ClassIdOf(g, c), LevelClassId(g, n)], subject, "", "")
    requires tt == ExecuteBatchAssign([], req.Targets(), subject, roomId, day, period, stamp)
    ensures |tt| == 2 && tt[0] in CheckConflict(tt[1], tt, [], map[]).Slots()
  {
    ClassAndLevelOverlap(g, c, n);
    BatchIdsDistinct(req.Targets(), subject, roomId, day, period, stamp, 0, 1);
    assert tt[0].id != tt[1].id;
    assert tt[0].classId == ClassIdOf(g, c) && tt[1].classId == LevelClassId(g, n);
    SameSubjectPairClashes(tt, tt[0], tt[1]);
  }

  /** A class and a level class of the same grade are different ids,
      neither is a sentinel, and their populations overlap. */
  lemma ClassAndLevelOverlap(g: nat, c: nat, n: nat)
    requires g != 0
    ensures ClassIdOf(g, c) != LevelClassId(g, n)
    ensures !IsSentinel(ClassIdOf(g, c)) && !IsSentinel(LevelClassId(g, n)) && LevelClassId(g, n) != ""
    ensures PopulationOverlap(LevelClassId(g, n), ClassIdOf(g, c))
  {
    ExtractGradeOfClassId(g, c);
    LevelClassIdGrade(g, n);
    LevelMarkerNotInClassId(g, c);
    ClassIdHasDash(g, c);
    hide ExtractGrade, Contains, ClassIdOf, LevelClassId;
  }

  /** A level class id is no sentinel, holds the level marker and
      carries its grade. */
  lemma LevelClassIdGrade(g: nat, n: nat)
    ensures Contains(LevelClassId(g, n), LevelMarker) && ExtractGrade(LevelClassId(g, n)) == g
    ensures !IsSentinel(LevelClassId(g, n)) && LevelClassId(g, n) != ""
  {
    var b := LevelClassId(g, n);
    LevelClassIdParts(g, n);
    assert b[0] == NatToString(g)[0];
    hide Split, ParseInt, NatToString;
    assert IsDigit(b[0]);
  }

  /** Two lessons of one subject in the same cell whose populations
      overlap: with no overlap policy, the second one's check reports the
      first. */
  lemma SameSubjectPairClashes(tt: seq<TimeSlot>, x: TimeSlot, y: TimeSlot)
    requires x in tt && y in tt && x.id != y.id && x.SameCell(y) && x.subject == y.subject
    requires y.classId != "" && !IsSentinel(x.classId) && !IsSentinel(y.classId)
    requires PopulationOverlap(y.classId, x.classId)
    ensures x in CheckConflict(y, tt, [], map[]).Slots()
  {
    assert ClassClash(map[], y, x);
    ReportedSlots(y, tt, [], map[], x);
  }

  /** A `g-c` class id holds no level marker. */
  lemma LevelMarkerNotInClassId(g: nat, c: nat)
    ensures !Contains(ClassIdOf(g, c), LevelMarker)
  {
    var a := ClassIdOf(g, c);
    assert a == NatToString(g) + "-" + NatToString(c);
    forall i | 0 <= i < |a| ensures a[i] != LevelMarker[0] {
      if i < |NatToString(g)| {
        assert a[i] == NatToString(g)[i];
      } else if i > |NatToString(g)| {
        assert a[i] == NatToString(c)[i - |NatToString(g)| - 1];
      }
    }
    LacksFirstChar(a, LevelMarker);
  }

  // -------------------------------------------------------------- the grid

  /** A cell offers placement unless its room resolves and is already full. */
  predicate CellAcceptsClick(tt: seq<TimeSlot>, rooms: seq<Room>, roomId: string, day: Day, period: Period) {
    var room := RoomOf(rooms, roomId);
    !(room.Some? && |CellSlots(tt, roomId, day, period)| >= room.value.capacity)
  }

  /** A cell that offers placement has room for one more class, so a
      direct placement there is never refused for capacity. */
  lemma ClickableCellFitsOne(tt: seq<TimeSlot>, rooms: seq<Room>, req: AssignRequest, day: Day, period: Period)
    requires CellAcceptsClick(tt, rooms, req.roomId, day, period) && req.mode == Direct
    ensures !OverCapacity(tt, rooms, req, day, period)
  {
  }

  // -------------------------------------------------------------- deleting

  /** `handleDeleteClick` followed by the confirmation: a lesson placed by a
      specialist teacher is never deleted here; any other lesson is deleted
      (every slot with its id) once confirmed. */
  function DeleteFromRoomView(tt: seq<TimeSlot>, slot: TimeSlot, confirmed: bool): (r: seq<TimeSlot>)
    ensures Truthy(slot.teacherId) || !confirmed ==> r == tt
    ensures !Truthy(slot.teacherId) && confirmed ==> forall t :: t in r <==> t in tt && t.id != slot.id
  {
    if Truthy(slot.teacherId) then tt
    else if confirmed then RemoveTimeSlot(tt, slot.id)
    else tt
  }

  /** A batch of one target is that target's slot added to the timetable. */
  lemma BatchOfOne(tt: seq<TimeSlot>, target: string, subject: string, roomId: string, day: Day,
                   period: Period, stamp: string)
    ensures ExecuteBatchAssign(tt, [target], subject, roomId, day, period, stamp)
         == AddTimeSlot(tt, BatchSlot(subject, roomId, day, period, stamp)(target))
  {
  }

  /** Deleting the lesson a one-class placement just added (a direct
      placement, or a selection of one class), when its id was new, gives
      back the timetable from before the placement. */
  lemma DeletingPlacedLessonRestores(tt: seq<TimeSlot>, target: string, subject: string, roomId: string,
                                     day: Day, period: Period, stamp: string)
    requires forall t :: t in tt ==> t.id != BatchSlot(subject, roomId, day, period, stamp)(target).id
    ensures var r := ExecuteBatchAssign(tt, [target], subject, roomId, day, period, stamp);
            DeleteFromRoomView(r, r[|tt|], true) == tt
  {
    var s := BatchSlot(subject, roomId, day, period, stamp)(target);
    var r := ExecuteBatchAssign(tt, [target], subject, roomId, day, period, stamp);
    assert r == AddTimeSlot(tt, s) by {
      BatchOfOne(tt, target, subject, roomId, day, period, stamp);
    }
    assert r[|tt|] == s;
    assert DeleteFromRoomView(r, s, true) == RemoveTimeSlot(r, s.id) by {
      assert s.teacherId.None?;
    }
    RemoveUndoesAdd(tt, s);
    hide DeleteFromRoomView, RemoveTimeSlot, AddTimeSlot, ExecuteBatchAssign, BatchSlot;
  }
}
