# School timetable validation — a Dafny model

This project models the scheduling logic of a school-timetable web
application for Korean elementary schools. In the application, homeroom
teachers, specialist teachers and special rooms share one weekly timetable
of lessons ("slots"). Each slot sits in a cell: a day 월..금 and a period
1..15. A slot names a class id, for example:

- `3-2`: grade 3, class 2;
- `3레벨1`: a grade-wide level class;
- `3통합`: a grade-wide integrated class;
- `custom-…-n`: a class of a custom row;
- `미배정`: unassigned;
- `기타`: other activity.

A slot also carries a subject and, optionally, a teacher and a room.

The model is written as immutable datatypes and total functions. Each store
mutator is a function from timetable to timetable. Each UI handler is a
function from the state it reads to the state it writes, or to an outcome
datatype when the handler can refuse with an alert. The modules follow the
program's structure:

| module | models |
|---|---|
| `Basics`, `JsText` | options, list helpers, and the JavaScript string and number built-ins the code relies on: `includes`, `startsWith`, `split`, `trim`, `parseInt`, `Number`, `String(n)`, `padStart`, `lastIndexOf`, default `sort`, `find` |
| `Types` | the records of `types.ts` |
| `ClassIds` | `extractGrade` and the class-id spellings |
| `ConflictEngine` | `checkConflict`: the teacher, class/population and room-capacity checks |
| `OverlapPolicy` | the per-subject, per-grade overlap grant `addSubjectGradeOverlap` |
| `RequiredBlocks` | `getUnassignedSpecialistBlocks` |
| `ScheduleStore` | the store mutators, the teacher cascade, subject renaming, `getRequiredHours`, `getClassList` |
| `BellSchedules` | the union of period keys, choosing a schedule by grade, ETC (break) blocking, bell-time lookup |
| `ClockTime` | `HH:MM` minute arithmetic |
| `Settings` | the bell-schedule editor: add, remove, reorder with renumbering, break toggles, period edits, target grades, subject list |
| `MasterSchedule` | the master grid: row lookup, labels, swap check and swap, assignable blocks, block assignment |
| `TeacherManagement` | target labels and formatting, target selection, the overlap-grant rule, assignments, saving a teacher, the class counters |
| `RoomAssignment` | batch room assignment with its capacity and conflict pre-check, and deletion from the room view |
| `ClassSchedule` | the class view: lookup with the grade-wide fallback, the homeroom lock, custom blocks, clearing, the export grid |
| `TeacherTimetable` | the teacher view: labels, lookup without sync copies, the automatic bell-schedule variant, the editor's default lines |

Inputs that the code reads from React state are passed as parameters:
`rooms`, `subjectConfigs`, `schoolInfo` and `teacherConfig`. The results of
`Date.now()` are opaque `stamp` strings. An answer to `window.confirm` is a
`bool` parameter, and an `alert` that aborts a handler is a constructor of
the handler's outcome type.

### Behaviour that follows the code

In these places the code differs from the application's design
description. The model follows the code.

- Batch room assignment checks every target against the timetable as it was
  before the batch. Two targets of one batch that collide with each other
  are therefore both placed without a force prompt. See
  `RoomAssignment.BatchNotCheckedAgainstItself`.
- In its automatic variant, the teacher view counts slots whose subject is
  not `미배정`. It does not filter on the class id.
- `getUnassignedSpecialistBlocks` never runs its `custom-` expansion
  branch, because the guard before it excludes ids containing `-`. Custom
  rows are kept as literal targets. See
  `RequiredBlocks.CustomExpansionUnreachable`.
- The `custom-` fallback in the room view's class list is dead for the same
  kind of reason: a custom row's count already reaches the first branch. See
  `RoomAssignment.CustomRowFallbackIsEmpty`.
- The filter in `getFilteredBlocks` never removes a block. The teacher's
  own slots in the cell are removed before the check, so the check cannot find
  that teacher busy there. See `MasterSchedule.ChoiceNeverTeacherBusy` and
  `MasterSchedule.FilteredBlocksKeepEvery`.
- A room with capacity ≤ 0 and no occupants gets a reason text but no
  conflict, because `hasConflict` depends only on the slot list.
- Saving an edited teacher replaces the record with the form's fields, so
  the teacher's memo is dropped.
- The class view's grade-wide fallback matches by substring. Grade `1`
  therefore also shows lessons of `11통합`.
- In the teacher view, when no lesson decides the variant, the grades
  come from the assignment targets, through both the grade extraction
  and `parseInt`. `parseInt` keeps non-positive values. The extraction
  makes `custom-123-1` count as grade 123, although `parseInt` reads it
  as NaN.

## Model

| member | source | states |
|---|---|---|
| Types.DaySymbolRoundTrip | types.ts:4-6 | each of the five days has its own one-letter symbol, and the symbol reads back as that day |
| ClassIds.ExtractGrade | services/scheduleService.ts:13-16 | an id without decimal digits has grade 0 |
| ClassIds.ExtractGradeOfNumeral | services/scheduleService.ts:13-16 | the grade of an id that starts with a numeral (not followed by another digit) is that numeral |
| ClassIds.ExtractGradeAfterPrefix | services/scheduleService.ts:13-16 | digit-free text in front of an id (such as `custom-`) does not change the grade read from it |
| ClassIds.ExtractGradeOfClassId | services/scheduleService.ts:13-16 | the grade of `g-c` is g |
| ClassIds.LevelClassIdParts | services/scheduleService.ts:13-16 | `g레벨n` contains the level marker, splits at it into the two numerals, its level reads back as n, and its grade is g |
| ClassIds.ClassIdOfInjective | services/scheduleService.ts:444-454 | two class ids `g-c` are equal only when grade and class number are equal |
| ClassIds.NumberedClassesDistinct | components/TeacherManagement.tsx:325-328 | the classes `row-1..row-n` of a row are pairwise distinct |
| ClassIds.LevelMarkInjective | components/TeacherManagement.tsx:196-199 | the circled-numeral or `(n)` mark differs for different level numbers |
| ConflictEngine.TeacherPart | services/scheduleService.ts:289-300 | the teacher check reports at most one slot, with reason `교사 중복 배정` exactly when some other slot has the same teacher in the same cell |
| ConflictEngine.TeacherPartMeaning | services/scheduleService.ts:289-300 | the slot reported by the teacher check is exactly the first other slot of that teacher in that cell |
| ConflictEngine.ClassBusyFilterMeaning | services/scheduleService.ts:303-325 | an existing slot is a class candidate iff it has another id, sits in the same cell, is not a sentinel, and overlaps the candidate's population |
| ConflictEngine.PopulationOverlapSymmetric | services/scheduleService.ts:313-325 | population overlap does not depend on which of the two ids is the candidate |
| ConflictEngine.ClassPartMeaning | services/scheduleService.ts:303-353 | the class check reports exactly the population clashes not suppressed by the overlap policy |
| ConflictEngine.CheckConflict | services/scheduleService.ts:282-380 | the verdict holds iff the slot list is non-empty; every reported slot is another slot of the same cell; a conflict always has a reason; a slot with no teacher and no class is never checked |
| ConflictEngine.ReportedSlots | services/scheduleService.ts:282-380 | a slot is reported iff it is the first teacher clash, or a class clash, or an occupant of a full resolved room |
| ConflictEngine.ConflictIff | services/scheduleService.ts:282-380 | a conflict exists iff the teacher is busy, or some population clash is not suppressed, or the resolved room is full and has an occupant |
| ConflictEngine.CrossSubjectAlwaysReported | services/scheduleService.ts:331-353 | a population collision with a different subject is reported whatever the overlap policy says |
| ConflictEngine.SameSubjectSuppressedIff | services/scheduleService.ts:331-353 | a same-subject collision is suppressed iff the subject allows overlap globally, or for the candidate's grade, or for the busy slot's grade |
| ConflictEngine.SentinelsNeverCollide | services/scheduleService.ts:303-311 | `미배정` and `기타` slots never cause a class collision, on either side |
| ConflictEngine.UnresolvedRoomIgnored | services/scheduleService.ts:359-361 | a room id that names no registered room imposes no constraint |
| ConflictEngine.TeacherPartIgnoresRoom | services/scheduleService.ts:289-300 | the teacher check does not depend on the candidate's room |
| ConflictEngine.RoomCapacityBoundary | services/scheduleService.ts:362-371 | a resolved room is full iff its capacity is at most the number of other slots in that room and cell |
| ConflictEngine.GrantNeverAddsConflicts | services/scheduleService.ts:507-522 | granting an overlap never makes a previously unreported slot reported |
| ConflictEngine.GrantSuppressesCollision | services/scheduleService.ts:331-353 | after granting a subject's overlap for the candidate's grade, no same-subject slot is a class clash |
| OverlapPolicy.AddSubjectGradeOverlap | services/scheduleService.ts:507-522 | the grant only appends the grade to that subject's list (nothing if it is already there); it keeps `allowOverlap` (false for a new subject) and every other subject |
| OverlapPolicy.GrantAllowsExactly | services/scheduleService.ts:507-522 | after a grant, overlap is allowed exactly where it was before plus for the granted subject and grade |
| OverlapPolicy.GrantIdempotent | services/scheduleService.ts:507-522 | granting the same subject and grade twice is the same as granting it once |
| OverlapPolicy.GrantMonotone | services/scheduleService.ts:507-522 | a grant never withdraws a permission |
| RequiredBlocks.ExpandTargetMembership | services/scheduleService.ts:399-411 | a bare grade row expands to `g-1..g-(classes+extra)`; any other target is kept as it is |
| RequiredBlocks.CustomExpansionUnreachable | services/scheduleService.ts:400-408 | a target that passes the grade-row guard never starts with `custom-`, so the custom branch cannot run |
| RequiredBlocks.ExpandTargets | services/scheduleService.ts:399-412 | the expanded list holds exactly the expansions of the targets |
| RequiredBlocks.AssignmentClasses | services/scheduleService.ts:393-414 | an assignment's class list has no duplicates and holds exactly the expansions of its targets, defaulting to the grade rows when targets are absent or empty |
| RequiredBlocks.ClassBlocks | services/scheduleService.ts:416-437 | a class yields exactly max(0, hours − placed) blocks, each of that class, subject and room, with assigned + missing = required |
| RequiredBlocks.GetUnassignedSpecialistBlocks | services/scheduleService.ts:386-442 | an unknown teacher yields no blocks; every block belongs to one of the teacher's assignments |
| RequiredBlocks.SpecialistBlocksPerClass | services/scheduleService.ts:386-442 | a known teacher gets, for each class and subject, as many blocks as the lessons still missing over the teacher's assignments of that subject |
| RequiredBlocks.SpecialistBlocksOfDistinctSubjects | services/scheduleService.ts:386-442 | with one assignment per subject, a class gets exactly the missing count of its assignment when that assignment covers it, and none otherwise |
| RequiredBlocks.AssignmentBlocksPerClass | services/scheduleService.ts:392-439 | for each class of the assignment there are exactly as many blocks as sessions still missing, and none for other classes |
| RequiredBlocks.FullyPlacedYieldsNothing | services/scheduleService.ts:423-424 | a class with all weekly sessions placed yields no block |
| RequiredBlocks.PlacingReducesMissing | services/scheduleService.ts:417-423 | placing one more matching lesson lowers the missing count by exactly one |
| ScheduleStore.AddTimeSlot | services/scheduleService.ts:248 | adding appends exactly the slot and keeps the rest in order |
| ScheduleStore.RemoveTimeSlot | services/scheduleService.ts:249 | removing keeps exactly the slots with another id |
| ScheduleStore.RemoveUnknownId | services/scheduleService.ts:249 | removing an unknown id leaves the timetable unchanged |
| ScheduleStore.RemoveUndoesAdd | services/scheduleService.ts:248-249 | removing a freshly added slot's id restores the timetable |
| ScheduleStore.UpdateTimeSlot | services/scheduleService.ts:250 | updating replaces exactly the id-matching slots, in place |
| ScheduleStore.UpdateIdempotent | services/scheduleService.ts:250 | updating twice with the same slot is the same as once |
| ScheduleStore.UpdateUnknownId | services/scheduleService.ts:250 | updating with an unknown id changes nothing |
| ScheduleStore.ClearTeacherSchedule | services/scheduleService.ts:524-526 | clearing keeps exactly the slots of other teachers and untaught slots |
| ScheduleStore.AddTeacher | services/scheduleService.ts:236 | the teacher is appended and nothing else in the store changes |
| ScheduleStore.UpdateTeacher | services/scheduleService.ts:237 | exactly the id-matching teachers are replaced, in place, and nothing else changes |
| ScheduleStore.RemoveTeacher | services/scheduleService.ts:238-241 | the teacher and exactly the slots with its teacher id are dropped, and nothing else changes |
| ScheduleStore.RemoveTeacherCounts | services/scheduleService.ts:238-241 | the timetable shrinks by exactly the number of that teacher's slots |
| ScheduleStore.GetRequiredHours | services/scheduleService.ts:382-384 | the configured weekly hours, or 2 when absent or 0 |
| ScheduleStore.MergeConfig | services/scheduleService.ts:265-270 | a field given in the patch wins; otherwise the previous config's field is kept |
| ScheduleStore.RenameInTimetable | services/scheduleService.ts:259 | each lesson of the old name now has the new name, every other lesson keeps its subject, and no other field or position changes |
| ScheduleStore.RenameRoundTrip | services/scheduleService.ts:259 | renaming to an unused name and back restores the timetable |
| ScheduleStore.UpdateSubjectDetails | services/scheduleService.ts:252-272 | the new name gets the style and the old config merged with the patch; on a rename the old key leaves styles and configs and other keys are kept; school, rooms, hours and teacher settings are untouched; keeping the name leaves subjects, lessons and teachers alone |
| ScheduleStore.UpdateSubjectDetailsEntries | services/scheduleService.ts:252-272 | position by position: the subject list, each teacher's assignments and each lesson have the old name replaced by the new one and nothing else changed |
| ScheduleStore.SubjectRenameRoundTrip | services/scheduleService.ts:252-272 | renaming to an unused name and then back, with the old style and the old config's fields, restores the whole store |
| ScheduleStore.RenameInList | services/scheduleService.ts:254 | each subject equal to the old name becomes the new name; the others stay in place |
| ScheduleStore.RenameInTeachers | services/scheduleService.ts:255-258 | each assignment of the old subject becomes one of the new subject; nothing else about any teacher changes |
| ScheduleStore.Rekey | services/scheduleService.ts:261-267 | the new key holds the given value, the old key is gone when it differs, and every other entry is kept |
| ScheduleStore.ClassListMembership | services/scheduleService.ts:444-454 | the class list holds exactly `g-c` for every configured grade g and 1 ≤ c ≤ its class count |
| BellSchedules.PeriodRows | components/ClassSchedule.tsx:266-268 | the rows are the increasing union of all schedules' period keys |
| BellSchedules.ActivePeriods | components/TeacherTimetable.tsx:118-125 | the active periods are the increasing union of all keys, or 1..6 when no schedule has a period |
| BellSchedules.ScheduleForGrade | components/ClassSchedule.tsx:258-264 | with distinct schedules and a schedule listing the grade, the chosen one is the first schedule listing it; otherwise it is schedule 0, or none when there are none |
| BellSchedules.PeriodsForGrade | components/ClassSchedule.tsx:258-287 | one row per key of the union, in order; each row exists iff the chosen schedule has that period, is an ETC row iff that period is marked ETC, and is built by `MakeRow` from the chosen schedule |
| BellSchedules.MakeRow | components/ClassSchedule.tsx:270-285 | the name, time and type come from the chosen schedule's period (its name or `n교시`, `start~end`, its type or CLASS), or `-`, empty and CLASS when it has none; the A and B columns come from schedules 0 and 1, B only with distinct schedules |
| BellSchedules.PeriodsForGradeOrdered | components/ClassSchedule.tsx:268 | the rows' period numbers increase |
| BellSchedules.EtcBlockedIff | components/MasterSchedule.tsx:435-447 | a period is blocked iff schedule 0 marks it ETC, or schedules are distinct and schedule 1 marks it ETC |
| BellSchedules.GetBellTime | components/TeacherTimetable.tsx:164-173 | a time is found iff the schedule index exists and has that period, and it is that period's record |
| ClockTime.AddMinutesToTime | components/Settings.tsx:62-72 | '' stays ''; unreadable text is returned unchanged; otherwise the result is the clock reading of start + minutes |
| ClockTime.AddMinutesReadsBack | components/Settings.tsx:62-72 | the result is five characters and reads back as (h·60 + m + minutes) modulo 24 hours |
| ClockTime.ClockTextRoundTrip | components/Settings.tsx:66-71 | every minute of the day prints as `HH:MM` and reads back as itself |
| ClockTime.HoursMinutesRoundTrip | components/Settings.tsx:66-71 | zero-padded hours and minutes read back as h·60 + m |
| ClockTime.AddMinutesAdditive | components/Settings.tsx:62-72 | adding a then b minutes is the same as adding a + b |
| ClockTime.AddMinutesWholeDays | components/Settings.tsx:62-72 | adding whole days does not change a readable time's result |
| Settings.PeriodListRenumber | components/Settings.tsx:347-348 | renumbering rows to 1..n and listing them again gives back the rows |
| Settings.RenumberPeriodList | components/Settings.tsx:347-348 | a schedule already numbered 1..n is unchanged by listing and renumbering |
| Settings.EditSchedule | components/Settings.tsx:204-236 | an editor changes only the schedule at the given index, and nothing when the index is out of range |
| Settings.NewPeriodNumber | components/Settings.tsx:244-247 | the new key is greater than every key: max + 1, or 1 when there is none |
| Settings.AddPeriod | components/Settings.tsx:239-265 | a key above 15 is refused; otherwise exactly the new key is added, as a CLASS period named `n교시` that ends `duration` minutes after its start |
| Settings.FirstPeriodTimes | components/Settings.tsx:249-253 | the first period of an empty schedule starts at 09:00 and ends `duration` minutes later |
| Settings.AddedPeriodFollowsLast | components/Settings.tsx:249-253 | a new period starts 10 minutes after the previous end and ends `duration` minutes later, modulo the day |
| Settings.RemovePeriod | components/Settings.tsx:267-278 | exactly that key is removed; other keys keep their numbers and records |
| Settings.RemoveUndoesAddPeriod | components/Settings.tsx:239-278 | removing the period just added restores the schedule |
| Settings.MoveTargetAtEdges | components/Settings.tsx:286-307 | moving up is refused exactly for the first key, and moving down exactly for the last |
| Settings.ReorderPeriod | components/Settings.tsx:280-311 | an edge move or an unknown key changes nothing; otherwise the keys become 1..n |
| Settings.ReorderPermutes | components/Settings.tsx:280-311 | a reorder swaps the period with its neighbour in sorted order, keeps every other row in place, and keeps the multiset of records |
| Settings.ReorderUpThenDownNumbered | components/Settings.tsx:280-311 | on a schedule numbered 1..n, moving a period up and then down again restores the schedule |
| Settings.FourthPeriodIndex | components/Settings.tsx:331-332 | finds the first row whose name contains `4교시`, or reports that none does |
| Settings.ToggleSpecialBreak | components/Settings.tsx:313-353 | turning a break on renumbers to 1..n+1; turning it off leaves no row of that name and numbers 1..m |
| Settings.BreakOnRows | components/Settings.tsx:322-338 | turning on inserts one ETC row with the break's name at its position and keeps every other row in order |
| Settings.BreakOnMultiset | components/Settings.tsx:322-338 | turning on adds exactly the one new row to the multiset of rows |
| Settings.BreakOffRows | components/Settings.tsx:339-345 | turning off keeps exactly the rows with another name, in order |
| Settings.BreakOnThenOff | components/Settings.tsx:313-353 | turning a break on and then off again gives back the schedule, renumbered |
| Settings.NextKeyIsSuccessor | components/Settings.tsx:218-222 | the next key is the smallest key above the period, and is absent iff the period is the last |
| Settings.UpdatePeriod | components/Settings.tsx:204-237 | a missing period changes nothing; an edit keeps the schedule's other fields and its period numbers |
| Settings.UpdatePeriodRows | components/Settings.tsx:204-237 | the edited field is set; a new start of a CLASS period moves its end; a new end moves the next period's start; no other row changes |
| Settings.NextStartFollowsEnd | components/Settings.tsx:218-227 | after a new end, the next period starts 10 minutes later |
| Settings.UpdateSameName | components/Settings.tsx:204-237 | renaming a period to its own name changes nothing |
| Settings.ToggleTargetGrade | components/Settings.tsx:188-202 | a present grade is removed; an absent one is added and the list sorted as text; other grades keep their membership |
| Settings.ToggleTargetGradeTwice | components/Settings.tsx:188-202 | toggling a grade twice restores the multiset of target grades |
| Settings.HandleAddSubject | components/Settings.tsx:76-81 | the trimmed name is added only when non-empty and not listed, and the list stays duplicate-free |
| Settings.AddSubjectTwice | components/Settings.tsx:76-81 | submitting the same name again adds nothing |
| MasterSchedule.FormatClassId | components/MasterSchedule.tsx:14-28 | `미배정` becomes `-`; a non-empty custom label wins; a `레벨` id gets the level label; any other id is shown as it is |
| MasterSchedule.LevelClassLabel | components/MasterSchedule.tsx:18-24 | `g레벨n` without a label is shown as `g학년 L` followed by the circled numeral or `(n)` |
| MasterSchedule.LevelClassLabelsDistinct | components/MasterSchedule.tsx:18-24 | two level classes of one grade never share a label |
| MasterSchedule.ByLengthDescending | components/MasterSchedule.tsx:84 | a permutation of the grade ids with the longest first |
| MasterSchedule.GetRowIdFromTarget | components/MasterSchedule.tsx:82-93 | '' for an empty target; otherwise the longest grade id the target belongs to; otherwise the leading digit run |
| MasterSchedule.RowOfClassId | components/MasterSchedule.tsx:82-93 | a class `row-n` maps back to its row when no longer row also matches |
| MasterSchedule.TeacherCellSlot | components/MasterSchedule.tsx:608-611 | the teacher's slot in the cell, absent iff the cell is empty for that teacher |
| MasterSchedule.SwapSchedule | components/MasterSchedule.tsx:498-503 | with distinct schedules, a positive grade and a schedule listing it, the one used is the first schedule listing that grade; otherwise it is schedule 0, or none when there are no schedules |
| MasterSchedule.SwapBackground | components/MasterSchedule.tsx:507 | the background timetable holds exactly the slots other than the source and the target |
| MasterSchedule.CheckSwapPossible | components/MasterSchedule.tsx:487-542 | a swap is allowed exactly when a source and its teacher are set, the target row is that teacher's, the source lesson exists and is not the target cell, neither moved lesson lands on an ETC period of its grade's schedule, and neither conflicts with the rest of the timetable |
| MasterSchedule.Exchange | components/MasterSchedule.tsx:590-605 | the source takes the target cell, the target takes the source cell, and every other slot is unchanged |
| MasterSchedule.HandleSwapTargetClick | components/MasterSchedule.tsx:590-605 | with no or an unknown source nothing changes; otherwise exactly the exchange happens |
| MasterSchedule.SwapBackRestores | components/MasterSchedule.tsx:590-605 | swapping back from the target cell restores the timetable |
| MasterSchedule.ExchangeKeepsIds | components/MasterSchedule.tsx:590-605 | a swap keeps slot ids unique |
| MasterSchedule.SwapKeepsOneLessonPerCell | components/MasterSchedule.tsx:590-605 | a swap keeps each teacher to at most one lesson per cell |
| MasterSchedule.CellAfterExchange | components/MasterSchedule.tsx:590-605 | after a swap the source's old cell holds the moved target, or nothing |
| MasterSchedule.GetFilteredBlocks | components/MasterSchedule.tsx:708-732 | every offered block is one of the teacher's unassigned blocks with its conflict against the timetable without the teacher's lessons in that cell, and none shows the teacher busy |
| MasterSchedule.FilteredBlocksKeepEvery | components/MasterSchedule.tsx:708-732 | the filter keeps every block, in order |
| MasterSchedule.ChoiceNeverTeacherBusy | components/MasterSchedule.tsx:712-725 | the conflict computed for a block never lists a slot of the same teacher |
| MasterSchedule.ClearedCell | components/MasterSchedule.tsx:610-611 | only the teacher's existing slot in the cell is removed |
| MasterSchedule.HandleAssignBlock | components/MasterSchedule.tsx:607-621 | without an active cell nothing changes; otherwise the existing slot of the cell is removed and the block's slot is appended |
| MasterSchedule.AssignKeepsOneLessonPerCell | components/MasterSchedule.tsx:607-621 | after an assignment the teacher has exactly the new lesson in that cell, and one lesson per cell everywhere |
| TeacherManagement.GetLabel | components/TeacherManagement.tsx:187-203 | a custom label wins even when empty; `1`..`6` become `N학년`; `custom-` rows become ''; other ids without `레벨` are kept |
| TeacherManagement.LevelClassLabelAgrees | components/TeacherManagement.tsx:191-200 | an unlabelled `g레벨n` gets the same label as on the master grid |
| TeacherManagement.RowClassCount | components/TeacherManagement.tsx:212-215 | the count is base + extra when that is positive, and 0 exactly when it is not |
| TeacherManagement.RowClasses | components/TeacherManagement.tsx:211-221 | a row lists exactly `row-1` .. `row-n` for n = max(0, base + extra), which are distinct |
| TeacherManagement.CoveredRows | components/TeacherManagement.tsx:211-230 | exactly the grade rows whose every class is a target |
| TeacherManagement.IndividualTargets | components/TeacherManagement.tsx:232-236 | exactly the targets outside a covered row |
| TeacherManagement.DisplayItems | components/TeacherManagement.tsx:208-236 | every covered row is shown by its label and every other target by its own; the covered rows' labels come first, then the labels of targets outside every covered row, and nothing else |
| TeacherManagement.GetFormattedTargets | components/TeacherManagement.tsx:205-239 | absent or empty targets give `전체 학년`; otherwise the text is empty iff every label is empty, and it contains every non-empty label |
| TeacherManagement.FormattedTargetsSplit | components/TeacherManagement.tsx:238 | when some label is non-empty and no label contains `, `, splitting the summary at `, ` gives back the non-empty labels in order |
| TeacherManagement.WholeRowShownByLabel | components/TeacherManagement.tsx:223-228 | a fully selected row is shown once, by its label |
| TeacherManagement.NoCoveredRowListsEach | components/TeacherManagement.tsx:232-236 | with no covered row every target is listed by its own label, in order |
| TeacherManagement.ToggleTarget | components/TeacherManagement.tsx:313-317 | flips the membership of the target and keeps every other target's |
| TeacherManagement.ToggleTwiceRestores | components/TeacherManagement.tsx:313-317 | toggling a target on and off restores the selection |
| TeacherManagement.HandleGradeLabelClick | components/TeacherManagement.tsx:319-340 | if the row's classes are all selected (and there are some) exactly they are removed; otherwise they are added without duplicates |
| TeacherManagement.GradeClickSelectsRow | components/TeacherManagement.tsx:319-340 | a click on a not fully selected, non-empty row selects all of it |
| TeacherManagement.GradeClickTwiceRestores | components/TeacherManagement.tsx:319-340 | clicking a fully selected row twice gives back the same set of targets |
| TeacherManagement.HandleTargetClick | components/TeacherManagement.tsx:241-265 | label-edit mode only toggles the menu; permissions change only on a confirmed grant request; a grade click selects the row, any other click toggles the target |
| TeacherManagement.ConfirmedLevelSelectionAllowsOverlap | components/TeacherManagement.tsx:245-257 | a confirmed selection of a new `레벨` target selects it and allows the subject's overlap for that grade |
| TeacherManagement.TargetClickKeepsPermissions | components/TeacherManagement.tsx:245-257 | a click never withdraws an overlap permission |
| TeacherManagement.LevelClassAsksForItsGrade | components/TeacherManagement.tsx:245-252 | selecting a new level class of a grade without permission asks for that grade |
| TeacherManagement.AddAssignment | components/TeacherManagement.tsx:129-147 | no subject is refused; otherwise one assignment is appended with the room, a sorted copy of a non-empty selection (absent otherwise) and the default hours |
| TeacherManagement.AssignedTargetsAreSelection | components/TeacherManagement.tsx:135-143 | the stored assignment targets exactly the selected classes, or every grade row when nothing was selected |
| TeacherManagement.HandleSaveTeacher | components/TeacherManagement.tsx:101-126 | a blank name and an empty assignment list are refused; a new teacher is appended; an edited teacher replaces the record with that id in place |
| TeacherManagement.SavedTeacherIsStored | components/TeacherManagement.tsx:101-126 | a valid save stores the form's teacher |
| TeacherManagement.AddClass | components/TeacherManagement.tsx:361-369 | the row's extra-class counter rises by one and nothing else changes |
| TeacherManagement.AddClassAppendsNext | components/TeacherManagement.tsx:361-369 | adding a class appends exactly the next numbered class to the row |
| TeacherManagement.HandleMenuDelete | components/TeacherManagement.tsx:273-297 | deleting a row drops it and deselects its classes; deleting a level class hides it; deleting a class lowers its row's counter by one; the deleted target is deselected |
| TeacherManagement.AddThenDeleteRestoresCounts | components/TeacherManagement.tsx:361-369 | adding a class and then deleting one from the same row (the decrement at line 290) restores every counter |
| RoomAssignment.ClassOptions | components/RoomAssignment.tsx:72-96 | one option per grade row with a positive class total, listing exactly `g-1` .. `g-total`; rows whose total is not positive are omitted |
| RoomAssignment.CustomRowFallbackIsEmpty | components/RoomAssignment.tsx:80-93 | the custom-row fallback never adds an option |
| RoomAssignment.FormatClass | components/RoomAssignment.tsx:9-21 | sentinels are shown as they are; a non-empty custom label wins; ids without a dash are kept |
| RoomAssignment.FormatClassOfLabelledGrade | components/RoomAssignment.tsx:13-18 | `g-c` of a labelled grade is shown as `label-c` |
| RoomAssignment.CellSlots | components/RoomAssignment.tsx:109-111 | exactly the slots in that room and cell |
| RoomAssignment.CapacityReasons | components/RoomAssignment.tsx:157-160 | a capacity reason is raised iff the room is known and occupants + added > capacity (the direct mode at line 127 is the one-class case) |
| RoomAssignment.ConflictReasons | components/RoomAssignment.tsx:162-172 | no conflict reason iff no target's probe slot conflicts |
| RoomAssignment.ExecuteBatchAssign | components/RoomAssignment.tsx:189-200 | one slot per target is appended, with that class, the subject and room, no teacher and the cell |
| RoomAssignment.CheckAndPlace | components/RoomAssignment.tsx:157-186 | the batch is placed iff every check passes; otherwise a force prompt carries the cell, the targets and non-empty reasons |
| RoomAssignment.HandleAssign | components/RoomAssignment.tsx:113-187 | no room does nothing; direct mode refuses blank input after trimming; selection modes refuse an empty selection; otherwise it places or asks to force |
| RoomAssignment.ConfirmForceAssign | components/RoomAssignment.tsx:202-207 | a forced batch appends one slot per target, in the asked-for day and period, with the room, the subject to use and no teacher |
| RoomAssignment.BatchFillsCell | components/RoomAssignment.tsx:189-200 | a batch adds exactly as many occupants to the cell as it has targets |
| RoomAssignment.UnforcedPlacementFitsRoom | components/RoomAssignment.tsx:157-186 | a placement without a force prompt never exceeds the room's capacity |
| RoomAssignment.BatchIdsDistinct | components/RoomAssignment.tsx:193 | different targets of one batch get different slot ids |
| RoomAssignment.BatchNotCheckedAgainstItself | components/RoomAssignment.tsx:162-186 | a class and a level class of its grade are placed together without a prompt, though the placed pair conflicts |
| RoomAssignment.ClickableCellFitsOne | components/RoomAssignment.tsx:475-505 | a cell that accepts clicks has room for one more class |
| RoomAssignment.DeleteFromRoomView | components/RoomAssignment.tsx:210-227 | a slot with a teacher, or an unconfirmed delete, changes nothing; otherwise exactly that id is removed |
| RoomAssignment.DeletingPlacedLessonRestores | components/RoomAssignment.tsx:189-227 | deleting a slot just placed from this view restores the timetable |
| ClassSchedule.GetSlot | components/ClassSchedule.tsx:70-83 | the class's own lesson is preferred; otherwise a grade-wide lesson of its numeric grade in that cell; nothing iff neither exists |
| ClassSchedule.ClassShowsGradeLevelLesson | components/ClassSchedule.tsx:70-83 | a class without its own lesson shows its grade's level lesson |
| ClassSchedule.UnlockedCellLessonIsOwn | components/ClassSchedule.tsx:500 | a lesson shown in a class cell that is not locked is the class's own |
| ClassSchedule.HandleHomeroomAssign | components/ClassSchedule.tsx:85-111 | an empty value is ignored; the custom choice opens the dialog; a locked lesson is never replaced; otherwise the old lesson is cleared and one homeroom lesson added |
| ClassSchedule.HomeroomKeepsLockedLessons | components/ClassSchedule.tsx:85-111 | a homeroom edit keeps every locked lesson |
| ClassSchedule.HomeroomLessonIsShown | components/ClassSchedule.tsx:85-111 | after a homeroom edit the cell shows the new lesson |
| ClassSchedule.HandleSaveCustomBlock | components/ClassSchedule.tsx:113-148 | without a pending cell nothing happens; the same lock rule applies; otherwise the old lesson is cleared and the custom block added |
| ClassSchedule.CustomBlockShape | components/ClassSchedule.tsx:127-144 | a custom block is a `기타` lesson without teacher or room, whose text defaults to `기타` and whose style defaults to gray |
| ClassSchedule.RemoveFromClassView | components/ClassSchedule.tsx:150-157 | a locked lesson is kept; otherwise exactly that id is removed |
| ClassSchedule.HandleClearClassSchedule | components/ClassSchedule.tsx:159-167 | only the class's teacher-less lessons are removed |
| ClassSchedule.ClearRemovesExactly | components/ClassSchedule.tsx:159-167 | with unique ids, exactly the class's teacher-less lessons are removed |
| ClassSchedule.ClearIdempotent | components/ClassSchedule.tsx:159-167 | clearing twice is the same as clearing once |
| ClassSchedule.GridRowFor | components/ClassSchedule.tsx:175-191 | a grid row carries the period's key, name and time, and one cell text per weekday from the class view |
| ClassSchedule.DecoratorGrid | components/ClassSchedule.tsx:169-199 | exactly the existing non-ETC periods, in order, each with its row |
| ClassSchedule.DecoratorGridKeysDistinct | components/ClassSchedule.tsx:169-199 | the grid's row keys are distinct |
| TeacherTimetable.FormatClassId | components/TeacherTimetable.tsx:60-95 | `미배정` becomes `-` and `기타` stays; a non-empty label wins; a `레벨` id gets the level label of its grade label; a plain id without a dash is kept |
| TeacherTimetable.NumberedClassLabel | components/TeacherTimetable.tsx:76-94 | `g-c` is shown as `label-c` when the grade is labelled, else as it is |
| TeacherTimetable.NumberedClassLabelAgreesWithRoomView | components/TeacherTimetable.tsx:76-94 | every `g-c` is labelled exactly as in the room view |
| TeacherTimetable.LevelClassLabel | components/TeacherTimetable.tsx:65-75 | `g레벨n` is shown with the grade's label, or g, followed by `학년 L` and the level mark |
| TeacherTimetable.LevelClassLabelAgreesWithMasterGrid | components/TeacherTimetable.tsx:65-75 | without a grade label, level classes are labelled as on the master grid |
| TeacherTimetable.LevelClassLabelsDistinct | components/TeacherTimetable.tsx:65-75 | two level classes of one grade never share a label |
| TeacherTimetable.CustomRowClassLabel | components/TeacherTimetable.tsx:79-92 | `custom-…-n` splits at its last dash: `label-n` for a labelled row, else `n` |
| TeacherTimetable.GetSlot | components/TeacherTimetable.tsx:160-162 | a found lesson is the teacher's, in that cell and not a sync copy; nothing is found iff every such lesson is a sync copy |
| TeacherTimetable.SyncCopyIsNeverShown | components/TeacherTimetable.tsx:160-162 | inserting a sync copy anywhere never changes what the cell shows |
| TeacherTimetable.OtherTeachersLessonIsNeverShown | components/TeacherTimetable.tsx:160-162 | inserting another teacher's lesson never changes what the cell shows |
| TeacherTimetable.LessonGrades | components/TeacherTimetable.tsx:415-420 | exactly the positive grades of the teacher's lessons not marked `미배정` |
| TeacherTimetable.TargetGrades | components/TeacherTimetable.tsx:421-430 | exactly the positive grades and the parsed numbers of the assignment targets, and nothing else |
| TeacherTimetable.AutoLayout | components/TeacherTimetable.tsx:405-444 | a single schedule shows A; the mini view and dual mode show both; otherwise both iff low and high grades are taught, and B iff only high grades are |
| TeacherTimetable.MixedGradesShowBoth | components/TeacherTimetable.tsx:432-436 | a teacher with a lesson in grade ≤ 2 and one in grade ≥ 3 sees both schedules |
| TeacherTimetable.UpperGradesUseScheduleB | components/TeacherTimetable.tsx:437-444 | a teacher with only upper-grade lessons sees schedule B on the left |
| TeacherTimetable.LessonsOverrideTargets | components/TeacherTimetable.tsx:421 | once a counted lesson has a grade, the assignment targets do not matter |
| TeacherTimetable.UncountedLessonKeepsLayout | components/TeacherTimetable.tsx:416 | an uncounted lesson never changes the layout |
| TeacherTimetable.TargetsDecideWithoutLessons | components/TeacherTimetable.tsx:421-436 | with no counted lessons, targets in low and high grades show both schedules |
| TeacherTimetable.LeftScheduleIndex | components/TeacherTimetable.tsx:444 | the left column uses schedule 1 exactly in the B-only layout |
| TeacherTimetable.EditorLines | components/TeacherTimetable.tsx:232-255 | rich text is copied; otherwise a `기타` lesson gives its custom text (or `기타`) as a title line, and any other lesson the class label and the subject, with empty lines dropped |
| TeacherTimetable.EditorEndsWithExportedText | components/TeacherTimetable.tsx:239-253 | the editor's last line is the text the class export shows for that lesson |

## Left out

- Rendering (JSX), drag and drop, modals, zoom, and memo dragging and resizing. These are user interface.
- HTML, XLS, print and image exports, and the `generate*Html` builders. These are DOM and file output.
- The teacher page's `handleDecorateClick`. It serialises a grid as JSON for another page. The same grid shape is modelled from the class page as `ClassSchedule.DecoratorGrid`.
- Password hashing, project save and load, and `importData`. These are asynchronous foreign calls and persistence.
- The image-prompt decorator page, and the room-timetable and venue-status pages. They only render and export, and their helpers copy the teacher page's.
- `getGradeAdjustedStyle` and `getSubjectColor`. They only rewrite colour classes.
- The constants file. It holds palettes and seed data.
- Rich-text editing after the editor opens: line edits, emoji insertion, saving. This is UI state.
- Identifiers made from `Date.now()`. They are opaque `stamp` parameters, so fresh ids are not guaranteed unique. A batch placement uses one `stamp` for all its targets, where the source reads the clock once per target; the ids still differ by target. `ScheduleStore.RemoveUndoesAdd` and similar lemmas assume the new id is unused.
- JavaScript numbers are IEEE doubles; the model uses unbounded integers. A `parseInt` of more than 15 digits therefore keeps its exact value, where the source may round it, and `String(n)` is modelled as plain decimal digits even for n ≥ 10^21, where the source switches to exponent notation.
- `alert` and `window.confirm`. They become outcome constructors and `bool` parameters.
- `JsText.NumberOf`: models `Number(text)` for blank text and for optionally signed decimal integers. Hexadecimal, fractional, exponent and `Infinity` spellings read as NaN in the model.
- `ClockTime.AddMinutesToTime`: a time whose parts use those spellings, such as `9.5:00`, is returned unchanged by the model. The source would compute a time from it through `Date`. The model also assumes the day has no daylight-saving transition, because it adds minutes modulo 24 hours.
- `ConflictEngine.CheckConflict`: the exact reason text is modelled, but its contract states only that a conflict carries a non-empty reason, not the wording.
- `RequiredBlocks.GetUnassignedSpecialistBlocks`: the block ids `${teacherId}-${cls}-${subject}-${i}` are built as in the source, but their uniqueness is not stated.
- `TeacherTimetable.FormatClassId`: its contract states the sentinel, label, level and no-dash cases. The dashed cases are stated by `TeacherTimetable.NumberedClassLabel` and `TeacherTimetable.CustomRowClassLabel` for ids of the shapes the application creates, not for arbitrary text.
- `TeacherManagement.GetLabel`: the level-class case is stated by `TeacherManagement.LevelClassLabelAgrees` for ids `g레벨n` only.
- `MasterSchedule.FormatClassId`: the level-class case is stated by `MasterSchedule.LevelClassLabel` for ids `g레벨n` only.
