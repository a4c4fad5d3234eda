/** The teacher page: labels of grade rows and classes, the one-line summary
    of an assignment's targets, selecting targets (one at a time or a whole
    grade row), the overlap grant asked for when a level class is selected,
    adding an assignment, saving a teacher, and the per-row class counters.

    The page's own state (the selection, the subject being assigned, the
    form fields) is passed in and handed back; `window.confirm` is the
    `confirmed` parameter and `Date.now()` in a new teacher's id is `stamp`. */
module TeacherManagement {
  import opened Basics
  import opened JsText
  import opened Types
  import opened ClassIds
  import opened OverlapPolicy
  import opened ScheduleStore
  import opened RequiredBlocks
  import MasterSchedule

  const GradeDigits: seq<string> := ["1", "2", "3", "4", "5", "6"]
  const AllGradesText: string := "전체 학년"
  const ListSeparator: string := ", "

  // ------------------------------------------------------------------ labels

  /** `getLabel`: a custom label whenever one is stored (even an empty one),
      `N학년` for the six grade numerals, nothing for a `custom-` row,
      `{prefix}학년 L{mark}` for a level class whose number reads (no mark
      when there is no number), and the id itself otherwise. */
  function GetLabel(id: string, customLabels: map<string, string>): (r: string)
    ensures id in customLabels ==> r == customLabels[id]
    ensures id !in customLabels && id in GradeDigits ==> r == id + "학년"
    ensures id !in customLabels && id !in GradeDigits && StartsWith(id, CustomPrefix) ==> r == ""
    ensures (id !in customLabels && id !in GradeDigits && !StartsWith(id, CustomPrefix)
             && !Contains(id, LevelMarker)) ==> r == id
  {
    if id in customLabels then customLabels[id]
    else if id in GradeDigits then id + "학년"
    else if StartsWith(id, CustomPrefix) then ""
    else if Contains(id, LevelMarker) then LevelClassText(id)
    else id
  }

  /** The level-class branch of `getLabel`: split at the marker, no mark
      when nothing follows it, the id itself when what follows does not
      read as a number. */
  function LevelClassText(id: string): string {
    var prefix := SplitHead(id, LevelMarker);
    var suffix := SplitSecond(id, LevelMarker);
    if suffix.None? || suffix.value == "" then LevelLabel(prefix, "")
    else
      match ParseInt(suffix.value)
      case Some(n) => LevelLabel(prefix, LevelMark(n))
      case None => id
  }

  function LabelWith(customLabels: map<string, string>): string -> string {
    (id: string) => GetLabel(id, customLabels)
  }

  /** An unlabelled level class reads `{g}학년 L` with the circled numeral
      of its number on the teacher page, exactly as the master grid shows
      it. */
  lemma LevelClassLabelAgrees(g: nat, n: nat, customLabels: map<string, string>)
    requires LevelClassId(g, n) !in customLabels
    ensures GetLabel(LevelClassId(g, n), customLabels) == LevelLabel(NatToString(g), LevelMark(n))
    ensures GetLabel(LevelClassId(g, n), customLabels)
         == MasterSchedule.FormatClassId(LevelClassId(g, n), customLabels)
  {
    LevelClassTakesLevelBranch(g, n, customLabels);
    LevelClassTextOfId(g, n);
    MasterSchedule.LevelClassLabel(g, n, customLabels);
  }

  lemma LevelClassTakesLevelBranch(g: nat, n: nat, customLabels: map<string, string>)
    requires LevelClassId(g, n) !in customLabels
    ensures GetLabel(LevelClassId(g, n), customLabels) == LevelClassText(LevelClassId(g, n))
  {
    var id := LevelClassId(g, n);
    LevelClassIdSplits(g, n);
    LevelClassIdShape(g, n);
    hide LevelClassText, LevelClassId, Split, NatToString;
    assert forall k :: 0 <= k < |GradeDigits| ==> |GradeDigits[k]| == 1;
    assert id !in GradeDigits;
  }

  /** A level class id is longer than a grade numeral and starts with a
      digit, so it is neither a grade row nor a `custom-` row. */
  lemma LevelClassIdShape(g: nat, n: nat)
    ensures |LevelClassId(g, n)| >= 3
    ensures !StartsWith(LevelClassId(g, n), CustomPrefix)
  {
    assert IsDigit(LevelClassId(g, n)[0]);
  }

  lemma LevelClassTextOfId(g: nat, n: nat)
    ensures LevelClassText(LevelClassId(g, n)) == LevelLabel(NatToString(g), LevelMark(n))
  {
    LevelClassIdParts(g, n);
  }

  // ------------------------------------------------------- rows and classes

  /** `Math.max(0, base + extra)` for a grade row: the base is the school's
      class count of the row's `parseInt` (0 when it is not a number), the
      extra count is the row's own entry. */
  function RowClassCount(row: string, school: SchoolInfo, layout: TeacherLayoutConfig): (n: nat)
    ensures n > 0 ==> n == BaseCount(row, school) + GetOr(layout.extraClassCounts, row, 0)
    ensures n == 0 <==> BaseCount(row, school) + GetOr(layout.extraClassCounts, row, 0) <= 0
  {
    var total := BaseCount(row, school) + GetOr(layout.extraClassCounts, row, 0);
    if total > 0 then total else 0
  }

  function BaseCount(row: string, school: SchoolInfo): int {
    match ParseInt(row)
    case Some(g) => GetOr(school.classesPerGrade, g, 0)
    case None => 0
  }

  /** `${row}-1` .. `${row}-${count}`. */
  function RowClasses(row: string, school: SchoolInfo, layout: TeacherLayoutConfig): (r: seq<string>)
    ensures |r| == RowClassCount(row, school, layout)
    ensures NoDups(r)
    ensures forall i :: 0 <= i < |r| ==> r[i] == row + "-" + IntToString(i + 1)
  {
    NumberedClassesDistinct(row, RowClassCount(row, school, layout));
    NumberedClasses(row, RowClassCount(row, school, layout))
  }

  /** The row has classes and every one of them is among the targets. */
  predicate Covers(targets: seq<string>, row: string, school: SchoolInfo, layout: TeacherLayoutConfig) {
    RowClassCount(row, school, layout) > 0
    && forall c :: c in RowClasses(row, school, layout) ==> c in targets
  }

  function CoversRow(targets: seq<string>, school: SchoolInfo, layout: TeacherLayoutConfig): string -> bool {
    (row: string) => Covers(targets, row, school, layout)
  }

  /** The target is a class of some fully selected row of the page. */
  predicate InCoveredRow(t: string, targets: seq<string>, school: SchoolInfo, layout: TeacherLayoutConfig) {
    exists row :: row in layout.grades && Covers(targets, row, school, layout)
                  && t in RowClasses(row, school, layout)
  }

  function NotInCoveredRow(targets: seq<string>, school: SchoolInfo, layout: TeacherLayoutConfig)
    : string -> bool
  {
    (t: string) => !InCoveredRow(t, targets, school, layout)
  }

  // ------------------------------------------------------- target summary

  /** The rows shown by their label: the page's rows every class of which
      is a target, in page order. */
  function CoveredRows(targets: seq<string>, school: SchoolInfo, layout: TeacherLayoutConfig)
    : (r: seq<string>)
    ensures forall row :: row in r <==> row in layout.grades && Covers(targets, row, school, layout)
  {
    Filter(layout.grades, CoversRow(targets, school, layout))
  }

  /** The targets listed one by one: those outside every covered row, in
      selection order. */
  function IndividualTargets(targets: seq<string>, school: SchoolInfo, layout: TeacherLayoutConfig)
    : (r: seq<string>)
    ensures forall t :: t in r <==> t in targets && !InCoveredRow(t, targets, school, layout)
  {
    Filter(targets, NotInCoveredRow(targets, school, layout))
  }

  /** The label of a fully selected row of the page. */
  predicate IsCoveredRowLabel(item: string, targets: seq<string>, school: SchoolInfo, layout: TeacherLayoutConfig) {
    exists row :: row in layout.grades && Covers(targets, row, school, layout)
                  && item == GetLabel(row, layout.customLabels)
  }

  /** The label of a target outside every fully selected row. */
  predicate IsSingleTargetLabel(item: string, targets: seq<string>, school: SchoolInfo, layout: TeacherLayoutConfig) {
    exists t :: t in targets && !InCoveredRow(t, targets, school, layout)
                && item == GetLabel(t, layout.customLabels)
  }

  /** The first `n` items are labels of fully selected rows, the rest
      labels of targets outside every such row. */
  predicate RowsThenSingles(items: seq<string>, n: int, targets: seq<string>,
                            school: SchoolInfo, layout: TeacherLayoutConfig) {
    && 0 <= n <= |items|
    && (forall k :: 0 <= k < n ==> IsCoveredRowLabel(items[k], targets, school, layout))
    && (forall k :: n <= k < |items| ==> IsSingleTargetLabel(items[k], targets, school, layout))
  }

  /** The labels before empty ones are dropped: the covered rows' labels,
      then the remaining targets' labels. Every covered row's label is
      shown, and every target is shown by its own label or through the
      label of a covered row holding it. */
  function DisplayItems(targets: seq<string>, school: SchoolInfo, layout: TeacherLayoutConfig)
    : (items: seq<string>)
    ensures forall row :: row in layout.grades && Covers(targets, row, school, layout) ==>
              GetLabel(row, layout.customLabels) in items
    ensures forall t :: t in targets ==>
              GetLabel(t, layout.customLabels) in items || InCoveredRow(t, targets, school, layout)
    ensures RowsThenSingles(items, |CoveredRows(targets, school, layout)|, targets, school, layout)
  {
    var rows := CoveredRows(targets, school, layout);
    var singles := IndividualTargets(targets, school, layout);
    var f := LabelWith(layout.customLabels);
    LabelsOfBoth(rows, singles, f);
    LabelsInOrder(rows, singles, targets, school, layout);
    Map(rows, f) + Map(singles, f)
  }

  /** The row labels come first, then the single targets' labels. */
  lemma LabelsInOrder(rows: seq<string>, singles: seq<string>, targets: seq<string>,
                      school: SchoolInfo, layout: TeacherLayoutConfig)
    requires forall row :: row in rows ==> row in layout.grades && Covers(targets, row, school, layout)
    requires forall t :: t in singles ==> t in targets && !InCoveredRow(t, targets, school, layout)
    ensures RowsThenSingles(Map(rows, LabelWith(layout.customLabels)) + Map(singles, LabelWith(layout.customLabels)),
                            |rows|, targets, school, layout)
  {
    hide Covers, InCoveredRow;
    var f := LabelWith(layout.customLabels);
    var heads, tails := Map(rows, f), Map(singles, f);
    forall k | 0 <= k < |rows| ensures IsCoveredRowLabel((heads + tails)[k], targets, school, layout) {
      assert (heads + tails)[k] == heads[k] == GetLabel(rows[k], layout.customLabels);
      assert rows[k] in rows;
    }
    forall k | |rows| <= k < |rows| + |singles|
      ensures IsSingleTargetLabel((heads + tails)[k], targets, school, layout)
    {
      var j := k - |heads|;
      assert (heads + tails)[k] == tails[j];
      assert tails[j] == GetLabel(singles[j], layout.customLabels);
      assert singles[j] in singles;
    }
  }

  lemma LabelsOfBoth(rows: seq<string>, singles: seq<string>, f: string -> string)
    ensures forall x :: x in rows ==> f(x) in Map(rows, f) + Map(singles, f)
    ensures forall x :: x in singles ==> f(x) in Map(rows, f) + Map(singles, f)
  {
    forall x | x in rows ensures f(x) in Map(rows, f) + Map(singles, f) {
      MapMember(rows, f, x);
    }
    forall x | x in singles ensures f(x) in Map(rows, f) + Map(singles, f) {
      MapMember(singles, f, x);
    }
  }

  function NonEmpty(): string -> bool {
    (l: string) => l != ""
  }

  /** `getFormattedTargets`: `전체 학년` for absent or empty targets;
      otherwise the non-empty display labels joined with `, `, so that the
      text is empty exactly when every label is and holds every non-empty
      label. */
  function GetFormattedTargets(targets: Option<seq<string>>, school: SchoolInfo,
                               layout: TeacherLayoutConfig): (r: string)
    ensures targets.None? || targets.value == [] ==> r == AllGradesText
    ensures targets.Some? && targets.value != [] ==>
              var items := DisplayItems(targets.value, school, layout);
              (r == "" <==> forall k :: 0 <= k < |items| ==> items[k] == "")
              && forall k :: 0 <= k < |items| && items[k] != "" ==> Contains(r, items[k])
  {
    if targets.None? || targets.value == [] then AllGradesText
    else
      var items := DisplayItems(targets.value, school, layout);
      JoinedLabels(items);
      Join(Filter(items, NonEmpty()), ListSeparator)
  }

  /** The non-empty labels joined with `, `: empty exactly when every label
      is, and holding each non-empty label. */
  lemma JoinedLabels(items: seq<string>)
    ensures var r := Join(Filter(items, NonEmpty()), ListSeparator);
            (r == "" <==> forall k :: 0 <= k < |items| ==> items[k] == "")
            && forall k :: 0 <= k < |items| && items[k] != "" ==> Contains(r, items[k])
  {
    var shown := Filter(items, NonEmpty());
    JoinEmptyIff(shown, ListSeparator);
    if shown != [] {
      assert shown[0] in items;
    }
    forall k | 0 <= k < |items| && items[k] != ""
      ensures Contains(Join(shown, ListSeparator), items[k])
    {
      assert items[k] in shown;
      var j :| 0 <= j < |shown| && shown[j] == items[k];
      JoinContainsPart(shown, ListSeparator, j);
    }
  }

  /** When no label holds the separator, splitting the summary at `, `
      gives back the non-empty labels in order. */
  lemma FormattedTargetsSplit(targets: seq<string>, school: SchoolInfo, layout: TeacherLayoutConfig)
    requires targets != []
    requires var items := DisplayItems(targets, school, layout);
             && (exists k :: 0 <= k < |items| && items[k] != "")
             && forall k :: 0 <= k < |items| ==> !Contains(items[k], ListSeparator)
    ensures Split(GetFormattedTargets(Some(targets), school, layout), ListSeparator)
         == Filter(DisplayItems(targets, school, layout), NonEmpty())
  {
    JoinedLabelsSplit(DisplayItems(targets, school, layout));
  }

  /** The non-empty labels, none holding the separator and not all empty,
      are split back out of their join. */
  lemma JoinedLabelsSplit(items: seq<string>)
    requires exists k :: 0 <= k < |items| && items[k] != ""
    requires forall k :: 0 <= k < |items| ==> !Contains(items[k], ListSeparator)
    ensures Split(Join(Filter(items, NonEmpty()), ListSeparator), ListSeparator)
         == Filter(items, NonEmpty())
  {
    var k :| 0 <= k < |items| && items[k] != "";
    FilteredSplitJoin(items, NonEmpty(), ListSeparator, k);
  }

  /** Splitting the join of the kept parts gives them back when one is kept,
      none holds the two-character separator and its characters differ. */
  lemma FilteredSplitJoin(items: seq<string>, keep: string -> bool, sep: string, k: nat)
    requires |sep| == 2 && sep[0] != sep[1]
    requires k < |items| && keep(items[k])
    requires forall i :: 0 <= i < |items| ==> !Contains(items[i], sep)
    ensures Split(Join(Filter(items, keep), sep), sep) == Filter(items, keep)
  {
    var shown := Filter(items, keep);
    assert items[k] in shown;
    forall j | 0 <= j < |shown| ensures !Contains(shown[j], sep) {
      assert shown[j] in items;
      var i :| 0 <= i < |items| && items[i] == shown[j];
    }
    SplitJoin(shown, sep);
  }

  /** A selection of exactly the classes of the page's only row is shown by
      that row's label alone. */
  lemma WholeRowShownByLabel(targets: seq<string>, row: string, school: SchoolInfo,
                             layout: TeacherLayoutConfig)
    requires layout.grades == [row]
    requires targets == RowClasses(row, school, layout) && targets != []
    ensures DisplayItems(targets, school, layout) == [GetLabel(row, layout.customLabels)]
  {
    var f := LabelWith(layout.customLabels);
    assert Covers(targets, row, school, layout);
    FilterAll(layout.grades, CoversRow(targets, school, layout));
    assert CoveredRows(targets, school, layout) == [row];
    forall t | t in targets ensures !NotInCoveredRow(targets, school, layout)(t) {
      assert InCoveredRow(t, targets, school, layout);
    }
    FilterNone(targets, NotInCoveredRow(targets, school, layout));
    assert IndividualTargets(targets, school, layout) == [];
  }

  /** When no row is fully selected, every target is listed by its own
      label, in selection order. */
  lemma NoCoveredRowListsEach(targets: seq<string>, school: SchoolInfo, layout: TeacherLayoutConfig)
    requires forall row :: row in layout.grades ==> !Covers(targets, row, school, layout)
    ensures DisplayItems(targets, school, layout) == Map(targets, LabelWith(layout.customLabels))
  {
    FilterNone(layout.grades, CoversRow(targets, school, layout));
    forall t | t in targets ensures NotInCoveredRow(targets, school, layout)(t) {
      assert !InCoveredRow(t, targets, school, layout);
    }
    FilterAll(targets, NotInCoveredRow(targets, school, layout));
    assert CoveredRows(targets, school, layout) == [];
    assert IndividualTargets(targets, school, layout) == targets;
    hide *;
    assert Map([], LabelWith(layout.customLabels)) == [];
  }

  // -------------------------------------------------------------- selection

  /** `toggleTarget`: removes the target when selected, appends it otherwise. */
  function ToggleTarget(selected: seq<string>, target: string): (r: seq<string>)
    ensures target in r <==> target !in selected
    ensures forall x :: x != target ==> (x in r <==> x in selected)
    ensures NoDups(selected) ==> NoDups(r)
  {
    if target in selected then
      FilterKeepsNoDups(selected, (t: string) => t != target);
      Filter(selected, (t: string) => t != target)
    else selected + [target]
  }

  /** Toggling an unselected target twice gives back the same selection. */
  lemma ToggleTwiceRestores(selected: seq<string>, target: string)
    requires target !in selected
    ensures ToggleTarget(ToggleTarget(selected, target), target) == selected
  {
    var p := (t: string) => t != target;
    assert ToggleTarget(selected, target) == selected + [target];
    FilterConcat(selected, [target], p);
    FilterAll(selected, p);
    FilterOfOne(target, p);
    assert selected + [] == selected;
  }

  /** Every class of the row is selected (and the row has one). */
  predicate AllSelected(classes: seq<string>, selected: seq<string>) {
    |classes| > 0 && forall c :: c in classes ==> c in selected
  }

  function NotAmong(classes: seq<string>): string -> bool {
    (t: string) => t !in classes
  }

  /** `handleGradeLabelClick`: when every class of the row is selected they
      are all deselected; otherwise the missing ones are added after the
      current selection, without duplicates. */
  function HandleGradeLabelClick(selected: seq<string>, row: string, school: SchoolInfo,
                                 layout: TeacherLayoutConfig): (r: seq<string>)
    ensures var classes := RowClasses(row, school, layout);
            AllSelected(classes, selected) ==>
              forall x :: x in r <==> x in selected && x !in classes
    ensures var classes := RowClasses(row, school, layout);
            !AllSelected(classes, selected) ==>
              NoDups(r) && forall x :: x in r <==> x in selected || x in classes
  {
    var classes := RowClasses(row, school, layout);
    if AllSelected(classes, selected) then Filter(selected, NotAmong(classes))
    else Dedup(selected + classes)
  }

  /** After clicking a row label that was not fully selected, a row with
      classes is fully selected. */
  lemma GradeClickSelectsRow(selected: seq<string>, row: string, school: SchoolInfo,
                             layout: TeacherLayoutConfig)
    requires !AllSelected(RowClasses(row, school, layout), selected)
    requires RowClassCount(row, school, layout) > 0
    ensures AllSelected(RowClasses(row, school, layout), HandleGradeLabelClick(selected, row, school, layout))
  {
  }

  /** Clicking a fully selected row's label twice selects the same classes
      as before (the order may change). */
  lemma GradeClickTwiceRestores(selected: seq<string>, row: string, school: SchoolInfo,
                                layout: TeacherLayoutConfig, x: string)
    requires AllSelected(RowClasses(row, school, layout), selected)
    ensures var once := HandleGradeLabelClick(selected, row, school, layout);
            x in HandleGradeLabelClick(once, row, school, layout) <==> x in selected
  {
    var classes := RowClasses(row, school, layout);
    var once := HandleGradeLabelClick(selected, row, school, layout);
    assert classes[0] !in once;
    assert !AllSelected(classes, once);
  }

  // ------------------------------------------------------- overlap grant

  /** Selecting a level class that is not yet selected, for a subject that
      does not allow overlap in the class's grade, asks to grant it. */
  predicate GrantAsked(selected: seq<string>, targetId: string, isGradeGroup: bool,
                       configs: map<string, SubjectConfig>, subject: string) {
    Contains(targetId, LevelMarker) && targetId !in selected && !isGradeGroup
    && !OverlapAllowed(configs, subject, ExtractGrade(targetId))
  }

  /** What a target click changes on the page and in the store. */
  datatype TargetClick = TargetClick(
    selected: seq<string>, configs: map<string, SubjectConfig>, activeMenu: Option<string>)

  /** `handleTargetClick`: in label-edit mode it only opens or closes the
      target's menu; otherwise it first grants overlap when asked and
      confirmed, then selects a whole row (a row label with its grade) or
      toggles the one target. */
  function HandleTargetClick(p: TargetClick, labelEditMode: bool, subject: string, targetId: string,
                             isGradeGroup: bool, grade: Option<string>, confirmed: bool,
                             school: SchoolInfo, layout: TeacherLayoutConfig): (r: TargetClick)
    ensures labelEditMode ==> r.selected == p.selected && r.configs == p.configs
    ensures labelEditMode ==> (r.activeMenu == Some(targetId) <==> p.activeMenu != Some(targetId))
    ensures !labelEditMode ==> r.activeMenu == p.activeMenu
    ensures r.configs != p.configs ==>
              !labelEditMode && confirmed && GrantAsked(p.selected, targetId, isGradeGroup, p.configs, subject)
    ensures !labelEditMode && isGradeGroup && grade.Some? ==>
              r.selected == HandleGradeLabelClick(p.selected, grade.value, school, layout)
    ensures !labelEditMode && !(isGradeGroup && grade.Some?) ==>
              r.selected == ToggleTarget(p.selected, targetId)
  {
    if labelEditMode then
      p.(activeMenu := if p.activeMenu == Some(targetId) then None else Some(targetId))
    else
      var configs :=
        if GrantAsked(p.selected, targetId, isGradeGroup, p.configs, subject) && confirmed
        then AddSubjectGradeOverlap(p.configs, subject, ExtractGrade(targetId))
        else p.configs;
      var selected :=
        if isGradeGroup && grade.Some? then HandleGradeLabelClick(p.selected, grade.value, school, layout)
        else ToggleTarget(p.selected, targetId);
      TargetClick(selected, configs, p.activeMenu)
  }

  /** A confirmed click on an unselected level class selects it and leaves
      its subject allowed to overlap in the class's grade. */
  lemma ConfirmedLevelSelectionAllowsOverlap(p: TargetClick, subject: string, targetId: string,
                                             confirmed: bool, school: SchoolInfo,
                                             layout: TeacherLayoutConfig)
    requires Contains(targetId, LevelMarker) && targetId !in p.selected && confirmed
    ensures var r := HandleTargetClick(p, false, subject, targetId, false, None, confirmed, school, layout);
            targetId in r.selected && OverlapAllowed(r.configs, subject, ExtractGrade(targetId))
  {
    GrantAllowsExactly(p.configs, subject, ExtractGrade(targetId), subject, ExtractGrade(targetId));
  }

  /** A target click never withdraws an overlap permission. */
  lemma TargetClickKeepsPermissions(p: TargetClick, labelEditMode: bool, subject: string,
                                    targetId: string, isGradeGroup: bool, grade: Option<string>,
                                    confirmed: bool, school: SchoolInfo, layout: TeacherLayoutConfig,
                                    s: string, g: int)
    requires OverlapAllowed(p.configs, s, g)
    ensures OverlapAllowed(HandleTargetClick(p, labelEditMode, subject, targetId, isGradeGroup, grade,
                                             confirmed, school, layout).configs, s, g)
  {
    if !labelEditMode && GrantAsked(p.selected, targetId, isGradeGroup, p.configs, subject) && confirmed {
      GrantMonotone(p.configs, subject, ExtractGrade(targetId), s, g);
    }
  }

  /** The level class `{g}레벨{n}` asks for a grant in its row's grade `g`. */
  lemma LevelClassAsksForItsGrade(selected: seq<string>, g: nat, n: nat,
                                  configs: map<string, SubjectConfig>, subject: string)
    requires LevelClassId(g, n) !in selected && !OverlapAllowed(configs, subject, g)
    ensures GrantAsked(selected, LevelClassId(g, n), false, configs, subject)
  {
    LevelClassIdParts(g, n);
  }

  // ------------------------------------------------------------ assignments

  datatype AssignOutcome = NoSubject | Assigned(assignments: seq<TeacherAssignment>)

  /** `addAssignment`: refused without a subject; otherwise appends an
      assignment whose targets are the sorted selection (absent when
      nothing is selected), whose room is absent when none is chosen and
      whose hours are the subject's required hours. The page then clears
      the selection. */
  function AddAssignment(assignments: seq<TeacherAssignment>, subject: string, room: string,
                         selected: seq<string>, hours: map<string, int>): (r: AssignOutcome)
    ensures r.NoSubject? <==> subject == ""
    ensures r.Assigned? ==> |r.assignments| == |assignments| + 1
                            && r.assignments[..|assignments|] == assignments
    ensures r.Assigned? ==>
              var a := r.assignments[|assignments|];
              a.subject == subject
              && (a.roomId.None? <==> room == "") && (a.roomId.Some? ==> a.roomId.value == room)
              && (a.targets.None? <==> selected == [])
              && (a.targets.Some? ==> multiset(a.targets.value) == multiset(selected)
                                      && SortedByKey(a.targets.value, (s: string) => s))
              && a.hours == Some(GetRequiredHours(hours, subject))
  {
    if subject == "" then NoSubject
    else
      var a := TeacherAssignment(
        subject,
        if room == "" then None else Some(room),
        if selected == [] then None else Some(SortStrings(selected)),
        Some(GetRequiredHours(hours, subject)));
      assert (assignments + [a])[..|assignments|] == assignments;
      Assigned(assignments + [a])
  }

  /** The stored assignment stands for exactly the selected targets, or for
      every grade row of the page when nothing was selected. */
  lemma AssignedTargetsAreSelection(assignments: seq<TeacherAssignment>, subject: string, room: string,
                                    selected: seq<string>, hours: map<string, int>,
                                    layout: TeacherLayoutConfig, x: string)
    requires subject != ""
    ensures var r := AddAssignment(assignments, subject, room, selected, hours);
            var a := r.assignments[|assignments|];
            selected == [] ==> TargetsOf(a, layout) == layout.grades
    ensures var r := AddAssignment(assignments, subject, room, selected, hours);
            var a := r.assignments[|assignments|];
            selected != [] ==> (x in TargetsOf(a, layout) <==> x in selected)
  {
    var r := AddAssignment(assignments, subject, room, selected, hours);
    var a := r.assignments[|assignments|];
    if selected != [] {
      var t := a.targets.value;
      assert multiset(t) == multiset(selected);
      assert x in t <==> x in multiset(t);
      assert x in selected <==> x in multiset(selected);
      assert t != [] by {
        assert selected[0] in multiset(selected);
      }
    }
  }

  datatype SaveOutcome = BlankName | NoAssignments | Saved(store: Store)

  /** The teacher record a save writes: the edited id, or a new
      `teacher-{stamp}` id. */
  function TeacherData(editingId: Option<string>, name: string, color: string,
                       assignments: seq<TeacherAssignment>, maxHours: int, stamp: string): Teacher {
    Teacher(if Truthy(editingId) then editingId.value else "teacher-" + stamp,
            name, color, assignments, Some(maxHours), None)
  }

  /** `handleSaveTeacher`: a name that is blank after trimming and an empty
      assignment list are refused, in that order; otherwise the teacher is
      added, or replaces the edited one, and nothing else in the store
      changes. */
  function HandleSaveTeacher(s: Store, editingId: Option<string>, name: string, color: string,
                             assignments: seq<TeacherAssignment>, maxHours: int, stamp: string)
    : (r: SaveOutcome)
    ensures r.BlankName? <==> Trim(name) == ""
    ensures r.NoAssignments? <==> Trim(name) != "" && assignments == []
    ensures r.Saved? ==> r.store.(teachers := s.teachers) == s
    ensures r.Saved? && !Truthy(editingId) ==>
              r.store.teachers
                == s.teachers + [Teacher("teacher-" + stamp, name, color, assignments, Some(maxHours), None)]
    ensures r.Saved? && Truthy(editingId) ==>
              |r.store.teachers| == |s.teachers|
              && forall i :: 0 <= i < |s.teachers| ==>
                   r.store.teachers[i]
                     == (if s.teachers[i].id == editingId.value
                         then Teacher(editingId.value, name, color, assignments, Some(maxHours), None)
                         else s.teachers[i])
  {
    if Trim(name) == "" then BlankName
    else if assignments == [] then NoAssignments
    else
      var t := TeacherData(editingId, name, color, assignments, maxHours, stamp);
      if Truthy(editingId) then Saved(UpdateTeacher(s, t)) else Saved(AddTeacher(s, t))
  }

  /** A saved teacher is in the store afterwards under its id, with the
      name and assignments of the form, provided an edited teacher was
      there to replace. */
  lemma SavedTeacherIsStored(s: Store, editingId: Option<string>, name: string, color: string,
                             assignments: seq<TeacherAssignment>, maxHours: int, stamp: string)
    requires Trim(name) != "" && assignments != []
    requires Truthy(editingId) ==> exists t :: t in s.teachers && t.id == editingId.value
    ensures var r := HandleSaveTeacher(s, editingId, name, color, assignments, maxHours, stamp);
            r.Saved? && TeacherData(editingId, name, color, assignments, maxHours, stamp) in r.store.teachers
  {
    var r := HandleSaveTeacher(s, editingId, name, color, assignments, maxHours, stamp);
    if Truthy(editingId) {
      var t :| t in s.teachers && t.id == editingId.value;
      var i :| 0 <= i < |s.teachers| && s.teachers[i] == t;
      assert r.store.teachers[i] == TeacherData(editingId, name, color, assignments, maxHours, stamp);
    } else {
      assert r.store.teachers[|s.teachers|] == TeacherData(editingId, name, color, assignments, maxHours, stamp);
    }
  }

  // --------------------------------------------------------- class counters

  /** `handleAddClassButton`: one more extra class in the row. */
  function AddClass(layout: TeacherLayoutConfig, row: string): (r: TeacherLayoutConfig)
    ensures GetOr(r.extraClassCounts, row, 0) == GetOr(layout.extraClassCounts, row, 0) + 1
    ensures forall k :: k != row ==> GetOr(r.extraClassCounts, k, 0) == GetOr(layout.extraClassCounts, k, 0)
    ensures r.(extraClassCounts := layout.extraClassCounts) == layout
  {
    var e := layout.extraClassCounts;
    layout.(extraClassCounts := e[row := GetOr(e, row, 0) + 1])
  }

  /** A row whose count is not negative gains exactly its next numbered
      class. */
  lemma AddClassAppendsNext(layout: TeacherLayoutConfig, school: SchoolInfo, row: string)
    requires BaseCount(row, school) + GetOr(layout.extraClassCounts, row, 0) >= 0
    ensures var n := RowClassCount(row, school, layout);
            RowClasses(row, school, AddClass(layout, row))
              == RowClasses(row, school, layout) + [row + "-" + IntToString(n + 1)]
  {
    assert RowClassCount(row, school, AddClass(layout, row)) == RowClassCount(row, school, layout) + 1;
  }

  datatype MenuDelete = MenuDelete(layout: TeacherLayoutConfig, selected: seq<string>)

  function StartsWithout(prefix: string): string -> bool {
    (t: string) => !StartsWith(t, prefix)
  }

  /** `handleMenuDelete`: deleting a grade row drops the row and deselects
      every target starting with its id; deleting a level class hides it
      and deselects it; deleting a class of a row (`gradeId` given) takes
      one extra class off the row and deselects the class; anything else
      changes nothing. */
  function HandleMenuDelete(layout: TeacherLayoutConfig, selected: seq<string>, targetId: string,
                            gradeId: Option<string>): (r: MenuDelete)
    ensures targetId in layout.grades ==>
              r.layout == layout.(grades := Filter(layout.grades, (g: string) => g != targetId))
              && forall t :: t in r.selected <==> t in selected && !StartsWith(t, targetId)
    ensures targetId !in layout.grades && Contains(targetId, LevelMarker) ==>
              r.layout == layout.(hiddenLevel := layout.hiddenLevel + [targetId])
    ensures targetId !in layout.grades && !Contains(targetId, LevelMarker) && Truthy(gradeId) ==>
              r.layout.(extraClassCounts := layout.extraClassCounts) == layout
              && GetOr(r.layout.extraClassCounts, gradeId.value, 0)
                   == GetOr(layout.extraClassCounts, gradeId.value, 0) - 1
              && forall k :: k != gradeId.value ==>
                   GetOr(r.layout.extraClassCounts, k, 0) == GetOr(layout.extraClassCounts, k, 0)
    ensures targetId !in layout.grades && (Contains(targetId, LevelMarker) || Truthy(gradeId)) ==>
              forall t :: t in r.selected <==> t in selected && t != targetId
    ensures targetId !in layout.grades && !Contains(targetId, LevelMarker) && !Truthy(gradeId) ==>
              r == MenuDelete(layout, selected)
  {
    if targetId in layout.grades then
      MenuDelete(layout.(grades := Filter(layout.grades, (g: string) => g != targetId)),
                 Filter(selected, StartsWithout(targetId)))
    else if Contains(targetId, LevelMarker) then
      MenuDelete(layout.(hiddenLevel := layout.hiddenLevel + [targetId]),
                 Filter(selected, (t: string) => t != targetId))
    else if Truthy(gradeId) then
      var e := layout.extraClassCounts;
      MenuDelete(layout.(extraClassCounts := e[gradeId.value := GetOr(e, gradeId.value, 0) - 1]),
                 Filter(selected, (t: string) => t != targetId))
    else MenuDelete(layout, selected)
  }

  /** Adding a class to a row and deleting one of its classes leaves every
      row's count as it was. */
  lemma AddThenDeleteRestoresCounts(layout: TeacherLayoutConfig, selected: seq<string>,
                                    row: string, classId: string, k: string)
    requires row != "" && classId !in layout.grades && !Contains(classId, LevelMarker)
    ensures var r := HandleMenuDelete(AddClass(layout, row), selected, classId, Some(row));
            GetOr(r.layout.extraClassCounts, k, 0) == GetOr(layout.extraClassCounts, k, 0)
  {
  }
}
