/** The bell-schedule editor of the settings page: adding, removing,
    reordering and editing periods, inserting and removing the two special
    breaks, choosing the grades a schedule serves, and adding subjects.
    Every edit that rebuilds a schedule lists its periods in ascending key
    order and numbers them again from 1. The class length the editor uses
    (`defaultClassDuration`, 40 minutes unless changed) is a parameter. */
module Settings {
  import opened Basics
  import opened JsText
  import opened Types
  import opened ClockTime

  /** Minutes between the end of a period and the start of the next. */
  const PassingMinutes: int := 10
  const FirstStart: string := "09:00"
  const MiddleBreakName: string := "중간놀이"
  const LunchName: string := "점심시간"
  const FourthPeriodMark: string := "4교시"
  const MiddleBreakMinutes: int := 20
  const LunchMinutes: int := 50

  // ---------------------------------------------------------------------
  // Period lists and renumbering
  // ---------------------------------------------------------------------

  /** The period numbers of a schedule in ascending order. */
  function SortedKeys(periods: map<int, PeriodInfo>): (ks: seq<int>)
    ensures Increasing(ks)
    ensures forall k :: k in ks <==> k in periods
  {
    SortedElements(periods.Keys)
  }

  /** The periods of a schedule in ascending key order. */
  function PeriodList(periods: map<int, PeriodInfo>): (vs: seq<PeriodInfo>)
    ensures |vs| == |SortedKeys(periods)|
    ensures forall i :: 0 <= i < |vs| ==> vs[i] == periods[SortedKeys(periods)[i]]
  {
    var ks := SortedKeys(periods);
    seq(|ks|, i requires 0 <= i < |ks| => periods[ks[i]])
  }

  /** The keys `1..n`. */
  ghost predicate NumberedFromOne(periods: map<int, PeriodInfo>, n: int) {
    forall k :: k in periods <==> 1 <= k <= n
  }

  /** `values.forEach((val, i) => newPeriods[i + 1] = val)`. */
  function Renumber(vs: seq<PeriodInfo>): (m: map<int, PeriodInfo>)
    ensures NumberedFromOne(m, |vs|)
    ensures forall i :: 0 <= i < |vs| ==> m[i + 1] == vs[i]
  {
    map k | k in OneTo(|vs|) :: vs[k - 1]
  }

  /** The numbers `1..n` in order. */
  function OneTo(n: nat): (r: seq<int>)
    ensures |r| == n
    ensures forall i :: 0 <= i < n ==> r[i] == i + 1
    ensures forall k :: k in r <==> 1 <= k <= n
  {
    var r := seq(n, i => i + 1);
    assert forall k :: 1 <= k <= n ==> k in r by {
      forall k | 1 <= k <= n ensures k in r {
        assert r[k - 1] == k;
      }
    }
    r
  }

  /** Keys numbered `1..n` are listed as `1, 2, …, n`. */
  lemma SortedKeysNumbered(periods: map<int, PeriodInfo>, n: nat)
    requires NumberedFromOne(periods, n)
    ensures SortedKeys(periods) == OneTo(n)
  {
    IncreasingUnique(SortedKeys(periods), OneTo(n));
  }

  /** Renumbering keeps the order of the rows: listing the renumbered
      schedule gives the rows back. */
  lemma PeriodListRenumber(vs: seq<PeriodInfo>)
    ensures PeriodList(Renumber(vs)) == vs
  {
    SortedKeysNumbered(Renumber(vs), |vs|);
  }

  /** A schedule already numbered `1..n` is its own renumbering. */
  lemma RenumberPeriodList(periods: map<int, PeriodInfo>, n: nat)
    requires NumberedFromOne(periods, n)
    ensures Renumber(PeriodList(periods)) == periods
  {
    hide PeriodList, Renumber, SortedKeys, OneTo;
    SortedKeysNumbered(periods, n);
    var vs := PeriodList(periods);
    var m := Renumber(vs);
    assert |vs| == n;
    assert m.Keys == periods.Keys;
    forall k | k in periods ensures m[k] == periods[k] {
      assert m[(k - 1) + 1] == vs[k - 1];
      assert SortedKeys(periods)[k - 1] == k;
    }
  }


  // ---------------------------------------------------------------------
  // Editing one schedule of the school
  // ---------------------------------------------------------------------

  /** Applies an edit to the schedule at `index`; an index with no schedule
      leaves the school as it is, and no other schedule changes. */
  function EditSchedule(school: SchoolInfo, index: int, edit: BellSchedule -> BellSchedule): (r: SchoolInfo)
    ensures r.(bellSchedules := school.bellSchedules) == school
    ensures |r.bellSchedules| == |school.bellSchedules|
    ensures forall i :: 0 <= i < |school.bellSchedules| && i != index ==>
              r.bellSchedules[i] == school.bellSchedules[i]
    ensures 0 <= index < |school.bellSchedules| ==>
              r.bellSchedules[index] == edit(school.bellSchedules[index])
    ensures !(0 <= index < |school.bellSchedules|) ==> r == school
  {
    if 0 <= index < |school.bellSchedules| then
      school.(bellSchedules := school.bellSchedules[index := edit(school.bellSchedules[index])])
    else school
  }

  // ---------------------------------------------------------------------
  // addPeriod / removePeriod
  // ---------------------------------------------------------------------

  /** `Math.max(...keys) + 1`, or 1 for a schedule without periods. */
  function NewPeriodNumber(periods: map<int, PeriodInfo>): (n: int)
    ensures forall k :: k in periods ==> k < n
    ensures periods == map[] ==> n == 1
    ensures periods != map[] ==> n - 1 in periods
  {
    var ks := SortedKeys(periods);
    if ks == [] then 1 else ks[|ks| - 1] + 1
  }

  /** Where the new period starts: ten minutes after the end of the last
      period when the last period number is positive, else 09:00. */
  function NewPeriodStart(periods: map<int, PeriodInfo>): string {
    var last := NewPeriodNumber(periods) - 1;
    if last > 0 && last in periods then AddMinutesToTime(periods[last].end, PassingMinutes)
    else FirstStart
  }

  /** `addPeriod`: appends the class period `n교시` after the highest
      number `n - 1`, lasting `duration` minutes; refused past period 15. */
  function AddPeriod(s: BellSchedule, duration: int): (r: BellSchedule)
    ensures r.(periods := s.periods) == s
    ensures NewPeriodNumber(s.periods) > MaxPeriod ==> r == s
    ensures NewPeriodNumber(s.periods) <= MaxPeriod ==>
              var n := NewPeriodNumber(s.periods);
              && n !in s.periods
              && (forall k :: k in r.periods <==> k in s.periods || k == n)
              && (forall k :: k in s.periods ==> r.periods[k] == s.periods[k])
              && r.periods[n].kind == Some(Class)
              && r.periods[n].name == Some(IntToString(n) + "교시")
              && r.periods[n].end == AddMinutesToTime(r.periods[n].start, duration)
  {
    var n := NewPeriodNumber(s.periods);
    if n > MaxPeriod then s
    else
      var start := NewPeriodStart(s.periods);
      var added := PeriodInfo(start, AddMinutesToTime(start, duration), Some(IntToString(n) + "교시"), Some(Class));
      s.(periods := s.periods[n := added])
  }

  /** `removePeriod`: deletes the one key; the others keep their numbers. */
  function RemovePeriod(s: BellSchedule, period: int): (r: BellSchedule)
    ensures r.(periods := s.periods) == s
    ensures forall k :: k in r.periods <==> k in s.periods && k != period
    ensures forall k :: k in r.periods ==> r.periods[k] == s.periods[k]
    ensures period !in s.periods ==> r == s
  {
    s.(periods := s.periods - {period})
  }

  /** Removing the period just added gives the schedule back. */
  lemma RemoveUndoesAddPeriod(s: BellSchedule, duration: int)
    requires NewPeriodNumber(s.periods) <= MaxPeriod
    ensures RemovePeriod(AddPeriod(s, duration), NewPeriodNumber(s.periods)) == s
  {
    var r := RemovePeriod(AddPeriod(s, duration), NewPeriodNumber(s.periods));
    assert r.periods == s.periods;
  }

  /** 09:00 reads as minute 540. */
  lemma FirstStartReads()
    ensures ParseClock(FirstStart) == Some(9 * 60)
  {
    hide *;
    FirstStartSpelled();
    HoursMinutesRoundTrip(9, 0);
  }

  lemma FirstStartSpelled()
    ensures HoursMinutesText(9, 0) == FirstStart
  {
    assert NatToString(9) == "9";
    assert NatToString(0) == "0";
  }

  /** The first period of an empty schedule runs from 09:00 for
      `duration` minutes. */
  lemma FirstPeriodTimes(s: BellSchedule, duration: int)
    requires s.periods == map[]
    ensures AddPeriod(s, duration).periods[1].start == FirstStart
    ensures ParseClock(AddPeriod(s, duration).periods[1].end) == Some((9 * 60 + duration) % MinutesPerDay)
  {
    FirstStartReads();
    AddMinutesReadsBack(FirstStart, 9 * 60, duration);
  }

  /** A period added after a last period ending at minute `t` starts ten
      minutes later and ends `duration` minutes after that, modulo a day. */
  lemma AddedPeriodFollowsLast(s: BellSchedule, duration: int, t: int)
    requires NewPeriodNumber(s.periods) <= MaxPeriod
    requires NewPeriodNumber(s.periods) - 1 in s.periods && NewPeriodNumber(s.periods) - 1 > 0
    requires var last := s.periods[NewPeriodNumber(s.periods) - 1];
             last.end != "" && ParseClock(last.end) == Some(t)
    ensures var p := AddPeriod(s, duration).periods[NewPeriodNumber(s.periods)];
            && ParseClock(p.start) == Some((t + PassingMinutes) % MinutesPerDay)
            && ParseClock(p.end) == Some(((t + PassingMinutes) % MinutesPerDay + duration) % MinutesPerDay)
  {
    var n := NewPeriodNumber(s.periods);
    var last := s.periods[n - 1];
    var start := NewPeriodStart(s.periods);
    AddedPeriodShape(s, duration);
    assert start == AddMinutesToTime(last.end, PassingMinutes);
    hide AddPeriod, NewPeriodStart, NewPeriodNumber, AddMinutesToTime, ParseClock;
    ChainedTimes(last.end, start, t, PassingMinutes, duration);
  }

  /** The added period starts where `NewPeriodStart` says and lasts
      `duration` minutes. */
  lemma AddedPeriodShape(s: BellSchedule, duration: int)
    requires NewPeriodNumber(s.periods) <= MaxPeriod
    ensures var p := AddPeriod(s, duration).periods[NewPeriodNumber(s.periods)];
            p.start == NewPeriodStart(s.periods) && p.end == AddMinutesToTime(p.start, duration)
  {
    hide AddMinutesToTime, NewPeriodStart;
  }

  /** A time read as minute `t`, moved by `gap` and then by `length`
      minutes, reads back as those minutes of the day. */
  lemma ChainedTimes(prevEnd: string, start: string, t: int, gap: int, length: int)
    requires prevEnd != "" && ParseClock(prevEnd) == Some(t)
    requires start == AddMinutesToTime(prevEnd, gap)
    ensures ParseClock(start) == Some((t + gap) % MinutesPerDay)
    ensures ParseClock(AddMinutesToTime(start, length))
            == Some(((t + gap) % MinutesPerDay + length) % MinutesPerDay)
  {
    hide ParseClock, ClockOfMinute;
    AddMinutesReadsBack(prevEnd, t, gap);
    assert start != "";
    AddMinutesReadsBack(start, (t + gap) % MinutesPerDay, length);
  }

  // ---------------------------------------------------------------------
  // reorderPeriod
  // ---------------------------------------------------------------------

  datatype Direction = Up | Down

  /** Exchanges two rows. */
  function Swap(vs: seq<PeriodInfo>, i: nat, j: nat): (r: seq<PeriodInfo>)
    requires i < j < |vs|
    ensures |r| == |vs| && r[i] == vs[j] && r[j] == vs[i]
    ensures forall k :: 0 <= k < |vs| && k != i && k != j ==> r[k] == vs[k]
    ensures multiset(r) == multiset(vs)
  {
    vs[i := vs[j]][j := vs[i]]
  }

  /** `sortedKeys.indexOf(period)`. */
  function KeyIndex(periods: map<int, PeriodInfo>, period: int): (r: Option<nat>)
    ensures r.Some? <==> period in periods
    ensures r.Some? ==> r.value < |SortedKeys(periods)| && SortedKeys(periods)[r.value] == period
  {
    FindIndex(SortedKeys(periods), (k: int) => k == period)
  }

  /** The position in key order a period moves to: one up or one down,
      when there is a neighbour on that side. */
  function MoveTarget(periods: map<int, PeriodInfo>, period: int, dir: Direction): (r: Option<nat>)
    ensures r.Some? ==> period in periods && r.value < |SortedKeys(periods)|
    ensures r.Some? ==> var i := KeyIndex(periods, period).value;
                        if dir == Up then r.value + 1 == i else r.value == i + 1
  {
    match KeyIndex(periods, period)
    case None => None
    case Some(i) =>
      if dir == Up && i > 0 then Some(i - 1)
      else if dir == Down && i < |SortedKeys(periods)| - 1 then Some(i + 1)
      else None
  }

  /** A known period cannot move up exactly when it has the lowest number,
      and cannot move down exactly when it has the highest. */
  lemma MoveTargetAtEdges(periods: map<int, PeriodInfo>, period: int, dir: Direction)
    requires period in periods
    ensures dir == Up ==> (MoveTarget(periods, period, dir).None? <==> forall k :: k in periods ==> period <= k)
    ensures dir == Down ==> (MoveTarget(periods, period, dir).None? <==> forall k :: k in periods ==> k <= period)
  {
    hide SortedKeys, KeyIndex;
    var ks := SortedKeys(periods);
    var i := KeyIndex(periods, period).value;
    if dir == Up && i > 0 {
      assert ks[i - 1] in periods;
    } else if dir == Down && i < |ks| - 1 {
      assert ks[i + 1] in periods;
    } else {
      EndsOfIncreasing(ks, i);
    }
  }

  /** The first element of an increasing sequence is its least, the last
      its greatest. */
  lemma EndsOfIncreasing(ks: seq<int>, i: nat)
    requires Increasing(ks) && i < |ks|
    ensures i == 0 ==> forall k :: k in ks ==> ks[i] <= k
    ensures i == |ks| - 1 ==> forall k :: k in ks ==> k <= ks[i]
  {
    forall k | k in ks ensures (i == 0 ==> ks[i] <= k) && (i == |ks| - 1 ==> k <= ks[i]) {
      var m :| 0 <= m < |ks| && ks[m] == k;
    }
  }

  /** `reorderPeriod`: swaps a period with its neighbour in key order and
      numbers the periods 1..n; nothing happens for an unknown period or
      at either end. */
  function ReorderPeriod(s: BellSchedule, period: int, dir: Direction): (r: BellSchedule)
    ensures r.(periods := s.periods) == s
    ensures MoveTarget(s.periods, period, dir).None? ==> r == s
    ensures MoveTarget(s.periods, period, dir).Some? ==> NumberedFromOne(r.periods, |s.periods.Keys|)
  {
    match MoveTarget(s.periods, period, dir)
    case None => s
    case Some(j) =>
      var i := KeyIndex(s.periods, period).value;
      s.(periods := Renumber(MovedRows(PeriodList(s.periods), i, j)))
  }

  /** The rows after a move: the moved period and its neighbour exchanged. */
  function MovedRows(vs: seq<PeriodInfo>, i: nat, j: nat): (r: seq<PeriodInfo>)
    requires i < |vs| && j < |vs| && i != j
    ensures |r| == |vs| && r[i] == vs[j] && r[j] == vs[i]
    ensures forall k :: 0 <= k < |vs| && k != i && k != j ==> r[k] == vs[k]
    ensures multiset(r) == multiset(vs)
  {
    if i < j then Swap(vs, i, j) else Swap(vs, j, i)
  }

  lemma ReorderShape(s: BellSchedule, period: int, dir: Direction)
    requires MoveTarget(s.periods, period, dir).Some?
    ensures var i, j := KeyIndex(s.periods, period).value, MoveTarget(s.periods, period, dir).value;
            i != j && i < |PeriodList(s.periods)|
            && ReorderPeriod(s, period, dir) == s.(periods := Renumber(MovedRows(PeriodList(s.periods), i, j)))
  {
    hide SortedKeys, KeyIndex, PeriodList, Renumber, MovedRows;
  }

  /** In a schedule numbered 1..n, period `k` sits at position `k - 1`. */
  lemma KeyIndexOfNumbered(periods: map<int, PeriodInfo>, n: nat, k: int)
    requires NumberedFromOne(periods, n) && 1 <= k <= n
    ensures KeyIndex(periods, k) == Some(k - 1)
  {
    hide KeyIndex, SortedKeys, OneTo;
    SortedKeysNumbered(periods, n);
    var v := KeyIndex(periods, k).value;
    assert OneTo(n)[v] == v + 1;
  }

  /** On a schedule numbered 1..n, moving period `k < n` down exchanges
      rows `k - 1` and `k`. */
  lemma DownOnNumbered(t: BellSchedule, n: nat, k: int)
    requires NumberedFromOne(t.periods, n) && 1 <= k < n
    ensures |PeriodList(t.periods)| == n
    ensures ReorderPeriod(t, k, Down) == t.(periods := Renumber(MovedRows(PeriodList(t.periods), k - 1, k)))
  {
    MoveDownOnNumbered(t.periods, n, k);
    ReorderShape(t, k, Down);
    hide MoveTarget, KeyIndex, ReorderPeriod;
  }

  /** On keys 1..n, period `k < n` sits at position `k - 1` and moves
      down to position `k`. */
  lemma MoveDownOnNumbered(periods: map<int, PeriodInfo>, n: nat, k: int)
    requires NumberedFromOne(periods, n) && 1 <= k < n
    ensures |PeriodList(periods)| == n
    ensures KeyIndex(periods, k) == Some(k - 1) && MoveTarget(periods, k, Down) == Some(k)
  {
    hide SortedKeys, OneTo, KeyIndex, PeriodList;
    KeyIndexOfNumbered(periods, n, k);
    SortedKeysNumbered(periods, n);
  }

  lemma SwapTwice(vs: seq<PeriodInfo>, i: nat, j: nat)
    requires i < |vs| && j < |vs| && i != j
    ensures MovedRows(MovedRows(vs, i, j), j, i) == vs
  {
  }

  /** Reordering keeps the multiset of period records, puts the moved
      period at its neighbour's position and the neighbour at its own, and
      leaves every other row where it was. */
  lemma ReorderPermutes(s: BellSchedule, period: int, dir: Direction)
    requires MoveTarget(s.periods, period, dir).Some?
    ensures var vs := PeriodList(s.periods);
            var ws := PeriodList(ReorderPeriod(s, period, dir).periods);
            var i, j := KeyIndex(s.periods, period).value, MoveTarget(s.periods, period, dir).value;
            && multiset(ws) == multiset(vs)
            && |ws| == |vs|
            && ws[j] == s.periods[period]
            && ws[i] == vs[j]
            && (forall k :: 0 <= k < |vs| && k != i && k != j ==> ws[k] == vs[k])
  {
    var vs := PeriodList(s.periods);
    var i, j := KeyIndex(s.periods, period).value, MoveTarget(s.periods, period, dir).value;
    ReorderShape(s, period, dir);
    hide ReorderPeriod, MoveTarget, Renumber;
    PeriodListRenumber(MovedRows(vs, i, j));
  }

  /** After moving a period up from position `j + 1` to `j`, the
      schedule is numbered 1..n and lists the exchanged rows. */
  lemma UpShape(s: BellSchedule, period: int)
    requires MoveTarget(s.periods, period, Up).Some?
    ensures var j := MoveTarget(s.periods, period, Up).value;
            && j + 1 < |PeriodList(s.periods)|
            && ReorderPeriod(s, period, Up)
               == s.(periods := Renumber(MovedRows(PeriodList(s.periods), j + 1, j)))
  {
    hide SortedKeys, KeyIndex, PeriodList, Renumber, MovedRows, ReorderPeriod;
    ReorderShape(s, period, Up);
  }

  lemma UpRows(s: BellSchedule, period: int)
    requires MoveTarget(s.periods, period, Up).Some?
    ensures var vs := PeriodList(s.periods);
            var j := MoveTarget(s.periods, period, Up).value;
            var s1 := ReorderPeriod(s, period, Up);
            && j + 1 < |vs|
            && s1 == s.(periods := s1.periods)
            && NumberedFromOne(s1.periods, |vs|)
            && PeriodList(s1.periods) == MovedRows(vs, j + 1, j)
  {
    hide *;
    var vs := PeriodList(s.periods);
    var j := MoveTarget(s.periods, period, Up).value;
    UpShape(s, period);
    var ws := MovedRows(vs, j + 1, j);
    PeriodListRenumber(ws);
  }

  /** Moving a period up and then moving it (now numbered `j + 1`) down
      restores the order of the rows. */
  lemma ReorderUpThenDown(s: BellSchedule, period: int)
    requires MoveTarget(s.periods, period, Up).Some?
    ensures var j := MoveTarget(s.periods, period, Up).value;
            ReorderPeriod(ReorderPeriod(s, period, Up), j + 1, Down)
              == s.(periods := Renumber(PeriodList(s.periods)))
  {
    hide *;
    var vs := PeriodList(s.periods);
    var j := MoveTarget(s.periods, period, Up).value;
    var s1 := ReorderPeriod(s, period, Up);
    UpRows(s, period);
    DownOnNumbered(s1, |vs|, j + 1);
    SwapTwice(vs, j + 1, j);
  }

  /** On a schedule numbered 1..n, moving a period up and back down
      restores the schedule exactly. */
  lemma ReorderUpThenDownNumbered(s: BellSchedule, period: int, n: nat)
    requires MoveTarget(s.periods, period, Up).Some?
    requires NumberedFromOne(s.periods, n)
    ensures var j := MoveTarget(s.periods, period, Up).value;
            ReorderPeriod(ReorderPeriod(s, period, Up), j + 1, Down) == s
  {
    ReorderUpThenDown(s, period);
    hide ReorderPeriod, PeriodList, Renumber, MoveTarget;
    RenumberPeriodList(s.periods, n);
  }

  // ---------------------------------------------------------------------
  // toggleSpecialBreak
  // ---------------------------------------------------------------------

  datatype BreakKind = Middle | Lunch

  function BreakName(kind: BreakKind): (n: string)
    ensures n != ""
  {
    match kind
    case Middle => MiddleBreakName
    case Lunch => LunchName
  }

  /** `values.splice(i, 0, x)`: a start past the end appends. */
  function InsertAt(vs: seq<PeriodInfo>, i: nat, x: PeriodInfo): (r: seq<PeriodInfo>)
    ensures |r| == |vs| + 1
    ensures var c := if i < |vs| then i else |vs|;
            r[c] == x && r[..c] == vs[..c] && r[c + 1..] == vs[c..]
    ensures multiset(r) == multiset(vs) + multiset{x}
  {
    var c := if i < |vs| then i else |vs|;
    assert vs == vs[..c] + vs[c..];
    vs[..c] + [x] + vs[c..]
  }

  /** `values[i]?.end || fallback`. */
  function EndOr(vs: seq<PeriodInfo>, i: nat, fallback: string): string {
    OrElse(if i < |vs| then Some(vs[i].end) else None, fallback)
  }

  /** An ETC row named `name` starting at `prevEnd` (normalised by moving
      it zero minutes) and lasting `length` minutes. */
  function BreakRow(prevEnd: string, length: int, name: string): (b: PeriodInfo)
    ensures b.IsEtc() && b.name == Some(name)
  {
    var start := AddMinutesToTime(prevEnd, 0);
    PeriodInfo(start, AddMinutesToTime(start, length), Some(name), Some(Etc))
  }

  /** The first row whose name contains `4교시`. */
  function FourthPeriodIndex(vs: seq<PeriodInfo>): (r: Option<nat>)
    ensures r.Some? ==> r.value < |vs| && vs[r.value].name.Some?
                        && Contains(vs[r.value].name.value, FourthPeriodMark)
    ensures r.Some? ==> forall j :: 0 <= j < r.value ==>
              !(vs[j].name.Some? && Contains(vs[j].name.value, FourthPeriodMark))
    ensures r.None? ==> forall j :: 0 <= j < |vs| ==>
              !(vs[j].name.Some? && Contains(vs[j].name.value, FourthPeriodMark))
  {
    FindIndex(vs, (v: PeriodInfo) => v.name.Some? && Contains(v.name.value, FourthPeriodMark))
  }

  /** Where a break is inserted: the middle break at position 2 (the third
      row), lunch right after the `4교시` row or else at position 4. */
  function BreakPosition(vs: seq<PeriodInfo>, kind: BreakKind): nat {
    match kind
    case Middle => 2
    case Lunch =>
      match FourthPeriodIndex(vs)
      case Some(i) => i + 1
      case None => 4
  }

  /** The break row inserted: the middle break follows row 1 (or 10:30)
      for 20 minutes; lunch follows the `4교시` row (or row 3, or 12:10)
      for 50 minutes. */
  function NewBreak(vs: seq<PeriodInfo>, kind: BreakKind): (b: PeriodInfo)
    ensures b.IsEtc() && b.name == Some(BreakName(kind))
  {
    match kind
    case Middle => BreakRow(EndOr(vs, 1, "10:30"), MiddleBreakMinutes, MiddleBreakName)
    case Lunch =>
      var before := match FourthPeriodIndex(vs) case Some(i) => i case None => 3;
      BreakRow(EndOr(vs, before, "12:10"), LunchMinutes, LunchName)
  }

  /** `v.name !== name`: a row without a name is kept. */
  function NotNamed(name: string): PeriodInfo -> bool {
    (v: PeriodInfo) => v.name != Some(name)
  }

  /** The row list after checking or unchecking a break. */
  function BreakRows(vs: seq<PeriodInfo>, kind: BreakKind, checked: bool): seq<PeriodInfo> {
    if checked then InsertAt(vs, BreakPosition(vs, kind), NewBreak(vs, kind))
    else Filter(vs, NotNamed(BreakName(kind)))
  }

  /** `toggleSpecialBreak`: inserts or removes a break and numbers the rows
      1..n again. */
  function ToggleSpecialBreak(s: BellSchedule, kind: BreakKind, checked: bool): (r: BellSchedule)
    ensures r.(periods := s.periods) == s
    ensures checked ==> NumberedFromOne(r.periods, |s.periods.Keys| + 1)
    ensures !checked ==> exists n :: 0 <= n <= |s.periods.Keys| && NumberedFromOne(r.periods, n)
    ensures !checked ==> forall k :: k in r.periods ==> r.periods[k].name != Some(BreakName(kind))
  {
    var vs := PeriodList(s.periods);
    var rows := BreakRows(vs, kind, checked);
    s.(periods := Renumber(rows))
  }

  /** Checking a break adds one ETC row with the break's name at its
      position and keeps every other row, in order. */
  lemma BreakOnRows(s: BellSchedule, kind: BreakKind)
    ensures var vs := PeriodList(s.periods);
            var ws := PeriodList(ToggleSpecialBreak(s, kind, true).periods);
            var i := BreakPosition(vs, kind);
            var c := if i < |vs| then i else |vs|;
            && |ws| == |vs| + 1
            && ws[c].IsEtc() && ws[c].name == Some(BreakName(kind))
            && ws[..c] == vs[..c] && ws[c + 1..] == vs[c..]
  {
    hide SortedKeys, OneTo;
    var vs := PeriodList(s.periods);
    PeriodListRenumber(BreakRows(vs, kind, true));
  }

  /** Checking a break adds exactly the break row to the multiset of rows. */
  lemma BreakOnMultiset(s: BellSchedule, kind: BreakKind)
    ensures var vs := PeriodList(s.periods);
            multiset(PeriodList(ToggleSpecialBreak(s, kind, true).periods))
              == multiset(vs) + multiset{NewBreak(vs, kind)}
  {
    var vs := PeriodList(s.periods);
    PeriodListRenumber(BreakRows(vs, kind, true));
  }

  /** Unchecking a break keeps, in order, exactly the rows not carrying
      the break's name. */
  lemma BreakOffRows(s: BellSchedule, kind: BreakKind)
    ensures PeriodList(ToggleSpecialBreak(s, kind, false).periods)
            == Filter(PeriodList(s.periods), NotNamed(BreakName(kind)))
  {
    PeriodListRenumber(BreakRows(PeriodList(s.periods), kind, false));
  }

  /** Filtering out a row inserted among rows the filter keeps gives the
      rows back. */
  lemma FilterOutInserted(vs: seq<PeriodInfo>, ws: seq<PeriodInfo>, c: nat, p: PeriodInfo -> bool)
    requires |ws| == |vs| + 1 && c <= |vs|
    requires ws[..c] == vs[..c] && ws[c + 1..] == vs[c..]
    requires !p(ws[c])
    requires forall v :: v in vs ==> p(v)
    ensures Filter(ws, p) == vs
  {
    assert ws == vs[..c] + [ws[c]] + vs[c..];
    assert forall v :: v in vs[..c] ==> v in vs;
    assert forall v :: v in vs[c..] ==> v in vs;
    FilterDropsOne(vs[..c], ws[c], vs[c..], p);
    assert vs[..c] + vs[c..] == vs;
  }

  /** On a schedule without such a break, checking and then unchecking
      it gives back the rows in order. */
  lemma BreakOnThenOff(s: BellSchedule, kind: BreakKind)
    requires forall k :: k in s.periods ==> s.periods[k].name != Some(BreakName(kind))
    ensures ToggleSpecialBreak(ToggleSpecialBreak(s, kind, true), kind, false)
            == s.(periods := Renumber(PeriodList(s.periods)))
  {
    var s1 := ToggleSpecialBreak(s, kind, true);
    OnThenOffRows(s, kind);
    OffShape(s1, kind);
  }

  lemma OnThenOffRows(s: BellSchedule, kind: BreakKind)
    requires forall k :: k in s.periods ==> s.periods[k].name != Some(BreakName(kind))
    ensures Filter(PeriodList(ToggleSpecialBreak(s, kind, true).periods), NotNamed(BreakName(kind)))
            == PeriodList(s.periods)
  {
    hide SortedKeys, OneTo, SortedElements, Renumber;
    var vs := PeriodList(s.periods);
    var ws := PeriodList(ToggleSpecialBreak(s, kind, true).periods);
    var i := BreakPosition(vs, kind);
    var c := if i < |vs| then i else |vs|;
    NoBreakRows(s, kind);
    BreakOnRows(s, kind);
    BreakRowFiltered(ws[c], kind);
    hide *;
    FilterOutInserted(vs, ws, c, NotNamed(BreakName(kind)));
  }

  lemma BreakRowFiltered(v: PeriodInfo, kind: BreakKind)
    requires v.name == Some(BreakName(kind))
    ensures !NotNamed(BreakName(kind))(v)
  {
  }

  /** A schedule without a row of that name lists only rows the unchecking
      filter keeps. */
  lemma NoBreakRows(s: BellSchedule, kind: BreakKind)
    requires forall k :: k in s.periods ==> s.periods[k].name != Some(BreakName(kind))
    ensures forall v :: v in PeriodList(s.periods) ==> NotNamed(BreakName(kind))(v)
  {
  }

  lemma OffShape(s: BellSchedule, kind: BreakKind)
    ensures ToggleSpecialBreak(s, kind, false)
            == s.(periods := Renumber(Filter(PeriodList(s.periods), NotNamed(BreakName(kind)))))
  {
  }

  // ---------------------------------------------------------------------
  // updatePeriod
  // ---------------------------------------------------------------------

  /** The field an edit sets: `name`, `start`, `end` or `type`. */
  datatype FieldEdit = SetName(name: string) | SetStart(start: string) | SetEnd(end: string) | SetKind(kind: PeriodType)

  /** `{ ...period, [field]: value }`. */
  function ApplyField(p: PeriodInfo, e: FieldEdit): PeriodInfo {
    match e
    case SetName(v) => p.(name := Some(v))
    case SetStart(v) => p.(start := v)
    case SetEnd(v) => p.(end := v)
    case SetKind(v) => p.(kind := Some(v))
  }

  /** The next period number after `period` in key order, if any. */
  function NextKey(periods: map<int, PeriodInfo>, period: int): (r: Option<int>)
    ensures r.Some? ==> r.value in periods && period < r.value
  {
    var ks := SortedKeys(periods);
    match KeyIndex(periods, period)
    case Some(i) =>
      if i < |ks| - 1 then
        assert ks[i] < ks[i + 1];
        Some(ks[i + 1])
      else None
    case None => None
  }

  /** For a known period, the next key is the least key above it, and there
      is none exactly when no key lies above it. */
  lemma NextKeyIsSuccessor(periods: map<int, PeriodInfo>, period: int)
    requires period in periods
    ensures NextKey(periods, period).Some? ==>
              forall k :: k in periods && period < k ==> NextKey(periods, period).value <= k
    ensures NextKey(periods, period).None? <==> forall k :: k in periods ==> k <= period
  {
    hide SortedKeys, OneTo;
    var ks := SortedKeys(periods);
    var i := KeyIndex(periods, period).value;
    if i < |ks| - 1 {
      assert NextKey(periods, period) == Some(ks[i + 1]);
      assert ks[i + 1] in periods;
      hide NextKey, KeyIndex;
      SuccessorInMap(periods, i);
    } else {
      assert NextKey(periods, period) == None;
      hide NextKey, KeyIndex;
      EndsOfIncreasing(ks, i);
    }
  }

  lemma SuccessorInMap(periods: map<int, PeriodInfo>, i: nat)
    requires i + 1 < |SortedKeys(periods)|
    ensures var ks := SortedKeys(periods);
            forall k :: k in periods && ks[i] < k ==> ks[i + 1] <= k
  {
    var ks := SortedKeys(periods);
    Successor(ks, i);
    hide SortedKeys;
    forall k | k in periods && ks[i] < k ensures ks[i + 1] <= k {
      assert k in ks;
    }
  }

  /** In an increasing sequence, every element above `ks[i]` is at least
      `ks[i + 1]`. */
  lemma Successor(ks: seq<int>, i: nat)
    requires Increasing(ks) && i + 1 < |ks|
    ensures forall k :: k in ks && ks[i] < k ==> ks[i + 1] <= k
  {
    forall k | k in ks && ks[i] < k ensures ks[i + 1] <= k {
      var m :| 0 <= m < |ks| && ks[m] == k;
    }
  }

  /** The edited period: the field set, and for a new start of a class
      period the end moved to `duration` minutes later. A period without a
      type is left with its end (the source compares the type with `CLASS`). */
  function EditedPeriod(p: PeriodInfo, e: FieldEdit, duration: int): (q: PeriodInfo)
    ensures e.SetName? ==> q == p.(name := Some(e.name))
    ensures e.SetKind? ==> q == p.(kind := Some(e.kind))
    ensures e.SetEnd? ==> q == p.(end := e.end)
    ensures e.SetStart? && p.kind == Some(Class) ==>
              q == p.(start := e.start, end := AddMinutesToTime(e.start, duration))
    ensures e.SetStart? && p.kind != Some(Class) ==> q == p.(start := e.start)
  {
    var cur := ApplyField(p, e);
    if e.SetStart? && cur.kind == Some(Class) then cur.(end := AddMinutesToTime(e.start, duration))
    else cur
  }

  /** The period whose start an edit moves: the next one, for a new end. */
  function MovedStart(periods: map<int, PeriodInfo>, period: int, e: FieldEdit): (r: Option<int>)
    ensures r.Some? ==> e.SetEnd? && r == NextKey(periods, period)
    ensures e.SetEnd? ==> r == NextKey(periods, period)
  {
    if e.SetEnd? then NextKey(periods, period) else None
  }

  /** Sets the start of period `next` (when there is one) to ten minutes
      after `v`; every other period is kept. */
  function ShiftStart(ps: map<int, PeriodInfo>, next: Option<int>, v: string): (m: map<int, PeriodInfo>)
    ensures forall k :: k in m <==> k in ps
    ensures next.Some? && next.value in ps ==>
              next.value in m && m[next.value] == ps[next.value].(start := AddMinutesToTime(v, PassingMinutes))
    ensures forall k :: k in ps && next != Some(k) ==> m[k] == ps[k]
  {
    if next.Some? && next.value in ps then
      ps[next.value := ps[next.value].(start := AddMinutesToTime(v, PassingMinutes))]
    else ps
  }

  /** `updatePeriod`: edits one field of a known period; a new end also
      moves the start of the next period to ten minutes after it. The keys
      of the edited map are those of the schedule, so the next key is read
      from the schedule. */
  function UpdatePeriod(s: BellSchedule, period: int, e: FieldEdit, duration: int): (r: BellSchedule)
    ensures r.(periods := s.periods) == s
    ensures period !in s.periods ==> r == s
    ensures forall k :: k in r.periods <==> k in s.periods
  {
    if period !in s.periods then s
    else
      var ps := s.periods[period := EditedPeriod(s.periods[period], e, duration)];
      var next := MovedStart(s.periods, period, e);
      s.(periods := ShiftStart(ps, next, if e.SetEnd? then e.end else ""))
  }

  /** The rows an edit of a known period writes: the edited field is set
      (a new start of a class period also moves its end), a new end moves
      the next period's start ten minutes after it, and every other row is
      kept. */
  lemma UpdatePeriodRows(s: BellSchedule, period: int, e: FieldEdit, duration: int)
    requires period in s.periods
    ensures var r := UpdatePeriod(s, period, e, duration);
            && r.periods[period] == EditedPeriod(s.periods[period], e, duration)
            && (e.SetEnd? && NextKey(s.periods, period).Some? ==>
                  var k := NextKey(s.periods, period).value;
                  r.periods[k] == s.periods[k].(start := AddMinutesToTime(e.end, PassingMinutes)))
            && (forall k :: k in s.periods && k != period && MovedStart(s.periods, period, e) != Some(k) ==>
                  r.periods[k] == s.periods[k])
  {
    hide AddMinutesToTime, ParseClock, ClockOfMinute, EditedPeriod, NextKey;
  }

  /** A new end at minute `t` puts the next period's start ten minutes
      later. */
  lemma NextStartFollowsEnd(s: BellSchedule, period: int, v: string, t: int, duration: int)
    requires period in s.periods && NextKey(s.periods, period).Some?
    requires v != "" && ParseClock(v) == Some(t)
    ensures var k := NextKey(s.periods, period).value;
            ParseClock(UpdatePeriod(s, period, SetEnd(v), duration).periods[k].start)
              == Some((t + PassingMinutes) % MinutesPerDay)
  {
    var k := NextKey(s.periods, period).value;
    UpdatePeriodRows(s, period, SetEnd(v), duration);
    assert UpdatePeriod(s, period, SetEnd(v), duration).periods[k].start == AddMinutesToTime(v, PassingMinutes);
    hide UpdatePeriod, ParseClock, ClockOfMinute;
    AddMinutesReadsBack(v, t, PassingMinutes);
  }

  /** Renaming a period to the name it already has changes nothing. */
  lemma UpdateSameName(s: BellSchedule, period: int, duration: int)
    requires period in s.periods && s.periods[period].name.Some?
    ensures UpdatePeriod(s, period, SetName(s.periods[period].name.value), duration) == s
  {
    var r := UpdatePeriod(s, period, SetName(s.periods[period].name.value), duration);
    UpdatePeriodRows(s, period, SetName(s.periods[period].name.value), duration);
    assert r.periods == s.periods;
  }

  // ---------------------------------------------------------------------
  // toggleTargetGrade and handleAddSubject
  // ---------------------------------------------------------------------

  function Other(grade: int): int -> bool {
    (g: int) => g != grade
  }

  /** `toggleTargetGrade`: drops a served grade, or adds a new one and
      sorts the list with the default (text) order of `.sort()`. */
  function ToggleTargetGrade(s: BellSchedule, grade: int): (r: BellSchedule)
    ensures r.(targetGrades := s.targetGrades) == s
    ensures grade in r.targetGrades <==> grade !in s.targetGrades
    ensures forall g :: g != grade ==> (g in r.targetGrades <==> g in s.targetGrades)
    ensures grade in s.targetGrades ==> multiset(r.targetGrades) == multiset(s.targetGrades)[grade := 0]
    ensures grade !in s.targetGrades ==>
              && multiset(r.targetGrades) == multiset(s.targetGrades) + multiset{grade}
              && SortedByKey(r.targetGrades, IntToString)
  {
    var gs := s.targetGrades;
    if grade in gs then
      FilterMultiplicity(gs, Other(grade));
      s.(targetGrades := Filter(gs, Other(grade)))
    else
      var r := SortByKey(gs + [grade], IntToString);
      assert grade in multiset(r);
      assert forall g :: g in r <==> g in multiset(gs + [grade]);
      s.(targetGrades := r)
  }

  /** Toggling a grade twice gives back the same grades (in sorted
      order when the grade was first added): a grade listed once comes
      back once, and a new grade is gone again. */
  lemma ToggleTargetGradeTwice(s: BellSchedule, grade: int)
    requires multiset(s.targetGrades)[grade] <= 1
    ensures multiset(ToggleTargetGrade(ToggleTargetGrade(s, grade), grade).targetGrades)
            == multiset(s.targetGrades)
  {
    var s1 := ToggleTargetGrade(s, grade);
    if grade in s.targetGrades {
      assert multiset(s.targetGrades) == multiset(s.targetGrades)[grade := 0] + multiset{grade};
    } else {
      assert multiset(s1.targetGrades)[grade] == 1;
    }
  }

  /** The subject list and the text field of the "add subject" form. */
  datatype SubjectForm = SubjectForm(subjects: seq<string>, input: string)

  /** `handleAddSubject`: appends the trimmed input and clears the field
      when the trimmed name is non-empty and not yet listed; otherwise the
      form stays as it is. */
  function HandleAddSubject(f: SubjectForm): (r: SubjectForm)
    ensures var name := Trim(f.input);
            name != "" && name !in f.subjects ==> r.subjects == f.subjects + [name] && r.input == ""
    ensures var name := Trim(f.input);
            name == "" || name in f.subjects ==> r == f
    ensures forall x :: x in r.subjects <==> x in f.subjects || (x == Trim(f.input) && x != "")
    ensures NoDups(f.subjects) ==> NoDups(r.subjects)
  {
    var name := Trim(f.input);
    if name != "" && name !in f.subjects then SubjectForm(f.subjects + [name], "")
    else f
  }

  /** Submitting the same name again adds nothing. */
  lemma AddSubjectTwice(f: SubjectForm)
    ensures HandleAddSubject(SubjectForm(HandleAddSubject(f).subjects, f.input)).subjects
            == HandleAddSubject(f).subjects
  {
  }
}
