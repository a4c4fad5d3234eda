/** `HH:MM` clock arithmetic of the bell-schedule editor
    (`addMinutesToTime`): a time is read as hours and minutes, moved by a
    number of minutes, and written back zero-padded, wrapping around
    midnight the way a `Date` does. */
module ClockTime {
  import opened Basics
  import opened JsText

  const MinutesPerDay: int := 1440

  /** `h * 60 + m` when both `:`-separated parts read as numbers. */
  function ParseClock(time: string): Option<int> {
    ClockOfParts(Split(time, ":"))
  }

  /** Hours and minutes from the first two pieces of the split time. */
  function ClockOfParts(parts: seq<string>): Option<int>
    requires |parts| >= 1
  {
    var h := NumberOf(parts[0]);
    var m := if |parts| >= 2 then NumberOf(parts[1]) else None;
    if h.Some? && m.Some? then Some(h.value * 60 + m.value) else None
  }

  /** The zero-padded `HH:MM` of a minute of the day. */
  function ClockText(t: int): (r: string)
    requires 0 <= t < MinutesPerDay
  {
    HoursMinutesText(t / 60, t % 60)
  }

  /** `${pad(h)}:${pad(m)}`. */
  function HoursMinutesText(h: nat, m: nat): string {
    PadStart2(NatToString(h)) + ":" + PadStart2(NatToString(m))
  }

  /** A digit string holds no colon. */
  lemma DigitsHaveNoColon(d: string)
    requires AllDigits(d)
    ensures !Contains(d, ":")
  {
    forall i | 0 <= i < |d| ensures !OccursAt(d, ":", i) {
      assert d[i..i + 1][0] == d[i];
    }
  }

  /** Two digit strings joined by a colon split back into the two. */
  lemma SplitClock(a: string, b: string)
    requires AllDigits(a) && AllDigits(b)
    ensures Split(a + ":" + b, ":") == [a, b]
  {
    DigitsHaveNoColon(a);
    DigitsHaveNoColon(b);
    assert a + ":" + b == a + [':'] + b;
    SplitAtFirst(a, ':', b);
    SplitWithoutSeparator(b, ":");
  }

  /** Reading `a:b` for two digit strings of values `x` and `y` gives
      `60 * x + y`. */
  lemma ParseClockOfDigits(a: string, b: string, x: nat, y: nat)
    requires a != [] && b != [] && AllDigits(a) && AllDigits(b)
    requires x == DecimalValue(a) && y == DecimalValue(b)
    ensures ParseClock(a + ":" + b) == Some(x * 60 + y)
  {
    SplitClock(a, b);
    NumberOfDigitPair(a, b);
    ParseClockOfParts(a + ":" + b, a, b, x, y);
  }

  lemma ParseClockOfParts(s: string, a: string, b: string, x: int, y: int)
    requires Split(s, ":") == [a, b] && NumberOf(a) == Some(x) && NumberOf(b) == Some(y)
    ensures ParseClock(s) == Some(x * 60 + y)
  {
    ClockOfTwoParts([a, b], x, y);
  }

  lemma NumberOfDigitPair(a: string, b: string)
    requires a != [] && b != [] && AllDigits(a) && AllDigits(b)
    ensures NumberOf(a) == Some(DecimalValue(a)) && NumberOf(b) == Some(DecimalValue(b))
  {
    NumberOfDigits(a);
    NumberOfDigits(b);
  }

  /** Two numeric pieces make the minute `60 * x + y`. */
  lemma ClockOfTwoParts(parts: seq<string>, x: int, y: int)
    requires |parts| == 2 && NumberOf(parts[0]) == Some(x) && NumberOf(parts[1]) == Some(y)
    ensures ClockOfParts(parts) == Some(x * 60 + y)
  {
  }

  /** Hours and minutes below 100 written as `HH:MM` read back as
      `60 * h + m`. */
  lemma HoursMinutesRoundTrip(h: nat, m: nat)
    requires h < 100 && m < 100
    ensures |HoursMinutesText(h, m)| == 5
    ensures ParseClock(HoursMinutesText(h, m)) == Some(h * 60 + m)
  {
    PaddedNumeral(h);
    PaddedNumeral(m);
    ParseClockOfDigits(PadStart2(NatToString(h)), PadStart2(NatToString(m)), h, m);
  }

  /** A written clock time has five characters and reads back as the
      minute it was written from. */
  lemma ClockTextRoundTrip(t: int)
    requires 0 <= t < MinutesPerDay
    ensures |ClockText(t)| == 5
    ensures ParseClock(ClockText(t)) == Some(t)
  {
    hide *;
    DivideMinutes(t);
    ClockTextSpelled(t);
    HoursMinutesRoundTrip(t / 60, t % 60);
  }

  lemma ClockTextSpelled(t: int)
    requires 0 <= t < MinutesPerDay
    ensures ClockText(t) == HoursMinutesText(t / 60, t % 60)
  {
  }

  lemma DivideMinutes(t: int)
    requires 0 <= t < MinutesPerDay
    ensures 0 <= t / 60 < 24 && 0 <= t % 60 < 60 && (t / 60) * 60 + t % 60 == t
  {
  }

  /** `addMinutesToTime`: '' stays '', a time whose parts are not numbers is
      returned unchanged, any other time is moved by `minutes` and written
      as `HH:MM` modulo one day (what it reads back as is stated by
      `AddMinutesReadsBack`). */
  function AddMinutesToTime(time: string, minutes: int): (r: string)
    ensures time == "" ==> r == ""
    ensures time != "" && ParseClock(time).None? ==> r == time
    ensures time != "" && ParseClock(time).Some? ==>
              r == ClockOfMinute(ParseClock(time).value, minutes)
  {
    if time == "" then "" else ShiftClock(time, ParseClock(time), minutes)
  }

  /** The time moved by `minutes` once its reading `c` is known. */
  function ShiftClock(time: string, c: Option<int>, minutes: int): (r: string)
    ensures c.None? ==> r == time
    ensures c.Some? ==> r == ClockOfMinute(c.value, minutes)
  {
    match c
    case None => time
    case Some(t) => ClockOfMinute(t, minutes)
  }

  /** The `HH:MM` text of minute `t` moved by `minutes`, modulo one day. */
  function ClockOfMinute(t: int, minutes: int): (r: string)
    ensures |r| == 5
  {
    var u := DayMinute(t + minutes);
    ClockTextRoundTrip(u);
    ClockText(u)
  }

  /** `x` modulo one day, by whole days added or taken away (what the
      `Date` object does when minutes run past midnight either way). */
  function DayMinute(x: int): (u: int)
    ensures 0 <= u < MinutesPerDay && u == x % MinutesPerDay
    decreases x < 0, if x < 0 then -x else x
  {
    if x < 0 then ShiftByDay(x); DayMinute(x + MinutesPerDay)
    else if x >= MinutesPerDay then ShiftByDay(x); DayMinute(x - MinutesPerDay)
    else x
  }

  lemma ShiftByDay(x: int)
    ensures (x + MinutesPerDay) % MinutesPerDay == x % MinutesPerDay
    ensures (x - MinutesPerDay) % MinutesPerDay == x % MinutesPerDay
  {
  }

  /** The written minute reads back as the count modulo one day. */
  lemma ClockOfMinuteReadsBack(t: int, minutes: int)
    ensures ParseClock(ClockOfMinute(t, minutes)) == Some((t + minutes) % MinutesPerDay)
  {
    ClockTextRoundTrip(DayMinute(t + minutes));
  }

  /** A time that reads as minute `t`, moved by `minutes`, is five
      characters long and reads back as the moved minute of the day. */
  lemma AddMinutesReadsBack(time: string, t: int, minutes: int)
    requires time != "" && ParseClock(time) == Some(t)
    ensures |AddMinutesToTime(time, minutes)| == 5
    ensures ParseClock(AddMinutesToTime(time, minutes)) == Some((t + minutes) % MinutesPerDay)
  {
    ClockOfMinuteReadsBack(t, minutes);
  }

  /** Two minute counts equal modulo a day are written the same way. */
  lemma ClockOfMinuteModulo(t1: int, m1: int, t2: int, m2: int)
    requires (t1 + m1) % MinutesPerDay == (t2 + m2) % MinutesPerDay
    ensures ClockOfMinute(t1, m1) == ClockOfMinute(t2, m2)
  {
  }

  lemma ModuloShift(t: int, a: int, b: int)
    ensures ((t + a) % MinutesPerDay + b) % MinutesPerDay == (t + (a + b)) % MinutesPerDay
  {
  }

  /** Moving a time by `a` and then by `b` minutes is moving it by `a + b`. */
  lemma AddMinutesAdditive(time: string, t: int, a: int, b: int)
    requires time != "" && ParseClock(time) == Some(t)
    ensures AddMinutesToTime(AddMinutesToTime(time, a), b) == AddMinutesToTime(time, a + b)
  {
    hide ParseClock, ClockOfMinute;
    var r1 := AddMinutesToTime(time, a);
    AddMinutesReadsBack(time, t, a);
    assert r1 != "";
    ModuloShift(t, a, b);
    ClockOfMinuteModulo((t + a) % MinutesPerDay, b, t, a + b);
  }

  lemma ModuloWholeDays(t: int, days: int)
    ensures (t + days * MinutesPerDay) % MinutesPerDay == (t + 0) % MinutesPerDay
  {
  }

  /** Moving a time by whole days gives the same text as moving it by
      nothing: only the spelling is normalised. */
  lemma AddMinutesWholeDays(time: string, t: int, days: int)
    requires time != "" && ParseClock(time) == Some(t)
    ensures AddMinutesToTime(time, days * MinutesPerDay) == AddMinutesToTime(time, 0)
  {
    hide ParseClock, ClockOfMinute, ShiftClock;
    ModuloWholeDays(t, days);
    ClockOfMinuteModulo(t, days * MinutesPerDay, t, 0);
  }
}
