/** Class identifiers and the helpers that read them.

    A class id is text: `"3-2"` (grade 3, class 2), `"3레벨1"` (the first
    grade-wide level class of grade 3), `"3통합"` (a grade-wide integrated
    class), `"custom-17-2"` (a class of a custom row), or one of the two
    sentinels `"미배정"` (unassigned) and `"기타"` (other activity). */
module ClassIds {
  import opened Basics
  import opened JsText

  const Unassigned: string := "미배정"
  const OtherActivity: string := "기타"
  const LevelMarker: string := "레벨"
  const IntegratedMarker: string := "통합"
  const CustomPrefix: string := "custom-"

  /** One of the two ids that stand for no real class. */
  predicate IsSentinel(classId: string) {
    classId == Unassigned || classId == OtherActivity
  }

  /** A grade-wide class: a level class or an integrated class. */
  predicate IsAggregate(classId: string) {
    Contains(classId, LevelMarker) || Contains(classId, IntegratedMarker)
  }

  predicate DigitFree(s: string) {
    forall i :: 0 <= i < |s| ==> !IsDigit(s[i])
  }

  /** `extractGrade`: the value of the first run of decimal digits in the
      id, or 0 when it holds no digit. */
  function ExtractGrade(classId: string): (g: nat)
    ensures DigitFree(classId) ==> g == 0
  {
    match FindIndex(classId, IsDigit)
    case None => 0
    case Some(i) => DecimalValue(DigitRun(classId[i..]))
  }

  /** Digit-free text in front of an id does not change its grade. */
  lemma ExtractGradeAfterPrefix(pre: string, s: string)
    requires DigitFree(pre)
    ensures ExtractGrade(pre + s) == ExtractGrade(s)
  {
    FindIndexAfterPrefix(pre, s, IsDigit);
    match FindIndex(s, IsDigit)
    case None =>
    case Some(i) =>
      assert (pre + s)[|pre| + i..] == s[i..];
  }

  /** The grade of an id that starts with a numeral is that numeral, when
      the text after it does not continue the digit run. */
  lemma ExtractGradeOfNumeral(g: nat, rest: string)
    requires rest == [] || !IsDigit(rest[0])
    ensures ExtractGrade(NatToString(g) + rest) == g
  {
    var d := NatToString(g);
    var s := d + rest;
    assert IsDigit(s[0]);
    assert FindIndex(s, IsDigit) == Some(0);
    assert s[0..] == s;
    DigitRunOfNumeral(d, rest);
  }

  /** `${grade}-${c}`: the id of class `c` of a grade. */
  function ClassIdOf(grade: int, c: int): string {
    IntToString(grade) + "-" + IntToString(c)
  }

  /** `for (c = 1; c <= count; c++) push(`${row}-${c}`)`: the numbered
      classes of a row, none when the count is not positive. */
  function NumberedClasses(row: string, count: int): (r: seq<string>)
    ensures |r| == if count > 0 then count else 0
    ensures forall i :: 0 <= i < |r| ==> r[i] == row + "-" + IntToString(i + 1)
    decreases if count > 0 then count else 0
  {
    if count <= 0 then [] else NumberedClasses(row, count - 1) + [row + "-" + IntToString(count)]
  }

  /** The numbered classes of a row are pairwise distinct. */
  lemma NumberedClassesDistinct(row: string, count: int)
    ensures NoDups(NumberedClasses(row, count))
  {
    var r := NumberedClasses(row, count);
    var p := row + "-";
    forall i, j | 0 <= i < j < |r| ensures r[i] != r[j] {
      IntToStringDistinct(i + 1, j + 1);
      assert r[i][|p|..] == IntToString(i + 1);
      assert r[j][|p|..] == IntToString(j + 1);
    }
  }

  /** Different numbers have different numerals. */
  lemma IntToStringDistinct(n: int, m: int)
    requires n != m
    ensures IntToString(n) != IntToString(m)
  {
    ParseIntOfNumeral(n, "");
    ParseIntOfNumeral(m, "");
    assert IntToString(n) + "" == IntToString(n);
    assert IntToString(m) + "" == IntToString(m);
  }

  /** A class id built from a grade carries that grade. */
  lemma ExtractGradeOfClassId(grade: nat, c: int)
    ensures ExtractGrade(ClassIdOf(grade, c)) == grade
  {
    assert ClassIdOf(grade, c) == NatToString(grade) + ("-" + IntToString(c));
    ExtractGradeOfNumeral(grade, "-" + IntToString(c));
  }

  /** A numeral of a non-negative number holds no dash. */
  lemma NatNumeralHasNoDash(n: nat)
    ensures !Contains(NatToString(n), "-")
  {
    var a := NatToString(n);
    forall i | OccursAt(a, "-", i) ensures false {
      assert false;
    }
  }

  /** `"g-c".split('-')` gives back the two numerals. */
  lemma SplitClassId(g: nat, c: nat)
    ensures Split(ClassIdOf(g, c), "-") == [NatToString(g), NatToString(c)]
  {
    var a, b := NatToString(g), NatToString(c);
    NatNumeralHasNoDash(g);
    NatNumeralHasNoDash(c);
    assert ClassIdOf(g, c) == a + ['-'] + b;
    SplitAtFirst(a, '-', b);
    SplitWithoutSeparator(b, "-");
  }

  /** Two class ids built from grades and class numbers are equal only when
      both numbers are equal. */
  lemma ClassIdOfInjective(g1: nat, c1: nat, g2: nat, c2: nat)
    requires ClassIdOf(g1, c1) == ClassIdOf(g2, c2)
    ensures g1 == g2 && c1 == c2
  {
    SplitClassId(g1, c1);
    SplitClassId(g2, c2);
    IntToStringInjective(g1, g2);
    IntToStringInjective(c1, c2);
  }

  /** `String.fromCharCode(0x2460 + n - 1)`: the circled numeral ①..⑳. */
  function Circled(n: int): (c: char)
    requires 1 <= n <= 20
    ensures '\U{2460}' <= c <= '\U{2473}'
  {
    (0x2460 + n - 1) as char
  }

  /** The mark after "L" in a level-class label: the circled numeral for
      1..20, otherwise the number in parentheses. */
  function LevelMark(n: int): string {
    if 1 <= n <= 20 then [Circled(n)] else "(" + IntToString(n) + ")"
  }

  /** `String(n)` never repeats for two numbers. */
  lemma IntToStringInjective(n: int, m: int)
    requires IntToString(n) == IntToString(m)
    ensures n == m
  {
    ParseIntOfNumeral(n, "");
    ParseIntOfNumeral(m, "");
    assert IntToString(n) + "" == IntToString(n);
    assert IntToString(m) + "" == IntToString(m);
  }

  /** Different level numbers get different marks, so level labels keep
      level classes apart. */
  lemma LevelMarkInjective(n: int, m: int)
    requires LevelMark(n) == LevelMark(m)
    ensures n == m
  {
    if 1 <= n <= 20 && 1 <= m <= 20 {
      assert Circled(n) == LevelMark(n)[0];
    } else if !(1 <= n <= 20) && !(1 <= m <= 20) {
      var a := IntToString(n);
      var b := IntToString(m);
      assert "(" + a + ")" == "(" + b + ")";
      assert a == ("(" + a + ")")[1..|a| + 1];
      assert b == ("(" + b + ")")[1..|b| + 1];
      IntToStringInjective(n, m);
    }
  }

  /** `customLabels[id]` is set and non-empty (JavaScript truthiness). */
  predicate HasCustomLabel(labels: map<string, string>, id: string) {
    id in labels && labels[id] != ""
  }

  /** `${prefix}학년 L${mark}`. */
  function LevelLabel(prefix: string, mark: string): string {
    prefix + "학년 L" + mark
  }

  /** `{g}레벨{n}`: the id of the `n`-th level class of grade row `g`. */
  function LevelClassId(g: nat, n: nat): string {
    NatToString(g) + LevelMarker + NatToString(n)
  }

  /** A level class id holds the marker once: it splits there into the two
      numerals, the second reads back as the level number and the id's
      grade is the row's. */
  lemma LevelClassIdParts(g: nat, n: nat)
    ensures Contains(LevelClassId(g, n), LevelMarker)
    ensures Split(LevelClassId(g, n), LevelMarker) == [NatToString(g), NatToString(n)]
    ensures ParseInt(NatToString(n)) == Some(n)
    ensures ExtractGrade(LevelClassId(g, n)) == g
  {
    hide Split, Contains, ParseInt, ExtractGrade;
    LevelClassIdSplits(g, n);
    ParseIntOfNat(n, "");
    assert NatToString(n) + "" == NatToString(n);
    assert LevelClassId(g, n) == NatToString(g) + (LevelMarker + NatToString(n));
    ExtractGradeOfNumeral(g, LevelMarker + NatToString(n));
  }

  lemma LevelClassIdSplits(g: nat, n: nat)
    ensures Contains(LevelClassId(g, n), LevelMarker)
    ensures Split(LevelClassId(g, n), LevelMarker) == [NatToString(g), NatToString(n)]
  {
    var a := NatToString(g);
    var b := NatToString(n);
    var id := LevelClassId(g, n);
    SplitAfterFree(a, LevelMarker, b);
    LacksFirstChar(b, LevelMarker);
    SplitWithoutSeparator(b, LevelMarker);
    assert OccursAt(id, LevelMarker, |a|) by {
      assert id[|a|..|a| + |LevelMarker|] == LevelMarker;
    }
  }
}
