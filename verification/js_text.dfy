/** The JavaScript string built-ins the timetable code relies on, with the
    semantics of the ECMAScript standard written out: `includes`,
    `startsWith`, `indexOf`, `lastIndexOf`, `split`, `join`, `trim`,
    `parseInt` (no radix), `Number(...)`, `String(n)`, `padStart(2, '0')`
    and the default ordering used by `Array.prototype.sort()`, taken over
    characters in code-point order. */
module JsText {
  import opened Basics

  // ---------------------------------------------------------------- search

  predicate StartsWith(s: string, prefix: string) {
    |prefix| <= |s| && s[..|prefix|] == prefix
  }

  /** `sub` occurs in `s` starting at index `i`. */
  predicate OccursAt(s: string, sub: string, i: int) {
    0 <= i && i + |sub| <= |s| && s[i..i + |sub|] == sub
  }

  /** Texts that agree after the same ending is appended were equal. */
  lemma SuffixCancel(a: string, b: string, s: string)
    requires a + s == b + s
    ensures a == b
  {
    assert a == (a + s)[..|a|];
    assert b == (b + s)[..|b|];
  }

  lemma OccursShift(s: string, sub: string, i: int)
    requires |s| > 0 && i >= 0
    ensures OccursAt(s[1..], sub, i) <==> OccursAt(s, sub, i + 1)
  {
    if 0 <= i && i + |sub| <= |s| - 1 {
      assert s[1..][i..i + |sub|] == s[i + 1..i + 1 + |sub|];
    }
  }

  /** `s.indexOf(sub)`: the first position where `sub` occurs, or -1. */
  function IndexOf(s: string, sub: string): (r: int)
    ensures r == -1 || OccursAt(s, sub, r)
    ensures r == -1 <==> forall i :: !OccursAt(s, sub, i)
    ensures forall i :: i < r ==> !OccursAt(s, sub, i)
    decreases |s|
  {
    if |s| < |sub| then -1
    else if s[..|sub|] == sub then 0
    else
      var k := IndexOf(s[1..], sub);
      OccursAfterFirst(s, sub);
      hide OccursAt;
      if k == -1 then -1 else k + 1
  }

  /** When `sub` does not start `s`, its occurrences in `s` are those in
      `s[1..]`, one position further on. */
  lemma OccursAfterFirst(s: string, sub: string)
    requires |sub| <= |s| && s[..|sub|] != sub
    ensures forall i :: OccursAt(s, sub, i) <==> 0 < i && OccursAt(s[1..], sub, i - 1)
  {
    forall i ensures OccursAt(s, sub, i) <==> 0 < i && OccursAt(s[1..], sub, i - 1) {
      if 0 < i {
        OccursShift(s, sub, i - 1);
      }
    }
  }

  /** `s.includes(sub)`. */
  predicate Contains(s: string, sub: string)
    ensures Contains(s, sub) <==> exists i :: OccursAt(s, sub, i)
  {
    IndexOf(s, sub) >= 0
  }

  /** A string holding no occurrence of `sub` keeps it out of every prefix. */
  lemma NotContainsPrefix(s: string, sub: string, n: nat)
    requires n <= |s| && forall i :: i + |sub| <= n ==> !OccursAt(s, sub, i)
    ensures !Contains(s[..n], sub)
  {
    forall i ensures !OccursAt(s[..n], sub, i) {
      if 0 <= i && i + |sub| <= n {
        assert s[..n][i..i + |sub|] == s[i..i + |sub|];
        assert !OccursAt(s, sub, i);
      }
    }
  }

  /** A one-character separator occurs in `a + [c] + b` first right after `a`
      when `a` does not contain it. */
  lemma IndexOfAfterFree(a: string, c: char, b: string)
    requires !Contains(a, [c])
    ensures IndexOf(a + [c] + b, [c]) == |a|
  {
    var s := a + [c] + b;
    assert OccursAt(s, [c], |a|) by { assert s[|a|..|a| + 1] == [c]; }
    forall i | 0 <= i < |a| ensures !OccursAt(s, [c], i) {
      PrefixOccurrence(a, c, b, i);
    }
  }

  /** Inside `a`, the character occurs in `a + [c] + b` where it occurs in `a`. */
  lemma PrefixOccurrence(a: string, c: char, b: string, i: int)
    requires 0 <= i < |a|
    ensures OccursAt(a + [c] + b, [c], i) <==> OccursAt(a, [c], i)
  {
    var s := a + [c] + b;
    assert s[i..i + 1] == a[i..i + 1];
  }

  /** `s.lastIndexOf(c)` for a single character, or -1. */
  function LastIndexOf(s: string, c: char): (r: int)
    ensures -1 <= r < |s|
    ensures r >= 0 ==> s[r] == c
    ensures forall i :: r < i < |s| ==> s[i] != c
  {
    if s == [] then -1
    else if s[|s| - 1] == c then |s| - 1
    else LastIndexOf(s[..|s| - 1], c)
  }

  // ---------------------------------------------------------- split / join

  /** `parts.join(sep)`. */
  function Join(parts: seq<string>, sep: string): string {
    if |parts| == 0 then ""
    else if |parts| == 1 then parts[0]
    else parts[0] + sep + Join(parts[1..], sep)
  }

  /** Every piece occurs in the joined text. */
  lemma {:induction false} JoinContainsPart(parts: seq<string>, sep: string, k: nat)
    requires k < |parts|
    ensures Contains(Join(parts, sep), parts[k])
    decreases |parts|
  {
    var j := Join(parts, sep);
    if |parts| == 1 {
      assert j[0..|parts[0]|] == parts[0];
      assert OccursAt(j, parts[0], 0);
    } else {
      var rest := Join(parts[1..], sep);
      assert j == parts[0] + sep + rest;
      if k == 0 {
        assert j[0..|parts[0]|] == parts[0];
        assert OccursAt(j, parts[0], 0);
      } else {
        JoinContainsPart(parts[1..], sep, k - 1);
        var i :| OccursAt(rest, parts[k], i);
        var off := |parts[0] + sep|;
        assert j[off + i..off + i + |parts[k]|] == rest[i..i + |parts[k]|];
        assert OccursAt(j, parts[k], off + i);
      }
    }
  }

  /** Joining non-empty pieces gives '' only when there are none. */
  lemma JoinEmptyIff(parts: seq<string>, sep: string)
    requires forall k :: 0 <= k < |parts| ==> parts[k] != ""
    ensures Join(parts, sep) == "" <==> parts == []
  {
    if parts != [] {
      JoinContainsPart(parts, sep, 0);
    }
  }

  /** `s.split(sep)` for a non-empty separator: the maximal pieces between
      occurrences of `sep`; joining them back with `sep` gives `s` again. */
  function Split(s: string, sep: string): (parts: seq<string>)
    requires sep != []
    ensures |parts| >= 1
    ensures forall k :: 0 <= k < |parts| ==> !Contains(parts[k], sep)
    ensures Join(parts, sep) == s
    decreases |s|
  {
    var i := IndexOf(s, sep);
    if i < 0 then [s]
    else
      var rest := Split(s[i + |sep|..], sep);
      NotContainsPrefix(s, sep, i);
      assert s == s[..i] + sep + s[i + |sep|..];
      [s[..i]] + rest
  }

  /** Splitting a string that does not contain the separator yields it alone. */
  lemma SplitWithoutSeparator(s: string, sep: string)
    requires sep != [] && !Contains(s, sep)
    ensures Split(s, sep) == [s]
  {
  }

  /** Splitting at a one-character separator peels off the text before its
      first occurrence. */
  lemma SplitAtFirst(a: string, c: char, b: string)
    requires !Contains(a, [c])
    ensures Split(a + [c] + b, [c]) == [a] + Split(b, [c])
  {
    var s := a + [c] + b;
    IndexOfAfterFree(a, c, b);
    assert s[..|a|] == a;
    assert s[|a| + 1..] == b;
  }

  /** Text without the separator's first character cannot contain it. */
  lemma LacksFirstChar(s: string, sub: string)
    requires sub != [] && forall i :: 0 <= i < |s| ==> s[i] != sub[0]
    ensures !Contains(s, sub)
  {
    forall i | 0 <= i < |s| ensures !OccursAt(s, sub, i) {
      assert s[i] != sub[0];
    }
  }

  /** Splitting at a separator whose first character does not occur in `a`
      peels off `a`. */
  lemma SplitAfterFree(a: string, sep: string, b: string)
    requires sep != [] && forall i :: 0 <= i < |a| ==> a[i] != sep[0]
    ensures Split(a + sep + b, sep) == [a] + Split(b, sep)
  {
    var s := a + sep + b;
    assert OccursAt(s, sep, |a|) by { assert s[|a|..|a| + |sep|] == sep; }
    forall i | 0 <= i < |a| ensures !OccursAt(s, sep, i) {
      assert s[i] == a[i];
    }
    assert IndexOf(s, sep) == |a|;
    assert s[..|a|] == a;
    assert s[|a| + |sep|..] == b;
  }

  /** A two-character separator whose characters differ cannot straddle
      the end of a piece free of it: the first occurrence after such a
      piece is the one that follows it. */
  lemma SplitAfterPiece(a: string, sep: string, b: string)
    requires |sep| == 2 && sep[0] != sep[1] && !Contains(a, sep)
    ensures Split(a + sep + b, sep) == [a] + Split(b, sep)
  {
    var s := a + sep + b;
    assert OccursAt(s, sep, |a|) by { assert s[|a|..|a| + |sep|] == sep; }
    forall i | 0 <= i < |a| ensures !OccursAt(s, sep, i) {
      if i + 2 <= |a| {
        assert s[i..i + 2] == a[i..i + 2];
        assert !OccursAt(a, sep, i);
      } else {
        assert s[i + 1] == sep[0];
      }
    }
    assert IndexOf(s, sep) == |a|;
    assert s[..|a|] == a;
    assert s[|a| + |sep|..] == b;
  }

  /** Pieces free of a two-character separator with differing characters
      are split back out of their join. */
  lemma {:induction false} SplitJoin(parts: seq<string>, sep: string)
    requires |sep| == 2 && sep[0] != sep[1]
    requires parts != [] && forall k :: 0 <= k < |parts| ==> !Contains(parts[k], sep)
    ensures Split(Join(parts, sep), sep) == parts
    decreases |parts|
  {
    if |parts| == 1 {
      SplitWithoutSeparator(parts[0], sep);
    } else {
      SplitJoin(parts[1..], sep);
      SplitAfterPiece(parts[0], sep, Join(parts[1..], sep));
      assert [parts[0]] + parts[1..] == parts;
    }
  }

  /** The first piece of `s.split(sep)`. */
  function SplitHead(s: string, sep: string): string
    requires sep != []
  {
    Split(s, sep)[0]
  }

  /** The second piece of `s.split(sep)`, `undefined` when there is none. */
  function SplitSecond(s: string, sep: string): Option<string>
    requires sep != []
  {
    var parts := Split(s, sep);
    if |parts| >= 2 then Some(parts[1]) else None
  }

  // ------------------------------------------------------------ whitespace

  /** ECMAScript WhiteSpace and LineTerminator code points: what `trim()`
      strips and what `parseInt`/`Number` skip. */
  predicate IsJsSpace(c: char) {
    c == '\t' || c == '\n' || c == '\U{000B}' || c == '\U{000C}' || c == '\r'
    || c == ' ' || c == '\U{00A0}' || c == '\U{1680}'
    || ('\U{2000}' <= c <= '\U{200A}')
    || c == '\U{2028}' || c == '\U{2029}' || c == '\U{202F}' || c == '\U{205F}'
    || c == '\U{3000}' || c == '\U{FEFF}'
  }

  /** Number of leading whitespace characters. */
  function LeadingSpaces(s: string): (n: nat)
    ensures n <= |s|
    ensures forall i :: 0 <= i < n ==> IsJsSpace(s[i])
    ensures n < |s| ==> !IsJsSpace(s[n])
  {
    if s == [] || !IsJsSpace(s[0]) then 0 else 1 + LeadingSpaces(s[1..])
  }

  /** Number of trailing whitespace characters. */
  function TrailingSpaces(s: string): (n: nat)
    ensures n <= |s|
    ensures forall i :: |s| - n <= i < |s| ==> IsJsSpace(s[i])
    ensures n < |s| ==> !IsJsSpace(s[|s| - n - 1])
  {
    if s == [] || !IsJsSpace(s[|s| - 1]) then 0 else 1 + TrailingSpaces(s[..|s| - 1])
  }

  function TrimStart(s: string): string {
    s[LeadingSpaces(s)..]
  }

  /** `s.trim()`: the slice of `s` between its leading and trailing whitespace. */
  function Trim(s: string): (r: string)
    ensures r == [] || (!IsJsSpace(r[0]) && !IsJsSpace(r[|r| - 1]))
    ensures exists a, b :: 0 <= a <= b <= |s| && r == s[a..b]
                        && (forall i :: 0 <= i < a ==> IsJsSpace(s[i]))
                        && (forall i :: b <= i < |s| ==> IsJsSpace(s[i]))
  {
    var a := LeadingSpaces(s);
    var t := s[a..];
    var n := TrailingSpaces(t);
    var r := t[..|t| - n];
    assert r == s[a..|s| - n];
    assert forall i :: |s| - n <= i < |s| ==> IsJsSpace(s[i]) by {
      forall i | |s| - n <= i < |s| ensures IsJsSpace(s[i]) {
        assert s[i] == t[i - a];
      }
    }
    r
  }

  /** A string trims to nothing exactly when it is all whitespace. */
  lemma TrimEmptyIff(s: string)
    ensures Trim(s) == [] <==> forall i :: 0 <= i < |s| ==> IsJsSpace(s[i])
  {
    var r := Trim(s);
    var a, b :| 0 <= a <= b <= |s| && r == s[a..b];
    if r != [] {
      assert r[0] == s[a];
    }
  }

  /** Trimming twice is trimming once. */
  lemma TrimIdempotent(s: string)
    ensures Trim(Trim(s)) == Trim(s)
  {
    var r := Trim(s);
    assert LeadingSpaces(r) == 0;
    assert TrailingSpaces(r) == 0;
    assert r[0..] == r;
    assert r[..|r|] == r;
  }

  /** `x || d` for an optional string: the default replaces `undefined` and ''. */
  function OrElse(x: Option<string>, d: string): (r: string)
    ensures x.Some? && x.value != "" ==> r == x.value
    ensures (x.None? || x.value == "") ==> r == d
  {
    if x.Some? && x.value != "" then x.value else d
  }

  // ---------------------------------------------------------------- digits

  predicate IsDigit(c: char) {
    '0' <= c <= '9'
  }

  predicate AllDigits(s: string) {
    forall i :: 0 <= i < |s| ==> IsDigit(s[i])
  }

  function DigitValue(c: char): nat
    requires IsDigit(c)
  {
    (c as int) - ('0' as int)
  }

  function DigitChar(d: nat): (c: char)
    requires d < 10
    ensures IsDigit(c) && DigitValue(c) == d
  {
    (('0' as int) + d) as char
  }

  /** The longest prefix of ASCII decimal digits. */
  function DigitRun(s: string): (r: string)
    ensures StartsWith(s, r) && AllDigits(r)
    ensures |r| < |s| ==> !IsDigit(s[|r|])
  {
    if s == [] || !IsDigit(s[0]) then "" else [s[0]] + DigitRun(s[1..])
  }

  /** The value of a decimal digit string ('' reads as 0). */
  function DecimalValue(d: string): nat
    requires AllDigits(d)
  {
    if d == [] then 0 else DecimalValue(d[..|d| - 1]) * 10 + DigitValue(d[|d| - 1])
  }

  /** Leading zeros do not change a decimal value. */
  lemma DecimalValueLeadingZero(d: string)
    requires AllDigits(d)
    ensures AllDigits("0" + d) && DecimalValue("0" + d) == DecimalValue(d)
    decreases |d|
  {
    if d != [] {
      assert ("0" + d)[..|"0" + d| - 1] == "0" + d[..|d| - 1];
      DecimalValueLeadingZero(d[..|d| - 1]);
    }
  }

  predicate IsHexDigit(c: char) {
    IsDigit(c) || 'a' <= c <= 'f' || 'A' <= c <= 'F'
  }

  function HexDigitValue(c: char): nat
    requires IsHexDigit(c)
  {
    if IsDigit(c) then DigitValue(c)
    else if 'a' <= c <= 'f' then (c as int) - ('a' as int) + 10
    else (c as int) - ('A' as int) + 10
  }

  /** The longest prefix of hexadecimal digits. */
  function HexRun(s: string): (r: string)
    ensures StartsWith(s, r)
    ensures forall i :: 0 <= i < |r| ==> IsHexDigit(r[i])
  {
    if s == [] || !IsHexDigit(s[0]) then "" else [s[0]] + HexRun(s[1..])
  }

  function HexValue(d: string): nat
    requires forall i :: 0 <= i < |d| ==> IsHexDigit(d[i])
  {
    if d == [] then 0 else HexValue(d[..|d| - 1]) * 16 + HexDigitValue(d[|d| - 1])
  }

  // ------------------------------------------------------- number <-> text

  /** `String(n)` for a non-negative integer: its shortest decimal numeral. */
  function NatToString(n: nat): (r: string)
    ensures |r| >= 1 && AllDigits(r)
    ensures DecimalValue(r) == n
    ensures |r| > 1 ==> r[0] != '0'
  {
    if n < 10 then [DigitChar(n)]
    else
      var p := NatToString(n / 10);
      var r := p + [DigitChar(n % 10)];
      assert r[..|r| - 1] == p;
      r
  }

  /** `String(n)`: the decimal numeral, with a leading '-' when negative. */
  function IntToString(n: int): (r: string)
    ensures |r| >= 1
    ensures n >= 0 ==> AllDigits(r)
    ensures n < 0 ==> r[0] == '-' && AllDigits(r[1..])
  {
    if n < 0 then "-" + NatToString(-n) else NatToString(n)
  }

  /** The magnitude `parseInt` reads once whitespace and sign are gone: a
      `0x`/`0X` hexadecimal numeral, else the longest decimal digit run;
      `None` when no digit is found. */
  function ParseMagnitude(body: string): Option<nat> {
    if |body| >= 2 && body[0] == '0' && (body[1] == 'x' || body[1] == 'X') then
      var h := HexRun(body[2..]);
      if h == [] then None else Some(HexValue(h))
    else
      var d := DigitRun(body);
      if d == [] then None else Some(DecimalValue(d))
  }

  /** `parseInt(s)` with no radix: skip leading whitespace, take an optional
      sign, then read the magnitude; `None` stands for NaN. */
  function ParseInt(s: string): Option<int> {
    var t := TrimStart(s);
    var signed := |t| > 0 && (t[0] == '-' || t[0] == '+');
    var negative := |t| > 0 && t[0] == '-';
    var body := if signed then t[1..] else t;
    match ParseMagnitude(body)
    case None => None
    case Some(m) =>
      var v: int := if negative then -(m as int) else m;
      Some(v)
  }

  /** The digit run of a numeral followed by a non-digit is the numeral. */
  lemma {:induction false} DigitRunOfNumeral(d: string, rest: string)
    requires AllDigits(d)
    requires rest == [] || !IsDigit(rest[0])
    ensures DigitRun(d + rest) == d
    decreases |d|
  {
    if d != [] {
      assert (d + rest)[1..] == d[1..] + rest;
      DigitRunOfNumeral(d[1..], rest);
    }
  }

  /** The shortest numeral of `n`, followed by text that cannot extend it,
      reads back as `n`. */
  lemma ParseMagnitudeOfNumeral(n: nat, rest: string)
    requires rest == [] || (!IsDigit(rest[0]) && rest[0] != 'x' && rest[0] != 'X')
    ensures ParseMagnitude(NatToString(n) + rest) == Some(n)
  {
    var d := NatToString(n);
    var body := d + rest;
    if |d| >= 2 {
      assert body[0] == d[0] && body[1] == d[1];
    } else if |body| >= 2 {
      assert body[1] == rest[0];
    }
    DigitRunOfNumeral(d, rest);
  }

  /** A string that does not begin with whitespace is its own `trimStart()`. */
  lemma TrimStartNoSpace(s: string)
    requires s == [] || !IsJsSpace(s[0])
    ensures TrimStart(s) == s
  {
    assert LeadingSpaces(s) == 0;
  }

  /** `parseInt(String(n) + rest) === n` whenever `rest` cannot extend the
      numeral: the round trip every `${grade}-${c}` identifier relies on. */
  lemma ParseIntOfNat(n: nat, rest: string)
    requires rest == [] || (!IsDigit(rest[0]) && rest[0] != 'x' && rest[0] != 'X')
    ensures ParseInt(NatToString(n) + rest) == Some(n)
  {
    var s := NatToString(n) + rest;
    ParseMagnitudeOfNumeral(n, rest);
    assert IsDigit(s[0]);
    TrimStartNoSpace(s);
  }

  lemma ParseIntOfNegative(n: nat, rest: string)
    requires n > 0
    requires rest == [] || (!IsDigit(rest[0]) && rest[0] != 'x' && rest[0] != 'X')
    ensures ParseInt("-" + NatToString(n) + rest) == Some(-(n as int))
  {
    var d := NatToString(n);
    var s := "-" + d + rest;
    ParseMagnitudeOfNumeral(n, rest);
    assert s[0] == '-';
    TrimStartNoSpace(s);
    assert s[1..] == d + rest;
  }

  /** `parseInt(String(n) + rest) === n` whenever `rest` cannot extend the
      numeral: the round trip every `${grade}-${c}` identifier relies on. */
  lemma ParseIntOfNumeral(n: int, rest: string)
    requires rest == [] || (!IsDigit(rest[0]) && rest[0] != 'x' && rest[0] != 'X')
    ensures ParseInt(IntToString(n) + rest) == Some(n)
  {
    if n < 0 {
      ParseIntOfNegative(-n, rest);
    } else {
      ParseIntOfNat(n, rest);
    }
  }

  /** `Number(s)` restricted to integer numerals: surrounding whitespace is
      ignored, the empty string reads as 0, and an optionally signed decimal
      digit string reads as its value; anything else is NaN (`None`). */
  function NumberOf(s: string): Option<int> {
    var t := Trim(s);
    if t == [] then Some(0)
    else
      var signed := t[0] == '-' || t[0] == '+';
      var body := if signed then t[1..] else t;
      if body == [] || !AllDigits(body) then None
      else
        var v: int := if t[0] == '-' then -(DecimalValue(body) as int) else DecimalValue(body);
        Some(v)
  }

  /** `String(n).padStart(2, '0')`. */
  function PadStart2(s: string): (r: string)
    ensures |r| >= 2 && |r| >= |s|
  {
    if |s| >= 2 then s else seq(2 - |s|, _ => '0') + s
  }

  /** A string with no whitespace at either end is its own `trim()`. */
  lemma TrimNoSpace(s: string)
    requires s != [] && !IsJsSpace(s[0]) && !IsJsSpace(s[|s| - 1])
    ensures Trim(s) == s
  {
    assert LeadingSpaces(s) == 0;
    assert s[0..] == s;
    assert TrailingSpaces(s) == 0;
  }

  /** The two-digit zero-padded numeral of `n` below 100. */
  lemma PaddedNumeral(n: nat)
    requires n < 100
    ensures |PadStart2(NatToString(n))| == 2
    ensures AllDigits(PadStart2(NatToString(n)))
    ensures DecimalValue(PadStart2(NatToString(n))) == n
  {
    var d := NatToString(n);
    if n < 10 {
      assert PadStart2(d) == "0" + d;
      DecimalValueLeadingZero(d);
    } else {
      assert d == NatToString(n / 10) + [DigitChar(n % 10)];
    }
  }

  /** `Number` reads a plain digit string as its decimal value. */
  lemma NumberOfDigits(p: string)
    requires p != [] && AllDigits(p)
    ensures NumberOf(p) == Some(DecimalValue(p))
  {
    assert IsDigit(p[0]) && IsDigit(p[|p| - 1]);
    TrimNoSpace(p);
  }

  /** Reading a two-digit zero-padded number back with `Number` yields it. */
  lemma NumberOfPadded(n: nat)
    requires n < 100
    ensures NumberOf(PadStart2(NatToString(n))) == Some(n)
  {
    PaddedNumeral(n);
    NumberOfDigits(PadStart2(NatToString(n)));
  }

  // ------------------------------------------------------- default ordering

  /** The comparison behind `Array.prototype.sort()` with no comparator:
      lexicographic order on the character sequences. */
  predicate LexLe(a: string, b: string)
    decreases |a|
  {
    a == [] || (b != [] && (a[0] < b[0] || (a[0] == b[0] && LexLe(a[1..], b[1..]))))
  }

  lemma {:induction false} LexLeTotal(a: string, b: string)
    ensures LexLe(a, b) || LexLe(b, a)
    decreases |a|
  {
    if a != [] && b != [] && a[0] == b[0] {
      LexLeTotal(a[1..], b[1..]);
    }
  }

  lemma {:induction false} LexLeTransitive(a: string, b: string, c: string)
    requires LexLe(a, b) && LexLe(b, c)
    ensures LexLe(a, c)
    decreases |a|
  {
    if a != [] && a[0] == b[0] && b[0] == c[0] {
      LexLeTransitive(a[1..], b[1..], c[1..]);
    }
  }

  predicate SortedByKey<T>(xs: seq<T>, key: T -> string) {
    forall i, j :: 0 <= i < j < |xs| ==> LexLe(key(xs[i]), key(xs[j]))
  }

  /** Inserts `x` in front of the first element whose key is not below it. */
  function InsertByKey<T>(x: T, xs: seq<T>, key: T -> string): (r: seq<T>)
    requires SortedByKey(xs, key)
    ensures SortedByKey(r, key)
    ensures multiset(r) == multiset(xs) + multiset{x}
    ensures |r| == |xs| + 1
  {
    if xs == [] then [x]
    else if LexLe(key(x), key(xs[0])) then
      InsertInFront(x, xs, key);
      [x] + xs
    else
      LexLeTotal(key(x), key(xs[0]));
      var rest := InsertByKey(x, xs[1..], key);
      KeepHeadInFront(xs, x, rest, key);
      assert xs == [xs[0]] + xs[1..];
      [xs[0]] + rest
  }

  /** An element whose key is not above the first of a sorted list can go
      in front of it. */
  lemma InsertInFront<T>(x: T, xs: seq<T>, key: T -> string)
    requires SortedByKey(xs, key) && xs != [] && LexLe(key(x), key(xs[0]))
    ensures SortedByKey([x] + xs, key)
  {
    forall j | 0 < j < |xs| ensures LexLe(key(x), key(xs[j])) {
      LexLeTransitive(key(x), key(xs[0]), key(xs[j]));
    }
  }

  /** The head of a sorted list stays in front of the rest with one more
      element inserted that does not sort below it. */
  lemma KeepHeadInFront<T>(xs: seq<T>, x: T, rest: seq<T>, key: T -> string)
    requires SortedByKey(xs, key) && xs != [] && LexLe(key(xs[0]), key(x))
    requires SortedByKey(rest, key) && multiset(rest) == multiset(xs[1..]) + multiset{x}
    ensures SortedByKey([xs[0]] + rest, key)
  {
    var r := [xs[0]] + rest;
    forall j | 0 < j < |r| ensures LexLe(key(xs[0]), key(r[j])) {
      assert r[j] == rest[j - 1];
      assert r[j] in multiset(rest);
      if r[j] != x {
        assert r[j] in multiset(xs[1..]);
        var k :| 0 <= k < |xs[1..]| && xs[1..][k] == r[j];
        assert xs[k + 1] == r[j];
      }
    }
  }

  /** `xs.sort()` ordering elements by the text `key` gives them: a stable
      insertion sort, so the result is a sorted permutation of `xs`. */
  function SortByKey<T>(xs: seq<T>, key: T -> string): (r: seq<T>)
    ensures SortedByKey(r, key)
    ensures multiset(r) == multiset(xs)
    ensures |r| == |xs|
  {
    if xs == [] then []
    else
      assert xs == [xs[0]] + xs[1..];
      InsertByKey(xs[0], SortByKey(xs[1..], key), key)
  }

  /** `strings.sort()`. */
  function SortStrings(xs: seq<string>): (r: seq<string>)
    ensures SortedByKey(r, (s: string) => s)
    ensures multiset(r) == multiset(xs)
  {
    SortByKey(xs, (s: string) => s)
  }
}
