/** The timecode text that LiveSplit writes (the .NET TimeSpan "c" layout,
    `[d.]hh:mm:ss.fffffff`) and the two conversions of LSSFile.py:
    `secs_from_string` (Parse) and `time_from_secs` (Format).

    A time is an integer count of ticks of 1e-7 s, so the `round(x, 7)` that
    the planner applies to its sums is the identity here. */
module Timecode {
  import opened Wrappers

  const TicksPerSecond: int := 10_000_000
  const TicksPerMinute: int := 600_000_000       // 60 s
  const TicksPerHour: int := 36_000_000_000      // 3600 s
  const TicksPerDay: int := 864_000_000_000      // 86400 s

  /** The token LiveSplit writes for an absent time. */
  const NoneToken: string := "None"

  /** The diagnostic `secs_from_string` raises besides its value. */
  datatype Note =
    | Clean       // no warning
    | NoFraction  // "parsed a timecode in H:M:S format" (line 33)
    | Invalid     // "parsed invalid string ... 0s returned" (line 35)

  /** What `secs_from_string` does with a text: a value with its diagnostic, or
      Unreadable where Python's int() or float() raises ValueError. */
  datatype Reading = Value(ticks: int, note: Note) | Unreadable

  predicate Readable(s: string) { Parse(s).Value? }

  /** The value of a readable text, as `IDTime.rta_secs` / `igt_secs` return it. */
  function Secs(s: string): int
    requires Readable(s)
  {
    Parse(s).ticks
  }

  // ---------------------------------------------------------------- characters

  predicate IsDigit(c: char) { '0' <= c <= '9' }

  predicate AllDigits(s: string) { forall i :: 0 <= i < |s| ==> IsDigit(s[i]) }

  /** The characters Python's `str.isspace()` holds for, which `str.strip()`
      removes: '\t' to '\r', U+001C to U+001F, ' ', U+0085, the no-break
      space U+00A0, U+1680, U+2000 to U+200A, the line and paragraph
      separators U+2028 and U+2029, U+202F, U+205F and U+3000. */
  predicate IsSpace(c: char)
  {
    '\t' <= c <= '\r' || '\U{1C}' <= c <= ' ' || c == '\U{85}' || c == '\U{A0}'
    || c == '\U{1680}' || '\U{2000}' <= c <= '\U{200A}' || c == '\U{2028}' || c == '\U{2029}'
    || c == '\U{202F}' || c == '\U{205F}' || c == '\U{3000}'
  }

  function Digit(k: nat): (c: char)
    requires k < 10
    ensures IsDigit(c) && c as int - '0' as int == k
  {
    (k + '0' as int) as char
  }

  function Pow10(n: nat): (p: nat)
    ensures p >= 1
  {
    if n == 0 then 1 else 10 * Pow10(n - 1)
  }

  /** `str.strip()`: the text without leading and trailing whitespace. */
  function Strip(s: string): (r: string)
    ensures |r| <= |s|
    ensures r != [] ==> !IsSpace(r[0]) && !IsSpace(r[|r| - 1])
    decreases |s|
  {
    if s == [] then []
    else if IsSpace(s[0]) then Strip(s[1..])
    else if IsSpace(s[|s| - 1]) then Strip(s[..|s| - 1])
    else s
  }

  /** `strip` removes only whitespace. */
  lemma {:induction false} StripKeeps(s: string, c: char)
    requires c in s && !IsSpace(c)
    ensures c in Strip(s)
    decreases |s|
  {
    if IsSpace(s[0]) {
      assert c in s[1..];
      StripKeeps(s[1..], c);
    } else if IsSpace(s[|s| - 1]) {
      assert c in s[..|s| - 1];
      StripKeeps(s[..|s| - 1], c);
    }
  }

  /** `str.find(c, start)`: the first index at or after `start` holding `c`, or -1. */
  function Find(s: string, c: char, start: nat): (k: int)
    ensures k == -1 || (start <= k < |s| && s[k] == c)
    decreases |s| - start
  {
    if start >= |s| then -1
    else if s[start] == c then start
    else Find(s, c, start + 1)
  }

  /** `str.find` passes over no occurrence: there is none before what it
      returns, and none at all where it returns -1. */
  lemma {:induction false} FindSkips(s: string, c: char, start: nat)
    ensures var k := Find(s, c, start);
      (k == -1 ==> forall j :: start <= j < |s| ==> s[j] != c)
      && (k >= 0 ==> forall j :: start <= j < k ==> s[j] != c)
    decreases |s| - start
  {
    if start < |s| && s[start] != c {
      FindSkips(s, c, start + 1);
    }
  }

  /** `str.count(c)`. */
  function CountChar(s: string, c: char): (n: nat)
    ensures n == multiset(s)[c]
  {
    if s == [] then 0
    else
      assert s == s[..|s| - 1] + [s[|s| - 1]];
      CountChar(s[..|s| - 1], c) + (if s[|s| - 1] == c then 1 else 0)
  }

  // ---------------------------------------------------------------- integers

  /** The number a string of decimal digits denotes. */
  function DigitsValue(s: string): nat
    requires AllDigits(s)
  {
    if s == [] then 0
    else DigitsValue(s[..|s| - 1]) * 10 + (s[|s| - 1] as int - '0' as int)
  }

  /** Python's `int(text)` on the texts this model reads: an optional sign and
      one or more decimal digits; None where int() raises. */
  function IntField(s: string): Option<int>
  {
    if s != [] && (s[0] == '-' || s[0] == '+') then
      if |s| > 1 && AllDigits(s[1..]) then
        var v: int := DigitsValue(s[1..]);
        Some(if s[0] == '-' then -v else v)
      else None
    else if s != [] && AllDigits(s) then Some(DigitsValue(s))
    else None
  }

  /** Python's `float(text)` on the text from the fraction's '.' onwards, in
      ticks: a '.' and one to seven digits; None where float() raises. */
  function FractionField(s: string): Option<int>
  {
    if 2 <= |s| <= 8 && s[0] == '.' && AllDigits(s[1..]) then
      Some(DigitsValue(s[1..]) * Pow10(8 - |s|))
    else None
  }

  /** `n` as exactly `width` digits, with leading zeros (`{:02d}`, and the
      seven fraction digits of `{0:.7f}`). */
  function PadDigits(n: nat, width: nat): (r: string)
    requires n < Pow10(width)
    ensures |r| == width && AllDigits(r)
  {
    if width == 0 then [] else PadDigits(n / 10, width - 1) + [Digit(n % 10)]
  }

  /** The shortest decimal digits of `n`, as Python's `str(n)` writes it. */
  function NatDigits(n: nat): (r: string)
    ensures r != [] && AllDigits(r)
  {
    if n < 10 then [Digit(n)] else NatDigits(n / 10) + [Digit(n % 10)]
  }

  /** Python's `str(i)` for an integer. */
  function IntToString(i: int): string
  {
    if i < 0 then "-" + NatDigits(-i) else NatDigits(i)
  }

  // ---------------------------------------------------------------- secs_from_string

  /** `secs_from_string` (LSSFile.py:7-36). With more than one '.', the field
      before the first '.' is a day count; then hours, minutes and seconds are
      read between ':' and ':' and '.', and the rest from the '.' is the fraction. */
  function Parse(s: string): Reading
  {
    if s == NoneToken then Value(0, Clean)
    else if CountChar(s, '.') > 1 then
      var e := Find(Strip(s), '.', 0);
      assert '.' in s;
      StripKeeps(s, '.');
      FindSkips(Strip(s), '.', 0);
      assert e >= 0;
      ReadFields(s, 0, 0, e, Days)
    else
      ReadFields(s, 0, 0, Find(Strip(s), ':', 0), Hours)
  }

  /** The field `str_to_int` (lines 11-15) reads next: the day count up to
      the first '.', hours up to a ':', minutes up to a '.', then the seconds
      and the fraction. */
  datatype Stage = Days | Hours | Minutes | Seconds

  function FieldsLeft(stage: Stage): nat
  {
    match stage
    case Days => 3
    case Hours => 2
    case Minutes => 1
    case Seconds => 0
  }

  /** Lines 22-36 from the field `stage` on: `end` is the position of the
      separator after it (-1 where `str.find` found none), `secs` the value
      read so far. A missing ':' gives 0 with the Invalid warning; a missing
      '.' leaves the seconds out, with the NoFraction warning. (`Parse` starts
      the day count only where the text holds a '.'.) */
  function ReadFields(s: string, secs: int, start: nat, end: int, stage: Stage): Reading
    requires end == -1 || start <= end < |s|
    decreases FieldsLeft(stage)
  {
    if end < 0 then
      if stage == Seconds then Value(secs, NoFraction) else Value(0, Invalid)
    else match IntField(s[start..end])
      case None => Unreadable
      case Some(v) =>
        match stage
        case Days => ReadFields(s, secs + v * TicksPerDay, end + 1, Find(s, ':', end + 1), Hours)
        case Hours => ReadFields(s, secs + v * TicksPerHour, end + 1, Find(s, ':', end + 1), Minutes)
        case Minutes => ReadFields(s, secs + v * TicksPerMinute, end + 1, Find(s, '.', end + 1), Seconds)
        case Seconds =>
          match FractionField(s[end..])
          case None => Unreadable
          case Some(f) => Value(secs + v * TicksPerSecond + f, Clean)
  }

  // ---------------------------------------------------------------- time_from_secs

  /** The fixed-width clock part `hh:mm:ss.fffffff`. */
  function Clock(h: nat, m: nat, sec: nat, f: nat): string
    requires h < 100 && m < 100 && sec < 100 && f < TicksPerSecond
  {
    ClockText(PadDigits(h, 2), PadDigits(m, 2), PadDigits(sec, 2), PadDigits(f, 7))
  }

  /** The fields `time_from_secs` takes out of a time, in turn: days,
      hours, minutes and whole seconds by floor division, and the ticks left. */
  datatype Fields = Fields(days: int, hours: nat, minutes: nat, seconds: nat, ticks: nat)

  /** Lines 41-48: each field below its unit, and together they make up
      the time (a negative time gets a negative day count). */
  function Split(t: int): (r: Fields)
    ensures r.hours < 24 && r.minutes < 60 && r.seconds < 60 && r.ticks < TicksPerSecond
    ensures t == r.days * TicksPerDay + r.hours * TicksPerHour + r.minutes * TicksPerMinute
      + r.seconds * TicksPerSecond + r.ticks
  {
    var d := t / TicksPerDay;
    var r1 := t - d * TicksPerDay;
    assert 0 <= r1 < TicksPerDay;
    var h := r1 / TicksPerHour;
    var r2 := r1 - h * TicksPerHour;
    assert 0 <= r2 < TicksPerHour;
    var m := r2 / TicksPerMinute;
    var r3 := r2 - m * TicksPerMinute;
    assert 0 <= r3 < TicksPerMinute;
    var sec := r3 / TicksPerSecond;
    Fields(d, h, m, sec, r3 - sec * TicksPerSecond)
  }

  /** `time_from_secs` (LSSFile.py:39-51): "None" for 0; otherwise the day
      count followed by '.' only when it is not 0, then the clock part. */
  function Format(t: int): (r: string)
    ensures r == NoneToken <==> t == 0
  {
    if t == 0 then NoneToken
    else
      var p := Split(t);
      Render(p.days, p.hours, p.minutes, p.seconds, p.ticks)
  }

  /** The day count and '.' when the day count is not 0, then the clock part. */
  function Render(d: int, h: nat, m: nat, sec: nat, f: nat): string
    requires h < 100 && m < 100 && sec < 100 && f < TicksPerSecond
  {
    (if d != 0 then IntToString(d) + "." else "") + Clock(h, m, sec, f)
  }

  // ---------------------------------------------------------------- round trip

  lemma {:induction false} PadDigitsValue(n: nat, width: nat)
    requires n < Pow10(width)
    ensures DigitsValue(PadDigits(n, width)) == n
    decreases width
  {
    if width > 0 {
      var r := PadDigits(n, width);
      PadDigitsValue(n / 10, width - 1);
      assert r[..|r| - 1] == PadDigits(n / 10, width - 1);
    }
  }

  lemma {:induction false} NatDigitsValue(n: nat)
    ensures DigitsValue(NatDigits(n)) == n
  {
    if n >= 10 {
      var r := NatDigits(n);
      NatDigitsValue(n / 10);
      assert r[..|r| - 1] == NatDigits(n / 10);
    }
  }

  /** Python's `int(str(i)) == i`, on the day count that `time_from_secs` prints. */
  lemma IntToStringReads(i: int)
    ensures IntField(IntToString(i)) == Some(i)
    ensures var r := IntToString(i); r != [] && !IsSpace(r[0]) && IsDigit(r[|r| - 1])
    ensures '.' !in IntToString(i) && ':' !in IntToString(i)
  {
    var r := IntToString(i);
    if i < 0 {
      NatDigitsValue(-i);
      assert r[1..] == NatDigits(-i);
    } else {
      NatDigitsValue(i);
    }
  }

  lemma StripUnchanged(s: string)
    requires s != [] && !IsSpace(s[0]) && !IsSpace(s[|s| - 1])
    ensures Strip(s) == s
  {
  }

  lemma ClockLayout(h: nat, m: nat, sec: nat, f: nat)
    requires h < 100 && m < 100 && sec < 100 && f < TicksPerSecond
    ensures var c := Clock(h, m, sec, f);
      |c| == 16 && c[..2] == PadDigits(h, 2) && c[2] == ':' && c[3..5] == PadDigits(m, 2)
      && c[5] == ':' && c[6..8] == PadDigits(sec, 2) && c[8..] == ['.'] + PadDigits(f, 7)
  {
    var H, M, S, F := PadDigits(h, 2), PadDigits(m, 2), PadDigits(sec, 2), PadDigits(f, 7);
    assert Clock(h, m, sec, f) == H + [':'] + M + [':'] + S + ['.'] + F;
    Fields16(H, M, S, F);
  }

  /** Where each part of a 16-character clock text sits. */
  lemma Fields16(H: string, M: string, S: string, F: string)
    requires |H| == 2 && |M| == 2 && |S| == 2 && |F| == 7
    ensures var c := H + [':'] + M + [':'] + S + ['.'] + F;
      |c| == 16 && c[..2] == H && c[2] == ':' && c[3..5] == M
      && c[5] == ':' && c[6..8] == S && c[8..] == ['.'] + F
  {
  }

  /** The text `time_from_secs` prints for a non-zero time, from its fields. */
  lemma FormatFields(t: int) returns (d: int, h: nat, m: nat, sec: nat, f: nat)
    requires t != 0
    ensures h < 24 && m < 60 && sec < 60 && f < TicksPerSecond
    ensures t == d * TicksPerDay + h * TicksPerHour + m * TicksPerMinute + sec * TicksPerSecond + f
    ensures Format(t) == Render(d, h, m, sec, f)
  {
    var p := Split(t);
    d, h, m, sec, f := p.days, p.hours, p.minutes, p.seconds, p.ticks;
  }

  /** Lines 18-21 for a text with at most one '.': no day count. */
  lemma ParseWithoutDays(s: string)
    requires s != NoneToken && CountChar(s, '.') <= 1
    ensures Parse(s) == ReadFields(s, 0, 0, Find(Strip(s), ':', 0), Hours)
  {
  }

  /** Lines 18-20 for a text with more than one '.': the day count before the first '.'. */
  lemma ParseWithDays(s: string, e: nat, days: int)
    requires s != NoneToken && CountChar(s, '.') > 1
    requires Find(Strip(s), '.', 0) == e && e <= |s| && IntField(s[..e]) == Some(days)
    ensures e < |s| && Parse(s) == ReadFields(s, days * TicksPerDay, e + 1, Find(s, ':', e + 1), Hours)
  {
  }

  /** A text made of digits and ':' around a single '.' holds one '.'. */
  lemma OneDot(front: string, fraction: string)
    requires forall i :: 0 <= i < |front| ==> IsDigit(front[i]) || front[i] == ':'
    requires AllDigits(fraction)
    ensures multiset(front + ['.'] + fraction)['.'] == 1
    ensures |front + ['.'] + fraction| > 0
  {
    assert '.' !in front;
    assert '.' !in fraction;
  }

  /** A digit string is read by `int()` as the number it denotes. */
  lemma DigitsRead(X: string)
    requires X != [] && AllDigits(X)
    ensures IntField(X) == Some(DigitsValue(X))
  {
  }

  /** A text `int()` reads is a sign and digits: it is not empty, starts
      with no whitespace and holds no '.' or ':'. */
  lemma IntFieldShape(D: string)
    requires IntField(D).Some?
    ensures D != [] && !IsSpace(D[0]) && '.' !in D && ':' !in D
  {
    if D[0] == '-' || D[0] == '+' {
      assert forall k :: 1 <= k < |D| ==> D[k] == D[1..][k - 1];
    }
  }

  /** A field of digits at `start`, ended by the separator `sep`: `str.find`
      lands on the separator and `int()` reads the digits. */
  lemma FieldAt(s: string, start: nat, end: nat, X: string, sep: char)
    requires X != [] && AllDigits(X) && !IsDigit(sep)
    requires start <= end < |s| && s[start..end] == X && s[end] == sep
    ensures Find(s, sep, start) == end
    ensures IntField(s[start..end]) == Some(DigitsValue(X))
  {
    forall j | start <= j < end
      ensures s[j] != sep
    {
      assert s[j] == X[j - start];
    }
    FindFirst(s, sep, start, end);
    DigitsRead(X);
  }

  /** `float()` on a '.' and one to seven digits. */
  lemma FractionDigitsRead(F: string)
    requires 1 <= |F| <= 7 && AllDigits(F)
    ensures FractionField("." + F) == Some(DigitsValue(F) * Pow10(7 - |F|))
  {
    assert ("." + F)[1..] == F;
  }

  /** The fields of a clock text `H:M:S.F`: three non-empty digit fields and
      a fraction of one to seven digits. */
  predicate ClockFields(H: string, M: string, S: string, F: string)
  {
    H != [] && M != [] && S != [] && 1 <= |F| <= 7
    && AllDigits(H) && AllDigits(M) && AllDigits(S) && AllDigits(F)
  }

  /** The clock text `H:M:S.F`. */
  function ClockText(H: string, M: string, S: string, F: string): string
  {
    H + ":" + M + ":" + S + "." + F
  }

  /** What a clock text `H:M:S.F` denotes, in ticks: hours, minutes and
      seconds, and the fraction scaled to seven digits. */
  function ClockTicks(H: string, M: string, S: string, F: string): int
    requires ClockFields(H, M, S, F)
  {
    DigitsValue(H) * TicksPerHour + DigitsValue(M) * TicksPerMinute
      + DigitsValue(S) * TicksPerSecond + DigitsValue(F) * Pow10(7 - |F|)
  }

  /** Where each field of a clock text sits. */
  lemma ClockTextLayout(H: string, M: string, S: string, F: string)
    ensures var c := ClockText(H, M, S, F);
      var e1 := |H|; var e2 := e1 + 1 + |M|; var e3 := e2 + 1 + |S|;
      |c| == e3 + 1 + |F|
      && c[..e1] == H && c[e1] == ':' && c[e1 + 1..e2] == M && c[e2] == ':'
      && c[e2 + 1..e3] == S && c[e3..] == "." + F
  {
  }

  /** A clock text holds one '.', starts and ends with a digit, and is not "None". */
  lemma ClockTextShape(H: string, M: string, S: string, F: string)
    requires ClockFields(H, M, S, F)
    ensures var c := ClockText(H, M, S, F);
      c != [] && c != NoneToken && multiset(c)['.'] == 1 && IsDigit(c[0]) && IsDigit(c[|c| - 1])
  {
    var front := H + ":" + M + ":" + S;
    forall i | 0 <= i < |front|
      ensures IsDigit(front[i]) || front[i] == ':'
    {
      if i < |H| { assert front[i] == H[i]; }
      else if i == |H| { }
      else if i < |H| + 1 + |M| { assert front[i] == M[i - |H| - 1]; }
      else if i == |H| + 1 + |M| { }
      else { assert front[i] == S[i - |H| - 2 - |M|]; }
    }
    OneDot(front, F);
    assert ClockText(H, M, S, F) == front + ['.'] + F;
  }

  /** Lines 23-24: the hours field, ending at the ':' at e, is read as v
      and reading goes on after the ':' up to the next ':' at k. */
  lemma HoursStep(s: string, acc: int, o: nat, e: nat, v: int, k: int)
    requires o <= e < |s| && IntField(s[o..e]) == Some(v) && k == Find(s, ':', e + 1)
    ensures ReadFields(s, acc, o, e, Hours) == ReadFields(s, acc + v * TicksPerHour, e + 1, k, Minutes)
  {
  }

  /** Lines 25-26: the minutes field, ending at the ':' at e, is read as v
      and reading goes on after the ':' up to the '.' at k. */
  lemma MinutesStep(s: string, acc: int, o: nat, e: nat, v: int, k: int)
    requires o <= e < |s| && IntField(s[o..e]) == Some(v) && k == Find(s, '.', e + 1)
    ensures ReadFields(s, acc, o, e, Minutes) == ReadFields(s, acc + v * TicksPerMinute, e + 1, k, Seconds)
  {
  }

  /** Lines 29-31: the seconds field, ending at the '.' at e, is read as v
      and the fraction from e on as f. */
  lemma SecondsStep(s: string, acc: int, o: nat, e: nat, v: int, f: int)
    requires o <= e < |s| && IntField(s[o..e]) == Some(v) && FractionField(s[e..]) == Some(f)
    ensures ReadFields(s, acc, o, e, Seconds) == Value(acc + v * TicksPerSecond + f, Clean)
  {
  }

  /** Where the fields of a clock text at position o sit in the text. */
  lemma ClockSlices(s: string, o: nat, H: string, M: string, S: string, F: string)
    requires o <= |s| && s[o..] == ClockText(H, M, S, F)
    ensures var e1 := o + |H|; var e2 := e1 + 1 + |M|; var e3 := e2 + 1 + |S|;
      e3 < |s| && s[o..e1] == H && s[e1] == ':' && s[e1 + 1..e2] == M && s[e2] == ':'
      && s[e2 + 1..e3] == S && s[e3..] == "." + F
  {
    var c := ClockText(H, M, S, F);
    var e1 := o + |H|;
    var e2 := e1 + 1 + |M|;
    var e3 := e2 + 1 + |S|;
    ClockTextLayout(H, M, S, F);
    assert s[o..e1] == c[..|H|] && s[e1] == c[|H|];
    assert s[e1 + 1..e2] == c[|H| + 1..|H| + 1 + |M|] && s[e2] == c[|H| + 1 + |M|];
    assert s[e2 + 1..e3] == c[|H| + 2 + |M|..|H| + 2 + |M| + |S|];
    assert s[e3..] == c[e3 - o..];
  }

  /** Lines 23-34 once the three separators are found and the fields read:
      hours, minutes, seconds and fraction are added to what was read before. */
  lemma StepsRead(s: string, acc: int, o: nat, e1: nat, e2: nat, e3: nat, h: int, m: int, sec: int, f: int, total: int)
    requires o <= e1 < e2 < e3 < |s|
    requires Find(s, ':', o) == e1 && IntField(s[o..e1]) == Some(h)
    requires Find(s, ':', e1 + 1) == e2 && IntField(s[e1 + 1..e2]) == Some(m)
    requires Find(s, '.', e2 + 1) == e3 && IntField(s[e2 + 1..e3]) == Some(sec)
    requires FractionField(s[e3..]) == Some(f)
    requires total == acc + h * TicksPerHour + m * TicksPerMinute + sec * TicksPerSecond + f
    ensures ReadFields(s, acc, o, Find(s, ':', o), Hours) == Value(total, Clean)
  {
    HoursStep(s, acc, o, e1, h, e2);
    MinutesStep(s, acc + h * TicksPerHour, e1 + 1, e2, m, e3);
    SecondsStep(s, acc + h * TicksPerHour + m * TicksPerMinute, e2 + 1, e3, sec, f);
    SameReading(ReadFields(s, acc, o, e1, Hours), Value(total, Clean));
    HoursFrom(s, acc, o, e1, Value(total, Clean));
  }

  /** Where `str.find` lands in a text that goes on from position o with a
      clock text `H:M:S.F`, and what `int()` and `float()` read between. */
  lemma ClockFieldsAt(s: string, o: nat, H: string, M: string, S: string, F: string)
    requires ClockFields(H, M, S, F)
    requires o <= |s| && s[o..] == ClockText(H, M, S, F)
    ensures var e1 := o + |H|; var e2 := e1 + 1 + |M|; var e3 := e2 + 1 + |S|;
      e3 < |s| && Find(s, ':', o) == e1 && IntField(s[o..e1]) == Some(DigitsValue(H))
      && Find(s, ':', e1 + 1) == e2 && IntField(s[e1 + 1..e2]) == Some(DigitsValue(M))
      && Find(s, '.', e2 + 1) == e3 && IntField(s[e2 + 1..e3]) == Some(DigitsValue(S))
      && FractionField(s[e3..]) == Some(DigitsValue(F) * Pow10(7 - |F|))
  {
    ClockSlices(s, o, H, M, S, F);
    FieldAt(s, o, o + |H|, H, ':');
    FieldAt(s, o + |H| + 1, o + |H| + 1 + |M|, M, ':');
    FieldAt(s, o + |H| + 1 + |M| + 1, o + |H| + 1 + |M| + 1 + |S|, S, '.');
    FractionDigitsRead(F);
  }

  /** Lines 23-34 on a text that goes on from position o with a clock text:
      its value is added to what was read before it, with no warning. */
  lemma ClockFieldsRead(s: string, o: nat, H: string, M: string, S: string, F: string, acc: int)
    requires ClockFields(H, M, S, F)
    requires o <= |s| && s[o..] == ClockText(H, M, S, F)
    ensures ReadFields(s, acc, o, Find(s, ':', o), Hours) == Value(acc + ClockTicks(H, M, S, F), Clean)
  {
    ClockFieldsAt(s, o, H, M, S, F);
    ClockStepsRead(s, o, H, M, S, F, acc);
  }

  /** Lines 23-34 once `str.find` is known to land on the separators after
      the fields H, M and S, and the fields are known to read as digits. */
  lemma ClockStepsRead(s: string, o: nat, H: string, M: string, S: string, F: string, acc: int)
    requires ClockFields(H, M, S, F)
    requires var e1 := o + |H|; var e2 := e1 + 1 + |M|; var e3 := e2 + 1 + |S|;
      e3 < |s| && Find(s, ':', o) == e1 && IntField(s[o..e1]) == Some(DigitsValue(H))
      && Find(s, ':', e1 + 1) == e2 && IntField(s[e1 + 1..e2]) == Some(DigitsValue(M))
      && Find(s, '.', e2 + 1) == e3 && IntField(s[e2 + 1..e3]) == Some(DigitsValue(S))
      && FractionField(s[e3..]) == Some(DigitsValue(F) * Pow10(7 - |F|))
    ensures ReadFields(s, acc, o, Find(s, ':', o), Hours) == Value(acc + ClockTicks(H, M, S, F), Clean)
  {
    StepsRead(s, acc, o, o + |H|, o + |H| + 1 + |M|, o + |H| + 1 + |M| + 1 + |S|,
      DigitsValue(H), DigitsValue(M), DigitsValue(S), DigitsValue(F) * Pow10(7 - |F|), acc + ClockTicks(H, M, S, F));
  }

  /** Reading from o up to the first ':' after it, once that ':' is known to be at e. */
  lemma HoursFrom(s: string, acc: int, o: nat, e: nat, r: Reading)
    requires o <= e < |s| && Find(s, ':', o) == e && ReadFields(s, acc, o, e, Hours) == r
    ensures ReadFields(s, acc, o, Find(s, ':', o), Hours) == r
  {
  }

  /** Lines 21-34: a clock text `H:M:S.F` without a day count reads as its
      hours, minutes, seconds and fraction, with no warning. */
  lemma ClockParse(H: string, M: string, S: string, F: string)
    requires ClockFields(H, M, S, F)
    ensures Parse(ClockText(H, M, S, F)) == Value(ClockTicks(H, M, S, F), Clean)
  {
    var c := ClockText(H, M, S, F);
    ClockTextShape(H, M, S, F);
    StripUnchanged(c);
    ParseWithoutDays(c);
    assert c[0..] == c;
    ClockFieldsRead(c, 0, H, M, S, F, 0);
    SameReading(Parse(c), Value(ClockTicks(H, M, S, F), Clean));
  }

  /** A day count, '.' and a clock text: the text holds two '.', the first
      right after the day count. */
  lemma DayTextLayout(D: string, c: string)
    requires D != [] && !IsSpace(D[0]) && '.' !in D
    requires c != [] && IsDigit(c[|c| - 1]) && multiset(c)['.'] == 1
    ensures var s := D + "." + c;
      s != NoneToken && CountChar(s, '.') == 2 && Strip(s) == s && Find(s, '.', 0) == |D|
      && s[..|D|] == D && s[|D| + 1..] == c
  {
    var s := D + "." + c;
    assert s[|D|] == '.';
    assert multiset(s)['.'] == 2;
    assert s[|s| - 1] == c[|c| - 1];
    StripUnchanged(s);
    FindFirst(s, '.', 0, |D|);
  }

  /** Lines 18-34: a text with more than one '.', a day count, '.' and a clock
      text `H:M:S.F`, reads the field before the first '.' as days: days·86400 s
      plus the clock text, with no warning. */
  lemma DayClockParse(D: string, d: int, H: string, M: string, S: string, F: string)
    requires IntField(D) == Some(d) && ClockFields(H, M, S, F)
    ensures CountChar(D + "." + ClockText(H, M, S, F), '.') == 2
    ensures Parse(D + "." + ClockText(H, M, S, F)) == Value(d * TicksPerDay + ClockTicks(H, M, S, F), Clean)
  {
    ClockTextShape(H, M, S, F);
    DayPrefixRead(D, d, ClockText(H, M, S, F));
    ClockFieldsRead(D + "." + ClockText(H, M, S, F), |D| + 1, H, M, S, F, d * TicksPerDay);
  }

  /** Lines 18-20 on a day count, '.' and a text with one '.': the days are
      read and the hours start right after the first '.'. */
  lemma DayPrefixRead(D: string, d: int, c: string)
    requires IntField(D) == Some(d)
    requires c != [] && IsDigit(c[|c| - 1]) && multiset(c)['.'] == 1
    ensures var s := D + "." + c;
      CountChar(s, '.') == 2 && |D| < |s| && s[|D| + 1..] == c
      && Parse(s) == ReadFields(s, d * TicksPerDay, |D| + 1, Find(s, ':', |D| + 1), Hours)
  {
    IntFieldShape(D);
    DayTextLayout(D, c);
    ParseWithDays(D + "." + c, |D|, d);
  }

  /** `strip` only removes characters. */
  lemma {:induction false} StripWithin(s: string, c: char)
    requires c in Strip(s)
    ensures c in s
    decreases |s|
  {
    if s != [] && IsSpace(s[0]) {
      StripWithin(s[1..], c);
    } else if s != [] && IsSpace(s[|s| - 1]) {
      StripWithin(s[..|s| - 1], c);
    }
  }

  /** `strip` keeps one contiguous part of the text and removes only the
      whitespace before and after it. */
  lemma {:induction false} StripSlice(s: string) returns (i: nat, j: nat)
    ensures i <= j <= |s| && Strip(s) == s[i..j]
    ensures forall k :: 0 <= k < i ==> IsSpace(s[k])
    ensures forall k :: j <= k < |s| ==> IsSpace(s[k])
    decreases |s|
  {
    if s == [] {
      i, j := 0, 0;
    } else if IsSpace(s[0]) {
      var i', j' := StripSlice(s[1..]);
      i, j := i' + 1, j' + 1;
      assert s[1..][i'..j'] == s[i..j];
      forall k | 1 <= k < i ensures IsSpace(s[k]) { assert s[k] == s[1..][k - 1]; }
      forall k | j <= k < |s| ensures IsSpace(s[k]) { assert s[k] == s[1..][k - 1]; }
    } else if IsSpace(s[|s| - 1]) {
      var front := s[..|s| - 1];
      i, j := StripSlice(front);
      assert front[i..j] == s[i..j];
      assert front[0] == s[0];
      forall k | j <= k < |s| - 1 ensures IsSpace(s[k]) { assert s[k] == front[k]; }
    } else {
      i, j := 0, |s|;
    }
  }

  /** Lines 21, 23 and 35-36: a text other than "None" with at most one '.'
      and no ':' reads as 0 with the "invalid" warning. */
  lemma NoColonInvalid(s: string)
    requires s != NoneToken && CountChar(s, '.') <= 1 && ':' !in s
    ensures Parse(s) == Value(0, Invalid)
  {
    ParseWithoutDays(s);
    var e := Find(Strip(s), ':', 0);
    if e >= 0 {
      StripWithin(s, ':');
    }
  }

  /** Lines 23-26 and 35-36 on a text whose only ':' is at e. */
  lemma OneColonInvalid(s: string, e: nat)
    requires 0 < e < |s| && s[e] == ':'
    requires forall k :: 0 <= k < |s| && k != e ==> IsDigit(s[k])
    ensures Parse(s) == Value(0, Invalid)
  {
    assert '.' !in s && IsDigit(s[0]) && (IsDigit(s[|s| - 1]) || s[|s| - 1] == ':');
    NoDotStart(s);
    FindFirst(s, ':', 0, e);
    assert AllDigits(s[0..e]);
    FindAbsent(s, ':', e + 1);
  }

  /** Lines 23-26 and 35-36: hours and a ':' but no second ':' read as 0
      with the "invalid" warning; the hours read are dropped. */
  lemma HoursOnlyInvalid(H: string, M: string)
    requires H != [] && AllDigits(H) && AllDigits(M)
    ensures Parse(H + ":" + M) == Value(0, Invalid)
  {
    var s := H + ":" + M;
    assert s[|H|] == ':';
    forall k | 0 <= k < |s| && k != |H|
      ensures IsDigit(s[k])
    {
      if k < |H| { assert s[k] == H[k]; } else { assert s[k] == M[k - |H| - 1]; }
    }
    OneColonInvalid(s, |H|);
  }

  /** Line 21 on a text without '.' that starts with a digit and ends with a
      digit or ':': reading starts at its first ':' with nothing counted. */
  lemma NoDotStart(s: string)
    requires s != [] && '.' !in s && IsDigit(s[0]) && (IsDigit(s[|s| - 1]) || s[|s| - 1] == ':')
    ensures Parse(s) == ReadFields(s, 0, 0, Find(s, ':', 0), Hours)
  {
    assert s[0] != 'N';
    StripUnchanged(s);
    ParseWithoutDays(s);
  }

  /** `str.find` lands on the first occurrence at or after `start`. */
  lemma {:induction false} FindFirst(s: string, c: char, start: nat, k: nat)
    requires start <= k < |s| && s[k] == c
    requires forall j :: start <= j < k ==> s[j] != c
    ensures Find(s, c, start) == k
    decreases k - start
  {
    if start < k {
      FindFirst(s, c, start + 1, k);
    }
  }

  /** `str.find` gives -1 where the text holds no `c` from `start` on. */
  lemma {:induction false} FindAbsent(s: string, c: char, start: nat)
    requires forall j :: start <= j < |s| ==> s[j] != c
    ensures Find(s, c, start) == -1
    decreases |s| - start
  {
    if start < |s| {
      FindAbsent(s, c, start + 1);
    }
  }

  /** Lines 25-26 and 33: the minutes field, ending at the ':' at e, is read
      as v, and without a '.' after it the seconds are not added. */
  lemma MinutesNoFraction(s: string, acc: int, o: nat, e: nat, v: int)
    requires o <= e < |s| && IntField(s[o..e]) == Some(v) && Find(s, '.', e + 1) == -1
    ensures ReadFields(s, acc, o, e, Minutes) == Value(acc + v * TicksPerMinute, NoFraction)
  {
  }

  /** Lines 23-33 once the two ':' are found and the fields before them read,
      with no '.' anywhere. */
  lemma NoFractionSteps(s: string, e1: nat, e2: nat, h: int, m: int)
    requires e1 < e2 < |s|
    requires Find(s, ':', 0) == e1 && IntField(s[0..e1]) == Some(h)
    requires Find(s, ':', e1 + 1) == e2 && IntField(s[e1 + 1..e2]) == Some(m)
    requires Find(s, '.', e2 + 1) == -1
    ensures ReadFields(s, 0, 0, Find(s, ':', 0), Hours) == Value(h * TicksPerHour + m * TicksPerMinute, NoFraction)
  {
    HoursStep(s, 0, 0, e1, h, e2);
    MinutesNoFraction(s, h * TicksPerHour, e1 + 1, e2, m);
    HoursFrom(s, 0, 0, e1, Value(h * TicksPerHour + m * TicksPerMinute, NoFraction));
  }

  /** Where the fields of `H:M:S` sit; the text holds no '.'. */
  lemma HMSLayout(H: string, M: string, S: string)
    requires H != [] && M != [] && AllDigits(H) && AllDigits(M) && AllDigits(S)
    ensures var s := H + ":" + M + ":" + S; var e1 := |H|; var e2 := e1 + 1 + |M|;
      e2 < |s| && s[0..e1] == H && s[e1] == ':' && s[e1 + 1..e2] == M && s[e2] == ':'
      && '.' !in s && IsDigit(s[0]) && (IsDigit(s[|s| - 1]) || s[|s| - 1] == ':')
  {
    var s := H + ":" + M + ":" + S;
    var e1, e2 := |H|, |H| + 1 + |M|;
    forall k | 0 <= k < |s|
      ensures s[k] != '.'
    {
      if k < e1 { assert s[k] == H[k]; }
      else if e1 < k < e2 { assert s[k] == M[k - e1 - 1]; }
      else if e2 < k { assert s[k] == S[k - e2 - 1]; }
    }
    assert s[0..e1] == H;
    assert s[e1 + 1..e2] == M;
    if S != [] {
      assert s[|s| - 1] == S[|S| - 1];
    }
  }

  /** Lines 21-33 on a text laid out as digits H, ':', digits M, ':' and
      more, with no '.'. */
  lemma NoFractionText(s: string, H: string, M: string)
    requires H != [] && M != [] && AllDigits(H) && AllDigits(M)
    requires var e1 := |H|; var e2 := e1 + 1 + |M|;
      e2 < |s| && s[0..e1] == H && s[e1] == ':' && s[e1 + 1..e2] == M && s[e2] == ':'
      && '.' !in s && IsDigit(s[0]) && (IsDigit(s[|s| - 1]) || s[|s| - 1] == ':')
    ensures Parse(s) == Value(DigitsValue(H) * TicksPerHour + DigitsValue(M) * TicksPerMinute, NoFraction)
  {
    NoDotStart(s);
    FindAbsent(s, '.', |H| + 1 + |M| + 1);
    NoFractionFields(s, H, M);
  }

  /** Lines 23-33 on digits H, ':', digits M, ':' and more, with no '.':
      the first ':' ends the hours, and the hours and minutes are read. */
  lemma NoFractionFields(s: string, H: string, M: string)
    requires H != [] && M != [] && AllDigits(H) && AllDigits(M)
    requires var e1 := |H|; var e2 := e1 + 1 + |M|;
      e2 < |s| && s[0..e1] == H && s[e1] == ':' && s[e1 + 1..e2] == M && s[e2] == ':'
      && Find(s, '.', e2 + 1) == -1
    ensures ReadFields(s, 0, 0, Find(s, ':', 0), Hours)
      == Value(DigitsValue(H) * TicksPerHour + DigitsValue(M) * TicksPerMinute, NoFraction)
  {
    FieldAt(s, 0, |H|, H, ':');
    FieldAt(s, |H| + 1, |H| + 1 + |M|, M, ':');
    NoFractionSteps(s, |H|, |H| + 1 + |M|, DigitsValue(H), DigitsValue(M));
  }

  /** Lines 29-33: `h:m:s` without a fraction reads as the hours and
      minutes only (the seconds are not added), with the NoFraction warning. */
  lemma NoFractionDropsSeconds(H: string, M: string, S: string)
    requires H != [] && M != [] && AllDigits(H) && AllDigits(M) && AllDigits(S)
    ensures Parse(H + ":" + M + ":" + S)
      == Value(DigitsValue(H) * TicksPerHour + DigitsValue(M) * TicksPerMinute, NoFraction)
  {
    HMSLayout(H, M, S);
    NoFractionText(H + ":" + M + ":" + S, H, M);
  }

  /** The layout `time_from_secs` prints for a time that is not 0: the last
      16 characters are `hh:mm:ss.fffffff` (two-digit fields and seven
      fraction digits), preceded by the day count and '.' exactly when the
      day count is not 0. */
  lemma FormatLayout(t: int)
    requires t != 0
    ensures var s := Format(t); var d := t / TicksPerDay;
      |s| >= 16
      && s[|s| - 14] == ':' && s[|s| - 11] == ':' && s[|s| - 8] == '.'
      && (forall k :: |s| - 16 <= k < |s| && k != |s| - 14 && k != |s| - 11 && k != |s| - 8 ==> IsDigit(s[k]))
      && (d == 0 <==> |s| == 16)
      && (d != 0 ==> s[..|s| - 16] == IntToString(d) + ".")
  {
    var p := Split(t);
    var c := Clock(p.hours, p.minutes, p.seconds, p.ticks);
    ClockLayout(p.hours, p.minutes, p.seconds, p.ticks);
    var s := Format(t);
    var pre := if p.days != 0 then IntToString(p.days) + "." else "";
    assert s == pre + c;
    assert p.days == t / TicksPerDay;
    IntToStringReads(p.days);
    assert s[|s| - 16..] == c;
    assert s[..|s| - 16] == pre;
    forall k | |s| - 16 <= k < |s| && k != |s| - 14 && k != |s| - 11 && k != |s| - 8
      ensures IsDigit(s[k])
    {
      var j := k - (|s| - 16);
      assert s[k] == c[j];
      if j < 2 { assert c[j] == c[..2][j]; }
      else if j < 5 { assert c[j] == c[3..5][j - 3]; }
      else if j < 8 { assert c[j] == c[6..8][j - 6]; }
      else { assert c[j] == c[8..][j - 8]; }
    }
  }

  /** The round trip of the codec: every time `time_from_secs` prints is read
      back by `secs_from_string` as the same time, without a warning ("None"
      for 0 included). */
  lemma FormatParse(t: int)
    ensures Parse(Format(t)) == Value(t, Clean)
  {
    if t != 0 {
      var d, h, m, sec, f := FormatFields(t);
      RenderParse(d, h, m, sec, f);
      SameReading(Parse(Format(t)), Value(t, Clean));
    }
  }

  /** The fields `time_from_secs` pads to two and seven digits are read back
      as the numbers they were printed from. */
  lemma PaddedTicks(h: nat, m: nat, sec: nat, f: nat)
    requires h < 100 && m < 100 && sec < 100 && f < TicksPerSecond
    ensures var H, M, S, F := PadDigits(h, 2), PadDigits(m, 2), PadDigits(sec, 2), PadDigits(f, 7);
      ClockFields(H, M, S, F)
      && ClockTicks(H, M, S, F) == h * TicksPerHour + m * TicksPerMinute + sec * TicksPerSecond + f
  {
    PadDigitsValue(h, 2);
    PadDigitsValue(m, 2);
    PadDigitsValue(sec, 2);
    PadDigitsValue(f, 7);
  }

  /** A printed time reads back as its day count and clock fields. */
  lemma RenderParse(d: int, h: nat, m: nat, sec: nat, f: nat)
    requires h < 100 && m < 100 && sec < 100 && f < TicksPerSecond
    ensures Parse(Render(d, h, m, sec, f))
      == Value(d * TicksPerDay + h * TicksPerHour + m * TicksPerMinute + sec * TicksPerSecond + f, Clean)
  {
    var H, M, S, F := PadDigits(h, 2), PadDigits(m, 2), PadDigits(sec, 2), PadDigits(f, 7);
    PaddedTicks(h, m, sec, f);
    RenderText(d, h, m, sec, f);
    if d == 0 {
      ClockParse(H, M, S, F);
      SameReading(Parse(Render(d, h, m, sec, f)),
        Value(d * TicksPerDay + h * TicksPerHour + m * TicksPerMinute + sec * TicksPerSecond + f, Clean));
    } else {
      IntToStringReads(d);
      DayClockParse(IntToString(d), d, H, M, S, F);
      SameReading(Parse(Render(d, h, m, sec, f)),
        Value(d * TicksPerDay + h * TicksPerHour + m * TicksPerMinute + sec * TicksPerSecond + f, Clean));
    }
  }

  /** The printed text: the day count and '.' where it is not 0, then the clock text. */
  lemma RenderText(d: int, h: nat, m: nat, sec: nat, f: nat)
    requires h < 100 && m < 100 && sec < 100 && f < TicksPerSecond
    ensures var c := ClockText(PadDigits(h, 2), PadDigits(m, 2), PadDigits(sec, 2), PadDigits(f, 7));
      Render(d, h, m, sec, f) == if d == 0 then c else IntToString(d) + "." + c
  {
    var c := ClockText(PadDigits(h, 2), PadDigits(m, 2), PadDigits(sec, 2), PadDigits(f, 7));
    if d == 0 {
      assert "" + c == c;
    }
  }

  /** Two readings of the same number with the same warning are the same. */
  lemma SameReading(r: Reading, v: Reading)
    requires r.Value? && v.Value? && r.ticks == v.ticks && r.note == v.note
    ensures r == v
  {
  }

  // ---------------------------------------------------------------- two printed times

  /** `time_from_secs` prints seven fraction digits even for whole seconds:
      50 s is "00:00:50.0000000", not "00:00:50". */
  lemma FiftySecondsText()
    ensures Format(500_000_000) == "00" + ":" + "00" + ":" + "50" + "." + "0000000"
  {
    assert Format(500_000_000) == Clock(0, 0, 50, 0) by {
      assert Split(500_000_000) == Fields(0, 0, 0, 50, 0);
    }
    ClockDigits();
  }

  /** 120 s prints as "00:02:00.0000000". */
  lemma TwoMinutesText()
    ensures Format(1_200_000_000) == "00" + ":" + "02" + ":" + "00" + "." + "0000000"
  {
    assert Format(1_200_000_000) == Clock(0, 2, 0, 0) by {
      assert Split(1_200_000_000) == Fields(0, 0, 2, 0, 0);
    }
    ClockDigits();
  }

  lemma ClockDigits()
    ensures PadDigits(0, 2) == "00" && PadDigits(50, 2) == "50" && PadDigits(2, 2) == "02"
    ensures PadDigits(0, 7) == "0000000"
  {
    assert PadDigits(0, 1) == "0" by { assert PadDigits(0, 0) == []; }
    assert PadDigits(5, 1) == "5" by { assert PadDigits(0, 0) == []; }
    assert PadDigits(2, 1) == "2" by { assert PadDigits(0, 0) == []; }
    assert PadDigits(0, 4) == "0000" by {
      assert PadDigits(0, 3) == "000";
    }
    assert PadDigits(0, 7) == "0000000" by {
      assert PadDigits(0, 5) == "00000";
      assert PadDigits(0, 6) == "000000";
    }
  }
}
