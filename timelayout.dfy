/**
 * Go's time.Parse specialised to the layout "2006-01-02 15:04:05" that
 * getImageUrl uses: four-digit year, two-digit month and day, a space, the
 * hour, two-digit minute and second. Parsing yields the calendar fields or
 * None, where epic.go calls log.Fatal.
 *
 * For this layout Go accepts slightly more than the canonical form: the
 * "15" hour field takes one or two digits, the space of the layout matches
 * one or more spaces, and a fractional second ('.' or ',' followed by
 * digits) may follow the seconds. Every field is range-checked, the day
 * against the length of its month in the proleptic Gregorian calendar.
 */
module TimeLayout {
  import opened Options
  import opened Digits

  /** The calendar and clock fields of a parsed capture timestamp. */
  datatype Timestamp = Timestamp(year: nat, month: nat, day: nat, hour: nat, minute: nat, second: nat)

  /** A number read from the front of the text, and the text after it. */
  datatype Scan = Scan(value: nat, rest: string)

  predicate IsLeap(year: nat) {
    year % 4 == 0 && (year % 100 != 0 || year % 400 == 0)
  }

  /** The number of days of a month of a year. */
  function DaysIn(month: nat, year: nat): (n: nat)
    requires 1 <= month <= 12
    ensures 28 <= n <= 31
    ensures month != 2 ==> n == 31 - (month - 1) % 7 % 2
    ensures n == 29 <==> month == 2 && IsLeap(year)
    ensures n == 28 <==> month == 2 && !IsLeap(year)
    ensures n == 30 <==> month in {4, 6, 9, 11}
  {
    if month == 2 then (if IsLeap(year) then 29 else 28)
    else if month == 4 || month == 6 || month == 9 || month == 11 then 30
    else 31
  }

  /** The timestamps the layout can express and time.Parse accepts. */
  predicate Valid(t: Timestamp) {
    && t.year < 10000
    && 1 <= t.month <= 12
    && 1 <= t.day <= DaysIn(t.month, t.year)
    && t.hour < 24
    && t.minute < 60
    && t.second < 60
  }

  // ---- the field scanners (Go's getnum, atoi and skip) ----

  /** "2006": exactly four digits. */
  function Year(s: string): (r: Option<Scan>)
    ensures r.Some? ==> |s| >= 4 && AllDigits(s[..4]) && r.value == Scan(Value(s[..4]), s[4..])
  {
    if |s| >= 4 && AllDigits(s[..4]) then Some(Scan(Value(s[..4]), s[4..])) else None
  }

  /** "01", "02", "04", "05": exactly two digits. */
  function TwoDigits(s: string): (r: Option<Scan>)
    ensures r.Some? ==> |s| >= 2 && AllDigits(s[..2]) && r.value == Scan(Value(s[..2]), s[2..])
  {
    if |s| >= 2 && IsDigit(s[0]) && IsDigit(s[1]) then Some(Scan(Value(s[..2]), s[2..])) else None
  }

  /** "15": one digit, or two when a second digit follows. */
  function Hour(s: string): (r: Option<Scan>)
    ensures r.Some? ==> |s| >= 1 && IsDigit(s[0])
    ensures r.Some? ==> r.value.value < 100
  {
    if |s| >= 1 && IsDigit(s[0]) then
      if |s| >= 2 && IsDigit(s[1]) then Some(Scan(Value(s[..2]), s[2..]))
      else Some(Scan(DigitValue(s[0]), s[1..]))
    else None
  }

  /** A separator character of the layout, matched exactly. */
  function Literal(s: string, c: char): (r: Option<string>)
    ensures r.Some? ==> |s| >= 1 && s[0] == c && r.value == s[1..]
  {
    if |s| >= 1 && s[0] == c then Some(s[1..]) else None
  }

  function TrimSpaces(s: string): (r: string)
    ensures |r| <= |s|
    ensures r == [] || r[0] != ' '
  {
    if |s| >= 1 && s[0] == ' ' then TrimSpaces(s[1..]) else s
  }

  /** The layout's space: the text must not go on with anything else, and all leading spaces are dropped. */
  function Space(s: string): (r: Option<string>)
    ensures r.Some? ==> r.value == TrimSpaces(s)
    ensures r.Some? && r.value != [] ==> |s| >= 1 && s[0] == ' '
  {
    if |s| >= 1 && s[0] != ' ' then None else Some(TrimSpaces(s))
  }

  /** A fractional second the layout does not mention: a '.' or ',' and its digits are skipped. */
  function SkipFraction(s: string): (r: string)
    ensures |r| <= |s|
  {
    if |s| >= 2 && (s[0] == '.' || s[0] == ',') && IsDigit(s[1]) then s[1 + LeadingDigits(s[1..])..]
    else s
  }

  /** The date and the text after it. */
  datatype DateScan = DateScan(year: nat, month: nat, day: nat, rest: string)

  /** The clock fields. */
  datatype Clock = Clock(hour: nat, minute: nat, second: nat)

  /** The layout's "2006-01-02": year, month (range-checked) and day. */
  function ParseDate(s: string): (r: Option<DateScan>)
    ensures r.Some? ==> |s| >= 10 && AllDigits(s[..4]) && s[4] == '-' && AllDigits(s[5..7]) && s[7] == '-'
                        && AllDigits(s[8..10]) && r.value.rest == s[10..]
    ensures r.Some? ==> r.value.year == Value(s[..4]) && r.value.month == Value(s[5..7])
                        && r.value.day == Value(s[8..10])
    ensures r.Some? ==> r.value.year < 10000 && 1 <= r.value.month <= 12
  {
    var year :- Year(s);
    var s1 :- Literal(year.rest, '-');
    var month :- TwoDigits(s1);
    if !(1 <= month.value <= 12) then None else
    var s2 :- Literal(month.rest, '-');
    var day :- TwoDigits(s2);
    assert s1[..2] == s[5..7] && s2[..2] == s[8..10];
    Some(DateScan(year.value, month.value, day.value, day.rest))
  }

  /** The layout's ":04:05", a skipped fractional second, and the end of the text. */
  function ParseMinuteSecond(s: string): (r: Option<(nat, nat)>)
    ensures r.Some? ==> r.value.0 < 60 && r.value.1 < 60
  {
    var s1 :- Literal(s, ':');
    var minute :- TwoDigits(s1);
    if !(minute.value < 60) then None else
    var s2 :- Literal(minute.rest, ':');
    var second :- TwoDigits(s2);
    if !(second.value < 60) then None else
    if SkipFraction(second.rest) != "" then None else
    Some((minute.value, second.value))
  }

  /** The layout's " 15:04:05" and the end of the text. */
  function ParseClock(s: string): (r: Option<Clock>)
    ensures r.Some? ==> |s| >= 1 && s[0] == ' '
    ensures r.Some? ==> r.value.hour < 24 && r.value.minute < 60 && r.value.second < 60
  {
    var s1 :- Space(s);
    var hour :- Hour(s1);
    if !(hour.value < 24) then None else
    var ms :- ParseMinuteSecond(hour.rest);
    Some(Clock(hour.value, ms.0, ms.1))
  }

  /** time.Parse("2006-01-02 15:04:05", s); the day is checked against its month last, as Go does. */
  function Parse(s: string): (r: Option<Timestamp>)
    ensures r.Some? ==> Valid(r.value)
    ensures r.Some? ==> |s| >= 11 && AllDigits(s[..4]) && s[4] == '-' && AllDigits(s[5..7]) && s[7] == '-'
                        && AllDigits(s[8..10]) && s[10] == ' '
    ensures r.Some? ==> r.value.year == Value(s[..4]) && r.value.month == Value(s[5..7])
                        && r.value.day == Value(s[8..10])
  {
    var date :- ParseDate(s);
    var clock :- ParseClock(date.rest);
    if !(1 <= date.day <= DaysIn(date.month, date.year)) then None else
    Some(Timestamp(date.year, date.month, date.day, clock.hour, clock.minute, clock.second))
  }

  // ---- the texts the layout accepts ----

  /** `k` spaces. */
  function Spaces(k: nat): (r: string)
    ensures |r| == k
    ensures forall i :: 0 <= i < k ==> r[i] == ' '
  {
    if k == 0 then "" else [' '] + Spaces(k - 1)
  }

  /** A fractional second: nothing, or a '.' or ',' followed by at least one digit. */
  predicate IsFraction(f: string) {
    f == [] || (|f| >= 2 && (f[0] == '.' || f[0] == ',') && AllDigits(f[1..]))
  }

  /** The date part `YYYY-MM-DD`, zero-padded. */
  function DatePart(t: Timestamp): (r: string)
    requires Valid(t)
    ensures |r| == 10
  {
    Padded(t.year, 4) + ("-" + (Padded(t.month, 2) + ("-" + Padded(t.day, 2))))
  }

  /** The hour as written: one digit when `short` and the hour is below ten, else two. */
  function HourText(hour: nat, short: bool): (r: string)
    requires hour < 24
    ensures 1 <= |r| <= 2 && AllDigits(r) && Value(r) == hour
  {
    if short && hour < 10 then
      assert [DigitChar(hour)][..0] == [];
      [DigitChar(hour)]
    else Padded(hour, 2)
  }

  /** The text after the hour: minute, second and whatever follows the seconds. */
  function MinuteSecondText(t: Timestamp, tail: string): string
    requires Valid(t)
  {
    ":" + (Padded(t.minute, 2) + (":" + (Padded(t.second, 2) + tail)))
  }

  /** The text after the date: the spaces and the clock. */
  function ClockText(t: Timestamp, spaces: nat, shortHour: bool, tail: string): string
    requires Valid(t)
  {
    Spaces(spaces) + (HourText(t.hour, shortHour) + MinuteSecondText(t, tail))
  }

  /**
   * A reference text independent of the scanners: the date part, `spaces`
   * spaces, the hour (one digit when `shortHour` and the hour is below ten,
   * else two), the minute and second, and then `tail`. The texts of the
   * layout are those with at least one space and a fractional second
   * (`IsFraction`) as the tail.
   */
  function Layout(t: Timestamp, spaces: nat, shortHour: bool, tail: string): string
    requires Valid(t)
  {
    DatePart(t) + ClockText(t, spaces, shortHour, tail)
  }

  /** The canonical text of a timestamp, in the layout exactly. */
  function Format(t: Timestamp): (r: string)
    requires Valid(t)
    ensures |r| == 19
  {
    Layout(t, 1, false, "")
  }

  // ---- the scanners on the texts they read ----

  lemma YearOfAppend(a: string, b: string)
    requires |a| == 4 && AllDigits(a)
    ensures Year(a + b) == Some(Scan(Value(a), b))
  {
    assert (a + b)[..4] == a && (a + b)[4..] == b;
  }

  lemma TwoDigitsOfAppend(a: string, b: string)
    requires |a| == 2 && AllDigits(a)
    ensures TwoDigits(a + b) == Some(Scan(Value(a), b))
  {
    assert (a + b)[..2] == a && (a + b)[2..] == b;
  }

  lemma HourOfAppend(a: string, b: string)
    requires 1 <= |a| <= 2 && AllDigits(a)
    requires |a| == 1 ==> b == [] || !IsDigit(b[0])
    ensures Hour(a + b) == Some(Scan(Value(a), b))
  {
    var s := a + b;
    if |a| == 2 {
      assert s[..2] == a && s[2..] == b;
      assert IsDigit(s[0]) && IsDigit(s[1]);
    } else {
      assert s[1..] == b;
      assert a[..0] == [];
      assert Value(a) == DigitValue(a[0]);
      assert !(|s| >= 2 && IsDigit(s[1]));
    }
  }

  lemma LiteralOfAppend(c: char, b: string)
    ensures Literal([c] + b, c) == Some(b)
  {
    assert ([c] + b)[1..] == b;
  }

  lemma {:induction false} TrimSpacesOfAppend(k: nat, b: string)
    requires b == [] || b[0] != ' '
    ensures TrimSpaces(Spaces(k) + b) == b
    decreases k
  {
    if k > 0 {
      assert (Spaces(k) + b)[1..] == Spaces(k - 1) + b;
      TrimSpacesOfAppend(k - 1, b);
    }
  }

  lemma {:induction false} TrimSpacesSplit(s: string)
    ensures s == Spaces(|s| - |TrimSpaces(s)|) + TrimSpaces(s)
    decreases |s|
  {
    if |s| >= 1 && s[0] == ' ' {
      var r := TrimSpaces(s[1..]);
      var k := |s[1..]| - |r|;
      TrimSpacesSplit(s[1..]);
      assert TrimSpaces(s) == r;
      assert Spaces(k + 1) == [' '] + Spaces(k);
      calc {
        s;
        [' '] + s[1..];
        [' '] + (Spaces(k) + r);
        ([' '] + Spaces(k)) + r;
      }
    } else {
      assert Spaces(0) == [];
    }
  }

  lemma SkipFractionOfFraction(f: string)
    requires IsFraction(f)
    ensures SkipFraction(f) == ""
  {
    if f != [] {
      LeadingDigitsOfAppend(f[1..], "");
      assert f[1..] + "" == f[1..];
    }
  }

  lemma SkipFractionEmpty(f: string)
    requires SkipFraction(f) == ""
    ensures IsFraction(f)
  {
    if |f| >= 2 && (f[0] == '.' || f[0] == ',') && IsDigit(f[1]) {
      var k := LeadingDigits(f[1..]);
      assert 1 + k == |f|;
      assert f[1..][..k] == f[1..];
    }
  }

  // ---- what Parse accepts ----

  lemma ParseDateOfAppend(t: Timestamp, rest: string)
    requires Valid(t)
    ensures ParseDate(DatePart(t) + rest) == Some(DateScan(t.year, t.month, t.day, rest))
  {
    var y, mo, d := Padded(t.year, 4), Padded(t.month, 2), Padded(t.day, 2);
    var r1 := d + rest;
    var r0 := "-" + r1;
    var rm := mo + r0;
    var ry := "-" + rm;
    assert DatePart(t) + rest == y + ry;
    YearOfAppend(y, ry);
    LiteralOfAppend('-', rm);
    TwoDigitsOfAppend(mo, r0);
    LiteralOfAppend('-', r1);
    TwoDigitsOfAppend(d, rest);
  }

  /** The text after the seconds is accepted exactly when it is a fractional second. */
  lemma SkipFractionIsFraction(f: string)
    ensures SkipFraction(f) == "" <==> IsFraction(f)
  {
    if IsFraction(f) {
      SkipFractionOfFraction(f);
    }
    if SkipFraction(f) == "" {
      SkipFractionEmpty(f);
    }
  }

  lemma ParseMinuteSecondOfText(t: Timestamp, tail: string)
    requires Valid(t)
    ensures ParseMinuteSecond(MinuteSecondText(t, tail))
            == if IsFraction(tail) then Some((t.minute, t.second)) else None
  {
    var mi, se := Padded(t.minute, 2), Padded(t.second, 2);
    LiteralOfAppend(':', mi + (":" + (se + tail)));
    TwoDigitsOfAppend(mi, ":" + (se + tail));
    LiteralOfAppend(':', se + tail);
    TwoDigitsOfAppend(se, tail);
    SkipFractionIsFraction(tail);
  }

  lemma ParseClockOfText(t: Timestamp, spaces: nat, shortHour: bool, tail: string)
    requires Valid(t) && spaces >= 1
    ensures ParseClock(ClockText(t, spaces, shortHour, tail))
            == if IsFraction(tail) then Some(Clock(t.hour, t.minute, t.second)) else None
  {
    var h := HourText(t.hour, shortHour);
    var ms := MinuteSecondText(t, tail);
    var r := h + ms;
    TrimSpacesOfAppend(spaces, r);
    assert Space(Spaces(spaces) + r) == Some(r);
    HourOfAppend(h, ms);
    ParseMinuteSecondOfText(t, tail);
  }

  /**
   * Every text of the layout parses, to the timestamp it was written from;
   * and when anything other than a fractional second follows the seconds,
   * the text is rejected.
   */
  lemma ParseLayout(t: Timestamp, spaces: nat, shortHour: bool, tail: string)
    requires Valid(t) && spaces >= 1
    ensures Parse(Layout(t, spaces, shortHour, tail)) == if IsFraction(tail) then Some(t) else None
  {
    var rest := ClockText(t, spaces, shortHour, tail);
    var s := Layout(t, spaces, shortHour, tail);
    assert s == DatePart(t) + rest;
    ParseDateOfAppend(t, rest);
    var date := ParseDate(s).value;
    assert date == DateScan(t.year, t.month, t.day, rest);
    ParseClockOfText(t, spaces, shortHour, tail);
    assert ParseClock(date.rest) == if IsFraction(tail) then Some(Clock(t.hour, t.minute, t.second)) else None;
    assert 1 <= date.day <= DaysIn(date.month, date.year);
  }

  /** In particular the canonical text parses back: Parse inverts Format. */
  lemma ParseFormat(t: Timestamp)
    requires Valid(t)
    ensures Parse(Format(t)) == Some(t)
  {
    ParseLayout(t, 1, false, "");
  }

  lemma DateTextOfDigits(s: string)
    requires |s| >= 10 && AllDigits(s[..4]) && s[4] == '-' && AllDigits(s[5..7]) && s[7] == '-' && AllDigits(s[8..10])
    ensures s[..10] == s[..4] + ("-" + (s[5..7] + ("-" + s[8..10])))
  {
    assert s[7..10] == [s[7]] + s[8..10];
    assert s[5..10] == s[5..7] + s[7..10];
    assert s[4..10] == [s[4]] + s[5..10];
    assert s[..10] == s[..4] + s[4..10];
  }

  /** The date part of an accepted text is exactly the zero-padded date of its timestamp. */
  lemma ParseDatePart(s: string, t: Timestamp)
    requires Parse(s) == Some(t)
    ensures s[..10] == DatePart(t)
    ensures s == DatePart(t) + s[10..]
  {
    var y, m, d := s[..4], s[5..7], s[8..10];
    assert t.year == Value(y) && t.month == Value(m) && t.day == Value(d);
    PaddedOfValue(y);
    PaddedOfValue(m);
    PaddedOfValue(d);
    assert DatePart(t) == y + ("-" + (m + ("-" + d)));
    DateTextOfDigits(s);
    assert s == s[..10] + s[10..];
  }

  lemma ParseMinuteSecondOnlyText(s: string, t: Timestamp)
    requires Valid(t)
    requires ParseMinuteSecond(s) == Some((t.minute, t.second))
    ensures exists fraction :: IsFraction(fraction) && s == MinuteSecondText(t, fraction)
  {
    var s1 := Literal(s, ':').value;
    var minute := TwoDigits(s1).value;
    var s2 := Literal(minute.rest, ':').value;
    var second := TwoDigits(s2).value;
    SkipFractionEmpty(second.rest);
    PaddedOfValue(s1[..2]);
    PaddedOfValue(s2[..2]);
    assert s2 == Padded(t.second, 2) + second.rest;
    assert s1 == Padded(t.minute, 2) + (":" + s2);
    assert s == MinuteSecondText(t, second.rest);
  }

  lemma HourOnlyText(s: string, hour: Scan)
    requires Hour(s) == Some(hour) && hour.value < 24
    ensures s == HourText(hour.value, !(|s| >= 2 && IsDigit(s[1]))) + hour.rest
  {
    if |s| >= 2 && IsDigit(s[1]) {
      assert hour == Scan(Value(s[..2]), s[2..]);
      PaddedOfValue(s[..2]);
      assert HourText(hour.value, false) == s[..2];
      assert s == s[..2] + s[2..];
    } else {
      assert hour == Scan(DigitValue(s[0]), s[1..]);
      assert s == [s[0]] + s[1..];
    }
  }

  lemma ParseClockOnlyText(s: string, t: Timestamp)
    requires Valid(t)
    requires ParseClock(s) == Some(Clock(t.hour, t.minute, t.second))
    ensures exists spaces: nat, shortHour: bool, fraction: string
              :: spaces >= 1 && IsFraction(fraction) && s == ClockText(t, spaces, shortHour, fraction)
  {
    var s1 := Space(s).value;
    var hour := Hour(s1).value;
    ParseMinuteSecondOnlyText(hour.rest, t);
    var fraction :| IsFraction(fraction) && hour.rest == MinuteSecondText(t, fraction);
    TrimSpacesSplit(s);
    var spaces := |s| - |s1|;
    var shortHour := !(|s1| >= 2 && IsDigit(s1[1]));
    HourOnlyText(s1, hour);
    assert s == ClockText(t, spaces, shortHour, fraction);
  }

  /** Parse accepts nothing else: every text it accepts is a text of the layout. */
  lemma ParseOnlyLayout(s: string, t: Timestamp)
    requires Parse(s) == Some(t)
    ensures exists spaces: nat, shortHour: bool, fraction: string
              :: spaces >= 1 && IsFraction(fraction) && s == Layout(t, spaces, shortHour, fraction)
  {
    var date := ParseDate(s).value;
    ParseDatePart(s, t);
    ParseClockOnlyText(date.rest, t);
    var spaces: nat, shortHour: bool, fraction: string :|
      spaces >= 1 && IsFraction(fraction) && date.rest == ClockText(t, spaces, shortHour, fraction);
    assert s == Layout(t, spaces, shortHour, fraction);
  }

  lemma LastOfAppend(a: string, b: string)
    requires b != []
    ensures (a + b)[|a + b| - 1] == b[|b| - 1]
  {
  }

  lemma MinuteSecondEndsWithDigit(t: Timestamp, fraction: string)
    requires Valid(t) && IsFraction(fraction)
    ensures var s := MinuteSecondText(t, fraction); |s| >= 1 && IsDigit(s[|s| - 1])
  {
    var mi, se := Padded(t.minute, 2), Padded(t.second, 2);
    var e0 := se + fraction;
    if fraction == [] {
      assert e0 == se;
    } else {
      LastOfAppend(se, fraction);
      assert fraction[|fraction| - 1] == fraction[1..][|fraction| - 2];
    }
    assert IsDigit(e0[|e0| - 1]);
    var e1 := ":" + e0;
    LastOfAppend(":", e0);
    var e2 := mi + e1;
    LastOfAppend(mi, e1);
    LastOfAppend(":", e2);
  }

  lemma LastDigitOfNested(d: string, sp: string, h: string, ms: string)
    requires |ms| >= 1 && IsDigit(ms[|ms| - 1])
    ensures var s := d + (sp + (h + ms)); |s| >= 1 && IsDigit(s[|s| - 1])
  {
    LastOfAppend(h, ms);
    LastOfAppend(sp, h + ms);
    LastOfAppend(d, sp + (h + ms));
  }

  lemma LayoutEndsWithDigit(t: Timestamp, spaces: nat, shortHour: bool, fraction: string)
    requires Valid(t) && spaces >= 1 && IsFraction(fraction)
    ensures var s := Layout(t, spaces, shortHour, fraction); |s| >= 1 && IsDigit(s[|s| - 1])
  {
    var ms := MinuteSecondText(t, fraction);
    MinuteSecondEndsWithDigit(t, fraction);
    var h := HourText(t.hour, shortHour);
    LastDigitOfNested(DatePart(t), Spaces(spaces), h, ms);
    assert Layout(t, spaces, shortHour, fraction) == DatePart(t) + (Spaces(spaces) + (h + ms));
  }

  /** An accepted text ends with a digit of the seconds or of their fraction. */
  lemma ParseEndsWithDigit(s: string)
    requires Parse(s).Some?
    ensures IsDigit(s[|s| - 1])
  {
    var t := Parse(s).value;
    ParseOnlyLayout(s, t);
    var spaces: nat, shortHour: bool, fraction: string :|
      spaces >= 1 && IsFraction(fraction) && s == Layout(t, spaces, shortHour, fraction);
    LayoutEndsWithDigit(t, spaces, shortHour, fraction);
  }

  lemma AppendAfterSeconds(d: string, sp: string, h: string, mi: string, se: string, tail: string)
    ensures d + (sp + (h + (":" + (mi + (":" + (se + "")))))) + tail
            == d + (sp + (h + (":" + (mi + (":" + (se + tail))))))
  {
    assert se + "" == se;
  }

  /** The canonical text followed by `tail` is the layout text with that tail. */
  lemma FormatThenTail(t: Timestamp, tail: string)
    requires Valid(t)
    ensures Format(t) + tail == Layout(t, 1, false, tail)
  {
    var d, sp, h := DatePart(t), Spaces(1), HourText(t.hour, false);
    var mi, se := Padded(t.minute, 2), Padded(t.second, 2);
    AppendAfterSeconds(d, sp, h, mi, se, tail);
    assert Format(t) == d + (sp + (h + (":" + (mi + (":" + (se + ""))))));
    assert Layout(t, 1, false, tail) == d + (sp + (h + (":" + (mi + (":" + (se + tail))))));
  }

  /**
   * Go rejects "extra text": the canonical text followed by anything other
   * than a fractional second fails, and with a fractional second it parses
   * to the same timestamp.
   */
  lemma ParseRejectsTrailingText(t: Timestamp, tail: string)
    requires Valid(t)
    ensures Parse(Format(t) + tail) == if IsFraction(tail) then Some(t) else None
  {
    FormatThenTail(t, tail);
    ParseLayout(t, 1, false, tail);
  }

  /** February 29 is rejected unless the year is a leap year. */
  lemma ParseFebruary29(s: string)
    requires |s| >= 10 && AllDigits(s[..4]) && s[4..10] == "-02-29"
    ensures Parse(s).Some? ==> IsLeap(Value(s[..4]))
  {
    assert s[5..7] == s[4..10][1..3] == "02" && s[8..10] == s[4..10][4..6] == "29";
    assert Value("02") == 2 && Value("29") == 29;
  }

  /** The canonical text assembled from the padded fields. */
  lemma FormatOfFields(t: Timestamp, year: string, month: string, day: string, hour: string, minute: string, second: string)
    requires Valid(t)
    requires Padded(t.year, 4) == year && Padded(t.month, 2) == month && Padded(t.day, 2) == day
    requires Padded(t.hour, 2) == hour && Padded(t.minute, 2) == minute && Padded(t.second, 2) == second
    ensures Format(t) == year + ("-" + (month + ("-" + (day + (" " + (hour + (":" + (minute + (":" + second)))))))))
  {
    assert Spaces(1) == " ";
    assert second + "" == second;
    assert DatePart(t) == year + ("-" + (month + ("-" + day)));
    assert ClockText(t, 1, false, "") == " " + (hour + (":" + (minute + (":" + second))));
    assert ("-" + (month + ("-" + day))) + ClockText(t, 1, false, "") == "-" + (month + ("-" + (day + (" " + (hour + (":" + (minute + (":" + second))))))));
  }

  /** The canonical text of the image record of TestParseDate (epic_test.go:92-128), field by field. */
  lemma OctoberPadded(year: nat, month: nat, day: nat, hour: nat, minute: nat, second: nat)
    requires year == 2015 && month == 10 && day == 31 && hour == 22 && minute == 8 && second == 19
    ensures Padded(year, 4) == "2015" && Padded(month, 2) == "10" && Padded(day, 2) == "31"
    ensures Padded(hour, 2) == "22" && Padded(minute, 2) == "08" && Padded(second, 2) == "19"
  {
    PaddedFour(year, "2015");
    PaddedTwo(month, "10");
    PaddedTwo(day, "31");
    PaddedTwo(hour, "22");
    PaddedTwo(minute, "08");
    PaddedTwo(second, "19");
  }

  lemma OctoberFields(t: Timestamp)
    requires t == Timestamp(2015, 10, 31, 22, 8, 19)
    ensures Format(t) == "2015" + ("-" + ("10" + ("-" + ("31" + (" " + ("22" + (":" + ("08" + (":" + "19")))))))))
  {
    OctoberPadded(t.year, t.month, t.day, t.hour, t.minute, t.second);
    FormatOfFields(t, "2015", "10", "31", "22", "08", "19");
  }

  /** The canonical text of the capture timestamp of TestParseDate's image record (epic_test.go:128). */
  lemma FormatOctoberExample(t: Timestamp)
    requires t == Timestamp(2015, 10, 31, 22, 8, 19)
    ensures Format(t) == "2015-10-31 22:08:19"
  {
    OctoberFields(t);
  }

  /** The canonical text of a June timestamp, field by field: every field below ten gains a leading zero. */
  lemma JunePadded(year: nat, month: nat, day: nat, hour: nat, minute: nat, second: nat)
    requires year == 2015 && month == 6 && day == 13 && hour == 0 && minute == 31 && second == 45
    ensures Padded(year, 4) == "2015" && Padded(month, 2) == "06" && Padded(day, 2) == "13"
    ensures Padded(hour, 2) == "00" && Padded(minute, 2) == "31" && Padded(second, 2) == "45"
  {
    PaddedFour(year, "2015");
    PaddedTwo(month, "06");
    PaddedTwo(day, "13");
    PaddedTwo(hour, "00");
    PaddedTwo(minute, "31");
    PaddedTwo(second, "45");
  }

  lemma JuneFields(t: Timestamp)
    requires t == Timestamp(2015, 6, 13, 0, 31, 45)
    ensures Format(t) == "2015" + ("-" + ("06" + ("-" + ("13" + (" " + ("00" + (":" + ("31" + (":" + "45")))))))))
  {
    JunePadded(t.year, t.month, t.day, t.hour, t.minute, t.second);
    FormatOfFields(t, "2015", "06", "13", "00", "31", "45");
  }

  /** Zero padding in the canonical text of a June timestamp. */
  lemma FormatJuneExample(t: Timestamp)
    requires t == Timestamp(2015, 6, 13, 0, 31, 45)
    ensures Format(t) == "2015-06-13 00:31:45"
  {
    JuneFields(t);
  }
}
