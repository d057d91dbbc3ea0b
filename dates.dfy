/**
 * Calendar dates as Python's `datetime.date` holds them, the two
 * conversions the blog applies to them (`strftime` with four output
 * patterns, `strptime` with four input patterns) and whole-day
 * subtraction (`date - timedelta(days=n)`).
 */
module Dates {
  import opened Wrappers

  /** A date of the proleptic Gregorian calendar. */
  datatype Date = Date(year: int, month: int, day: int)

  predicate IsLeap(y: int) {
    y % 4 == 0 && (y % 100 != 0 || y % 400 == 0)
  }

  function DaysInMonth(y: int, m: int): (n: int)
    ensures 28 <= n <= 31
  {
    if m == 2 then (if IsLeap(y) then 29 else 28)
    else if m == 4 || m == 6 || m == 9 || m == 11 then 30
    else 31
  }

  /** The dates `date(year, month, day)` accepts: MINYEAR is 1, MAXYEAR is 9999. */
  predicate Valid(d: Date) {
    1 <= d.year <= 9999 && 1 <= d.month <= 12 && 1 <= d.day <= DaysInMonth(d.year, d.month)
  }

  /** The calendar date of `datetime.min`. */
  const Min := Date(1, 1, 1)

  function DaysInYear(y: int): int {
    if IsLeap(y) then 366 else 365
  }

  /** Days in the years before `y`, counting from year 1. */
  function DaysBeforeYear(y: int): (n: int)
    ensures y >= 1 ==> n >= 365 * (y - 1)
    decreases y
  {
    if y <= 1 then 0 else DaysBeforeYear(y - 1) + DaysInYear(y - 1)
  }

  /** Days in the months of year `y` before month `m` (CPython's `_days_before_month`). */
  function DaysBeforeMonth(y: int, m: int): int {
    var leap := if m > 2 && IsLeap(y) then 1 else 0;
    leap + (if m == 1 then 0 else if m == 2 then 31 else if m == 3 then 59
            else if m == 4 then 90 else if m == 5 then 120 else if m == 6 then 151
            else if m == 7 then 181 else if m == 8 then 212 else if m == 9 then 243
            else if m == 10 then 273 else if m == 11 then 304 else 334)
  }

  /** `date.toordinal()`: 0001-01-01 is day 1. */
  function DayNumber(d: Date): int {
    DaysBeforeYear(d.year) + DaysBeforeMonth(d.year, d.month) + d.day
  }

  lemma MonthLength(y: int, m: int)
    requires 1 <= m < 12
    ensures DaysBeforeMonth(y, m + 1) == DaysBeforeMonth(y, m) + DaysInMonth(y, m)
  {
  }

  /** Every date is on or after day 1, and only 0001-01-01 is day 1. */
  lemma DayNumberAtLeastOne(d: Date)
    requires Valid(d)
    ensures DayNumber(d) >= 1
    ensures DayNumber(d) == 1 <==> d == Min
  {
  }

  /** The day before `d`, or None for `datetime.min`, where Python raises OverflowError. */
  function PrevDay(d: Date): (r: Option<Date>)
    requires Valid(d)
    ensures r.None? <==> d == Min
    ensures r.Some? ==> Valid(r.value) && DayNumber(r.value) == DayNumber(d) - 1
  {
    if d.day > 1 then Some(Date(d.year, d.month, d.day - 1))
    else if d.month > 1 then
      MonthLength(d.year, d.month - 1);
      Some(Date(d.year, d.month - 1, DaysInMonth(d.year, d.month - 1)))
    else if d.year > 1 then Some(Date(d.year - 1, 12, 31))
    else None
  }

  /** `d - timedelta(days=n)`: None when the result would fall before 0001-01-01
      (Python raises OverflowError there); see SubtractDaysNumber and SubtractDaysFails. */
  function SubtractDays(d: Date, n: nat): (r: Option<Date>)
    requires Valid(d)
    ensures r.Some? ==> Valid(r.value)
    decreases n
  {
    if n == 0 then Some(d)
    else
      var p := PrevDay(d);
      if p.None? then None else SubtractDays(p.value, n - 1)
  }

  /** Subtracting n days, when it succeeds, lands exactly n day numbers earlier. */
  lemma {:induction false} SubtractDaysNumber(d: Date, n: nat)
    requires Valid(d)
    ensures SubtractDays(d, n).Some? ==> DayNumber(SubtractDays(d, n).value) == DayNumber(d) - n
    decreases n
  {
    if n > 0 {
      var p := PrevDay(d);
      if p.Some? {
        SubtractDaysNumber(p.value, n - 1);
      }
    }
  }

  /** Subtracting n days fails exactly when the result would fall before day 1. */
  lemma {:induction false} SubtractDaysFails(d: Date, n: nat)
    requires Valid(d)
    ensures SubtractDays(d, n).None? <==> DayNumber(d) <= n
    decreases n
  {
    var p := PrevDay(d);
    if n == 0 {
      DayNumberAtLeastOne(d);
    } else if p.None? {
      DayNumberAtLeastOne(d);
      assert SubtractDays(d, n).None?;
    } else {
      SubtractDaysFails(p.value, n - 1);
      assert SubtractDays(d, n) == SubtractDays(p.value, n - 1);
    }
  }

  // ---- Formatting (strftime) ----

  predicate IsDigit(c: char) {
    '0' <= c <= '9'
  }

  function DigitChar(n: int): (c: char)
    requires 0 <= n < 10
    ensures IsDigit(c) && DigitValue(c) == n
  {
    ('0' as int + n) as char
  }

  function DigitValue(c: char): (v: int)
    requires IsDigit(c)
    ensures 0 <= v <= 9
  {
    c as int - '0' as int
  }

  /** A run of decimal digits. */
  predicate Digits(t: string) {
    forall i :: 0 <= i < |t| ==> IsDigit(t[i])
  }

  /** The number a run of digits spells, read left to right; a blank counts
      as a leading zero (`%d` accepts a space before a single digit). */
  function Number(t: string): nat {
    if t == [] then 0
    else 10 * Number(t[..|t| - 1]) + (if IsDigit(t[|t| - 1]) then DigitValue(t[|t| - 1]) else 0)
  }

  lemma NumberSnoc(t: string, c: char)
    ensures Number(t + [c]) == 10 * Number(t) + (if IsDigit(c) then DigitValue(c) else 0)
  {
    assert (t + [c])[..|t|] == t;
  }

  /** Two characters, the last a digit, spell ten times the first plus the last. */
  lemma NumberTwo(t: string)
    requires |t| == 2 && IsDigit(t[1])
    ensures Number(t) == 10 * (if IsDigit(t[0]) then DigitValue(t[0]) else 0) + DigitValue(t[1])
  {
    NumberSnoc([], t[0]);
    NumberSnoc([t[0]], t[1]);
    assert [t[0]] + [t[1]] == t;
  }

  /** Four digits spell their place values. */
  lemma NumberFour(t: string)
    requires |t| == 4 && Digits(t)
    ensures Number(t) == 1000 * DigitValue(t[0]) + 100 * DigitValue(t[1]) + 10 * DigitValue(t[2]) + DigitValue(t[3])
  {
    NumberTwo(t[..2]);
    NumberSnoc(t[..2], t[2]);
    assert t[..2] + [t[2]] == t[..3];
    NumberSnoc(t[..3], t[3]);
    assert t[..3] + [t[3]] == t;
  }

  /** `%02d` */
  function TwoDigits(n: int): (t: string)
    requires 0 <= n < 100
    ensures |t| == 2 && Digits(t) && Number(t) == n
  {
    var t := [DigitChar(n / 10), DigitChar(n % 10)];
    NumberTwo(t);
    t
  }

  /** `%04d` */
  function FourDigits(n: int): (t: string)
    requires 0 <= n < 10000
    ensures |t| == 4 && Digits(t) && Number(t) == n
  {
    var hi, lo := TwoDigits(n / 100), TwoDigits(n % 100);
    var t := hi + lo;
    NumberTwo(hi);
    NumberTwo(lo);
    NumberFour(t);
    t
  }

  /** The output patterns the blog passes to `strftime`. */
  datatype OutFormat =
    | IsoDay      // '%Y-%m-%d'
    | IsoMonth    // '%Y-%m'
    | CnDay       // '%Y年%m月%d日'
    | CnMonth     // '%Y年%m月'

  /** `strftime`: the year's four digits, the month's two and, in the day
      patterns, the day's two, at fixed places around the pattern's
      separators. */
  function Strftime(d: Date, f: OutFormat): (r: string)
    requires Valid(d)
    ensures |r| == match f case IsoDay => 10 case IsoMonth => 7 case CnDay => 11 case CnMonth => 8
    ensures Digits(r[..4]) && Number(r[..4]) == d.year
    ensures Digits(r[5..7]) && Number(r[5..7]) == d.month
    ensures f == IsoDay || f == CnDay ==> Digits(r[8..10]) && Number(r[8..10]) == d.day
    ensures f == IsoDay || f == IsoMonth ==> r[4] == '-'
    ensures f == IsoDay ==> r[7] == '-'
    ensures f == CnDay || f == CnMonth ==> r[4] == '年' && r[7] == '月'
    ensures f == CnDay ==> r[10] == '日'
  {
    var y, m, dd := FourDigits(d.year), TwoDigits(d.month), TwoDigits(d.day);
    var r := match f
      case IsoDay => y + "-" + m + "-" + dd
      case IsoMonth => y + "-" + m
      case CnDay => y + "年" + m + "月" + dd + "日"
      case CnMonth => y + "年" + m + "月";
    assert r[..4] == y && r[5..7] == m;
    assert f == IsoDay || f == CnDay ==> r[8..10] == dd;
    r
  }

  /** The month key of a date is the first seven characters of its ISO text. */
  lemma IsoMonthIsPrefix(d: Date)
    requires Valid(d)
    ensures Strftime(d, IsoMonth) == Strftime(d, IsoDay)[..7]
  {
  }

  // ---- Parsing (strptime) ----

  /** The input patterns the blog passes to `strptime`. */
  datatype ParseFormat =
    | YmdDash     // '%Y-%m-%d'
    | YmdSlash    // '%Y/%m/%d'
    | DmyDash     // '%d-%m-%Y'
    | DmySlash    // '%d/%m/%Y'

  /** A directive's match: its numeric value and the text after it. */
  datatype Field = Field(value: int, rest: string)

  /** What `%d` may consume: one or two digits, or a blank and a digit. */
  predicate DayText(t: string) {
    Digits(t) || (|t| == 2 && t[0] == ' ' && IsDigit(t[1]))
  }

  /** `%Y` matches `\d\d\d\d`. */
  function MatchYear(s: string): (r: Option<Field>)
    ensures r.Some? <==> |s| >= 4 && Digits(s[..4])
    ensures r.Some? ==> r.value.rest == s[4..] && r.value.value == Number(s[..4])
  {
    if |s| >= 4 && IsDigit(s[0]) && IsDigit(s[1]) && IsDigit(s[2]) && IsDigit(s[3]) then
      NumberFour(s[..4]);
      Some(Field(1000 * DigitValue(s[0]) + 100 * DigitValue(s[1]) + 10 * DigitValue(s[2]) + DigitValue(s[3]), s[4..]))
    else None
  }

  /** The first `k` characters as a number (`int()` of the matched group), and the text after them. */
  function Take(s: string, k: nat): Field
    requires k <= |s|
  {
    Field(Number(s[..k]), s[k..])
  }

  lemma NumberOne(t: string)
    requires |t| == 1 && IsDigit(t[0])
    ensures Number(t) == DigitValue(t[0])
  {
    NumberSnoc([], t[0]);
    assert [] + [t[0]] == t;
  }

  /** `%m` matches `1[0-2]|0[1-9]|[1-9]`; the first alternative that matches is taken. */
  function MatchMonth(s: string): (r: Option<Field>)
    ensures r.Some? ==> 1 <= |s| - |r.value.rest| <= 2 && r.value.rest == s[|s| - |r.value.rest|..]
    ensures r.Some? ==> 1 <= r.value.value <= 12
    ensures r.Some? ==> Digits(s[..|s| - |r.value.rest|]) && r.value.value == Number(s[..|s| - |r.value.rest|])
  {
    if |s| >= 2 && ((s[0] == '1' && '0' <= s[1] <= '2') || (s[0] == '0' && '1' <= s[1] <= '9')) then
      NumberTwo(s[..2]);
      Some(Take(s, 2))
    else if |s| >= 1 && '1' <= s[0] <= '9' then
      NumberOne(s[..1]);
      Some(Take(s, 1))
    else None
  }

  /** `%d` matches `3[01]|[12]\d|0[1-9]|[1-9]| [1-9]`; the first alternative that matches is taken. */
  function MatchDay(s: string): (r: Option<Field>)
    ensures r.Some? ==> 1 <= |s| - |r.value.rest| <= 2 && r.value.rest == s[|s| - |r.value.rest|..]
    ensures r.Some? ==> 1 <= r.value.value <= 31
    ensures r.Some? ==> DayText(s[..|s| - |r.value.rest|]) && r.value.value == Number(s[..|s| - |r.value.rest|])
  {
    if |s| >= 2 && (|| (s[0] == '3' && '0' <= s[1] <= '1')
                    || ('1' <= s[0] <= '2' && IsDigit(s[1]))
                    || (s[0] == '0' && '1' <= s[1] <= '9')) then
      NumberTwo(s[..2]);
      Some(Take(s, 2))
    else if |s| >= 1 && '1' <= s[0] <= '9' then
      NumberOne(s[..1]);
      Some(Take(s, 1))
    else if |s| >= 2 && s[0] == ' ' && '1' <= s[1] <= '9' then
      NumberTwo(s[..2]);
      Some(Take(s, 2))
    else None
  }

  function MatchChar(s: string, c: char): (r: Option<string>)
    ensures r.Some? <==> |s| >= 1 && s[0] == c
    ensures r.Some? ==> r.value == s[1..]
  {
    if |s| >= 1 && s[0] == c then Some(s[1..]) else None
  }

  /** What `datetime.strptime` turns the matched fields into: the date when no
      text is left over ("unconverted data remains" otherwise) and the fields
      make a real date ("day is out of range for month" otherwise). */
  function Checked(d: Date, rest: string): (r: Option<Date>)
    ensures r.Some? <==> rest == [] && Valid(d)
    ensures r.Some? ==> r.value == d
  {
    if rest == [] && Valid(d) then Some(d) else None
  }

  /** The separator of an input pattern. */
  function Sep(f: ParseFormat): char {
    if f == YmdDash || f == DmyDash then '-' else '/'
  }

  /** The text of an input pattern with the given year, month and day fields. */
  function Layout(f: ParseFormat, y: string, m: string, d: string): string {
    if f == YmdDash || f == YmdSlash then y + [Sep(f)] + m + [Sep(f)] + d
    else d + [Sep(f)] + m + [Sep(f)] + y
  }

  /**
   * `datetime.strptime(s, f)`, None where Python raises ValueError. Python
   * matches the pattern as a regular expression built from the directives
   * above and then rejects left-over text. Every separator here is '-' or
   * '/', never a digit or a space, so once a directive's first matching
   * alternative is followed by a failing separator no shorter alternative can
   * succeed either; taking the first alternative is therefore what the
   * regular expression does.
   */
  function Strptime(s: string, f: ParseFormat): (r: Option<Date>)
    ensures r.Some? ==> Valid(r.value)
    ensures r.Some? ==> |s| >= 8
  {
    if f == YmdDash || f == YmdSlash then YearFirst(s, Sep(f)) else DayFirst(s, Sep(f))
  }

  /** The year-first patterns: `%Y`, the separator, `%m`, the separator, `%d`. */
  function YearFirst(s: string, sep: char): (r: Option<Date>)
    ensures r.Some? ==> Valid(r.value) && |s| >= 8
  {
    var y :- MatchYear(s);
    var r1 :- MatchChar(y.rest, sep);
    var m :- MatchMonth(r1);
    var r2 :- MatchChar(m.rest, sep);
    var d :- MatchDay(r2);
    Checked(Date(y.value, m.value, d.value), d.rest)
  }

  /** The day-first patterns: `%d`, the separator, `%m`, the separator, `%Y`. */
  function DayFirst(s: string, sep: char): (r: Option<Date>)
    ensures r.Some? ==> Valid(r.value) && |s| >= 8
  {
    var d :- MatchDay(s);
    var r1 :- MatchChar(d.rest, sep);
    var m :- MatchMonth(r1);
    var r2 :- MatchChar(m.rest, sep);
    var y :- MatchYear(r2);
    Checked(Date(y.value, m.value, d.value), y.rest)
  }

  /** A successful parse reads the date its digits spell: the text is the
      pattern's layout of a four-digit year, a one- or two-digit month and a
      one- or two-character day, and the date holds their numbers. */
  lemma StrptimeSpells(s: string, f: ParseFormat)
    requires Strptime(s, f).Some?
    ensures exists y, m, d :: && s == Layout(f, y, m, d)
                             && |y| == 4 && Digits(y)
                             && 1 <= |m| <= 2 && Digits(m)
                             && 1 <= |d| <= 2 && DayText(d)
                             && Strptime(s, f).value == Date(Number(y), Number(m), Number(d))
  {
    var sep := Sep(f);
    var y, m, d;
    if f == YmdDash || f == YmdSlash {
      assert Strptime(s, f) == YearFirst(s, sep);
      var yf, r1, mf, r2, df := YearFirstSteps(s, sep);
      y, m, d := YearFirstLayout(s, sep, yf, r1, mf, r2, df);
      JoinFields(s, y, r1, m, d, sep);
      assert Layout(f, y, m, d) == y + [sep] + m + [sep] + d;
    } else {
      assert Strptime(s, f) == DayFirst(s, sep);
      var df, r1, mf, r2, yf := DayFirstSteps(s, sep);
      y, m, d := DayFirstLayout(s, sep, df, r1, mf, r2, yf);
      JoinFields(s, d, r1, m, y, sep);
      assert Layout(f, y, m, d) == d + [sep] + m + [sep] + y;
    }
  }

  /** The shapes `%Y`, `%m` and `%d` accept: four digits, one or two digits,
      and one or two digits or a blank and a digit. */
  predicate Spelled(y: string, m: string, d: string) {
    |y| == 4 && Digits(y) && 1 <= |m| <= 2 && Digits(m) && 1 <= |d| <= 2 && DayText(d)
  }

  /** `fd` is what reading one field off the front of `s` gave: between
      `lo` and `hi` characters were consumed, in the shape `%d` accepts when
      `day` holds and as digits otherwise; `fd.rest` is the text after them,
      and `fd.value` is the number they spell. */
  ghost predicate ReadFront(s: string, fd: Field, lo: nat, hi: nat, day: bool) {
    && lo <= |s| - |fd.rest| <= hi && fd.rest == s[|s| - |fd.rest|..]
    && fd.value == Number(s[..|s| - |fd.rest|])
    && (if day then DayText(s[..|s| - |fd.rest|]) else Digits(s[..|s| - |fd.rest|]))
  }

  /** `rest` starts with the separator and `after` is what follows it. */
  ghost predicate SepThen(rest: string, sep: char, after: string) {
    |rest| >= 1 && rest[0] == sep && after == rest[1..]
  }

  /** The fields a successful year-first parse read, and where it found them. */
  lemma YearFirstSteps(s: string, sep: char) returns (yf: Field, r1: string, mf: Field, r2: string, df: Field)
    requires YearFirst(s, sep).Some?
    ensures ReadFront(s, yf, 4, 4, false) && SepThen(yf.rest, sep, r1)
    ensures ReadFront(r1, mf, 1, 2, false) && SepThen(mf.rest, sep, r2)
    ensures ReadFront(r2, df, 1, 2, true) && df.rest == []
    ensures YearFirst(s, sep) == Some(Date(yf.value, mf.value, df.value))
  {
    yf := MatchYear(s).value;
    r1 := MatchChar(yf.rest, sep).value;
    mf := MatchMonth(r1).value;
    r2 := MatchChar(mf.rest, sep).value;
    df := MatchDay(r2).value;
  }

  /** The fields a successful day-first parse read, and where it found them. */
  lemma DayFirstSteps(s: string, sep: char) returns (df: Field, r1: string, mf: Field, r2: string, yf: Field)
    requires DayFirst(s, sep).Some?
    ensures ReadFront(s, df, 1, 2, true) && SepThen(df.rest, sep, r1)
    ensures ReadFront(r1, mf, 1, 2, false) && SepThen(mf.rest, sep, r2)
    ensures ReadFront(r2, yf, 4, 4, false) && yf.rest == []
    ensures DayFirst(s, sep) == Some(Date(yf.value, mf.value, df.value))
  {
    df := MatchDay(s).value;
    r1 := MatchChar(df.rest, sep).value;
    mf := MatchMonth(r1).value;
    r2 := MatchChar(mf.rest, sep).value;
    yf := MatchYear(r2).value;
  }

  /** Two fields split off one after the other: the text is the three
      fields with the separator between them. */
  lemma JoinFields(s: string, a: string, r: string, b: string, c: string, sep: char)
    requires s == a + [sep] + r && r == b + [sep] + c
    ensures s == a + [sep] + b + [sep] + c
  {
    assert a + [sep] + (b + [sep] + c) == a + [sep] + b + [sep] + c;
  }

  /** A field read off the front of `s` and followed by a separator: `s` is
      the field, the separator, and what follows it. */
  lemma FieldThenSep(s: string, fd: Field, lo: nat, hi: nat, day: bool, sep: char, after: string)
    returns (field: string)
    requires ReadFront(s, fd, lo, hi, day) && SepThen(fd.rest, sep, after)
    ensures s == field + [sep] + after
    ensures lo <= |field| <= hi && fd.value == Number(field)
    ensures if day then DayText(field) else Digits(field)
  {
    field := s[..|s| - |fd.rest|];
    assert s == field + fd.rest && fd.rest == [sep] + after;
  }

  /** A field read off the front of `s` that leaves nothing behind is all of `s`. */
  lemma LastField(s: string, fd: Field, lo: nat, hi: nat, day: bool) returns (field: string)
    requires ReadFront(s, fd, lo, hi, day) && fd.rest == []
    ensures s == field
    ensures lo <= |field| <= hi && fd.value == Number(field)
    ensures if day then DayText(field) else Digits(field)
  {
    field := s[..|s| - |fd.rest|];
    assert field == s;
  }

  /** The year-first text is its year, month and day fields with the separator between them. */
  lemma YearFirstLayout(s: string, sep: char, yf: Field, r1: string, mf: Field, r2: string, df: Field)
    returns (y: string, m: string, d: string)
    requires ReadFront(s, yf, 4, 4, false) && SepThen(yf.rest, sep, r1)
    requires ReadFront(r1, mf, 1, 2, false) && SepThen(mf.rest, sep, r2)
    requires ReadFront(r2, df, 1, 2, true) && df.rest == []
    ensures s == y + [sep] + r1 && r1 == m + [sep] + d
    ensures Spelled(y, m, d)
    ensures Date(yf.value, mf.value, df.value) == Date(Number(y), Number(m), Number(d))
  {
    y := FieldThenSep(s, yf, 4, 4, false, sep, r1);
    m := FieldThenSep(r1, mf, 1, 2, false, sep, r2);
    d := LastField(r2, df, 1, 2, true);
  }

  /** The day-first text is its day, month and year fields with the separator between them. */
  lemma DayFirstLayout(s: string, sep: char, df: Field, r1: string, mf: Field, r2: string, yf: Field)
    returns (y: string, m: string, d: string)
    requires ReadFront(s, df, 1, 2, true) && SepThen(df.rest, sep, r1)
    requires ReadFront(r1, mf, 1, 2, false) && SepThen(mf.rest, sep, r2)
    requires ReadFront(r2, yf, 4, 4, false) && yf.rest == []
    ensures s == d + [sep] + r1 && r1 == m + [sep] + y
    ensures Spelled(y, m, d)
    ensures Date(yf.value, mf.value, df.value) == Date(Number(y), Number(m), Number(d))
  {
    d := FieldThenSep(s, df, 1, 2, true, sep, r1);
    m := FieldThenSep(r1, mf, 1, 2, false, sep, r2);
    y := LastField(r2, yf, 4, 4, false);
  }

  /** A month or day field as written: `%02d`, or without the leading zero. */
  function NumText(n: int, padded: bool): (t: string)
    requires 1 <= n < 100
    ensures Number(t) == n && 1 <= |t| <= 2 && Digits(t)
  {
    if padded || n >= 10 then TwoDigits(n)
    else
      NumberSnoc([], DigitChar(n));
      assert [] + [DigitChar(n)] == [DigitChar(n)];
      [DigitChar(n)]
  }

  /** `%Y` reads back what `%04d` wrote. */
  lemma MatchYearFourDigits(n: int, rest: string)
    requires 0 <= n < 10000
    ensures MatchYear(FourDigits(n) + rest) == Some(Field(n, rest))
  {
    assert (FourDigits(n) + rest)[..4] == FourDigits(n);
    assert (FourDigits(n) + rest)[4..] == rest;
  }

  /** `%m` reads back a month written with or without its leading zero,
      when what follows does not start with a digit. */
  lemma MatchMonthText(m: int, padded: bool, rest: string)
    requires 1 <= m <= 12 && (rest == [] || !IsDigit(rest[0]))
    ensures MatchMonth(NumText(m, padded) + rest) == Some(Field(m, rest))
  {
    var t := NumText(m, padded);
    assert (t + rest)[..|t|] == t && (t + rest)[|t|..] == rest;
  }

  /** `%d` reads back a day written with or without its leading zero, when
      what follows does not start with a digit. */
  lemma MatchDayText(d: int, padded: bool, rest: string)
    requires 1 <= d <= 31 && (rest == [] || !IsDigit(rest[0]))
    ensures MatchDay(NumText(d, padded) + rest) == Some(Field(d, rest))
  {
    var t := NumText(d, padded);
    assert (t + rest)[..|t|] == t && (t + rest)[|t|..] == rest;
  }

  /** Every input pattern reads back the date written in it, with or
      without leading zeros on the month and the day. */
  lemma ParseRoundTrip(d: Date, f: ParseFormat, padMonth: bool, padDay: bool)
    requires Valid(d)
    ensures Strptime(Layout(f, FourDigits(d.year), NumText(d.month, padMonth), NumText(d.day, padDay)), f) == Some(d)
  {
    if f == YmdDash || f == YmdSlash {
      YearFirstRoundTrip(d, f, padMonth, padDay);
    } else {
      DayFirstRoundTrip(d, f, padMonth, padDay);
    }
  }

  lemma YearFirstRoundTrip(d: Date, f: ParseFormat, padMonth: bool, padDay: bool)
    requires Valid(d) && (f == YmdDash || f == YmdSlash)
    ensures Strptime(Layout(f, FourDigits(d.year), NumText(d.month, padMonth), NumText(d.day, padDay)), f) == Some(d)
  {
    var ys, ms, ds := FourDigits(d.year), NumText(d.month, padMonth), NumText(d.day, padDay);
    var sep := Sep(f);
    var afterMonth := [sep] + (ds + []);
    var afterYear := [sep] + (ms + afterMonth);
    assert Layout(f, ys, ms, ds) == ys + afterYear;
    MatchYearFourDigits(d.year, afterYear);
    MatchMonthText(d.month, padMonth, afterMonth);
    MatchDayText(d.day, padDay, []);
    assert ds + [] == ds;
    assert MatchChar(afterYear, sep) == Some(ms + afterMonth);
    assert MatchChar(afterMonth, sep) == Some(ds + []);
  }

  lemma DayFirstRoundTrip(d: Date, f: ParseFormat, padMonth: bool, padDay: bool)
    requires Valid(d) && (f == DmyDash || f == DmySlash)
    ensures Strptime(Layout(f, FourDigits(d.year), NumText(d.month, padMonth), NumText(d.day, padDay)), f) == Some(d)
  {
    var ys, ms, ds := FourDigits(d.year), NumText(d.month, padMonth), NumText(d.day, padDay);
    var sep := Sep(f);
    var afterMonth := [sep] + (ys + []);
    var afterDay := [sep] + (ms + afterMonth);
    assert Layout(f, ys, ms, ds) == ds + afterDay;
    MatchDayText(d.day, padDay, afterDay);
    MatchMonthText(d.month, padMonth, afterMonth);
    MatchYearFourDigits(d.year, []);
    assert ys + [] == ys;
    assert MatchChar(afterDay, sep) == Some(ms + afterMonth);
    assert MatchChar(afterMonth, sep) == Some(ys + []);
  }

  /** A date written as `%Y-%m-%d` reads back as the same date. */
  lemma IsoDayRoundTrip(d: Date)
    requires Valid(d)
    ensures Strptime(Strftime(d, IsoDay), YmdDash) == Some(d)
  {
    assert Strftime(d, IsoDay) == Layout(YmdDash, FourDigits(d.year), NumText(d.month, true), NumText(d.day, true));
    ParseRoundTrip(d, YmdDash, true, true);
  }
}
