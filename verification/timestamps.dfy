/** The wiki poller's cursor arithmetic (`WikiHandler.newTimeStamp`): parse a
    `%Y-%m-%dT%H:%M:%SZ` timestamp, add one second with carries into minute,
    hour, day, month and year (Gregorian leap years), and format it again.
    The datetime range is that of Python's `datetime` (years 1 to 9999), and
    Python 2's `strftime` refuses years before 1900. */
module Timestamps {
  import opened Py

  datatype DateTime = DateTime(year: int, month: int, day: int, hour: int, minute: int, second: int)

  const MinYear := 1
  const MaxYear := 9999
  /** Python 2's datetime.strftime raises ValueError for earlier years. */
  const StrftimeMinYear := 1900

  const Latest := DateTime(MaxYear, 12, 31, 23, 59, 59)

  predicate IsLeapYear(y: int) {
    y % 4 == 0 && (y % 100 != 0 || y % 400 == 0)
  }

  function DaysInMonth(y: int, m: int): int
    requires 1 <= m <= 12
  {
    if m == 2 then (if IsLeapYear(y) then 29 else 28)
    else if m == 4 || m == 6 || m == 9 || m == 11 then 30
    else 31
  }

  /** The values a Python `datetime` can hold. */
  predicate Valid(dt: DateTime) {
    && MinYear <= dt.year <= MaxYear
    && 1 <= dt.month <= 12
    && 1 <= dt.day <= DaysInMonth(dt.year, dt.month)
    && 0 <= dt.hour < 24
    && 0 <= dt.minute < 60
    && 0 <= dt.second < 60
  }

  /** Chronological order, field by field from the year down. */
  predicate Before(a: DateTime, b: DateTime) {
    || a.year < b.year
    || (a.year == b.year && a.month < b.month)
    || (a.year == b.year && a.month == b.month && a.day < b.day)
    || (a.year == b.year && a.month == b.month && a.day == b.day && a.hour < b.hour)
    || (a.year == b.year && a.month == b.month && a.day == b.day && a.hour == b.hour && a.minute < b.minute)
    || (a.year == b.year && a.month == b.month && a.day == b.day && a.hour == b.hour && a.minute == b.minute
        && a.second < b.second)
  }

  // ---------------------------------------------------------------------------
  // Reference clock: seconds elapsed since 0001-01-01T00:00:00.

  function DaysInYear(y: int): int {
    if IsLeapYear(y) then 366 else 365
  }

  function DaysBeforeYear(y: int): int
    requires y >= MinYear
  {
    if y == MinYear then 0 else DaysBeforeYear(y - 1) + DaysInYear(y - 1)
  }

  function DaysBeforeMonth(y: int, m: int): int
    requires 1 <= m <= 12
  {
    if m == 1 then 0 else DaysBeforeMonth(y, m - 1) + DaysInMonth(y, m - 1)
  }

  function Seconds(dt: DateTime): int
    requires Valid(dt)
  {
    var days := DaysBeforeYear(dt.year) + DaysBeforeMonth(dt.year, dt.month) + dt.day - 1;
    ((days * 24 + dt.hour) * 60 + dt.minute) * 60 + dt.second
  }

  lemma DaysBeforeDecember(y: int)
    ensures DaysBeforeMonth(y, 12) + DaysInMonth(y, 12) == DaysInYear(y)
  {
    assert DaysBeforeMonth(y, 2) == DaysBeforeMonth(y, 1) + DaysInMonth(y, 1);
    assert DaysBeforeMonth(y, 3) == DaysBeforeMonth(y, 2) + DaysInMonth(y, 2);
    assert DaysBeforeMonth(y, 4) == DaysBeforeMonth(y, 3) + DaysInMonth(y, 3);
    assert DaysBeforeMonth(y, 5) == DaysBeforeMonth(y, 4) + DaysInMonth(y, 4);
    assert DaysBeforeMonth(y, 6) == DaysBeforeMonth(y, 5) + DaysInMonth(y, 5);
    assert DaysBeforeMonth(y, 7) == DaysBeforeMonth(y, 6) + DaysInMonth(y, 6);
    assert DaysBeforeMonth(y, 8) == DaysBeforeMonth(y, 7) + DaysInMonth(y, 7);
    assert DaysBeforeMonth(y, 9) == DaysBeforeMonth(y, 8) + DaysInMonth(y, 8);
    assert DaysBeforeMonth(y, 10) == DaysBeforeMonth(y, 9) + DaysInMonth(y, 9);
    assert DaysBeforeMonth(y, 11) == DaysBeforeMonth(y, 10) + DaysInMonth(y, 10);
    assert DaysBeforeMonth(y, 12) == DaysBeforeMonth(y, 11) + DaysInMonth(y, 11);
  }

  // ---------------------------------------------------------------------------
  // Adding one second.

  /** `datetime + timedelta(seconds = 1)`: the carry stops at the first field
      that has room; past the last representable second it overflows. */
  function Tick(dt: DateTime): (r: Option<DateTime>)
    requires Valid(dt)
    ensures r.None? <==> dt == Latest
    ensures r.Some? ==> Valid(r.value) && Before(dt, r.value)
  {
    if dt.second < 59 then Some(dt.(second := dt.second + 1))
    else if dt.minute < 59 then Some(dt.(minute := dt.minute + 1, second := 0))
    else if dt.hour < 23 then Some(dt.(hour := dt.hour + 1, minute := 0, second := 0))
    else if dt.day < DaysInMonth(dt.year, dt.month) then
      Some(DateTime(dt.year, dt.month, dt.day + 1, 0, 0, 0))
    else if dt.month < 12 then Some(DateTime(dt.year, dt.month + 1, 1, 0, 0, 0))
    else if dt.year < MaxYear then Some(DateTime(dt.year + 1, 1, 1, 0, 0, 0))
    else None
  }

  /** The successor is exactly one second later on the reference clock. */
  lemma TickAddsOneSecond(dt: DateTime)
    requires Valid(dt) && dt != Latest
    ensures Seconds(Tick(dt).value) == Seconds(dt) + 1
  {
    var n := Tick(dt).value;
    if dt.second == 59 && dt.minute == 59 && dt.hour == 23 && dt.day == DaysInMonth(dt.year, dt.month) {
      if dt.month == 12 {
        DaysBeforeDecember(dt.year);
        assert DaysBeforeYear(n.year) == DaysBeforeYear(dt.year) + DaysInYear(dt.year);
      } else {
        assert DaysBeforeMonth(n.year, n.month) == DaysBeforeMonth(dt.year, dt.month) + dt.day;
      }
    }
  }

  // ---------------------------------------------------------------------------
  // The fixed-width text form YYYY-MM-DDTHH:MM:SSZ.

  predicate IsDigit(c: char) {
    '0' <= c <= '9'
  }

  function DigitChar(d: int): char
    requires 0 <= d < 10
  {
    ('0' as int + d) as char
  }

  function DigitValue(c: char): int
    requires IsDigit(c)
  {
    c as int - '0' as int
  }

  function Pad2(n: int): string
    requires 0 <= n < 100
  {
    [DigitChar(n / 10), DigitChar(n % 10)]
  }

  function Pad4(n: int): string
    requires 0 <= n < 10000
  {
    Pad2(n / 100) + Pad2(n % 100)
  }

  function Num2(s: string): int
    requires |s| == 2 && IsDigit(s[0]) && IsDigit(s[1])
  {
    10 * DigitValue(s[0]) + DigitValue(s[1])
  }

  function Num4(s: string): int
    requires |s| == 4 && forall i :: 0 <= i < 4 ==> IsDigit(s[i])
  {
    100 * Num2(s[..2]) + Num2(s[2..])
  }

  /** `strftime(dt, "%Y-%m-%dT%H:%M:%SZ")` for a year of four digits. */
  function Format(dt: DateTime): string
    requires Valid(dt)
  {
    Pad4(dt.year) + ("-" + (Pad2(dt.month) + ("-" + (Pad2(dt.day) + ("T" + (Pad2(dt.hour)
      + (":" + (Pad2(dt.minute) + (":" + (Pad2(dt.second) + "Z"))))))))))
  }

  /** The positions of the separators and digits in the fixed-width form. */
  predicate WellShaped(s: string) {
    && |s| == 20
    && s[4] == '-' && s[7] == '-' && s[10] == 'T' && s[13] == ':' && s[16] == ':' && s[19] == 'Z'
    && forall i :: 0 <= i < 20 && i !in {4, 7, 10, 13, 16, 19} ==> IsDigit(s[i])
  }

  /** `strptime(s, "%Y-%m-%dT%H:%M:%SZ")` restricted to the zero-padded form:
      the text must be well shaped and name a real date and time. */
  function ParseTimestamp(s: string): (r: Option<DateTime>)
    ensures r.Some? ==> Valid(r.value) && Format(r.value) == s
  {
    if WellShaped(s) then
      var dt := DateTime(Num4(s[0..4]), Num2(s[5..7]), Num2(s[8..10]),
                         Num2(s[11..13]), Num2(s[14..16]), Num2(s[17..19]));
      if Valid(dt) then
        FormatOfParsed(s, dt);
        Some(dt)
      else None
    else None
  }

  lemma Pad2OfNum2(s: string)
    requires |s| == 2 && IsDigit(s[0]) && IsDigit(s[1])
    ensures 0 <= Num2(s) < 100 && Pad2(Num2(s)) == s
  {
  }

  lemma Num2OfPad2(n: int)
    requires 0 <= n < 100
    ensures Num2(Pad2(n)) == n
  {
  }

  lemma Num4OfPad4(n: int)
    requires 0 <= n < 10000
    ensures Num4(Pad4(n)) == n
  {
    var p := Pad4(n);
    assert p[..2] == Pad2(n / 100) && p[2..] == Pad2(n % 100);
    Num2OfPad2(n / 100);
    Num2OfPad2(n % 100);
  }

  lemma FormatOfParsed(s: string, dt: DateTime)
    requires WellShaped(s)
    requires dt == DateTime(Num4(s[0..4]), Num2(s[5..7]), Num2(s[8..10]),
                            Num2(s[11..13]), Num2(s[14..16]), Num2(s[17..19]))
    requires Valid(dt)
    ensures Format(dt) == s
  {
    var y := s[0..4];
    Pad2OfNum2(y[..2]);
    Pad2OfNum2(y[2..]);
    assert Pad4(dt.year) == y[..2] + y[2..] == y;
    Pad2OfNum2(s[5..7]);
    Pad2OfNum2(s[8..10]);
    Pad2OfNum2(s[11..13]);
    Pad2OfNum2(s[14..16]);
    Pad2OfNum2(s[17..19]);
    FormatShape(dt);
    SameBySlices(Format(dt), s);
  }

  /** Two texts of the fixed width that agree on every field and separator
      are equal. */
  lemma SameBySlices(f: string, s: string)
    requires |f| == 20 && |s| == 20
    requires f[0..4] == s[0..4] && f[5..7] == s[5..7] && f[8..10] == s[8..10]
    requires f[11..13] == s[11..13] && f[14..16] == s[14..16] && f[17..19] == s[17..19]
    requires f[4] == s[4] && f[7] == s[7] && f[10] == s[10]
    requires f[13] == s[13] && f[16] == s[16] && f[19] == s[19]
    ensures f == s
  {
    forall i | 0 <= i < 20
      ensures f[i] == s[i]
    {
      if i < 4 {
        assert f[i] == f[0..4][i] && s[i] == s[0..4][i];
      } else if 5 <= i < 7 {
        assert f[i] == f[5..7][i - 5] && s[i] == s[5..7][i - 5];
      } else if 8 <= i < 10 {
        assert f[i] == f[8..10][i - 8] && s[i] == s[8..10][i - 8];
      } else if 11 <= i < 13 {
        assert f[i] == f[11..13][i - 11] && s[i] == s[11..13][i - 11];
      } else if 14 <= i < 16 {
        assert f[i] == f[14..16][i - 14] && s[i] == s[14..16][i - 14];
      } else if 17 <= i < 19 {
        assert f[i] == f[17..19][i - 17] && s[i] == s[17..19][i - 17];
      }
    }
  }

  /** Splitting `p + [c] + rest` back into its three parts. */
  lemma Peel(p: string, c: char, rest: string)
    ensures (p + ([c] + rest))[..|p|] == p
    ensures (p + ([c] + rest))[|p|] == c
    ensures (p + ([c] + rest))[|p| + 1..] == rest
  {
  }

  /** Where each field and separator sits in the formatted text. */
  lemma FormatShape(dt: DateTime)
    requires Valid(dt)
    ensures |Format(dt)| == 20
    ensures Format(dt)[0..4] == Pad4(dt.year) && Format(dt)[4] == '-'
    ensures Format(dt)[5..7] == Pad2(dt.month) && Format(dt)[7] == '-'
    ensures Format(dt)[8..10] == Pad2(dt.day) && Format(dt)[10] == 'T'
    ensures Format(dt)[11..13] == Pad2(dt.hour) && Format(dt)[13] == ':'
    ensures Format(dt)[14..16] == Pad2(dt.minute) && Format(dt)[16] == ':'
    ensures Format(dt)[17..19] == Pad2(dt.second) && Format(dt)[19] == 'Z'
  {
    var t17 := Pad2(dt.second) + "Z";
    var t14 := Pad2(dt.minute) + (":" + t17);
    var t11 := Pad2(dt.hour) + (":" + t14);
    var t8 := Pad2(dt.day) + ("T" + t11);
    var t5 := Pad2(dt.month) + ("-" + t8);
    var s := Format(dt);
    assert s == Pad4(dt.year) + ("-" + t5);
    Peel(Pad4(dt.year), '-', t5);
    Peel(Pad2(dt.month), '-', t8);
    Peel(Pad2(dt.day), 'T', t11);
    Peel(Pad2(dt.hour), ':', t14);
    Peel(Pad2(dt.minute), ':', t17);
    assert t17 == Pad2(dt.second) + (['Z'] + []);
    Peel(Pad2(dt.second), 'Z', []);
    assert s[5..] == t5;
    assert s[8..] == t8;
    assert s[11..] == t11;
    assert s[14..] == t14;
    assert s[17..] == t17;
  }

  /** Formatting then parsing returns the same date and time: with the
      ensures of `ParseTimestamp`, a string parses to `dt` exactly when it
      is the formatted `dt`. */
  lemma ParseFormat(dt: DateTime)
    requires Valid(dt)
    ensures ParseTimestamp(Format(dt)) == Some(dt)
  {
    var s := Format(dt);
    FormatShape(dt);
    Num4OfPad4(dt.year);
    Num2OfPad2(dt.month);
    Num2OfPad2(dt.day);
    Num2OfPad2(dt.hour);
    Num2OfPad2(dt.minute);
    Num2OfPad2(dt.second);
    assert WellShaped(s);
  }

  // ---------------------------------------------------------------------------
  // The text order agrees with the chronological order.

  lemma Pad2Order(x: int, y: int)
    requires 0 <= x < 100 && 0 <= y < 100
    ensures LexLess(Pad2(x), Pad2(y)) <==> x < y
    ensures Pad2(x) == Pad2(y) <==> x == y
  {
    var hx, lx, hy, ly := x / 10, x % 10, y / 10, y % 10;
    assert x == 10 * hx + lx && y == 10 * hy + ly;
    assert Pad2(x)[1..] == [DigitChar(lx)] && Pad2(y)[1..] == [DigitChar(ly)];
    assert LexLess([DigitChar(lx)], [DigitChar(ly)]) <==> lx < ly;
    assert LexLess(Pad2(x), Pad2(y)) <==> hx < hy || (hx == hy && lx < ly);
  }

  lemma Pad4Order(x: int, y: int)
    requires 0 <= x < 10000 && 0 <= y < 10000
    ensures LexLess(Pad4(x), Pad4(y)) <==> x < y
    ensures Pad4(x) == Pad4(y) <==> x == y
  {
    LexLessConcat(Pad2(x / 100), Pad2(x % 100), Pad2(y / 100), Pad2(y % 100));
    Pad2Order(x / 100, y / 100);
    Pad2Order(x % 100, y % 100);
    if Pad4(x) == Pad4(y) {
      Num4OfPad4(x);
      Num4OfPad4(y);
    }
  }

  /** Comparing two formatted timestamps as Python strings compares them in
      time. */
  lemma FormatOrder(a: DateTime, b: DateTime)
    requires Valid(a) && Valid(b)
    ensures LexLess(Format(a), Format(b)) <==> Before(a, b)
  {
    var ts := Pad2(a.second) + "Z";
    var tsb := Pad2(b.second) + "Z";
    LexLessConcat(Pad2(a.second), "Z", Pad2(b.second), "Z");
    Pad2Order(a.second, b.second);
    LexLessIrreflexive("Z");
    var tm := Pad2(a.minute) + (":" + ts);
    var tmb := Pad2(b.minute) + (":" + tsb);
    LexLessConcat(":", ts, ":", tsb);
    LexLessConcat(Pad2(a.minute), ":" + ts, Pad2(b.minute), ":" + tsb);
    Pad2Order(a.minute, b.minute);
    var th := Pad2(a.hour) + (":" + tm);
    var thb := Pad2(b.hour) + (":" + tmb);
    LexLessConcat(":", tm, ":", tmb);
    LexLessConcat(Pad2(a.hour), ":" + tm, Pad2(b.hour), ":" + tmb);
    Pad2Order(a.hour, b.hour);
    var td := Pad2(a.day) + ("T" + th);
    var tdb := Pad2(b.day) + ("T" + thb);
    LexLessConcat("T", th, "T", thb);
    LexLessConcat(Pad2(a.day), "T" + th, Pad2(b.day), "T" + thb);
    Pad2Order(a.day, b.day);
    var tmo := Pad2(a.month) + ("-" + td);
    var tmob := Pad2(b.month) + ("-" + tdb);
    LexLessConcat("-", td, "-", tdb);
    LexLessConcat(Pad2(a.month), "-" + td, Pad2(b.month), "-" + tdb);
    Pad2Order(a.month, b.month);
    LexLessConcat("-", tmo, "-", tmob);
    LexLessConcat(Pad4(a.year), "-" + tmo, Pad4(b.year), "-" + tmob);
    Pad4Order(a.year, b.year);
    assert Format(a) == Pad4(a.year) + ("-" + tmo);
    assert Format(b) == Pad4(b.year) + ("-" + tmob);
  }

  // ---------------------------------------------------------------------------
  // newTimeStamp

  /** `newTimeStamp`: parse, add one second, format. Unparseable text and a
      result before 1900 raise ValueError; the last representable second
      raises OverflowError. */
  function NewTimeStamp(stamp: string): (r: Result<string>)
    ensures ParseTimestamp(stamp).None? ==> r == Raised(ValueError)
    ensures ParseTimestamp(stamp) == Some(Latest) ==> r == Raised(OverflowError)
    ensures r.Raised? && ParseTimestamp(stamp).Some? && ParseTimestamp(stamp).value != Latest ==>
      r.error == ValueError && Tick(ParseTimestamp(stamp).value).value.year < StrftimeMinYear
    ensures r.Ok? <==> ParseTimestamp(stamp).Some? && ParseTimestamp(stamp).value != Latest
                       && Tick(ParseTimestamp(stamp).value).value.year >= StrftimeMinYear
  {
    match ParseTimestamp(stamp)
    case None => Raised(ValueError)
    case Some(dt) =>
      match Tick(dt)
      case None => Raised(OverflowError)
      case Some(next) =>
        if next.year < StrftimeMinYear then Raised(ValueError) else Ok(Format(next))
  }

  /** A successful `newTimeStamp` names the very next second, in the same
      fixed-width form, and as a Python string it sorts strictly after its
      input. */
  lemma NewTimeStampAdvances(stamp: string)
    requires NewTimeStamp(stamp).Ok?
    ensures var next := NewTimeStamp(stamp).value;
      && ParseTimestamp(next).Some?
      && Seconds(ParseTimestamp(next).value) == Seconds(ParseTimestamp(stamp).value) + 1
      && |next| == |stamp| == 20
      && LexLess(stamp, next)
  {
    var dt := ParseTimestamp(stamp).value;
    var n := Tick(dt).value;
    ParseFormat(n);
    TickAddsOneSecond(dt);
    FormatOrder(dt, n);
    assert WellShaped(Format(n));
  }
}
