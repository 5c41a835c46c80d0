/** How `handleSubmit` turns the form's date and time strings into an instant:
    `date.split("-")`, `time.split(":")`, and
    `new Date(year, month - 1, day, hours, minutes)`, following the Date
    algorithms of ECMA-262 10th edition (ECMAScript 2019), section 20.3.1
    (MakeTime, MakeDay, MakeDate, TimeClip, UTC) and section 20.3.2.1 (the
    Date constructor). Time values are integer milliseconds since the epoch. */
module JsDate {

  /** A Number as these computations see it. The strings parsed here only
      ever give integers, so a finite Number is an `int`. */
  datatype Num = NaN | Finite(value: int)

  const MsPerMinute: int := 60000
  const MsPerHour: int := 3600000
  const MsPerDay: int := 86400000
  /** A time value lies within 100 000 000 days of the epoch (section 20.3.1.1). */
  const MaxTimeValue: int := 8640000000000000

  // ---------------------------------------------------------------------
  // String.prototype.split with a one-character separator

  /** The pieces of `s` between occurrences of `sep` (there is always at
      least one piece: `"".split("-")` is `[""]`). */
  function Split(s: string, sep: char): (parts: seq<string>)
    ensures |parts| >= 1
    ensures forall i :: 0 <= i < |parts| ==> sep !in parts[i]
  {
    if s == [] then [[]]
    else
      var rest := Split(s[1..], sep);
      if s[0] == sep then [[]] + rest
      else [[s[0]] + rest[0]] + rest[1..]
  }

  /** The inverse of Split: the pieces glued back with `sep`. */
  function Join(parts: seq<string>, sep: char): string
  {
    if parts == [] then []
    else if |parts| == 1 then parts[0]
    else parts[0] + [sep] + Join(parts[1..], sep)
  }

  /** Splitting loses nothing. */
  lemma {:induction false} JoinSplit(s: string, sep: char)
    ensures Join(Split(s, sep), sep) == s
  {
    if s != [] {
      var rest := Split(s[1..], sep);
      JoinSplit(s[1..], sep);
      if s[0] == sep {
        assert ([[]] + rest)[1..] == rest;
      } else {
        var parts := [[s[0]] + rest[0]] + rest[1..];
        if |rest| > 1 {
          assert parts[1..] == rest[1..];
        }
      }
    }
  }

  lemma {:induction false} SplitWithoutSeparator(s: string, sep: char)
    requires sep !in s
    ensures Split(s, sep) == [s]
  {
    if s != [] {
      SplitWithoutSeparator(s[1..], sep);
      assert s[0] != sep;
      assert [s[0]] + s[1..] == s;
    }
  }

  lemma {:induction false} SplitAtSeparator(a: string, b: string, sep: char)
    requires sep !in a
    ensures Split(a + [sep] + b, sep) == [a] + Split(b, sep)
  {
    if a == [] {
      assert a + [sep] + b == [sep] + b;
    } else {
      SplitAtSeparator(a[1..], b, sep);
      assert (a + [sep] + b)[0] == a[0] != sep;
      assert (a + [sep] + b)[1..] == a[1..] + [sep] + b;
      assert [a[0]] + a[1..] == a;
    }
  }

  /** Joining pieces that do not contain the separator and splitting again
      gives the pieces back. */
  lemma {:induction false} SplitJoin(parts: seq<string>, sep: char)
    requires |parts| >= 1
    requires forall i :: 0 <= i < |parts| ==> sep !in parts[i]
    ensures Split(Join(parts, sep), sep) == parts
  {
    if |parts| == 1 {
      SplitWithoutSeparator(parts[0], sep);
    } else {
      SplitJoin(parts[1..], sep);
      SplitAtSeparator(parts[0], Join(parts[1..], sep), sep);
    }
  }

  // ---------------------------------------------------------------------
  // ToNumber on the pieces

  predicate IsDigit(c: char) { '0' <= c <= '9' }

  predicate AllDigits(s: string) { forall i :: 0 <= i < |s| ==> IsDigit(s[i]) }

  /** The decimal value of a digit string (leading zeros allowed, "" is 0). */
  function DigitsValue(s: string): nat
    requires AllDigits(s)
  {
    if s == [] then 0 else DigitsValue(s[..|s| - 1]) * 10 + (s[|s| - 1] as int - '0' as int)
  }

  /** ToNumber of a string (section 7.1.3.1), for decimal digit strings:
      the empty string is 0 and anything else that is not digits is NaN. */
  function StringToNumber(s: string): (n: Num)
    ensures n.Finite? <==> AllDigits(s)
    ensures n.Finite? ==> n.value == DigitsValue(s)
  {
    if AllDigits(s) then Finite(DigitsValue(s)) else NaN
  }

  function Pow10(k: nat): (p: nat)
    ensures p >= 1
  {
    if k == 0 then 1 else 10 * Pow10(k - 1)
  }

  /** Leading zeros do not change the value ("09" is 9). */
  lemma {:induction false} LeadingZero(s: string)
    requires AllDigits(s)
    ensures AllDigits("0" + s) && DigitsValue("0" + s) == DigitsValue(s)
  {
    if s != [] {
      LeadingZero(s[..|s| - 1]);
      assert ("0" + s)[..|s|] == "0" + s[..|s| - 1];
    }
  }

  /** A value of `k` digits is below 10^k. */
  lemma {:induction false} DigitsValueBound(s: string)
    requires AllDigits(s)
    ensures DigitsValue(s) < Pow10(|s|)
  {
    if s != [] {
      DigitsValueBound(s[..|s| - 1]);
    }
  }

  /** Appending a digit multiplies by ten and adds it ("2024" is 202 * 10 + 4). */
  lemma DigitsValueAppend(s: string, c: char)
    requires AllDigits(s) && IsDigit(c)
    ensures AllDigits(s + [c]) && DigitsValue(s + [c]) == DigitsValue(s) * 10 + (c as int - '0' as int)
  {
    assert (s + [c])[..|s|] == s;
  }

  /** The `i`-th name of an array destructuring `[a, b, c] = parts`: a
      missing piece is `undefined`, whose ToNumber is NaN. */
  function PartNumber(parts: seq<string>, i: nat): Num
  {
    if i < |parts| then StringToNumber(parts[i]) else NaN
  }

  /** `n - 1` on a Number. */
  function MinusOne(n: Num): Num
  {
    if n.NaN? then NaN else Finite(n.value - 1)
  }

  // ---------------------------------------------------------------------
  // The calendar (sections 20.3.1.3 and 20.3.1.4)

  function DaysInYear(y: int): int
  {
    if (y % 4 == 0 && y % 100 != 0) || y % 400 == 0 then 366 else 365
  }

  /** The day number of January 1 of year `y`. Dafny's `/` by a positive
      constant is the floor the standard asks for. */
  function DayFromYear(y: int): (d: int)
    ensures y == 1970 ==> d == 0
    ensures y == 1971 ==> d == 365
    ensures y == 2000 ==> d == 10957
  {
    365 * (y - 1970) + (y - 1969) / 4 - (y - 1901) / 100 + (y - 1601) / 400
  }

  /** Days in month `m` (0 = January) of year `y`. */
  function DaysInMonth(y: int, m: int): int
    requires 0 <= m < 12
  {
    if m == 1 then (if DaysInYear(y) == 366 then 29 else 28)
    else if m == 3 || m == 5 || m == 8 || m == 10 then 30
    else 31
  }

  /** The day within the year on which month `m` starts: the table of
      MonthFromTime in section 20.3.1.4 (`12` stands for the year's end). */
  function MonthStart(y: int, m: int): int
    requires 0 <= m <= 12
  {
    var leap := DaysInYear(y) - 365;
    if m == 0 then 0
    else if m == 1 then 31
    else if m == 2 then 59 + leap
    else if m == 3 then 90 + leap
    else if m == 4 then 120 + leap
    else if m == 5 then 151 + leap
    else if m == 6 then 181 + leap
    else if m == 7 then 212 + leap
    else if m == 8 then 243 + leap
    else if m == 9 then 273 + leap
    else if m == 10 then 304 + leap
    else if m == 11 then 334 + leap
    else 365 + leap
  }

  /** The table is the running total of the month lengths, and ends with the
      length of the year. */
  lemma MonthStartIsRunningTotal(y: int, m: int)
    requires 0 <= m < 12
    ensures MonthStart(y, m + 1) == MonthStart(y, m) + DaysInMonth(y, m)
    ensures MonthStart(y, 0) == 0 && MonthStart(y, 12) == DaysInYear(y)
  {
  }

  /** The closed formula for January 1 advances by the length of each year. */
  lemma DayFromYearStep(y: int)
    ensures DayFromYear(y + 1) == DayFromYear(y) + DaysInYear(y)
  {
    FloorStep4(y - 1969);
    FloorStep100(y - 1901);
    FloorStep400(y - 1601);
    var s4 := (y - 1968) / 4 - (y - 1969) / 4;
    var s100 := (y - 1900) / 100 - (y - 1901) / 100;
    var s400 := (y - 1600) / 400 - (y - 1601) / 400;
    assert DayFromYear(y + 1) - DayFromYear(y) == 365 + s4 - s100 + s400;
    assert s4 == (if y % 4 == 0 then 1 else 0);
    assert s100 == (if y % 100 == 0 then 1 else 0);
    assert s400 == (if y % 400 == 0 then 1 else 0);
    LeapDivisibility(y);
  }

  lemma LeapDivisibility(y: int)
    ensures y % 400 == 0 ==> y % 100 == 0
    ensures y % 100 == 0 ==> y % 4 == 0
  {
  }

  // The floor of a quotient by a constant steps up by one exactly at a multiple.

  lemma FloorStep4(a: int)
    ensures (a + 1) / 4 - a / 4 == if (a + 1) % 4 == 0 then 1 else 0
    ensures (a + 1 + 1968) % 4 == (a + 1) % 4
  {
  }

  lemma FloorStep100(a: int)
    ensures (a + 1) / 100 - a / 100 == if (a + 1) % 100 == 0 then 1 else 0
    ensures (a + 1 + 1900) % 100 == (a + 1) % 100
  {
  }

  lemma FloorStep400(a: int)
    ensures (a + 1) / 400 - a / 400 == if (a + 1) % 400 == 0 then 1 else 0
    ensures (a + 1 + 1600) % 400 == (a + 1) % 400
  {
  }

  /** An independent count of days from 1970 to January 1 of year `y`, one
      year at a time. */
  ghost function DaysFromEpochYear(y: int): int
    decreases if y < 1970 then 1970 - y else y - 1970
  {
    if y == 1970 then 0
    else if y > 1970 then DaysFromEpochYear(y - 1) + DaysInYear(y - 1)
    else DaysFromEpochYear(y + 1) - DaysInYear(y)
  }

  /** The standard's closed formula agrees with counting year by year. */
  lemma {:induction false} DayFromYearCounts(y: int)
    ensures DayFromYear(y) == DaysFromEpochYear(y)
    decreases if y < 1970 then 1970 - y else y - 1970
  {
    if y > 1970 {
      DayFromYearCounts(y - 1);
      DayFromYearStep(y - 1);
    } else if y < 1970 {
      DayFromYearCounts(y + 1);
      DayFromYearStep(y);
    }
  }

  /** Every later year starts after the whole of an earlier one. */
  lemma {:induction false} DayFromYearIncreasing(y: int, z: int)
    requires y < z
    ensures DayFromYear(y) + DaysInYear(y) <= DayFromYear(z)
    decreases z - y
  {
    DayFromYearStep(y);
    if y + 1 < z {
      DayFromYearIncreasing(y + 1, z);
    }
  }

  // ---------------------------------------------------------------------
  // Section 20.3.1: MakeTime, MakeDay, MakeDate, UTC, TimeClip

  /** The milliseconds of a time of day; a valid hour and minute stay within one day. */
  function MakeTime(hour: Num, min: Num, sec: Num, ms: Num): (r: Num)
    ensures r.Finite? <==> hour.Finite? && min.Finite? && sec.Finite? && ms.Finite?
    ensures (&& hour.Finite? && 0 <= hour.value < 24 && min.Finite? && 0 <= min.value < 60
             && sec == Finite(0) && ms == Finite(0))
            ==> 0 <= r.value < MsPerDay
  {
    if hour.NaN? || min.NaN? || sec.NaN? || ms.NaN? then NaN
    else Finite(hour.value * MsPerHour + min.value * MsPerMinute + sec.value * 1000 + ms.value)
  }

  /** The day number of `date` in month `month` of `year`; months outside
      0..11 carry into the year, as `floor(m / 12)` and `m modulo 12` do. */
  function MakeDay(year: Num, month: Num, date: Num): (r: Num)
    ensures r.Finite? <==> year.Finite? && month.Finite? && date.Finite?
  {
    if year.NaN? || month.NaN? || date.NaN? then NaN
    else
      var ym := year.value + month.value / 12;
      var mn := month.value % 12;
      Finite(DayFromYear(ym) + MonthStart(ym, mn) + date.value - 1)
  }

  /** Twelve more months is one more year. */
  lemma MakeDayCarries(y: int, m: int, date: Num)
    ensures MakeDay(Finite(y), Finite(m + 12), date) == MakeDay(Finite(y + 1), Finite(m), date)
  {
    assert (m + 12) / 12 == m / 12 + 1 && (m + 12) % 12 == m % 12;
  }

  function MakeDate(day: Num, time: Num): (r: Num)
    ensures r.Finite? <==> day.Finite? && time.Finite?
    ensures r.Finite? && 0 <= time.value < MsPerDay ==> day.value * MsPerDay <= r.value < (day.value + 1) * MsPerDay
  {
    if day.NaN? || time.NaN? then NaN else Finite(day.value * MsPerDay + time.value)
  }

  /** Local time to UTC, with the local time zone adjustment a fixed
      `localTza` (milliseconds ahead of UTC). */
  function Utc(t: Num, localTza: int): (r: Num)
    ensures r.Finite? <==> t.Finite?
    ensures r.Finite? ==> r.value + localTza == t.value
  {
    if t.NaN? then NaN else Finite(t.value - localTza)
  }

  function TimeClip(t: Num): (r: Num)
    ensures r.Finite? ==> r == t && -MaxTimeValue <= r.value <= MaxTimeValue
    ensures t.Finite? && -MaxTimeValue <= t.value <= MaxTimeValue ==> r == t
  {
    if t.NaN? || t.value < -MaxTimeValue || t.value > MaxTimeValue then NaN else t
  }

  /** `new Date(year, month, date, hours, minutes)` (section 20.3.2.1): a year
      from 0 to 99 means 1900 to 1999; seconds and milliseconds are 0. */
  function NewDate(year: Num, month: Num, date: Num, hours: Num, minutes: Num, localTza: int): (r: Num)
    ensures year.NaN? || month.NaN? || date.NaN? || hours.NaN? || minutes.NaN? ==> r == NaN
    ensures r.Finite? ==> -MaxTimeValue <= r.value <= MaxTimeValue
  {
    var yr := if year.Finite? && 0 <= year.value <= 99 then Finite(1900 + year.value) else year;
    TimeClip(Utc(MakeDate(MakeDay(yr, month, date), MakeTime(hours, minutes, Finite(0), Finite(0))), localTza))
  }

  /** A year written 0 to 99 is the same as 1900 to 1999. */
  lemma TwoDigitYears(y: int, month: Num, date: Num, hours: Num, minutes: Num, localTza: int)
    requires 0 <= y <= 99
    ensures NewDate(Finite(y), month, date, hours, minutes, localTza)
         == NewDate(Finite(1900 + y), month, date, hours, minutes, localTza)
  {
  }

  /** The instant `handleSubmit` builds from the date input ("YYYY-MM-DD")
      and the time input ("HH:MM"); pieces past the third (date) or second
      (time) are ignored, as the destructuring does. */
  function LocalInstant(date: string, time: string, localTza: int): (r: Num)
    ensures |Split(date, '-')| < 3 || |Split(time, ':')| < 2 ==> r == NaN
    ensures r.Finite? ==> -MaxTimeValue <= r.value <= MaxTimeValue
  {
    var d := Split(date, '-');
    var t := Split(time, ':');
    NewDate(PartNumber(d, 0), MinusOne(PartNumber(d, 1)), PartNumber(d, 2),
            PartNumber(t, 0), PartNumber(t, 1), localTza)
  }

  /** `t < now` between Date objects: an Invalid Date (NaN) is never earlier. */
  predicate Before(t: Num, now: int)
  {
    t.Finite? && t.value < now
  }

  // ---------------------------------------------------------------------
  // Calendar fields

  /** Date and time as they are written in the inputs (month 1..12). */
  datatype DateTime = DateTime(year: int, month: int, day: int, hour: int, minute: int)

  predicate ValidDateTime(dt: DateTime)
  {
    && 1 <= dt.month <= 12
    && 1 <= dt.day <= DaysInMonth(dt.year, dt.month - 1)
    && 0 <= dt.hour < 24
    && 0 <= dt.minute < 60
  }

  /** Lexicographic order on (year, month, day, hour, minute). */
  predicate EarlierThan(a: DateTime, b: DateTime)
  {
    || a.year < b.year
    || (a.year == b.year && a.month < b.month)
    || (a.year == b.year && a.month == b.month && a.day < b.day)
    || (a.year == b.year && a.month == b.month && a.day == b.day && a.hour < b.hour)
    || (a.year == b.year && a.month == b.month && a.day == b.day && a.hour == b.hour && a.minute < b.minute)
  }

  /** The day number of a valid calendar date. */
  function DayNumber(dt: DateTime): int
    requires ValidDateTime(dt)
  {
    DayFromYear(dt.year) + MonthStart(dt.year, dt.month - 1) + dt.day - 1
  }

  /** Milliseconds since the epoch of a valid local date and time, read as UTC. */
  function LocalMs(dt: DateTime): int
    requires ValidDateTime(dt)
  {
    DayNumber(dt) * MsPerDay + dt.hour * MsPerHour + dt.minute * MsPerMinute
  }

  lemma DayNumberWithinYear(dt: DateTime)
    requires ValidDateTime(dt)
    ensures DayFromYear(dt.year) <= DayNumber(dt) < DayFromYear(dt.year) + DaysInYear(dt.year)
  {
    MonthStartIsRunningTotal(dt.year, dt.month - 1);
    assert MonthStart(dt.year, dt.month) <= MonthStart(dt.year, 12);
  }

  lemma DayNumberIncreasing(a: DateTime, b: DateTime)
    requires ValidDateTime(a) && ValidDateTime(b)
    requires a.year < b.year || (a.year == b.year && a.month < b.month)
             || (a.year == b.year && a.month == b.month && a.day < b.day)
    ensures DayNumber(a) < DayNumber(b)
  {
    if a.year < b.year {
      DayNumberWithinYear(a);
      DayNumberWithinYear(b);
      DayFromYearIncreasing(a.year, b.year);
    } else if a.month < b.month {
      MonthStartIsRunningTotal(a.year, a.month - 1);
      assert MonthStart(a.year, a.month) <= MonthStart(a.year, b.month - 1);
    }
  }

  /** Later calendar fields give a later instant. */
  lemma LocalMsIncreasing(a: DateTime, b: DateTime)
    requires ValidDateTime(a) && ValidDateTime(b)
    requires EarlierThan(a, b)
    ensures LocalMs(a) < LocalMs(b)
  {
    if a.year != b.year || a.month != b.month || a.day != b.day {
      DayNumberIncreasing(a, b);
      assert LocalMs(a) < (DayNumber(a) + 1) * MsPerDay <= LocalMs(b);
    }
  }

  // ---------------------------------------------------------------------
  // Well-formed input strings

  /** The date input holds digit pieces year-month-day and the time input
      digit pieces hours:minutes, naming a real calendar date and time with a
      year from 100 on (the years 0 to 99 are moved to the 1900s). */
  predicate WellFormed(date: string, time: string)
  {
    var d := Split(date, '-');
    var t := Split(time, ':');
    && |d| >= 3 && |t| >= 2
    && AllDigits(d[0]) && AllDigits(d[1]) && AllDigits(d[2])
    && AllDigits(t[0]) && AllDigits(t[1])
    && DigitsValue(d[0]) >= 100
    && ValidDateTime(DateTime(DigitsValue(d[0]), DigitsValue(d[1]), DigitsValue(d[2]),
                              DigitsValue(t[0]), DigitsValue(t[1])))
  }

  /** The calendar fields of well-formed inputs. */
  function Fields(date: string, time: string): (dt: DateTime)
    requires WellFormed(date, time)
    ensures ValidDateTime(dt)
  {
    var d := Split(date, '-');
    var t := Split(time, ':');
    DateTime(DigitsValue(d[0]), DigitsValue(d[1]), DigitsValue(d[2]),
             DigitsValue(t[0]), DigitsValue(t[1]))
  }

  /** For well-formed inputs the instant is the local date and time shifted
      by the zone offset, unless it falls outside the time value range. */
  lemma LocalInstantOfFields(date: string, time: string, localTza: int)
    requires WellFormed(date, time)
    ensures LocalInstant(date, time, localTza) == TimeClip(Finite(LocalMs(Fields(date, time)) - localTza))
  {
    var dt := Fields(date, time);
    var d, t := Split(date, '-'), Split(time, ':');
    assert PartNumber(d, 0) == Finite(dt.year) && PartNumber(d, 2) == Finite(dt.day);
    assert MinusOne(PartNumber(d, 1)) == Finite(dt.month - 1);
    assert PartNumber(t, 0) == Finite(dt.hour) && PartNumber(t, 1) == Finite(dt.minute);
    NewDateOfFields(dt, localTza);
  }

  /** The Date constructor on valid calendar fields with a year from 100 on. */
  lemma NewDateOfFields(dt: DateTime, localTza: int)
    requires ValidDateTime(dt) && dt.year >= 100
    ensures NewDate(Finite(dt.year), Finite(dt.month - 1), Finite(dt.day), Finite(dt.hour), Finite(dt.minute), localTza)
         == TimeClip(Finite(LocalMs(dt) - localTza))
  {
    assert (dt.month - 1) / 12 == 0 && (dt.month - 1) % 12 == dt.month - 1;
    var day := MakeDay(Finite(dt.year), Finite(dt.month - 1), Finite(dt.day));
    assert day == Finite(DayNumber(dt));
    var tod := MakeTime(Finite(dt.hour), Finite(dt.minute), Finite(0), Finite(0));
    assert tod == Finite(dt.hour * MsPerHour + dt.minute * MsPerMinute);
    assert MakeDate(day, tod) == Finite(LocalMs(dt));
  }

  /** With one zone offset, later calendar fields give a later instant. */
  lemma LocalInstantIncreasing(date1: string, time1: string, date2: string, time2: string, localTza: int)
    requires WellFormed(date1, time1) && WellFormed(date2, time2)
    requires EarlierThan(Fields(date1, time1), Fields(date2, time2))
    requires LocalInstant(date1, time1, localTza).Finite? && LocalInstant(date2, time2, localTza).Finite?
    ensures LocalInstant(date1, time1, localTza).value < LocalInstant(date2, time2, localTza).value
  {
    LocalInstantOfFields(date1, time1, localTza);
    LocalInstantOfFields(date2, time2, localTza);
    LocalMsIncreasing(Fields(date1, time1), Fields(date2, time2));
  }

  /** A date without two dashes leaves a destructured piece `undefined`, so
      the Date is invalid. */
  lemma MissingPieceIsInvalid(date: string, time: string, localTza: int)
    requires |Split(date, '-')| < 3 || |Split(time, ':')| < 2
    ensures LocalInstant(date, time, localTza) == NaN
  {
  }
}
