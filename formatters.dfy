/**
 * Time arithmetic of src/utils/formatters.js: duration strings, day keys, weekday names,
 * "HH:MM" strings and the two derived session sums.
 *
 * Local time is UTC plus a fixed offset `off` (no daylight-saving changes), so the local
 * calendar day of a timestamp `t` is `(t + off) / DayMs`.
 */
module Formatters {
  import opened Wrappers
  import opened Text
  import opened Collections
  import opened Model

  const MinuteMs: int := 60000
  const HourMs: int := 3600000
  const DayMs: int := 86400000

  /** A fixed offset of local time from UTC in milliseconds, within the ±14 hours in use. */
  type TzOffset = o: int | -50400000 <= o <= 50400000

  // ---------------------------------------------------------------- formatTime

  /** `formatTime(sec)`: "HH:MM:SS" of `max(0, sec)` seconds, hours padded to at least two digits. */
  function FormatTime(sec: int): (r: string)
    ensures |r| >= 8 && r[|r| - 6] == ':' && r[|r| - 3] == ':'
    ensures AllDigits(r[..|r| - 6]) && AllDigits(r[|r| - 5..|r| - 3]) && AllDigits(r[|r| - 2..])
    ensures DigitsValue(r[|r| - 5..|r| - 3]) < 60 && DigitsValue(r[|r| - 2..]) < 60
    ensures 3600 * DigitsValue(r[..|r| - 6]) + 60 * DigitsValue(r[|r| - 5..|r| - 3]) + DigitsValue(r[|r| - 2..])
            == (if sec < 0 then 0 else sec)
  {
    var s := if sec < 0 then 0 else sec;
    var hh, mm, ss := Pad2(s / 3600), Pad2((s % 3600) / 60), Pad2(s % 60);
    Pad2Value(s / 3600);
    Pad2Value((s % 3600) / 60);
    Pad2Value(s % 60);
    ClockFields(hh, mm, ss);
    HmsSplit(s);
    hh + ":" + mm + ":" + ss
  }

  /** Where the three fields of "H:MM:SS" sit. */
  lemma ClockFields(hh: string, mm: string, ss: string)
    requires |hh| >= 2 && |mm| == 2 && |ss| == 2
    ensures var r := hh + ":" + mm + ":" + ss;
            |r| == |hh| + 6 && r[|r| - 6] == ':' && r[|r| - 3] == ':'
            && r[..|r| - 6] == hh && r[|r| - 5..|r| - 3] == mm && r[|r| - 2..] == ss
  {
    var r := hh + ":" + mm + ":" + ss;
    assert r[..|r| - 6] == hh;
    assert r[|r| - 5..|r| - 3] == mm;
    assert r[|r| - 2..] == ss;
  }

  /** Hours, minutes and seconds put back together give the seconds. */
  lemma HmsSplit(s: nat)
    ensures 3600 * (s / 3600) + 60 * ((s % 3600) / 60) + s % 60 == s
  {
    var h, rest := s / 3600, s % 3600;
    assert s == 3600 * h + rest;
    assert rest == 60 * (rest / 60) + rest % 60;
    assert rest % 60 == s % 60 by {
      assert s == 60 * (60 * h + rest / 60) + rest % 60;
    }
  }

  // ------------------------------------------------------------- formatMinutes

  /**
   * `formatMinutes(sec)`: "N分" under an hour, else "H時間M分", or "H時間" on the hour; the
   * text shows exactly `floor(sec / 60)` minutes. The hours part appears from one hour up, and
   * the text ends in 間 exactly on a whole number of hours, in 分 otherwise.
   */
  function FormatMinutes(sec: int): (r: string)
    ensures ReadMinutes(r) == Some(sec / 60)
    ensures |r| >= 2
    ensures sec / 60 < 60 <==> '時' !in r
    ensures r[|r| - 1] == (if sec / 60 >= 60 && (sec / 60) % 60 == 0 then '間' else '分')
  {
    var minutes := sec / 60;
    if minutes < 60 then
      ShowsMinutesUnderAnHour(minutes);
      MinutesShape(minutes);
      IntToString(minutes) + "分"
    else
      var hours, mins := minutes / 60, minutes % 60;
      assert minutes == 60 * hours + mins;
      if mins > 0 then
        ShowsHoursAndMinutes(hours, mins);
        HoursShape(hours, NatToString(mins) + "分");
        NatToString(hours) + "時間" + (NatToString(mins) + "分")
      else
        ShowsWholeHours(hours);
        HoursShape(hours, "");
        assert NatToString(hours) + "時間" + "" == NatToString(hours) + "時間";
        NatToString(hours) + "時間"
  }

  /** "N分" has no hours part. */
  lemma MinutesShape(minutes: int)
    ensures var r := IntToString(minutes) + "分";
            |r| >= 2 && '時' !in r && r[|r| - 1] == '分'
  {
    var d := IntToString(minutes);
    assert '時' !in d by {
      if minutes < 0 { assert d == "-" + NatToString(-minutes); }
    }
  }

  /** "H時間…" has an hours part. */
  lemma HoursShape(hours: nat, rest: string)
    ensures var r := NatToString(hours) + "時間" + rest;
            |r| >= 3 && '時' in r && (rest == "" ==> r[|r| - 1] == '間')
            && (rest != "" ==> r[|r| - 1] == rest[|rest| - 1])
  {
    var r := NatToString(hours) + "時間" + rest;
    assert r[|NatToString(hours)|] == '時';
  }

  /** Reads a possibly negative decimal integer. */
  function ReadInt(s: string): Option<int>
  {
    if s != "" && AllDigits(s) then Some(DigitsValue(s))
    else if |s| > 1 && s[0] == '-' && AllDigits(s[1..]) then
      var v: int := DigitsValue(s[1..]);
      Some(-v)
    else None
  }

  /** An independent reader of the strings `formatMinutes` writes, giving the minutes they show. */
  function ReadMinutes(r: string): Option<int>
  {
    var h := IndexOf(r, '時');
    if h == -1 then
      if |r| >= 1 && r[|r| - 1] == '分' then ReadInt(r[..|r| - 1]) else None
    else if h + 1 < |r| && r[h + 1] == '間' && r[..h] != "" && AllDigits(r[..h]) then
      ReadMinutesRest(60 * DigitsValue(r[..h]), r[h + 2..])
    else None
  }

  lemma ReadIntOfNatToString(n: nat)
    ensures ReadInt(NatToString(n)) == Some(n)
  {
    DigitsValueOfNatToString(n);
  }

  lemma ReadIntOfNegative(n: nat)
    requires n > 0
    ensures ReadInt("-" + NatToString(n)) == Some(-(n as int))
  {
    var s := "-" + NatToString(n);
    assert !IsDigit(s[0]);
    assert s[1..] == NatToString(n);
    DigitsValueOfNatToString(n);
  }

  lemma ReadIntOfIntToString(i: int)
    ensures ReadInt(IntToString(i)) == Some(i)
  {
    if i < 0 {
      ReadIntOfNegative(-i);
    } else {
      ReadIntOfNatToString(i);
    }
  }

  lemma ReadMinutesUnderAnHour(d: string, x: int)
    requires '時' !in d && ReadInt(d) == Some(x)
    ensures ReadMinutes(d + "分") == Some(x)
  {
    var r := d + "分";
    assert '時' !in r;
    assert r[..|r| - 1] == d;
  }

  /** Where the reader finds the hours in "H時間…" when H is all digits. */
  lemma HoursPrefix(hs: string, rest: string)
    requires AllDigits(hs)
    ensures var r := hs + "時間" + rest;
            IndexOf(r, '時') == |hs| && |hs| + 1 < |r| && r[|hs| + 1] == '間'
            && r[..|hs|] == hs && r[|hs| + 2..] == rest
  {
    var r := hs + "時間" + rest;
    assert r[..|hs|] == hs;
    assert r[|hs|] == '時';
    assert !IsDigit('時');
    assert '時' !in hs;
    assert r[|hs| + 2..] == rest;
  }

  lemma ReadMinutesHours(hours: nat, rest: string)
    ensures ReadMinutes(NatToString(hours) + "時間" + rest) == ReadMinutesRest(60 * hours, rest)
  {
    HoursPrefix(NatToString(hours), rest);
    DigitsValueOfNatToString(hours);
  }

  /** The part of `ReadMinutes` after "H時間". */
  function ReadMinutesRest(base: int, rest: string): Option<int>
  {
    if rest == "" then Some(base)
    else if |rest| >= 2 && rest[|rest| - 1] == '分' && rest[..|rest| - 1] != "" && AllDigits(rest[..|rest| - 1])
    then Some(base + DigitsValue(rest[..|rest| - 1]))
    else None
  }

  lemma ShowsMinutesUnderAnHour(minutes: int)
    requires minutes < 60
    ensures ReadMinutes(IntToString(minutes) + "分") == Some(minutes)
  {
    var d := IntToString(minutes);
    assert '時' !in d by {
      if minutes < 0 { assert d == "-" + NatToString(-minutes); }
    }
    ReadIntOfIntToString(minutes);
    ReadMinutesUnderAnHour(d, minutes);
  }

  lemma ReadRestMinutes(base: int, mins: nat)
    ensures ReadMinutesRest(base, NatToString(mins) + "分") == Some(base + mins)
  {
    var ms := NatToString(mins);
    var rest := ms + "分";
    assert rest[..|rest| - 1] == ms;
    DigitsValueOfNatToString(mins);
  }

  lemma ShowsHoursAndMinutes(hours: nat, mins: nat)
    ensures ReadMinutes(NatToString(hours) + "時間" + (NatToString(mins) + "分")) == Some(60 * hours + mins)
  {
    ReadMinutesHours(hours, NatToString(mins) + "分");
    ReadRestMinutes(60 * hours, mins);
  }

  lemma ShowsWholeHours(hours: nat)
    ensures ReadMinutes(NatToString(hours) + "時間") == Some(60 * hours)
  {
    ReadMinutesHours(hours, "");
    assert NatToString(hours) + "時間" + "" == NatToString(hours) + "時間";
  }

  // ----------------------------------------------------------------- day keys

  /** Local calendar day of a timestamp: `getDateString`'s date, as a day key. */
  function LocalDay(t: int, off: TzOffset): (d: DayKey)
    ensures d * DayMs <= t + off < d * DayMs + DayMs
  {
    (t + off) / DayMs
  }

  /** UTC calendar day of a timestamp: the date part of `toISOString()`. */
  function UtcDay(t: int): DayKey
  {
    t / DayMs
  }

  datatype CivilDate = CivilDate(year: int, month: int, day: int)

  /**
   * The proleptic Gregorian date of a day key, counted in 400-, 100-, 4- and 1-year cycles
   * of years that start on 1 March.
   */
  function CivilFromDays(z: DayKey): (d: CivilDate)
    ensures 1 <= d.month <= 12 && 1 <= d.day <= 31
  {
    var z1 := z + 719468;
    var era := z1 / 146097;
    var doe := z1 % 146097;
    var c := if doe / 36524 < 3 then doe / 36524 else 3;
    var r1 := doe - 36524 * c;
    var q := r1 / 1461;
    var r2 := r1 % 1461;
    var y4 := if r2 / 365 < 3 then r2 / 365 else 3;
    var doy := r2 - 365 * y4;
    var mp := (5 * doy + 2) / 153;
    var dd := doy - (153 * mp + 2) / 5 + 1;
    var m := if mp < 10 then mp + 3 else mp - 9;
    var y := 400 * era + 100 * c + 4 * q + y4;
    CivilDate(if m <= 2 then y + 1 else y, m, dd)
  }

  /**
   * "YYYY-MM-DD" of a civil date: the year in decimal (with a minus sign before year 0), then
   * the month and day padded to two digits.
   */
  function DateString(d: CivilDate): (r: string)
    requires 1 <= d.month <= 12 && 1 <= d.day <= 31
    ensures |r| >= 7 && r[|r| - 6] == '-' && r[|r| - 3] == '-'
    ensures AllDigits(r[|r| - 5..|r| - 3]) && AllDigits(r[|r| - 2..])
    ensures DigitsValue(r[|r| - 5..|r| - 3]) == d.month && DigitsValue(r[|r| - 2..]) == d.day
    ensures r[..|r| - 6] == IntToString(d.year)
    ensures d.year >= 0 ==> AllDigits(r[..|r| - 6]) && DigitsValue(r[..|r| - 6]) == d.year
    ensures 1000 <= d.year <= 9999 ==> |r| == 10
  {
    var ys, mm, dd := IntToString(d.year), Pad2(d.month), Pad2(d.day);
    Pad2Value(d.month);
    Pad2Value(d.day);
    DateFields(ys, mm, dd);
    assert 1000 <= d.year <= 9999 ==> |ys| == 4 by {
      if 1000 <= d.year <= 9999 {
        NatToStringLength(d.year);
      }
    }
    assert d.year >= 0 ==> DigitsValue(ys) == d.year by {
      if d.year >= 0 {
        DigitsValueOfNatToString(d.year);
      }
    }
    ys + "-" + mm + "-" + dd
  }

  /** Where the month and day fields of "Y-MM-DD" sit. */
  lemma DateFields(ys: string, mm: string, dd: string)
    requires |ys| >= 1 && |mm| == 2 && |dd| == 2
    ensures var r := ys + "-" + mm + "-" + dd;
            |r| == |ys| + 6 && r[|r| - 6] == '-' && r[|r| - 3] == '-'
            && r[..|r| - 6] == ys && r[|r| - 5..|r| - 3] == mm && r[|r| - 2..] == dd
  {
    var r := ys + "-" + mm + "-" + dd;
    assert r[..|r| - 6] == ys;
    assert r[|r| - 5..|r| - 3] == mm;
    assert r[|r| - 2..] == dd;
  }

  lemma {:induction false} NatToStringLength(n: nat)
    requires 1000 <= n <= 9999
    ensures |NatToString(n)| == 4
  {
    assert NatToString(n) == NatToString(n / 10) + [DigitChar(n % 10)];
    assert NatToString(n / 10) == NatToString(n / 100) + [DigitChar((n / 10) % 10)];
  }

  /** `getDateString(t)`: the local date of `t` as "YYYY-MM-DD". */
  function GetDateString(t: int, off: TzOffset): string
  {
    DateString(CivilFromDays(LocalDay(t, off)))
  }

  /** Day 0 is 1 January 1970. */
  lemma CivilEpoch()
    ensures CivilFromDays(0) == CivilDate(1970, 1, 1)
  {
    assert 719468 / 146097 == 4 && 719468 % 146097 == 135080;
    assert 135080 / 36524 == 3 && 135080 - 36524 * 3 == 25508;
    assert 25508 / 1461 == 17 && 25508 % 1461 == 671;
    assert 671 / 365 == 1 && 671 - 365 == 306;
    assert (5 * 306 + 2) / 153 == 10 && (153 * 10 + 2) / 5 == 306;
  }

  /** Day 19782 is the leap day 29 February 2024, the last day of a March-based year. */
  lemma CivilLeapDay()
    ensures CivilFromDays(19782) == CivilDate(2024, 2, 29)
  {
    assert 739250 / 146097 == 5 && 739250 % 146097 == 8765;
    assert 8765 / 36524 == 0;
    assert 8765 / 1461 == 5 && 8765 % 1461 == 1460;
    assert 1460 / 365 == 4 && 1460 - 365 * 3 == 365;
    assert (5 * 365 + 2) / 153 == 11 && (153 * 11 + 2) / 5 == 337;
  }

  /** Day -1 is 31 December 1969. */
  lemma CivilEveOfEpoch()
    ensures CivilFromDays(-1) == CivilDate(1969, 12, 31)
  {
    assert 719467 / 146097 == 4 && 719467 % 146097 == 135079;
    assert 135079 / 36524 == 3 && 135079 - 36524 * 3 == 25507;
    assert 25507 / 1461 == 17 && 25507 % 1461 == 670;
    assert 670 / 365 == 1 && 670 - 365 == 305;
    assert (5 * 305 + 2) / 153 == 9 && (153 * 9 + 2) / 5 == 275;
  }

  // ------------------------------------------------------------------ weekday

  const WeekdayNames: seq<string> := ["日", "月", "火", "水", "木", "金", "土"]

  /** `Date#getDay()` of a local day key: 0 is Sunday; 1970-01-01 was a Thursday. */
  function DayOfWeek(day: DayKey): (w: nat)
    ensures w < 7
  {
    (day + 4) % 7
  }

  /**
   * `getWeekday(dateString)`: `new Date("YYYY-MM-DD")` is UTC midnight of the named date and
   * `getDay()` reads it in local time.
   */
  function GetWeekday(day: DayKey, off: TzOffset): (r: string)
    ensures off >= 0 ==> r == WeekdayNames[DayOfWeek(day)]
    ensures off < 0 ==> r == WeekdayNames[DayOfWeek(day - 1)]
  {
    var local := LocalDay(day * DayMs, off);
    assert off >= 0 ==> local == day;
    assert off < 0 ==> local == day - 1;
    WeekdayNames[DayOfWeek(local)]
  }

  // ------------------------------------------------------------ "HH:MM" strings

  /** `isValidTimeString(s)`: `^(\d{1,2}):(\d{2})$` with hours at most 23 and minutes at most 59. */
  predicate IsValidTimeString(s: string)
  {
    (|s| == 4 || |s| == 5) && s[|s| - 3] == ':'
    && AllDigits(s[..|s| - 3]) && AllDigits(s[|s| - 2..])
    && DigitsValue(s[..|s| - 3]) <= 23 && DigitsValue(s[|s| - 2..]) <= 59
  }

  /** An independent description of the accepted strings: `H:MM` or `HH:MM` of a real time of day. */
  ghost predicate IsTimeOfDayText(s: string)
  {
    exists h: nat, m: nat :: h <= 23 && m <= 59
      && (s == Pad2(h) + ":" + Pad2(m) || (h < 10 && s == NatToString(h) + ":" + Pad2(m)))
  }

  lemma Pad2OfTwoDigits(s: string)
    requires |s| == 2 && AllDigits(s)
    ensures Pad2(DigitsValue(s)) == s
  {
    var n := DigitsValue(s);
    assert s[..|s| - 1] == [s[0]] && [s[0]][..0] == [];
    assert DigitsValue([s[0]]) == DigitValue(s[0]);
    assert n == 10 * DigitValue(s[0]) + DigitValue(s[1]);
    if n >= 10 {
      assert NatToString(n) == NatToString(n / 10) + [DigitChar(n % 10)];
    }
  }

  lemma NatToStringOfDigit(s: string)
    requires |s| == 1 && AllDigits(s)
    ensures NatToString(DigitsValue(s)) == s
  {
    assert s[..0] == [];
  }

  lemma ValidTimeStringIsTimeOfDay(s: string)
    requires IsValidTimeString(s)
    ensures IsTimeOfDayText(s)
  {
    var hs, ms := s[..|s| - 3], s[|s| - 2..];
    var h, m := DigitsValue(hs), DigitsValue(ms);
    Pad2OfTwoDigits(ms);
    assert s == hs + ":" + ms;
    if |s| == 5 {
      Pad2OfTwoDigits(hs);
      assert s == Pad2(h) + ":" + Pad2(m);
    } else {
      NatToStringOfDigit(hs);
      assert h < 10 && s == NatToString(h) + ":" + Pad2(m);
    }
  }

  lemma TimeOfDayIsValid(h: nat, m: nat, hs: string)
    requires h <= 23 && m <= 59
    requires hs == Pad2(h) || (h < 10 && hs == NatToString(h))
    ensures IsValidTimeString(hs + ":" + Pad2(m))
  {
    var s := hs + ":" + Pad2(m);
    Pad2Value(h);
    Pad2Value(m);
    DigitsValueOfNatToString(h);
    assert s[..|s| - 3] == hs && s[|s| - 2..] == Pad2(m);
  }

  /** `isValidTimeString` accepts exactly the `H:MM` / `HH:MM` times of day. */
  lemma IsValidTimeStringExactly(s: string)
    ensures IsValidTimeString(s) <==> IsTimeOfDayText(s)
  {
    if IsValidTimeString(s) {
      ValidTimeStringIsTimeOfDay(s);
    }
    if IsTimeOfDayText(s) {
      var h: nat, m: nat :| h <= 23 && m <= 59
        && (s == Pad2(h) + ":" + Pad2(m) || (h < 10 && s == NatToString(h) + ":" + Pad2(m)));
      if s == Pad2(h) + ":" + Pad2(m) {
        TimeOfDayIsValid(h, m, Pad2(h));
      } else {
        TimeOfDayIsValid(h, m, NatToString(h));
      }
    }
  }

  /** Hours and minutes of a valid string (`timeStr.split(':').map(Number)`). */
  function ParseTimeString(s: string): (hm: (nat, nat))
    requires IsValidTimeString(s)
    ensures hm.0 <= 23 && hm.1 <= 59
  {
    (DigitsValue(s[..|s| - 3]), DigitsValue(s[|s| - 2..]))
  }

  /** The form `timestampToTimeString` gives back: the hour padded to two digits. */
  function ZeroPadded(s: string): (r: string)
    requires IsValidTimeString(s)
    ensures |r| == 5 && IsValidTimeString(r)
    ensures ParseTimeString(r) == ParseTimeString(s)
  {
    if |s| == 4 then
      var r := "0" + s;
      assert r[..2] == "0" + s[..1] && r[3..] == s[2..];
      DigitsValueLeadingZero(s[..1]);
      r
    else s
  }

  /**
   * `timeStringToTimestamp(timeStr, dateString)` as written: `new Date(dateString)` is UTC
   * midnight of the date, and `setHours` then sets the local time of day on the local day
   * containing that instant.
   */
  function TimeStringToTimestampAsWritten(s: string, day: DayKey, off: TzOffset): (t: int)
    requires IsValidTimeString(s)
    ensures t == TimeStringToTimestamp(s, SourceDay(day, off), off)
    ensures LocalDay(t, off) == SourceDay(day, off)
  {
    var (h, m) := ParseTimeString(s);
    LocalDay(day * DayMs, off) * DayMs - off + h * HourMs + m * MinuteMs
  }

  /**
   * The local day holding UTC midnight of `day`, on which the as-written reading places its
   * time of day: `day` itself east of Greenwich and at UTC, the day before west of it.
   */
  function SourceDay(day: DayKey, off: TzOffset): (d: DayKey)
    ensures off >= 0 ==> d == day
    ensures off < 0 ==> d == day - 1
  {
    LocalDay(day * DayMs, off)
  }

  /** East of Greenwich and at UTC the two readings agree. */
  lemma AsWrittenAgreesEastOfUtc(s: string, day: DayKey, off: TzOffset)
    requires IsValidTimeString(s) && off >= 0
    ensures TimeStringToTimestampAsWritten(s, day, off) == TimeStringToTimestamp(s, day, off)
  {
    assert LocalDay(day * DayMs, off) == day;
  }

  /**
   * West of Greenwich the time given for a date lands one day earlier: in UTC-5, "10:00" on
   * 2024-05-10 (day key 19853) is stored as 10:00 on 2024-05-09.
   */
  lemma AsWrittenShiftsWestOfUtc(s: string, day: DayKey, off: TzOffset)
    requires IsValidTimeString(s) && off < 0
    ensures TimeStringToTimestampAsWritten(s, day, off) == TimeStringToTimestamp(s, day, off) - DayMs
    ensures LocalDay(TimeStringToTimestampAsWritten(s, day, off), off) == day - 1
  {
    assert LocalDay(day * DayMs, off) == day - 1;
    var (h, m) := ParseTimeString(s);
    var w := TimeStringToTimestampAsWritten(s, day, off);
    assert (day - 1) * DayMs <= w + off < day * DayMs;
  }

  lemma AsWrittenWesternExample()
    ensures IsValidTimeString("10:00") && LocalDay(TimeStringToTimestampAsWritten("10:00", 19853, -5 * HourMs), -5 * HourMs) == 19852
  {
    TenOClock();
    AsWrittenShiftsWestOfUtc("10:00", 19853, -5 * HourMs);
  }

  lemma TwoDigitValue(s: string)
    requires |s| == 2 && AllDigits(s)
    ensures DigitsValue(s) == 10 * DigitValue(s[0]) + DigitValue(s[1])
  {
    var a := s[..1];
    assert a == [s[0]] && a[..0] == [];
    assert DigitsValue(a) == DigitValue(s[0]);
    assert s[..|s| - 1] == a;
  }

  /** A time string of the form "DD:DD" with its two number fields split off. */
  lemma FiveCharTime(s: string)
    requires |s| == 5 && s[2] == ':' && AllDigits(s[..2]) && AllDigits(s[3..])
    ensures s[..|s| - 3] == s[..2] && s[|s| - 2..] == s[3..]
  {
  }

  /** "09:00" is a valid time string for nine o'clock. */
  lemma NineOClock()
    ensures IsValidTimeString("09:00") && ParseTimeString("09:00") == (9, 0)
  {
    var s := "09:00";
    assert s[..2] == "09" && s[3..] == "00";
    TwoDigitValue("09");
    TwoDigitValue("00");
    FiveCharTime(s);
  }

  /** "10:00" is a valid time string for ten o'clock. */
  lemma TenOClock()
    ensures IsValidTimeString("10:00") && ParseTimeString("10:00") == (10, 0)
  {
    var s := "10:00";
    assert s[..2] == "10" && s[3..] == "00";
    TwoDigitValue("10");
    TwoDigitValue("00");
    FiveCharTime(s);
  }

  /** The time of day `s` on the local date `day` (the reading the callers intend). */
  function TimeStringToTimestamp(s: string, day: DayKey, off: TzOffset): (t: int)
    requires IsValidTimeString(s)
    ensures LocalDay(t, off) == day
    ensures (t + off) % DayMs == ParseTimeString(s).0 * HourMs + ParseTimeString(s).1 * MinuteMs
  {
    var (h, m) := ParseTimeString(s);
    var t := day * DayMs - off + h * HourMs + m * MinuteMs;
    assert t + off == day * DayMs + (h * HourMs + m * MinuteMs);
    assert 0 <= h * HourMs + m * MinuteMs < DayMs;
    t
  }

  /** `timestampToTimeString(t)`: the local "HH:MM" of `t`. */
  function TimestampToTimeString(t: int, off: TzOffset): (r: string)
    ensures |r| == 5 && IsValidTimeString(r)
    ensures ParseTimeString(r) == (((t + off) % DayMs) / HourMs, (((t + off) % DayMs) % HourMs) / MinuteMs)
  {
    var ms := (t + off) % DayMs;
    var h, m := ms / HourMs, (ms % HourMs) / MinuteMs;
    Pad2Value(h);
    Pad2Value(m);
    ClockText(Pad2(h), Pad2(m));
    Pad2(h) + ":" + Pad2(m)
  }

  /** "HH:MM" built from two two-digit fields is a valid time string of their values. */
  lemma ClockText(hh: string, mm: string)
    requires |hh| == 2 && |mm| == 2 && AllDigits(hh) && AllDigits(mm)
    requires DigitsValue(hh) <= 23 && DigitsValue(mm) <= 59
    ensures IsValidTimeString(hh + ":" + mm) && ParseTimeString(hh + ":" + mm) == (DigitsValue(hh), DigitsValue(mm))
  {
    var r := hh + ":" + mm;
    assert r[..2] == hh && r[3..] == mm;
  }

  /** A five-character time string is its two fields around the colon. */
  lemma ClockJoin(z: string)
    requires |z| == 5 && z[2] == ':'
    ensures z == z[..2] + ":" + z[3..]
  {
  }

  /** Writing a time into a date and reading it back gives the zero-padded string. */
  lemma TimeStringRoundTrip(s: string, day: DayKey, off: TzOffset)
    requires IsValidTimeString(s)
    ensures TimestampToTimeString(TimeStringToTimestamp(s, day, off), off) == ZeroPadded(s)
  {
    var (h, m) := ParseTimeString(s);
    var t := TimeStringToTimestamp(s, day, off);
    var ms := (t + off) % DayMs;
    assert ms == h * HourMs + m * MinuteMs;
    assert ms / HourMs == h;
    assert (ms % HourMs) / MinuteMs == m;
    var z := ZeroPadded(s);
    Pad2OfTwoDigits(z[..2]);
    Pad2OfTwoDigits(z[3..]);
    ClockJoin(z);
  }

  /** Euclidean division is determined by a quotient and a remainder in range. */
  lemma DivModUnique(x: int, q: int, r: int, m: int)
    requires m > 0 && 0 <= r < m && x == q * m + r
    ensures x / m == q && x % m == r
  {
    var q0, r0 := x / m, x % m;
    assert x == q0 * m + r0;
    if q0 > q {
      MulGap(q0, q, m);
    } else if q0 < q {
      MulGap(q, q0, m);
    }
  }

  lemma MulGap(a: int, b: int, m: int)
    requires a > b && m > 0
    ensures a * m >= b * m + m
  {
    var d := a - b;
    assert a * m == b * m + d * m;
    MulAtLeast(d, m);
  }

  lemma {:induction false} MulAtLeast(d: int, m: int)
    requires d >= 1 && m > 0
    ensures d * m >= m
    decreases d
  {
    if d > 1 {
      MulAtLeast(d - 1, m);
      assert d * m == (d - 1) * m + m;
    }
  }

  /** The local time of day of a minute-aligned instant is its whole hours and minutes. */
  lemma DayClock(x: int)
    requires x % MinuteMs == 0
    ensures var ms := x % DayMs;
            ms == (ms / HourMs) * HourMs + ((ms % HourMs) / MinuteMs) * MinuteMs
  {
    var k := x / MinuteMs;
    assert x == k * MinuteMs;
    var d, j := k / 1440, k % 1440;
    assert k == 1440 * d + j;
    assert x == d * DayMs + j * MinuteMs;
    DivModUnique(x, d, j * MinuteMs, DayMs);
    var ms := x % DayMs;
    var hh, mm := j / 60, j % 60;
    assert ms == hh * HourMs + mm * MinuteMs;
    DivModUnique(ms, hh, mm * MinuteMs, HourMs);
    DivModUnique(mm * MinuteMs, mm, 0, MinuteMs);
  }

  /** Reading a minute-aligned timestamp as date plus time of day and combining them gives it back. */
  lemma TimestampRoundTrip(t: int, off: TzOffset)
    requires (t + off) % MinuteMs == 0
    ensures TimeStringToTimestamp(TimestampToTimeString(t, off), LocalDay(t, off), off) == t
  {
    DayClock(t + off);
  }

  // ----------------------------------------------------------- session sums

  /** One session's share of `recalculateAccumulatedTime`: closed sessions only, floored seconds. */
  function ClosedSeconds(s: Session): (r: int)
    ensures !Truthy(s.end) ==> r == 0
    ensures Truthy(s.end) ==> r * 1000 <= s.end.value - s.start < r * 1000 + 1000
  {
    if Truthy(s.end) then (s.end.value - s.start) / 1000 else 0
  }

  /** Sum over the sessions with a truthy end of `floor((end - start) / 1000)`. */
  function SumClosed(ws: seq<Session>): int
  {
    SumOf(ws, ClosedSeconds)
  }

  /** `recalculateAccumulatedTime(workSessions)`: the `forEach` accumulation of `total`. */
  method RecalculateAccumulatedTime(ws: seq<Session>) returns (total: int)
    ensures total == SumClosed(ws)
  {
    total := 0;
    var i := 0;
    while i < |ws|
      invariant 0 <= i <= |ws|
      invariant total == SumClosed(ws[..i])
    {
      var session := ws[i];
      if Truthy(session.end) {
        total := total + (session.end.value - session.start) / 1000;
      }
      assert ws[..i + 1] == ws[..i] + [session];
      SumOfConcat(ws[..i], [session], ClosedSeconds);
      i := i + 1;
    }
    assert ws[..i] == ws;
  }

  /** The total does not depend on the order of the list. */
  lemma SumClosedOrderIndependent(a: seq<Session>, b: seq<Session>)
    requires multiset(a) == multiset(b)
    ensures SumClosed(a) == SumClosed(b)
  {
    SumOfPermutation(a, b, ClosedSeconds);
  }

  /** Appending one session adds its share. */
  lemma SumClosedAppend(ws: seq<Session>, s: Session)
    ensures SumClosed(ws + [s]) == SumClosed(ws) + ClosedSeconds(s)
  {
    SumOfConcat(ws, [s], ClosedSeconds);
  }

  predicate IsClosed(s: Session)
  {
    Truthy(s.end)
  }

  /** Open sessions contribute nothing: the sum over the closed ones alone is the same. */
  lemma SumClosedIgnoresOpen(ws: seq<Session>)
    ensures SumClosed(ws) == SumClosed(Filter(ws, IsClosed))
  {
    SumOfSplit(ws, ClosedSeconds, IsClosed);
    SumOfZero(Filter(ws, Not(IsClosed)));
  }

  lemma {:induction false} SumOfZero(ws: seq<Session>)
    requires forall i :: 0 <= i < |ws| ==> !Truthy(ws[i].end)
    ensures SumClosed(ws) == 0
  {
    if |ws| > 0 {
      SumOfZero(ws[1..]);
    }
  }

  // ------------------------------------------------------------ elapsed time

  /**
   * `calculateElapsedTime(task)`: `accumulatedTime || 0`, plus the floored seconds since
   * `startedAt` while the task is 作業中 with a truthy `startedAt`.
   */
  function CalculateElapsedTime(t: Task, now: int): (r: int)
    ensures !(t.status == Working && Truthy(t.startedAt)) ==> r == t.accumulatedTime
    ensures t.status == Working && Truthy(t.startedAt) && now >= t.startedAt.value ==> r >= t.accumulatedTime
  {
    if Truthy(t.startedAt) && t.status == Working
    then t.accumulatedTime + (now - t.startedAt.value) / 1000
    else t.accumulatedTime
  }
}
