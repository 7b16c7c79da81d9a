/**
 * The board's clock formatters: two-digit padding, the 12-hour time label,
 * the `MM-DD-YYYY` date label and the weekday name. Each works on the local
 * calendar fields a JavaScript `Date` reports, and each has a parser that
 * reads its output back.
 */
module TimeFormat {
  import opened Options
  import opened Text
  import opened Numerals

  /**
   * The local calendar fields the formatters read from a `Date`: the full
   * year, the month index 0..11, the day-of-week index 0..6 (0 is Sunday),
   * the hour 0..23 and the minute 0..59.
   */
  datatype Moment = Moment(year: int, month: int, dayOfWeek: int, hours: int, minutes: int) {
    predicate Valid() {
      0 <= month < 12 && 0 <= dayOfWeek < 7 && 0 <= hours < 24 && 0 <= minutes < 60
    }
  }

  /** A moment whose fields lie in the ranges a `Date` reports. */
  type LocalMoment = m: Moment | m.Valid() witness Moment(1970, 0, 4, 0, 0)

  // ---------------------------------------------------------------- padding

  /** `leftPadTwoDigitNumber`: a `0` in front of any number below 10. */
  function LeftPad(n: int): (r: string)
    ensures 0 <= n < 100 ==> |r| == 2 && ParseTwoDigits(r) == Some(n)
  {
    if n < 10 then "0" + IntToString(n)
    else
      assert n < 100 ==> NatToString(n) == NatToString(n / 10) + [DigitChar(n % 10)] && NatToString(n / 10) == [DigitChar(n / 10)];
      IntToString(n)
  }

  /** Reads back a two-digit numeral such as `LeftPad` writes for 0..99. */
  function ParseTwoDigits(s: string): Option<int> {
    if |s| == 2 && IsDigit(s[0]) && IsDigit(s[1]) then Some(10 * DigitValue(s[0]) + DigitValue(s[1]))
    else None
  }

  lemma LeftPadTwoDigits(n: int)
    requires 0 <= n < 100
    ensures LeftPad(n) == [DigitChar(n / 10), DigitChar(n % 10)]
    ensures n < 10 ==> LeftPad(n) == ['0', DigitChar(n)]
    ensures 10 <= n ==> LeftPad(n) == IntToString(n)
  {
    if n >= 10 {
      assert NatToString(n) == NatToString(n / 10) + [DigitChar(n % 10)];
      assert NatToString(n / 10) == [DigitChar(n / 10)];
    }
  }

  // ------------------------------------------------------------------- time

  /** The hour shown on a 12-hour clock: `hours % 12`, with 0 shown as 12. */
  function ClockHour(hours: int): (h: int)
    requires 0 <= hours < 24
    ensures 1 <= h <= 12
    ensures h % 12 == hours % 12
  {
    if hours % 12 != 0 then hours % 12 else 12
  }

  /** `getFormattedTime`: `H:MM AM` or `H:MM PM`. */
  function FormatTime(m: LocalMoment): string {
    IntToString(ClockHour(m.hours)) + ":" + LeftPad(m.minutes) + " " + (if m.hours < 12 then "AM" else "PM")
  }

  /** Reads an `H:MM AM|PM` label back into 24-hour hours and minutes. */
  function ParseTime(s: string): Option<(int, int)> {
    var k := if 2 <= |s| && s[1] == ':' then 1 else 2;
    if |s| == k + 6 && s[k] == ':' && s[k + 3] == ' ' && IsDigits(s[..k])
      && (s[k + 4..] == "AM" || s[k + 4..] == "PM")
    then
      var h12 := ParseNat(s[..k]);
      match ParseTwoDigits(s[k + 1..k + 3])
      case Some(mm) =>
        if 1 <= h12 <= 12 && mm < 60
        then Some((h12 % 12 + (if s[k + 4..] == "PM" then 12 else 0), mm))
        else None
      case None => None
    else None
  }

  /** Where the pieces of `hour:mm suffix` sit, whatever they hold. */
  lemma TimeLayout(h: string, p: string, suffix: string)
    requires |p| == 2 && |suffix| == 2
    ensures var s := h + ":" + p + " " + suffix;
      |s| == |h| + 6 && s[..|h|] == h && s[|h|] == ':' && s[|h| + 1..|h| + 3] == p
      && s[|h| + 3] == ' ' && s[|h| + 4..] == suffix
  {
  }

  /** The time label determines the hour and minute it was made from. */
  lemma ParseFormatTime(m: LocalMoment)
    ensures ParseTime(FormatTime(m)) == Some((m.hours, m.minutes))
  {
    var hourText := IntToString(ClockHour(m.hours));
    var suffix := if m.hours < 12 then "AM" else "PM";
    var s := FormatTime(m);
    assert hourText == NatToString(ClockHour(m.hours));
    ParseNatToString(ClockHour(m.hours));
    LeftPadTwoDigits(m.minutes);
    TimeLayout(hourText, LeftPad(m.minutes), suffix);
    if |hourText| == 2 {
      assert s[1] == hourText[1];
    }
  }

  /** The suffix is `AM` exactly before noon and `PM` from noon on. */
  lemma FormatTimeSuffix(m: LocalMoment)
    ensures var s := FormatTime(m); |s| >= 6 && (s[|s| - 2..] == "AM" <==> m.hours < 12)
    ensures var s := FormatTime(m); |s| >= 6 && (s[|s| - 2..] == "PM" <==> m.hours >= 12)
  {
    var s := FormatTime(m);
    var suffix := if m.hours < 12 then "AM" else "PM";
    assert s == IntToString(ClockHour(m.hours)) + ":" + LeftPad(m.minutes) + " " + suffix;
    assert s[|s| - 2..] == suffix;
  }

  /** A time label holds only digits, `:`, a space and the capitals of `AM`/`PM`. */
  lemma FormatTimeCharacters(m: LocalMoment)
    ensures var s := FormatTime(m);
      forall k :: 0 <= k < |s| ==> IsDigit(s[k]) || s[k] in ": APM"
    ensures var s := FormatTime(m); '<' !in s && '\'' !in s && NoLower(s)
  {
    var h := IntToString(ClockHour(m.hours));
    assert forall k :: 0 <= k < |h| ==> IsDigit(h[k]);
    LeftPadTwoDigits(m.minutes);
    var p := LeftPad(m.minutes);
    var s := FormatTime(m);
    assert s == h + ":" + p + " " + (if m.hours < 12 then "AM" else "PM");
  }

  /** Two moments with different hour or minute never share a time label. */
  lemma FormatTimeInjective(a: LocalMoment, b: LocalMoment)
    requires FormatTime(a) == FormatTime(b)
    ensures a.hours == b.hours && a.minutes == b.minutes
  {
    ParseFormatTime(a);
    ParseFormatTime(b);
  }

  /** Midnight and noon both show hour 12, told apart only by the suffix. */
  lemma FormatTimeMidnightNoon(year: int, month: int, day: int)
    requires 0 <= month < 12 && 0 <= day < 7
    ensures FormatTime(Moment(year, month, day, 0, 0)) == "12:00 AM"
    ensures FormatTime(Moment(year, month, day, 12, 0)) == "12:00 PM"
  {
    LeftPadTwoDigits(0);
    LeftPadTwoDigits(12);
  }

  /** Afternoon hours count from 1 again; minutes keep two digits. */
  lemma FormatTimeAfternoon(year: int, month: int, day: int)
    requires 0 <= month < 12 && 0 <= day < 7
    ensures FormatTime(Moment(year, month, day, 13, 5)) == "1:05 PM"
    ensures FormatTime(Moment(year, month, day, 23, 59)) == "11:59 PM"
  {
    LeftPadTwoDigits(5);
    LeftPadTwoDigits(11);
    LeftPadTwoDigits(59);
  }

  // ------------------------------------------------------------------- date

  /**
   * `getFormattedDate`: the padded month number, `-`, the padded
   * DAY-OF-WEEK index (not the day of the month), `-`, then the year.
   */
  function FormatDate(m: LocalMoment): string {
    LeftPad(m.month + 1) + "-" + LeftPad(m.dayOfWeek) + "-" + IntToString(m.year)
  }

  /** Reads a date label back into month index, second field and year. */
  function ParseDate(s: string): Option<(int, int, int)> {
    if |s| >= 7 && s[2] == '-' && s[5] == '-' then
      match (ParseTwoDigits(s[..2]), ParseTwoDigits(s[3..5]), ParseInt(s[6..]))
      case (Some(mm), Some(dd), Some(y)) => Some((mm - 1, dd, y))
      case _ => None
    else None
  }

  /**
   * The date label determines month, year and the day-of-week index: its
   * middle field is the weekday 00..06, never the day of the month.
   */
  lemma ParseFormatDate(m: LocalMoment)
    ensures ParseDate(FormatDate(m)) == Some((m.month, m.dayOfWeek, m.year))
  {
    ParseIntToString(m.year);
    DateLayout(LeftPad(m.month + 1), LeftPad(m.dayOfWeek), IntToString(m.year));
  }

  /** Where the pieces of `mm-dd-year` sit, whatever they hold. */
  lemma DateLayout(a: string, b: string, y: string)
    requires |a| == 2 && |b| == 2
    ensures var s := a + "-" + b + "-" + y;
      |s| == |y| + 6 && s[..2] == a && s[2] == '-' && s[3..5] == b && s[5] == '-' && s[6..] == y
  {
  }

  /** Two `-` separators, and a third only as the sign of a negative year. */
  lemma FormatDateDashes(m: LocalMoment)
    ensures Occurrences(FormatDate(m), '-') == if m.year < 0 then 3 else 2
  {
    var a := LeftPad(m.month + 1);
    var b := LeftPad(m.dayOfWeek);
    var y := IntToString(m.year);
    LeftPadTwoDigits(m.month + 1);
    LeftPadTwoDigits(m.dayOfWeek);
    assert Occurrences(a, '-') == 0 by { assert a[0] != '-' && a[1] != '-'; OccurrencesNone(a, '-'); }
    assert Occurrences(b, '-') == 0 by { assert b[0] != '-' && b[1] != '-'; OccurrencesNone(b, '-'); }
    IntToStringCharacters(m.year);
    OccurrencesAppend(a, "-", '-');
    OccurrencesAppend(a + "-", b, '-');
    OccurrencesAppend(a + "-" + b, "-", '-');
    OccurrencesAppend(a + "-" + b + "-", y, '-');
  }

  // -------------------------------------------------------------------- day

  const DayNames: seq<string> := ["Sunday", "Monday", "Tuesday", "Wednesday", "Thursday", "Friday", "Saturday"]

  /** `getFormattedDay`: the English name of a day-of-week index, which names no other index. */
  function DayName(dayOfWeek: int): (r: string)
    requires 0 <= dayOfWeek < 7
    ensures DayIndex(r) == Some(dayOfWeek)
  {
    DayNames[dayOfWeek]
  }

  /** The day-of-week index a name stands for. */
  function DayIndex(name: string): Option<int> {
    if name == "Sunday" then Some(0)
    else if name == "Monday" then Some(1)
    else if name == "Tuesday" then Some(2)
    else if name == "Wednesday" then Some(3)
    else if name == "Thursday" then Some(4)
    else if name == "Friday" then Some(5)
    else if name == "Saturday" then Some(6)
    else None
  }

  /** Every name `DayIndex` accepts is the name `DayName` gives its index. */
  lemma DayIndexRoundTrip(name: string)
    requires DayIndex(name).Some?
    ensures 0 <= DayIndex(name).value < 7 && DayName(DayIndex(name).value) == name
  {
  }
}
