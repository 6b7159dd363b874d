/**
 * `DateTime` to the second (sub-second ticks are not modelled), written with the format
 * "yyyy-MM-dd HH:mm" the exports use, and read back by `DateTime.TryParse` in that layout.
 */
module DateTimes {
  import opened Wrappers
  import opened Strings
  import opened Numerals

  datatype DateTimeParts = DateTimeParts(year: int, month: int, day: int, hour: int, minute: int, second: int)

  predicate IsLeapYear(y: int) {
    y % 4 == 0 && (y % 100 != 0 || y % 400 == 0)
  }

  function DaysInMonth(y: int, m: int): int {
    if m == 2 then (if IsLeapYear(y) then 29 else 28)
    else if m == 4 || m == 6 || m == 9 || m == 11 then 30
    else 31
  }

  /** A moment of the proleptic Gregorian calendar between years 1 and 9999. */
  predicate IsValid(d: DateTimeParts) {
    && 1 <= d.year <= 9999
    && 1 <= d.month <= 12
    && 1 <= d.day <= DaysInMonth(d.year, d.month)
    && 0 <= d.hour < 24
    && 0 <= d.minute < 60
    && 0 <= d.second < 60
  }

  type DateTime = d: DateTimeParts | IsValid(d) witness DateTimeParts(1, 1, 1, 0, 0, 0)

  /** The moment with its seconds dropped: all that "yyyy-MM-dd HH:mm" keeps. */
  function TruncateToMinute(d: DateTime): (t: DateTime)
    ensures t.second == 0
  {
    d.(second := 0)
  }

  /** `n` written with exactly `width` digits. */
  function Digits(n: nat, width: nat): (s: string)
    requires 1 <= width && n < Pow10(width)
    ensures |s| == width && AllDigits(s) && DigitsValue(s) == n
  {
    PadLeftWidth(n, width);
    PadLeftValue(NatToDigits(n), width);
    PadLeft(NatToDigits(n), width)
  }

  function DatePart(d: DateTime): string {
    Join([Digits(d.year, 4), Digits(d.month, 2), Digits(d.day, 2)], '-')
  }

  function TimePart(d: DateTime): string {
    Join([Digits(d.hour, 2), Digits(d.minute, 2)], ':')
  }

  /** `d.ToString("yyyy-MM-dd HH:mm")` */
  function Format(d: DateTime): (s: string)
    ensures |s| == 16 && IsDigit(s[0]) && IsDigit(s[15])
    ensures forall k :: 0 <= k < |s| ==> IsDigit(s[k]) || s[k] in "- :"
  {
    var s := Join([DatePart(d), TimePart(d)], ' ');
    Join3(Digits(d.year, 4), Digits(d.month, 2), Digits(d.day, 2), '-');
    Join2(Digits(d.hour, 2), Digits(d.minute, 2), ':');
    Join2(DatePart(d), TimePart(d), ' ');
    assert s == Digits(d.year, 4) + "-" + Digits(d.month, 2) + "-" + Digits(d.day, 2) + " "
              + Digits(d.hour, 2) + ":" + Digits(d.minute, 2);
    s
  }

  /** The text of a moment, assembled from its written fields. */
  lemma FormatOfFields(d: DateTime, y: string, mo: string, da: string, h: string, mi: string)
    requires Digits(d.year, 4) == y && Digits(d.month, 2) == mo && Digits(d.day, 2) == da
    requires Digits(d.hour, 2) == h && Digits(d.minute, 2) == mi
    ensures Format(d) == y + "-" + mo + "-" + da + " " + h + ":" + mi
  {
    Join3(y, mo, da, '-');
    Join2(h, mi, ':');
    Join2(DatePart(d), TimePart(d), ' ');
  }

  /** `DateTime.TryParse(s, out v) ? Some(v) : None`, for the "yyyy-MM-dd HH:mm" layout. */
  function Parse(s: string): Option<DateTime> {
    var halves := Split(Trim(s), ' ');
    if |halves| != 2 then None
    else
      var date := Split(halves[0], '-');
      var time := Split(halves[1], ':');
      if |date| != 3 || |time| != 2 then None
      else if !(|date[0]| == 4 && |date[1]| == 2 && |date[2]| == 2 && |time[0]| == 2 && |time[1]| == 2) then None
      else if !(AllDigits(date[0]) && AllDigits(date[1]) && AllDigits(date[2]) && AllDigits(time[0]) && AllDigits(time[1])) then None
      else
        var d := DateTimeParts(DigitsValue(date[0]), DigitsValue(date[1]), DigitsValue(date[2]),
                               DigitsValue(time[0]), DigitsValue(time[1]), 0);
        if IsValid(d) then Some(d) else None
  }

  /** The text written for a moment reads back as that moment truncated to the minute. */
  lemma ParseFormat(d: DateTime)
    ensures Parse(Format(d)) == Some(TruncateToMinute(d))
  {
    var s := Format(d);
    assert !IsWhiteSpace(s[0]) && !IsWhiteSpace(s[|s| - 1]);
    TrimUntouched(s);
    FormatHalves(d);
    DateFields(d);
    TimeFields(d);
  }

  /** The date and the time are the two halves around the space. */
  lemma FormatHalves(d: DateTime)
    ensures Split(Format(d), ' ') == [DatePart(d), TimePart(d)]
  {
    var y, mo, da := Digits(d.year, 4), Digits(d.month, 2), Digits(d.day, 2);
    var h, mi := Digits(d.hour, 2), Digits(d.minute, 2);
    NoSeparatorInDigits(y);
    NoSeparatorInDigits(mo);
    NoSeparatorInDigits(da);
    NoSeparatorInDigits(h);
    NoSeparatorInDigits(mi);
    JoinKeepsOut([y, mo, da], '-', ' ');
    JoinKeepsOut([h, mi], ':', ' ');
    SplitJoin([DatePart(d), TimePart(d)], ' ');
  }

  lemma DateFields(d: DateTime)
    ensures Split(DatePart(d), '-') == [Digits(d.year, 4), Digits(d.month, 2), Digits(d.day, 2)]
  {
    NoSeparatorInDigits(Digits(d.year, 4));
    NoSeparatorInDigits(Digits(d.month, 2));
    NoSeparatorInDigits(Digits(d.day, 2));
    SplitJoin([Digits(d.year, 4), Digits(d.month, 2), Digits(d.day, 2)], '-');
  }

  lemma TimeFields(d: DateTime)
    ensures Split(TimePart(d), ':') == [Digits(d.hour, 2), Digits(d.minute, 2)]
  {
    NoSeparatorInDigits(Digits(d.hour, 2));
    NoSeparatorInDigits(Digits(d.minute, 2));
    SplitJoin([Digits(d.hour, 2), Digits(d.minute, 2)], ':');
  }

  lemma NoSeparatorInDigits(s: string)
    requires AllDigits(s)
    ensures '-' !in s && ':' !in s && ' ' !in s
  {
    assert forall j :: 0 <= j < |s| ==> IsDigit(s[j]);
  }
}
