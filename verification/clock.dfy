/** Times of day as the source reads them with `moment(text, 'hh:mm A')`:
    a 12-hour clock reading anchored to today, or moment's invalid date. */
module Clock {
  import Text

  const MinuteMs: int := 60_000
  const DayMinutes: int := 1440
  const DayMs: int := 86_400_000

  /** The separator between the two ends of a time-range text. */
  const RangeSeparator: string := " - "

  /** A whole minute of the day, counted from local midnight. */
  type MinuteOfDay = m: int | 0 <= m < DayMinutes

  /** A moment of today, in whole minutes since local midnight, or an invalid
      date. Every comparison against an invalid moment is false. */
  datatype Moment = Valid(minute: MinuteOfDay) | Invalid {
    /** Milliseconds since local midnight. */
    function Millis(): int
      requires Valid?
    {
      minute * 60_000
    }
  }

  /** A parsed `"hh:mm A - hh:mm A"` range. */
  datatype TimeRange = TimeRange(start: Moment, end: Moment)

  predicate IsDigit(c: char)
  {
    '0' <= c <= '9'
  }

  function DigitValue(c: char): (d: int)
    requires IsDigit(c)
    ensures 0 <= d <= 9
  {
    c as int - '0' as int
  }

  function DigitChar(d: int): (c: char)
    requires 0 <= d <= 9
    ensures IsDigit(c) && DigitValue(c) == d
  {
    ('0' as int + d) as char
  }

  /** The 24-hour hour a 12-hour reading denotes: 12 AM is hour 0 and
      12 PM is hour 12. */
  function To24Hour(hour12: int, pm: bool): (h: int)
    requires 1 <= hour12 <= 12
    ensures 0 <= h < 24
    ensures pm <==> h >= 12
    ensures h % 12 == hour12 % 12
  {
    if hour12 == 12 then (if pm then 12 else 0)
    else if pm then hour12 + 12
    else hour12
  }

  /** The 12-hour reading of a 24-hour hour; the inverse of `To24Hour`. */
  function To12Hour(h: int): (r: (int, bool))
    requires 0 <= h < 24
    ensures 1 <= r.0 <= 12
    ensures To24Hour(r.0, r.1) == h
  {
    (if h % 12 == 0 then 12 else h % 12, h >= 12)
  }

  /** No two 12-hour readings denote the same hour. */
  lemma To24HourInjective(a: int, p: bool, b: int, q: bool)
    requires 1 <= a <= 12 && 1 <= b <= 12
    requires To24Hour(a, p) == To24Hour(b, q)
    ensures a == b && p == q
  {
  }

  /** Reads `"hh:mm AM"` or `"h:mm PM"`: the hour 1..12, the minutes 00..59
      and an upper-case meridiem. Anything else is an invalid moment. */
  function ParseClock(s: string): (m: Moment)
    ensures m.Valid? ==> 0 <= m.minute < DayMinutes
    ensures m.Valid? ==> (|s| == 7 || |s| == 8) && s[|s| - 1] == 'M'
    ensures m.Valid? ==> (m.minute >= 12 * 60 <==> s[|s| - 2] == 'P')
  {
    if |s| == 8 && IsDigit(s[0]) && IsDigit(s[1]) then
      ParseAfterHour(10 * DigitValue(s[0]) + DigitValue(s[1]), s[2..])
    else if |s| == 7 && IsDigit(s[0]) then
      ParseAfterHour(DigitValue(s[0]), s[1..])
    else
      Invalid
  }

  /** Reads the `":mm A"` tail once the hour digits are known. */
  function ParseAfterHour(hour12: int, rest: string): (m: Moment)
    ensures m.Valid? ==> 0 <= m.minute < DayMinutes
    ensures m.Valid? ==> |rest| == 6 && rest[5] == 'M'
    ensures m.Valid? ==> (m.minute >= 12 * 60 <==> rest[4] == 'P')
  {
    if && |rest| == 6 && rest[0] == ':' && IsDigit(rest[1]) && IsDigit(rest[2])
       && rest[3] == ' ' && (rest[4] == 'A' || rest[4] == 'P') && rest[5] == 'M'
    then
      var minute := 10 * DigitValue(rest[1]) + DigitValue(rest[2]);
      if 1 <= hour12 <= 12 && minute < 60 then
        Valid(To24Hour(hour12, rest[4] == 'P') * 60 + minute)
      else
        Invalid
    else
      Invalid
  }

  /** Writes a minute of the day as `"hh:mm AM"`. */
  function FormatClock(minute: int): (s: string)
    requires 0 <= minute < DayMinutes
    ensures |s| == 8
    ensures forall i :: 0 <= i < |s| ==> s[i] != '-'
  {
    var (h12, pm) := To12Hour(minute / 60);
    var mm := minute % 60;
    [DigitChar(h12 / 10), DigitChar(h12 % 10), ':', DigitChar(mm / 10), DigitChar(mm % 10),
     ' ', if pm then 'P' else 'A', 'M']
  }

  /** Reading back a written time gives the same minute. */
  lemma ParseFormat(minute: int)
    requires 0 <= minute < DayMinutes
    ensures ParseClock(FormatClock(minute)) == Valid(minute)
  {
    var s := FormatClock(minute);
    var (h12, pm) := To12Hour(minute / 60);
    assert 10 * DigitValue(s[0]) + DigitValue(s[1]) == h12;
    assert 10 * DigitValue(s[3]) + DigitValue(s[4]) == minute % 60;
  }

  /** Every two-digit text that reads as a valid time is the written form of
      that time, so `FormatClock` and `ParseClock` are inverse on it. */
  lemma FormatParse(s: string)
    requires |s| == 8 && ParseClock(s).Valid?
    ensures FormatClock(ParseClock(s).minute) == s
  {
    var h12 := 10 * DigitValue(s[0]) + DigitValue(s[1]);
    var pm := s[6] == 'P';
    var mm := 10 * DigitValue(s[3]) + DigitValue(s[4]);
    var minute := ParseClock(s).minute;
    assert minute == To24Hour(h12, pm) * 60 + mm;
    assert minute / 60 == To24Hour(h12, pm) && minute % 60 == mm;
    var r := To12Hour(minute / 60);
    To24HourInjective(r.0, r.1, h12, pm);
    DigitsRoundTrip(s[0], s[1]);
    DigitsRoundTrip(s[3], s[4]);
    var f := FormatClock(minute);
    assert f[6] == s[6];
    assert f == s;
  }

  /** The one-digit form reads as the two-digit form with a leading zero:
      `"9:00 AM"` is the same time as `"09:00 AM"`. */
  lemma OneDigitHour(s: string)
    requires |s| == 7 && '1' <= s[0] <= '9'
    ensures ParseClock(s) == ParseClock(['0'] + s)
  {
    var t := ['0'] + s;
    assert t[0] == '0' && t[1] == s[0] && t[2..] == s[1..];
  }

  /** A written time whose hour has a leading zero reads back the same
      without it, so the one-digit form also round-trips. */
  lemma ParseFormatOneDigit(minute: int)
    requires 0 <= minute < DayMinutes
    requires FormatClock(minute)[0] == '0'
    ensures ParseClock(FormatClock(minute)[1..]) == Valid(minute)
  {
    var s := FormatClock(minute);
    var short := s[1..];
    var (h12, pm) := To12Hour(minute / 60);
    assert 1 <= h12 <= 9;
    assert s[1] == DigitChar(h12);
    OneDigitHour(short);
    assert ['0'] + short == s;
    ParseFormat(minute);
  }

  lemma DigitsRoundTrip(a: char, b: char)
    requires IsDigit(a) && IsDigit(b)
    ensures var n := 10 * DigitValue(a) + DigitValue(b);
      DigitChar(n / 10) == a && DigitChar(n % 10) == b
  {
  }

  /** Reads a `"start - end"` text the way the source does: split on the
      separator, read the first piece as the start and the second, when
      there is one, as the end; further pieces are ignored. */
  function ParseRange(text: string): (r: TimeRange)
    ensures !Text.Contains(text, RangeSeparator) ==> r == TimeRange(ParseClock(text), Invalid)
    ensures r.end.Valid? ==> Text.Contains(text, RangeSeparator)
  {
    var parts := Text.Split(text, RangeSeparator);
    TimeRange(ParseClock(parts[0]), if |parts| > 1 then ParseClock(parts[1]) else Invalid)
  }

  /** A text with no hyphen cannot contain the separator. */
  lemma NoHyphenNoSeparator(s: string)
    requires forall i :: 0 <= i < |s| ==> s[i] != '-'
    ensures !Text.Contains(s, RangeSeparator)
  {
    forall j | 0 <= j <= |s| - |RangeSeparator|
      ensures !Text.OccursAt(s, RangeSeparator, j)
    {
      assert s[j..j + 3][1] == s[j + 1] != RangeSeparator[1];
    }
  }

  /** Reading a written range gives back both ends. */
  lemma {:induction false} ParseFormattedRange(start: int, end: int)
    requires 0 <= start < DayMinutes && 0 <= end < DayMinutes
    ensures ParseRange(FormatClock(start) + RangeSeparator + FormatClock(end))
         == TimeRange(Valid(start), Valid(end))
  {
    var a, b := FormatClock(start), FormatClock(end);
    var text := a + RangeSeparator + b;
    forall j | 0 <= j < |a|
      ensures !Text.OccursAt(text, RangeSeparator, j)
    {
      if j + 3 <= |text| {
        assert text[j..j + 3][1] == text[j + 1];
        assert text[j + 1] == if j + 1 < |a| then a[j + 1] else ' ';
      }
    }
    Text.SplitAround(a, RangeSeparator, b);
    NoHyphenNoSeparator(b);
    Text.SplitWithoutSeparator(b, RangeSeparator);
    ParseFormat(start);
    ParseFormat(end);
  }
}
