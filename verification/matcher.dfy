/** The meeting matcher: reads the calendar entries shown in day view and
    picks the one whose window, opened five minutes early, contains now. */
module Matcher {
  import opened Wrappers
  import opened Clock
  import Text

  /** How early before its start a meeting is already joinable. */
  const GraceMs: int := 5 * MinuteMs

  /** One rendered calendar entry: its link, its title and its time range. */
  datatype CalendarEvent = CalendarEvent(href: string, title: string, times: TimeRange)

  /** What the matcher leads to: nothing to join right now, or a join of
      the selected entry. */
  datatype MatchOutcome = NoMatchingEvent | JoinMeeting(event: CalendarEvent)

  /** Reads one entry from its time text, title text and `href`: both texts
      are trimmed and the time text is split on the range separator. */
  function ScrapeEvent(timeText: string, titleText: string, href: string): (e: CalendarEvent)
    ensures e.href == href
    ensures Text.Trimmed(e.title)
    ensures exists pre, post :: Text.AllWhitespace(pre) && Text.AllWhitespace(post) && titleText == pre + e.title + post
    ensures !Text.Contains(timeText, RangeSeparator) ==> e.times.end.Invalid?
  {
    var time := Text.Trim(timeText);
    SliceKeepsAbsence(timeText, time, RangeSeparator);
    CalendarEvent(href, Text.Trim(titleText), ParseRange(time))
  }

  /** A piece of a string cannot contain what the whole lacks. */
  lemma SliceKeepsAbsence(s: string, piece: string, sub: string)
    requires exists pre, post :: s == pre + piece + post
    ensures !Text.Contains(s, sub) ==> !Text.Contains(piece, sub)
  {
    var pre, post :| s == pre + piece + post;
    forall j | 0 <= j <= |piece| - |sub| && !Text.Contains(s, sub)
      ensures !Text.OccursAt(piece, sub, j)
    {
      assert piece[j..j + |sub|] == s[|pre| + j..|pre| + j + |sub|];
      assert !Text.OccursAt(s, sub, |pre| + j);
    }
  }

  /** `now` lies strictly between five minutes before the start and the end
      (`isBetween`, exclusive at both ends); false when either end is an
      invalid moment. */
  predicate IsCurrent(e: CalendarEvent, now: int)
  {
    && e.times.start.Valid? && e.times.end.Valid?
    && e.times.start.Millis() - GraceMs < now < e.times.end.Millis()
  }

  /** No entry before index `i` is current. */
  predicate NoneCurrentBefore(events: seq<CalendarEvent>, now: int, i: int)
    requires i <= |events|
  {
    forall j :: 0 <= j < i ==> !IsCurrent(events[j], now)
  }

  /** The first current entry in scraped order (`Array#find`), if any. */
  function FirstCurrent(events: seq<CalendarEvent>, now: int): (k: Option<nat>)
    ensures k.Some? ==> k.value < |events| && IsCurrent(events[k.value], now)
    ensures k.Some? ==> NoneCurrentBefore(events, now, k.value)
    ensures k.None? ==> NoneCurrentBefore(events, now, |events|)
    decreases |events|
  {
    if |events| == 0 then None
    else if IsCurrent(events[0], now) then Some(0)
    else match FirstCurrent(events[1..], now)
      case None => None
      case Some(k) => Some(k + 1)
  }

  /** Selects the first current entry in scraped order. */
  function SelectMeeting(events: seq<CalendarEvent>, now: int): (r: MatchOutcome)
    ensures r.NoMatchingEvent? <==> NoneCurrentBefore(events, now, |events|)
    ensures r.JoinMeeting? ==> IsCurrent(r.event, now) && r.event in events
    ensures forall k :: 0 <= k < |events| && IsCurrent(events[k], now) && NoneCurrentBefore(events, now, k)
              ==> r == JoinMeeting(events[k])
  {
    match FirstCurrent(events, now)
    case None => NoMatchingEvent
    case Some(k) => JoinMeeting(events[k])
  }

  /** The grace window is open at both ends: a meeting is not current
      exactly five minutes before its start nor exactly at its end, and is
      current at every instant strictly between. This unfolds `IsCurrent`
      at its two boundaries; it is not a property independent of it. */
  lemma GraceWindowIsOpen(e: CalendarEvent, now: int)
    requires e.times.start.Valid? && e.times.end.Valid?
    ensures !IsCurrent(e, e.times.start.Millis() - GraceMs)
    ensures !IsCurrent(e, e.times.end.Millis())
    ensures e.times.start.Millis() - GraceMs < now < e.times.end.Millis() ==> IsCurrent(e, now)
  {
  }

  /** A 10:00-10:30 meeting is matched at 9:56, inside the grace window, and
      not at 9:54. */
  lemma TenOClockGrace()
    ensures var e := CalendarEvent("", "", TimeRange(Valid(10 * 60), Valid(10 * 60 + 30)));
      && SelectMeeting([e], (9 * 60 + 56) * MinuteMs) == JoinMeeting(e)
      && SelectMeeting([e], (9 * 60 + 54) * MinuteMs) == NoMatchingEvent
  {
    var e := CalendarEvent("", "", TimeRange(Valid(10 * 60), Valid(10 * 60 + 30)));
    assert IsCurrent(e, (9 * 60 + 56) * MinuteMs) && NoneCurrentBefore([e], (9 * 60 + 56) * MinuteMs, 0);
    assert !IsCurrent([e][0], (9 * 60 + 54) * MinuteMs);
  }

  /** Scraped order decides, not start time: with entries `[B, A]` both
      current, B is joined even though A started earlier. */
  lemma FirstInScrapedOrderWins(b: CalendarEvent, a: CalendarEvent, now: int)
    requires IsCurrent(b, now) && IsCurrent(a, now)
    ensures SelectMeeting([b, a], now) == JoinMeeting(b)
  {
    assert NoneCurrentBefore([b, a], now, 0);
  }

  /** An entry whose time text is a written range padded with white space
      reads back as that range. */
  lemma {:induction false} ScrapePaddedRange(pre: string, start: MinuteOfDay, end: MinuteOfDay, post: string,
                                             title: string, href: string)
    requires Text.AllWhitespace(pre) && Text.AllWhitespace(post)
    ensures ScrapeEvent(pre + FormatClock(start) + RangeSeparator + FormatClock(end) + post, title, href).times
         == TimeRange(Valid(start), Valid(end))
  {
    var range := FormatClock(start) + RangeSeparator + FormatClock(end);
    assert range[0] == FormatClock(start)[0] && range[|range| - 1] == FormatClock(end)[7];
    assert pre + FormatClock(start) + RangeSeparator + FormatClock(end) + post == pre + range + post;
    Text.TrimPadded(pre, range, post);
    ParseFormattedRange(start, end);
  }

  /** The configured 9:00-9:30 meeting, rendered as `" 09:00 AM - 09:30 AM "`,
      is joined at 8:56 AM, inside its grace window. */
  lemma NineOClockJoinedEarly(title: string, href: string)
    ensures var e := ScrapeEvent(" " + FormatClock(9 * 60) + RangeSeparator + FormatClock(9 * 60 + 30) + " ", title, href);
      SelectMeeting([e], (8 * 60 + 56) * MinuteMs) == JoinMeeting(e)
  {
    ScrapePaddedRange(" ", 9 * 60, 9 * 60 + 30, " ", title, href);
    var e := ScrapeEvent(" " + FormatClock(9 * 60) + RangeSeparator + FormatClock(9 * 60 + 30) + " ", title, href);
    assert IsCurrent(e, (8 * 60 + 56) * MinuteMs) && NoneCurrentBefore([e], (8 * 60 + 56) * MinuteMs, 0);
  }
}
