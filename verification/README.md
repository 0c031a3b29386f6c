# Meeting auto-join: scheduling and matching model

A Dafny model of the decision logic in `automate.js`, a script that keeps a
browser logged into a course portal and joins each calendar meeting as it
begins. Three pieces of that script are pure decisions once time is made
concrete, and they are what this project models and proves things about:

- the **wait-duration scheduler** (`getNextMeetingWaitDuration`): how long the
  supervisor loop sleeps before its next attempt, given the configured
  `"hh:mm A - hh:mm A"` ranges of the day;
- the **meeting matcher**: how each calendar entry's time text is read
  (trimmed, split on `" - "`, parsed as `hh:mm A`), and which entry is joined:
  the first one, in the order the calendar renders them, whose window opened
  five minutes before its start and has not yet ended;
- the **microphone correction** after joining: the mic button is clicked once
  unless its `aria-label` contains `"Unmute mic"`.

Time is concrete: `now` is milliseconds since local midnight
(`0 <= now < 86_400_000`), and a parsed clock reading is a `Moment`, either a
valid minute of today or moment's invalid date, against which every
comparison is false.

Modules, leaf first:

| file | module | contents |
|---|---|---|
| `wrappers.dfy` | `Wrappers` | `Option`, `Result` |
| `text.dfy` | `Text` | `trim`, `includes`/`indexOf`, `split` and its inverse `Join` |
| `clock.dfy` | `Clock` | 12-hour clock parsing and writing, `Moment`, `TimeRange`, range parsing |
| `scheduler.dfy` | `Scheduler` | `WaitDuration`, `NextWait` and their properties |
| `matcher.dfy` | `Matcher` | `ScrapeEvent`, `IsCurrent`, `SelectMeeting` and their properties |
| `microphone.dfy` | `Microphone` | `NormalizeMic` |

Observations the proofs make precise:

- The clamp `timeUntilMeeting > 0 ? timeUntilMeeting : 0` never fires: the
  branch is only reached for a start strictly after now, so the difference
  is already positive. `WaitDuration` keeps the clamp and proves the result
  is exactly `start - now`.
- The tomorrow fallback `firstStart + 1 day - now` lies in `(0, 1 day]`,
  because it is only reached when the first start is not after now.
- The scheduler waits for the first upcoming entry in list order, which is
  the nearest one only when the list is chronological
  (`ChronologicalWaitsForNearest`, `UnsortedWaitsForFirstListed`).

## Model

| member | source | states |
|---|---|---|
| `Text.Trim` | automate.js:104-106 | the result has no white space at either end, and the input is the result padded with white space on both sides |
| `Text.TrimPadded` | automate.js:104-106 | trimming text padded with white space gives back exactly that text |
| `Text.TrimIdempotent` | automate.js:104 | trimming an already trimmed text changes nothing |
| `Text.IndexOf` | automate.js:198 | the index returned is the first occurrence of the searched text, and none is returned exactly when the text does not occur |
| `Text.Split` | automate.js:105 | split always yields at least one piece, and no piece contains the separator |
| `Text.JoinSplit` | automate.js:29 | splitting loses nothing: joining the pieces with the separator gives back the input |
| `Text.SplitAround` | automate.js:105 | the first piece is the text before the first separator and the rest is the split of what follows it |
| `Clock.To24Hour` | automate.js:29 | 12-hour to 24-hour conversion: PM exactly for hours 12..23, same hour modulo 12, so 12 AM is hour 0 and 12 PM is hour 12 |
| `Clock.To12Hour` | automate.js:29 | every 24-hour hour has a 12-hour reading that converts back to it |
| `Clock.To24HourInjective` | automate.js:29 | two different 12-hour readings never denote the same hour |
| `Clock.ParseClock` | automate.js:29 | a valid reading is a minute of the day, and is in the afternoon exactly when the meridiem is PM |
| `Clock.ParseFormat` | automate.js:121-122 | reading a written `hh:mm A` time gives back the same minute of the day |
| `Clock.OneDigitHour` | automate.js:29 | a one-digit `h:mm A` text reads as the same time as its two-digit form with a leading zero |
| `Clock.ParseFormatOneDigit` | automate.js:121-122 | a written time for hours 1..9 with its leading zero dropped still reads back as the same minute |
| `Clock.FormatParse` | automate.js:121-122 | every two-digit text that reads as a valid time is the written form of that time |
| `Clock.ParseRange` | automate.js:29 | a text without `" - "` has its whole text as start and an invalid end; a valid end implies the separator was present |
| `Clock.ParseFormattedRange` | automate.js:29 | reading `"start - end"` written from two minutes gives back both minutes |
| `Scheduler.StartsAfter` | automate.js:33 | `moment(start).isBefore(now)` read from now's side: the range's start is a valid moment strictly later than now, and false against an invalid moment |
| `Scheduler.ParseAll` | automate.js:28-31 | one range per configured text, in the same order, each read by `ParseRange` |
| `Scheduler.FirstUpcoming` | automate.js:33 | the index returned is the first, in list order, whose start is after now; none is returned only when no start is after now |
| `Scheduler.WaitDuration` | automate.js:26-42 | the wait is in `(0, 1 day]`; it is `start - now` for the first range in list order that starts after now; otherwise the first range's start tomorrow minus now; an empty list or an invalid first start has no duration |
| `Scheduler.NextWait` | automate.js:26-42 | over the configured texts the wait is in `(0, 1 day]`, and only an empty configuration fails as empty |
| `Scheduler.EndsDoNotMatter` | automate.js:28-35 | two schedules with the same starts wait the same time, whatever their end times |
| `Scheduler.SameStartsSameFirst` | automate.js:33 | the search for the first upcoming range gives the same answer for two schedules with the same starts |
| `Scheduler.WaitForFirstUpcoming` | automate.js:33-36 | when a range is the first upcoming one, the wait is its start minus now, with no clamping to zero |
| `Scheduler.ChronologicalOrder` | automate.js:33 | in a chronological schedule an earlier range starts no later than a later range ends |
| `Scheduler.BetweenMeetings` | automate.js:33-36 | for a chronological schedule and a now between one range's end and the next one's start, the wait is until that next start |
| `Scheduler.NearestStartsFirst` | automate.js:33 | in a chronological schedule the first upcoming range starts at the same time as the nearest upcoming one |
| `Scheduler.ChronologicalWaitsForNearest` | automate.js:33-36 | for a chronological schedule the wait is until the nearest upcoming start |
| `Scheduler.UnsortedWaitsForFirstListed` | automate.js:33-36 | for `[2:00 PM, 9:00 AM]` at 8:00 the wait is six hours although the 9:00 meeting is nearer |
| `Scheduler.TwoMeetingsBeforeFirst` | automate.js:33-36 | with meetings at 9:00 AM and 2:00 PM, at 8:00 AM the wait is one hour |
| `Scheduler.TwoMeetingsAfterLast` | automate.js:39-41 | with meetings at 9:00 AM and 2:00 PM, at 3:00 PM the wait is the eighteen hours until 9:00 AM tomorrow |
| `Matcher.ScrapeEvent` | automate.js:102-115 | the entry keeps its `href`, its title is the trimmed title text, and a time text without `" - "` has no valid end |
| `Matcher.ScrapePaddedRange` | automate.js:104-105 | a written range padded with white space reads back as that range |
| `Matcher.IsCurrent` | automate.js:121-126 | `isBetween(start - 5 min, end, '()')`: now lies strictly inside the window from five minutes before the start to the end, and never when either end is an invalid moment |
| `Matcher.FirstCurrent` | automate.js:120-127 | the index returned is the first current entry in scraped order; none is returned only when no entry is current |
| `Matcher.SelectMeeting` | automate.js:120-129 | nothing is joined exactly when no entry is current; otherwise the entry joined is current and is the first current entry in scraped order |
| `Matcher.GraceWindowIsOpen` | automate.js:121-126 | an entry is not current exactly five minutes before its start nor exactly at its end, and is current at every instant strictly between |
| `Matcher.TenOClockGrace` | automate.js:126 | a 10:00-10:30 meeting is joined at 9:56 and not at 9:54 |
| `Matcher.FirstInScrapedOrderWins` | automate.js:120-127 | of two current entries `[B, A]`, B is joined whatever their start times |
| `Matcher.NineOClockJoinedEarly` | automate.js:102-130 | the entry `" 09:00 AM - 09:30 AM "` is joined at 8:56 AM |
| `Microphone.NormalizeMic` | automate.js:196-204 | one click exactly when the button is absent or its label lacks `"Unmute mic"`; no click when the label contains it; a read error when the label attribute is missing |
| `Microphone.MutedLabelIsLeft` | automate.js:196-204 | a label containing `"Unmute mic"` anywhere gets no click |
| `Microphone.ShortLabelIsClicked` | automate.js:196-204 | a label shorter than `"Unmute mic"`, such as `"Mute mic"`, gets the click |

## Left out

- Browser launch, page teardown, navigation, frame descent, element waits, clicks, `evaluate` calls and the `targetcreated` new-page promise (automate.js:44-95, 133-191, 224-261): left out as browser-driving steps. They carry decisions of their own that the model does not follow:
  - the event link is clicked only when an element with its `href` is found (automate.js:133-141);
  - the "Continue on this browser" and "Join now" buttons are clicked only when present (automate.js:173-178, 185-190);
  - any failure from the modal wait to the microphone click is caught and logged, and the run goes on (automate.js:145-214);
  - at teardown every `about:blank` page is closed twice (automate.js:233-237).
- Text recognition of screenshots, the error log file, console output, `setTimeout` sleeping and `humanize` (automate.js:11-24, 264-265): I/O and presentation only.
- Clock reading: `moment()` becomes the `now` parameter; time zones, daylight-saving changes and dates other than today are not modelled, so "one day" is always 86,400,000 ms.
- Clock.ParseClock: accepts only `h:mm` or `hh:mm` with hour 1..12, two-digit minutes, one space and upper-case `AM`/`PM`; moment's lenient acceptance of other spellings (lower case, hours 0 or 13..23, extra text) is not modelled and such texts read as invalid.
- Clock.ParseRange: a time text without `" - "` gets an invalid end; moment's reading of `undefined` is taken to be an invalid date.
- Scheduler.WaitDuration: an empty list (where the source throws when reading the first entry) and an invalid first start in the fallback (where the source computes NaN) are returned as failures rather than reproduced.
- Matcher.ScrapeEvent: a missing `.fc-event-time` or `.fc-event-title` element, which makes the page-side code throw, is not modelled; an `href` is taken to be present.
- Matcher.SelectMeeting: re-running the matcher on the same entries and the same now gives the same outcome by construction (it is a function), so no separate idempotence lemma is stated.
- Microphone.NormalizeMic: the outcome of the click itself (whether the page actually mutes) is not modelled; an absent button yields a click attempt, which the source would then fail to perform.
