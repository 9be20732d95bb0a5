# Sehri and iftar countdown: a Dafny model

This project models the logic of a single-page Ramadan timetable app for Ramadan 1447 (19 February to 20 March 2026). All of that logic lives in `src/App.tsx`:

- **The timetable** (`ramadanData`): 30 days. Each day has the time sehri ends and the time iftar begins, as 24-hour `HH:MM:SS` text.
- **The two time formatters**:
  - `formatTo12Hour` turns `HH:MM:SS` into `hh:mm:ss AM/PM`.
  - `formatShortTime` turns it into `hh:mm AM/PM`.
  - Each returns a placeholder for the empty string.
- **The once-a-second resolver**:
  - It builds today's `YYYY-MM-DD` key and looks the day up.
  - It chooses what to count down to: today's sehri, today's iftar, or tomorrow's sehri.
  - It handles the day after the last entry and the days before the first one.
  - It splits the millisecond difference into hours, minutes and seconds.
  - It writes the result into the `displayData` state cell.

The files:

- `digits.dfy` (module `Digits`): JavaScript's `String(n)`, `padStart(2, '0')`, and `parseInt(s, 10)` on digit strings.
- `time_format.dfy` (module `TimeFormat`):
  - `split(':')`;
  - the two formatters;
  - what a 12-hour string means: the hour mapping, fields copied verbatim, the short form being the long form without its seconds, and reading a 12-hour string back into 24-hour form.
- `calendar.dfy` (module `Calendar`):
  - local calendar dates and their day count from 1970-01-01;
  - the next day (`setDate(getDate() + 1)`);
  - calendar order;
  - the `YYYY-MM-DD` key, with its read-back and injectivity.
- `schedule.dfy` (module `Schedule`):
  - the timetable as a map from date key to a pair of clock times;
  - the text of each clock time and its offset within the day;
  - the two display forms of a table time.
- `resolver.dfy` (module `Resolver`):
  - **Specification functions.** The resolver is specified by two functions:
    - `Choose` makes the decision: the chain of comparisons, giving a `Phase`.
    - `Show` gives the state written for that phase.
    - `Resolve` composes the two.
  - **Lemmas.** They state each branch's outcome, the countdown arithmetic, that the target is the earliest event still ahead, and that the countdown never grows while the target stays the same.
  - **The class `Display`.** It holds the timetable and the `displayData` cell. `Tick(now)` runs the resolver once:
    - `Decide` reassigns the locals the source's effect does: `targetText`, `displaySehri`, `displayIftar` and `duaIndex`. It also reassigns `targetAt`, which stands for the source's `targetTime` (a `Date`) and holds its `getTime()`.
    - `Write` either replaces the cell, or updates the previous state in the finished case, or leaves it alone.
    - `Tick` is proved to leave `Resolve(table, old(displayData), now)` in the cell and to keep the dua index in range.
- `scenarios.dfy` (module `Scenarios`): three moments whose outcomes under the real timetable are proved:
  - 04:00 on the first day;
  - 23:00 on the eve of Ramadan;
  - 19:00 on the last day.

Time is modelled as follows:

- A local time is a calendar date plus milliseconds since local midnight.
- An instant (`getTime()`) is the day number times 86 400 000 plus the milliseconds of the day.
- `new Date(\`${date}T${time}\`)` is the instant at the clock time's offset on that date.

## Model

| member | source | states |
|---|---|---|
| Digits.ParseDecimal | src/App.tsx:59 | `parseInt(s, 10)` on a digit string, as written. DecimalStringValue, TwoDigitsValue and TwoDigitsOfParse state what it reads |
| Digits.DecimalString | src/App.tsx:107 | `String(n)` of a non-negative number is a non-empty string of decimal digits |
| Digits.DecimalStringValue | src/App.tsx:107 | `parseInt` reads back exactly the number `String(n)` wrote |
| Digits.DecimalStringLength | src/App.tsx:163 | `String(n)` has one digit exactly below 10, and at most two exactly below 100 |
| Digits.PadStart2 | src/App.tsx:107-108 | `padStart(2, '0')`, as written. TwoDigitsValue and TwoDigitsChars state what it yields on `String(n)` |
| Digits.TwoDigits | src/App.tsx:107-108 | `String(n).padStart(2, '0')`, as written. TwoDigitsValue, TwoDigitsChars and TwoDigitsOfParse state its meaning and its inverse |
| Digits.TwoDigitsValue | src/App.tsx:107-108 | `String(n).padStart(2, '0')` is all digits and at least two long. It is exactly two long iff n < 100, and it reads back as n |
| Digits.TwoDigitsChars | src/App.tsx:107-108 | Below 100 the padded field is the tens digit followed by the units digit (e.g. 2 gives "02") |
| Digits.TwoDigitsOfParse | src/App.tsx:63 | A two-digit string is the padded form of the number it reads as |
| Digits.IntString | src/App.tsx:106-109 | `${year}` is non-empty; IntStringRoundTrip is its inverse |
| Digits.IntStringRoundTrip | src/App.tsx:106-109 | The year's text reads back as the year, sign included |
| TimeFormat.Split | src/App.tsx:58 | `split` always yields at least one piece |
| TimeFormat.SplitJoin | src/App.tsx:58 | Joining the pieces of `split` with the separator rebuilds the string, and no piece holds the separator |
| TimeFormat.SplitClock | src/App.tsx:58 | `split(':')` of an `HH:MM:SS` string is exactly its hour, minute and second fields, all digits |
| TimeFormat.TwelveHourRange | src/App.tsx:61-62 | The 12-hour hour lies in 1..12 and agrees with the 24-hour hour modulo 12 |
| TimeFormat.TwelveHourCases | src/App.tsx:60-62 | Hour 0 becomes 12 AM. Hours 1-11 stay the same with AM. Hour 12 stays 12 with PM. Hours 13-23 become h-12 with PM |
| TimeFormat.FormatFields | src/App.tsx:58-59 | Both formatters see the three fields of the clock string, and `parseInt` reads the hour field |
| TimeFormat.TwelveHourTextLayout | src/App.tsx:63 | Character by character, the output is the padded 12-hour hour, ':', the minutes, ':', the seconds, a space and the meridiem |
| TimeFormat.PaddedTwelveHour | src/App.tsx:63 | The padded 12-hour hour is two digits that read back as that hour |
| TimeFormat.FormatTo12Hour | src/App.tsx:56-64 | `formatTo12Hour`, as written. FormatTo12HourMeaning, FormatPlaceholders and TwelveHourRoundTrip state what it produces |
| TimeFormat.FormatShortTime | src/App.tsx:66-74 | `formatShortTime`, as written. ShortIsLongWithoutSeconds and FormatPlaceholders state what it produces |
| TimeFormat.FormatTo12HourMeaning | src/App.tsx:56-64 | The output is 11 characters long. The hour is two digits in 1..12, congruent to the input hour modulo 12. Minutes and seconds are copied verbatim. The meridiem is PM exactly when the hour is 12 or more |
| TimeFormat.FormatPlaceholders | src/App.tsx:56-74 | `formatTo12Hour` gives "--:--:--", and `formatShortTime` gives "--:--", exactly for the empty input |
| TimeFormat.ShortIsLongWithoutSeconds | src/App.tsx:66-74 | `formatShortTime(t)` is `formatTo12Hour(t)` with its ":ss" removed, placeholder included |
| TimeFormat.HourFromTwelve | src/App.tsx:60-62 | The 24-hour hour is recovered from the 12-hour hour and the meridiem |
| TimeFormat.TwelveHourRoundTrip | src/App.tsx:56-64 | For a real clock time, reading the 12-hour text back into 24-hour form gives the input |
| TimeFormat.FormatExample | src/App.tsx:56-64 | The formatted text of any digit-by-digit clock string |
| TimeFormat.FormatMidnight | src/App.tsx:56-64 | "00:00:00" shows as "12:00:00 AM" |
| TimeFormat.FormatNoon | src/App.tsx:56-64 | "12:00:00" shows as "12:00:00 PM" |
| TimeFormat.FormatAfternoon | src/App.tsx:56-64 | "17:57:06" shows as "05:57:06 PM" |
| TimeFormat.FormatMorning | src/App.tsx:56-64 | "05:23:17" shows as "05:23:17 AM" |
| TimeFormat.FormatShortAfternoon | src/App.tsx:66-74 | "17:57:06" shows in short form as "05:57 PM" |
| Calendar.Tomorrow | src/App.tsx:132-133 | The next day is a valid date exactly one day later in the day count, across month and year ends |
| Calendar.YearStep | src/App.tsx:132-133 | Each year adds its own length (365, or 366 in a leap year) to the day count |
| Calendar.YearsApart | src/App.tsx:132-133 | A later year starts at least a full year's days after an earlier one |
| Calendar.DayNumberOrder | src/App.tsx:179-180 | Calendar order of dates is the order of their day numbers, and equal day numbers mean equal dates |
| Calendar.DateKey | src/App.tsx:106-109 | The key `${year}-${MM}-${DD}`, built the same way for tomorrow at src/App.tsx:134-137. DateKeyRoundTrip and DateKeyInjective state its layout, read-back and injectivity |
| Calendar.DateKeyRoundTrip | src/App.tsx:106-109 | The key is the year, '-', the month as two digits (1-based), '-', the day as two digits, and it reads back as the date |
| Calendar.DateKeyInjective | src/App.tsx:134-139 | Two dates have the same key iff they are the same date, so a key names one day |
| Schedule.ClockText | src/App.tsx:10-41 | A table time's text is an `HH:MM:SS` clock string |
| Schedule.ClockTextFields | src/App.tsx:114-115 | The text's fields read back as the clock's hour, minute and second |
| Schedule.ClockTextForms | src/App.tsx:168-176 | The 12-hour form is hh:mm:ss plus meridiem, and the short form hh:mm plus meridiem |
| Schedule.ClockMs | src/App.tsx:114-115 | A table time falls within its day (its offset is below 86 400 000 ms) |
| Schedule.ClockAtClockMs | src/App.tsx:114-115 | A clock time is recovered from its offset, so comparing offsets compares clock times |
| Schedule.RamadanDataSehriFirst | src/App.tsx:10-41 | The constant `RamadanData` holds the 30 entries of the table as clock values. On every day of it, sehri ends before iftar begins |
| Schedule.FirstDay | src/App.tsx:179-181 | "2026-02-19" is in the table, names a valid date, and is that date's key |
| Resolver.InstantOrder | src/App.tsx:123-127 | Instants compare as their days, and within a day as their times of day |
| Resolver.InstantTomorrow | src/App.tsx:132-142 | The same clock time tomorrow is exactly one day later |
| Resolver.CountdownTextValue | src/App.tsx:163-165 | Each countdown text is all digits, at least two long, and reads back as its field. Minutes and seconds below 60 are exactly two long |
| Resolver.ZeroCountdownText | src/App.tsx:153 | The finished state's countdown shows "00", "00", "00" |
| Resolver.CountdownSplit | src/App.tsx:162-165 | m < 60 and s < 60, and h·3600000 + m·60000 + s·1000 ≤ diff < that sum + 1000 |
| Resolver.CountdownValue | src/App.tsx:162-165 | The countdown shows the difference in whole seconds, rounded down |
| Resolver.CountdownMonotone | src/App.tsx:162-165 | A smaller difference never shows a larger countdown |
| Resolver.CountdownZero | src/App.tsx:162-165 | The countdown reads 00:00:00 exactly when less than a second is left |
| Resolver.CountsDownUnique | src/App.tsx:163-165 | The floor split is the only countdown with m, s < 60 that shows the difference |
| Resolver.CountdownOf | src/App.tsx:162-165 | The three `Math.floor` quotients, as written. CountdownSplit, CountdownValue and CountsDownUnique state what they mean |
| Resolver.Choose | src/App.tsx:111-181 | The resolver's decision: which pair, heading, dua and target instant, or the finished, before-Ramadan or no-write case. ChooseNextEvent, ChooseAhead and ChooseDua state its meaning |
| Resolver.Show | src/App.tsx:148-197 | The state each decision writes. The Resolve* lemmas, ShowCounting and ShowCountdown state it per branch |
| Resolver.Resolve | src/App.tsx:105-199 | One tick: Show of Choose at the current instant. The Resolve* lemmas state each branch's outcome |
| Resolver.ChooseDua | src/App.tsx:121-146 | Every countdown the resolver picks selects one of the two duas |
| Resolver.ChooseAhead | src/App.tsx:123-182 | The target is always still ahead of now. So the `Math.max(0, …)` clamp never applies, and the unclamped before-Ramadan difference is positive |
| Resolver.ChooseNextEvent | src/App.tsx:113-158 | On a table day the target is the earliest event still ahead among today's sehri and iftar and tomorrow's sehri. The state is finished exactly when none is left |
| Resolver.ShowCounting | src/App.tsx:162-177 | A countdown state shows the pair in both forms, the heading and dua given, both flags clear, and the time left in whole seconds |
| Resolver.ShowCountdown | src/App.tsx:162-185 | In either counting phase, the countdown written is the split of the time left to the target |
| Resolver.ResolveBeforeSehri | src/App.tsx:113-126 | Before today's sehri: counts down to it, dua 0, flags clear, today's pair shown |
| Resolver.ResolveFasting | src/App.tsx:127-130 | Between sehri and iftar: counts down to iftar, dua 1, flags clear, today's pair shown |
| Resolver.ResolveNextSehri | src/App.tsx:131-146 | After iftar with tomorrow in the table: counts down across midnight to tomorrow's sehri, dua 0, tomorrow's pair shown |
| Resolver.ResolveEnded | src/App.tsx:147-158 | After iftar with tomorrow missing: today's pair, the closing heading, countdown 00:00:00 and isFinished. isBefore and currentDua are carried over |
| Resolver.ResolveBeforeRamadan | src/App.tsx:178-197 | Before 2026-02-19: placeholder times, isBefore, dua 0, and a positive countdown to the first day's sehri |
| Resolver.ResolveNoEntry | src/App.tsx:178-199 | A date without an entry that is not before the table leaves the state exactly as it was |
| Resolver.ResolveDuaInRange | src/App.tsx:121-194 | A tick keeps the dua index within the page's two duas |
| Resolver.ResolveCountdownShrinks | src/App.tsx:162-185 | While the target is unchanged, a later tick never shows more time left. This holds for the countdowns on table days and for the countdown to the first sehri before Ramadan |
| Resolver.ShowShrinks | src/App.tsx:162-185 | For a fixed target, a later instant never writes a larger countdown |
| Resolver.Display.constructor | src/App.tsx:78-98 | The cell starts with placeholders, the loading heading, 00:00:00, both flags clear and dua 0 |
| Resolver.Display.Tick | src/App.tsx:105-199 | One run of the effect leaves `Resolve(table, old state, now)` in the cell, and keeps the class invariant (dua index in range) |
| Resolver.Display.Decide | src/App.tsx:105-181 | The chain of comparisons and lookups yields exactly the phase `Choose` specifies |
| Resolver.Display.Write | src/App.tsx:148-197 | Each phase's write leaves the state `Show` specifies. The no-entry phase writes nothing |
| Resolver.Display.WriteCountdown | src/App.tsx:162-177 | Replaces the whole state with the counting state for the floored split of the difference |
| Resolver.Display.WriteFinished | src/App.tsx:148-157 | Updates only the listed fields of the previous state |
| Resolver.Display.WriteBeforeRamadan | src/App.tsx:182-197 | Replaces the whole state with the before-Ramadan state |
| Scenarios.FirstEntry | src/App.tsx:11 | The first entry is sehri 05:23:17 and iftar 17:57:06 |
| Scenarios.FirstMorning | src/App.tsx:123-126 | For any table whose first sehri is 05:23:17, at 04:00 on 2026-02-19: until sehri ends, dua 0, countdown 1 h 23 min 17 s |
| Scenarios.FirstMorningShipped | src/App.tsx:113-126 | With the shipped table at 04:00 on 2026-02-19: until sehri ends, dua 0, countdown 1 h 23 min 17 s |
| Scenarios.FirstMorningText | src/App.tsx:163-165 | That countdown shows as "01", "23", "17" |
| Scenarios.RamadanEve | src/App.tsx:178-197 | For any such table without a 2026-02-18 entry, at 23:00 on 2026-02-18: until Ramadan, isBefore, dua 0, not finished, all four times shown as placeholders, countdown 6 h 23 min 17 s |
| Scenarios.RamadanEveShipped | src/App.tsx:178-197 | With the shipped table at 23:00 on 2026-02-18: until Ramadan, isBefore, dua 0, not finished, all four times shown as placeholders, countdown 6 h 23 min 17 s |
| Scenarios.NoEveEntry | src/App.tsx:10-41 | The table has no entry for 2026-02-18 |
| Scenarios.LastDayKeys | src/App.tsx:132-137 | The last day's key is "2026-03-20", and its next day's key is "2026-03-21" |
| Scenarios.LastEvening | src/App.tsx:139-158 | At 19:00 on 2026-03-20: Ramadan ended, isFinished, countdown "00", "00", "00", and dua and isBefore carried over |

## Left out

- **Rendering.** All of it is left out: the JSX, styling, animations, icons and the marquee (src/App.tsx:202-385). The dua texts and the Urdu headings appear only as the `Label` choice and the `currentDua` index.
- **The timer and React plumbing.** The `setInterval` timer and the `now` state cell (src/App.tsx:100-103) are left out. Each tick is an explicit call to `Display.Tick` with the local time as a parameter.
- **The device clock.** Time zone, daylight-saving shifts and `Date` parsing are replaced by the local-time model above. Every local day has exactly 86 400 000 ms, and the calendar is the proleptic Gregorian calendar with any year allowed.
- **`toLocaleDateString('ur-PK', …)`** (src/App.tsx:356) is a locale library call and is not modelled.
- **The `parseInt` NaN path.** `formatTo12Hour` and `formatShortTime` are not modelled on malformed non-empty strings, where `parseInt` gives NaN. See the two lines below.
- TimeFormat.FormatTo12Hour: requires its input to be empty or an `HH:MM:SS` digit string. Every text the table holds is one.
- TimeFormat.FormatShortTime: requires its input to be empty or an `HH:MM:SS` digit string, for the same reason.
- Digits.ParseDecimal: models `parseInt(s, 10)` only on strings of decimal digits.
- The timetable (`RamadanData`) holds each time as a `Clock` value, not as text. Its text is `ClockText`, which rebuilds the zero-padded form the table writes.
- The `Countdown` datatype holds the countdown's hours, minutes and seconds as numbers. The strings the page holds are `CountdownText`, and `CountdownTextValue` shows that they determine the numbers.
- The timetable is a constant field of `Display`. `Resolve` and the lemmas about it take it as a parameter. The constructor sets the field to `RamadanData`.
- **Placeholders:** only the empty string gives the placeholder (src/App.tsx:57, 67). A non-empty malformed string is not modelled.
- **The before-Ramadan difference** (src/App.tsx:182) is not clamped. `ChooseAhead` proves it positive.
- **A date with no entry** that is not before the table leaves the cell unchanged (src/App.tsx:178-199). `ResolveNoEntry` states this.
