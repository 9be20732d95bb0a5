/** Three moments of Ramadan 1447 worked through the resolver with the real timetable. */
module Scenarios {
  import opened Digits
  import opened TimeFormat
  import opened Calendar
  import opened Schedule
  import opened Resolver

  /** The shipped table's first entry. */
  lemma FirstEntry()
    ensures FirstKey in RamadanData
    ensures RamadanData[FirstKey] == DayTimes(Clock(5, 23, 17), Clock(17, 57, 6))
  {
  }

  /** 04:00 on the first day, with the first entry's sehri at 05:23:17:
      1 h 23 min 17 s until sehri ends. */
  lemma FirstMorning(table: map<string, DayTimes>, prev: DisplayData)
    requires FirstKey in table && table[FirstKey].sehri == Clock(5, 23, 17)
    ensures var r := Resolve(table, prev, LocalTime(FirstDate, 4 * HourMs));
      && r.targetText == UntilSehriEnds && r.currentDua == 0
      && r.countdown == Countdown(1, 23, 17)
  {
    FirstDay();
    var now := LocalTime(FirstDate, 4 * HourMs);
    var diff := ClockMs(Clock(5, 23, 17)) - 4 * HourMs;
    assert diff == 4997000 && CountdownOf(diff) == Countdown(1, 23, 17);
    ResolveBeforeSehri(table, prev, now);
    CountsDownUnique(Resolve(table, prev, now).countdown, diff);
  }

  /** The page shows that countdown as "01", "23", "17". */
  lemma FirstMorningText()
    ensures CountdownText(Countdown(1, 23, 17)) == ["01", "23", "17"]
  {
    TwoDigitsChars(1);
    TwoDigitsChars(23);
    TwoDigitsChars(17);
  }

  /** 23:00 on the eve of Ramadan, a date without an entry: 6 h 23 min 17 s until
      the first sehri, with the before-Ramadan flag and placeholder times. */
  lemma RamadanEve(table: map<string, DayTimes>, prev: DisplayData)
    requires FirstKey in table && table[FirstKey].sehri == Clock(5, 23, 17)
    requires "2026-02-18" !in table
    ensures var r := Resolve(table, prev, LocalTime(Date(2026, 2, 18), 23 * HourMs));
      && r.targetText == UntilRamadan && r.isBefore && r.currentDua == 0
      && r.sehri == "--:--:--" && r.iftar == "--:--:--" && r.fajr == "--:--" && r.maghrib == "--:--"
      && !r.isFinished && r.countdown == Countdown(6, 23, 17)
  {
    Year2026();
    TwoDigitsChars(2);
    TwoDigitsChars(18);
    assert DateKey(Date(2026, 2, 18)) == "2026-02-18";
    var now := LocalTime(Date(2026, 2, 18), 23 * HourMs);
    var diff := Instant(FirstDate, ClockMs(Clock(5, 23, 17))) - Instant(now.date, now.msOfDay);
    assert diff == 22997000 && CountdownOf(diff) == Countdown(6, 23, 17);
    ResolveBeforeRamadan(table, prev, now);
    CountsDownUnique(Resolve(table, prev, now).countdown, diff);
  }

  /** The shipped table has no entry for the eve of Ramadan. */
  lemma NoEveEntry()
    ensures "2026-02-18" !in RamadanData
  {
  }

  /** The first morning with the shipped table. */
  lemma FirstMorningShipped(prev: DisplayData)
    ensures var r := Resolve(RamadanData, prev, LocalTime(FirstDate, 4 * HourMs));
      && r.targetText == UntilSehriEnds && r.currentDua == 0
      && r.countdown == Countdown(1, 23, 17)
  {
    FirstEntry();
    FirstMorning(RamadanData, prev);
  }

  /** The eve of Ramadan with the shipped table. */
  lemma RamadanEveShipped(prev: DisplayData)
    ensures var r := Resolve(RamadanData, prev, LocalTime(Date(2026, 2, 18), 23 * HourMs));
      && r.targetText == UntilRamadan && r.isBefore && r.currentDua == 0
      && r.sehri == "--:--:--" && r.iftar == "--:--:--" && r.fajr == "--:--" && r.maghrib == "--:--"
      && !r.isFinished && r.countdown == Countdown(6, 23, 17)
  {
    FirstEntry();
    NoEveEntry();
    RamadanEve(RamadanData, prev);
  }

  lemma LastDayKeys()
    ensures DateKey(Date(2026, 3, 20)) == "2026-03-20"
    ensures Tomorrow(Date(2026, 3, 20)) == Date(2026, 3, 21)
    ensures DateKey(Date(2026, 3, 21)) == "2026-03-21"
  {
    Year2026();
    TwoDigitsChars(3);
    TwoDigitsChars(20);
    TwoDigitsChars(21);
  }

  /** 19:00 on the last day, after its iftar at 18:20:31: Ramadan has ended, the
      countdown is forced to "00", "00", "00" and the dua stays as it was. */
  lemma LastEvening(prev: DisplayData)
    ensures var r := Resolve(RamadanData, prev, LocalTime(Date(2026, 3, 20), 19 * HourMs));
      && r.targetText == RamadanEnded && r.isFinished
      && CountdownText(r.countdown) == ["00", "00", "00"]
      && r.currentDua == prev.currentDua && r.isBefore == prev.isBefore
  {
    FirstDay();
    LastDayKeys();
    ResolveEnded(RamadanData, prev, LocalTime(Date(2026, 3, 20), 19 * HourMs));
    ZeroCountdownText();
  }
}
