/** The once-a-second resolver: from the device's local time and the timetable it
    chooses what the page shows (the day's sehri and iftar times, which event is
    being counted down to, the remaining time, and which dua is on screen) and
    writes the result into the displayData state cell. */
module Resolver {
  import opened Digits
  import opened TimeFormat
  import opened Calendar
  import opened Schedule

  /** The device's local time: a calendar date and the milliseconds since its midnight. */
  datatype LocalTime = LocalTime(date: Date, msOfDay: int)

  predicate ValidTime(now: LocalTime) {
    ValidDate(now.date) && 0 <= now.msOfDay < DayMs
  }

  /** getTime() of a local date and time of day, counted from local 1970-01-01 00:00. */
  function Instant(date: Date, msOfDay: int): int
    requires ValidDate(date)
  {
    DayNumber(date) * DayMs + msOfDay
  }

  /** Instants compare as their days, and within a day as their times of day. */
  lemma InstantOrder(a: Date, msA: int, b: Date, msB: int)
    requires ValidDate(a) && ValidDate(b)
    requires 0 <= msA < DayMs && 0 <= msB < DayMs
    ensures Instant(a, msA) < Instant(b, msB) <==>
      DayNumber(a) < DayNumber(b) || (DayNumber(a) == DayNumber(b) && msA < msB)
  {
    var da, db := DayNumber(a), DayNumber(b);
    if da < db {
      assert (db - da) * DayMs >= DayMs;
      assert db * DayMs == da * DayMs + (db - da) * DayMs;
    } else if db < da {
      assert (da - db) * DayMs >= DayMs;
      assert da * DayMs == db * DayMs + (da - db) * DayMs;
    }
  }

  /** The instant at a time of day tomorrow is a whole day after the same time today. */
  lemma InstantTomorrow(date: Date, msOfDay: int)
    requires ValidDate(date)
    ensures Instant(Tomorrow(date), msOfDay) == Instant(date, msOfDay) + DayMs
  {
    assert (DayNumber(date) + 1) * DayMs == DayNumber(date) * DayMs + DayMs;
  }

  /** The heading above the countdown; the page shows each as a fixed Urdu phrase. */
  datatype Label =
    | Loading         // "loading…", before the first tick
    | UntilSehriEnds  // time left until sehri ends
    | UntilIftar      // time left until iftar
    | UntilNextSehri  // time left until the next day's sehri
    | RamadanEnded    // Ramadan has come to an end
    | UntilRamadan    // time left until Ramadan arrives

  /** The countdown: whole hours, the minutes within the hour and the seconds
      within the minute. The page holds each as String(n).padStart(2, '0'), the
      texts CountdownText gives. */
  datatype Countdown = Countdown(h: nat, m: nat, s: nat)

  /** The displayData state cell. */
  datatype DisplayData = DisplayData(
    sehri: string,
    iftar: string,
    targetText: Label,
    countdown: Countdown,
    isFinished: bool,
    isBefore: bool,
    currentDua: nat,
    fajr: string,
    maghrib: string)

  /** The page has two duas: index 0 for sehri, index 1 for iftar. */
  const DuaCount: nat := 2

  /** The countdown of the finished state, which the page shows as "00", "00", "00". */
  const ZeroCountdown: Countdown := Countdown(0, 0, 0)

  /** The state before the first tick has been resolved. */
  const InitialDisplay: DisplayData :=
    DisplayData("--:--:--", "--:--:--", Loading, ZeroCountdown, false, false, 0, "--:--", "--:--")

  /** The texts the page holds for a countdown's hours, minutes and seconds. */
  function CountdownText(c: Countdown): seq<string> {
    [TwoDigits(c.h), TwoDigits(c.m), TwoDigits(c.s)]
  }

  /** Each text is digits, at least two of them and exactly two below 100, and
      reads back as its field, so the texts determine the countdown. */
  lemma CountdownTextValue(c: Countdown)
    ensures var t := CountdownText(c);
      && |t| == 3
      && (forall i :: 0 <= i < 3 ==> AllDigits(t[i]) && |t[i]| >= 2)
      && ParseDecimal(t[0]) == c.h && ParseDecimal(t[1]) == c.m && ParseDecimal(t[2]) == c.s
      && (c.m < 60 ==> |t[1]| == 2) && (c.s < 60 ==> |t[2]| == 2)
  {
    TwoDigitsValue(c.h);
    TwoDigitsValue(c.m);
    TwoDigitsValue(c.s);
  }

  /** The finished state's countdown shows the literal "00", "00", "00". */
  lemma ZeroCountdownText()
    ensures CountdownText(ZeroCountdown) == ["00", "00", "00"]
  {
    TwoDigitsChars(0);
  }

  /** A millisecond difference split into whole hours, the minutes within the hour
      and the seconds within the minute (Math.floor of each quotient). */
  function CountdownOf(diff: nat): Countdown {
    Countdown(diff / HourMs, diff % HourMs / MinuteMs, diff % MinuteMs / SecondMs)
  }

  /** The number of seconds a countdown shows. */
  function CountdownSeconds(c: Countdown): nat {
    c.h * 3600 + c.m * 60 + c.s
  }

  /** Minutes and seconds are below 60, and the time shown is the difference
      rounded down to a whole second. */
  lemma CountdownSplit(diff: nat)
    ensures var c := CountdownOf(diff);
      && c.m < 60 && c.s < 60
      && CountdownSeconds(c) * SecondMs <= diff < CountdownSeconds(c) * SecondMs + SecondMs
  {
    var h, r := diff / HourMs, diff % HourMs;
    var m, r2 := r / MinuteMs, r % MinuteMs;
    assert diff == h * HourMs + m * MinuteMs + r2;
    assert diff % MinuteMs == r2 by {
      assert diff == (h * 60 + m) * MinuteMs + r2;
    }
  }

  /** The countdown shows the difference in whole seconds. */
  lemma CountdownValue(diff: nat)
    ensures CountdownSeconds(CountdownOf(diff)) == diff / SecondMs
  {
    CountdownSplit(diff);
  }

  /** A smaller difference never shows a larger countdown. */
  lemma CountdownMonotone(d1: nat, d2: nat)
    requires d1 <= d2
    ensures CountdownSeconds(CountdownOf(d1)) <= CountdownSeconds(CountdownOf(d2))
  {
    CountdownValue(d1);
    CountdownValue(d2);
  }

  /** The countdown reads all zeros exactly when less than a second is left. */
  lemma CountdownZero(diff: nat)
    ensures CountdownOf(diff) == ZeroCountdown <==> diff < SecondMs
  {
    CountdownSplit(diff);
  }

  /** What one tick decides, before anything is formatted: the named states of
      the resolver. */
  datatype Phase =
    | Counting(times: DayTimes, heading: Label, dua: nat, targetAt: int)
      // counting down to targetAt, showing the pair times
    | Finished(today: DayTimes)
      // today's iftar has passed and tomorrow has no entry
    | BeforeRamadan(targetAt: int)
      // before the table's first day: counting down to its sehri
    | NoEntry
      // a date without an entry that is not before the table: nothing is written

  /** The resolver's choice at local time now. Times are compared as instants,
      as the source compares Date values. */
  function Choose(table: map<string, DayTimes>, now: LocalTime): Phase
    requires ValidTime(now)
    requires FirstKey in table
  {
    var nowAt := Instant(now.date, now.msOfDay);
    var todayKey := DateKey(now.date);
    if todayKey in table then
      var today := table[todayKey];
      var sehriAt := Instant(now.date, ClockMs(today.sehri));
      var iftarAt := Instant(now.date, ClockMs(today.iftar));
      if nowAt < sehriAt then
        Counting(today, UntilSehriEnds, 0, sehriAt)
      else if nowAt < iftarAt then
        Counting(today, UntilIftar, 1, iftarAt)
      else
        var tomorrow := Tomorrow(now.date);
        var tomorrowKey := DateKey(tomorrow);
        if tomorrowKey in table then
          var next := table[tomorrowKey];
          Counting(next, UntilNextSehri, 0, Instant(tomorrow, ClockMs(next.sehri)))
        else
          Finished(today)
    else if nowAt < Instant(FirstDate, 0) then
      BeforeRamadan(Instant(FirstDate, ClockMs(table[FirstKey].sehri)))
    else
      NoEntry
  }

  /** The state written while counting down: the pair formatted both ways, the
      heading, the dua, and the difference split up. */
  function CountingDisplay(times: DayTimes, heading: Label, dua: nat, diff: nat): DisplayData {
    DisplayData(
      LongText(times.sehri), LongText(times.iftar), heading, CountdownOf(diff),
      false, false, dua, ShortText(times.sehri), ShortText(times.iftar))
  }

  /** The state written once the last entry's iftar has passed: the previous state
      with today's pair, the closing heading, a zero countdown and the finished flag. */
  function FinishedDisplay(prev: DisplayData, today: DayTimes): DisplayData {
    prev.(
      sehri := LongText(today.sehri),
      iftar := LongText(today.iftar),
      targetText := RamadanEnded,
      countdown := ZeroCountdown,
      isFinished := true,
      fajr := ShortText(today.sehri),
      maghrib := ShortText(today.iftar))
  }

  /** The state written before the table's first day: placeholders for the times,
      the countdown to the first sehri and the before-Ramadan flag. */
  function BeforeRamadanDisplay(diff: nat): DisplayData {
    DisplayData("--:--:--", "--:--:--", UntilRamadan, CountdownOf(diff), false, true, 0, "--:--", "--:--")
  }

  /** The state written for a phase at instant nowAt, given the state before. */
  function Show(prev: DisplayData, p: Phase, nowAt: int): DisplayData
    requires p.BeforeRamadan? ==> nowAt <= p.targetAt
  {
    match p
    case Counting(times, heading, dua, targetAt) =>
      CountingDisplay(times, heading, dua, if targetAt - nowAt > 0 then targetAt - nowAt else 0)
    case Finished(today) => FinishedDisplay(prev, today)
    case BeforeRamadan(targetAt) => BeforeRamadanDisplay(targetAt - nowAt)
    case NoEntry => prev
  }

  /** The state after one tick at local time now, given the timetable and the
      state before it. */
  function Resolve(table: map<string, DayTimes>, prev: DisplayData, now: LocalTime): DisplayData
    requires ValidTime(now)
    requires FirstKey in table
  {
    Show(prev, Choose(table, now), Instant(now.date, now.msOfDay))
  }

  /** Every countdown the resolver picks selects one of the page's duas. */
  lemma ChooseDua(table: map<string, DayTimes>, now: LocalTime)
    requires ValidTime(now) && FirstKey in table
    ensures Choose(table, now).Counting? ==> Choose(table, now).dua < DuaCount
  {
  }

  /** The resolver only counts down to an instant still ahead of now, so the
      clamp to zero never applies and the countdown before Ramadan is positive. */
  lemma ChooseAhead(table: map<string, DayTimes>, now: LocalTime)
    requires ValidTime(now) && FirstKey in table
    ensures var p := Choose(table, now);
      (p.Counting? || p.BeforeRamadan?) ==> Instant(now.date, now.msOfDay) < p.targetAt
  {
    InstantTomorrow(now.date, 0);
  }

  /** The instants of the events the resolver may count down to from a day of the
      table: the day's sehri and iftar and, when tomorrow has an entry, tomorrow's sehri. */
  function Events(table: map<string, DayTimes>, date: Date): set<int>
    requires ValidDate(date)
  {
    var key := DateKey(date);
    var today := if key in table then {Instant(date, ClockMs(table[key].sehri)), Instant(date, ClockMs(table[key].iftar))} else {};
    var tomorrowKey := DateKey(Tomorrow(date));
    var next := if tomorrowKey in table then {Instant(Tomorrow(date), ClockMs(table[tomorrowKey].sehri))} else {};
    today + next
  }

  /** On a day of the table whose sehri comes before its iftar, the target is the
      earliest of the events still ahead, and the state is Finished exactly when
      none is left. */
  lemma ChooseNextEvent(table: map<string, DayTimes>, now: LocalTime)
    requires ValidTime(now) && FirstKey in table && SehriFirst(table)
    requires DateKey(now.date) in table
    ensures var p := Choose(table, now);
      var nowAt := Instant(now.date, now.msOfDay);
      var ev := Events(table, now.date);
      && (p.Counting? || p.Finished?)
      && (p.Finished? <==> forall e :: e in ev ==> e <= nowAt)
      && (p.Counting? ==> p.targetAt in ev && nowAt < p.targetAt
                          && forall e :: e in ev && nowAt < e ==> p.targetAt <= e)
  {
    var key := DateKey(now.date);
    var today := table[key];
    var nowAt := Instant(now.date, now.msOfDay);
    var sehriAt := Instant(now.date, ClockMs(today.sehri));
    var iftarAt := Instant(now.date, ClockMs(today.iftar));
    assert sehriAt < iftarAt;
    var tomorrow := Tomorrow(now.date);
    var tomorrowKey := DateKey(tomorrow);
    var ev := Events(table, now.date);
    if tomorrowKey in table {
      var nextAt := Instant(tomorrow, ClockMs(table[tomorrowKey].sehri));
      InstantTomorrow(now.date, ClockMs(table[tomorrowKey].sehri));
      assert iftarAt < nextAt;
      assert ev == {sehriAt, iftarAt, nextAt};
    } else {
      assert ev == {sehriAt, iftarAt};
    }
  }

  /** The day's pair as the page shows it: both 12-hour texts and both short texts. */
  predicate ShowsPair(r: DisplayData, times: DayTimes) {
    && r.sehri == LongText(times.sehri) && r.iftar == LongText(times.iftar)
    && r.fajr == ShortText(times.sehri) && r.maghrib == ShortText(times.iftar)
  }

  /** A countdown that shows diff milliseconds in whole seconds, with minutes and
      seconds below 60 (which makes it the split of diff). */
  predicate CountsDown(c: Countdown, diff: nat) {
    c.m < 60 && c.s < 60 && CountdownSeconds(c) == diff / SecondMs
  }

  /** Counting down to an instant ahead: the pair shown both ways, the heading and
      dua given, both flags clear, and the time left in whole seconds. */
  lemma ShowCounting(prev: DisplayData, times: DayTimes, heading: Label, dua: nat, targetAt: int, nowAt: int)
    requires nowAt < targetAt
    ensures var r := Show(prev, Counting(times, heading, dua, targetAt), nowAt);
      && ShowsPair(r, times) && r.targetText == heading && r.currentDua == dua
      && !r.isFinished && !r.isBefore
      && CountsDown(r.countdown, targetAt - nowAt)
  {
    ShowCountdown(prev, Counting(times, heading, dua, targetAt), nowAt);
    CountdownSplit(targetAt - nowAt);
  }

  /** The split of diff is the only countdown that shows it. */
  lemma CountsDownUnique(c: Countdown, diff: nat)
    requires CountsDown(c, diff)
    ensures c == CountdownOf(diff)
  {
    var d := CountdownOf(diff);
    CountdownSplit(diff);
    SecondsDetermine(c);
    SecondsDetermine(d);
  }

  /** Hours, minutes and seconds (the last two below 60) are read back from the
      number of seconds they make. */
  lemma SecondsDetermine(c: Countdown)
    requires c.m < 60 && c.s < 60
    ensures CountdownSeconds(c) / 3600 == c.h
    ensures CountdownSeconds(c) % 3600 / 60 == c.m && CountdownSeconds(c) % 60 == c.s
  {
    var rest := c.m * 60 + c.s;
    DivisionOf(CountdownSeconds(c), 3600, c.h, rest);
    DivisionOf(rest, 60, c.m, c.s);
    DivisionOf(CountdownSeconds(c), 60, c.h * 60 + c.m, c.s);
  }

  /** Before today's sehri ends: the countdown to it, with the sehri dua and today's pair. */
  lemma ResolveBeforeSehri(table: map<string, DayTimes>, prev: DisplayData, now: LocalTime)
    requires ValidTime(now) && FirstKey in table
    requires DateKey(now.date) in table
    requires now.msOfDay < ClockMs(table[DateKey(now.date)].sehri)
    ensures var r := Resolve(table, prev, now);
      var today := table[DateKey(now.date)];
      && ShowsPair(r, today) && r.targetText == UntilSehriEnds && r.currentDua == 0
      && !r.isFinished && !r.isBefore
      && CountsDown(r.countdown, ClockMs(today.sehri) - now.msOfDay)
  {
    var today := table[DateKey(now.date)];
    var nowAt := Instant(now.date, now.msOfDay);
    var sehriAt := Instant(now.date, ClockMs(today.sehri));
    assert Choose(table, now) == Counting(today, UntilSehriEnds, 0, sehriAt);
    ShowCounting(prev, today, UntilSehriEnds, 0, sehriAt, nowAt);
  }

  /** Between sehri and iftar: the countdown to iftar, with the iftar dua and today's pair. */
  lemma ResolveFasting(table: map<string, DayTimes>, prev: DisplayData, now: LocalTime)
    requires ValidTime(now) && FirstKey in table
    requires DateKey(now.date) in table
    requires ClockMs(table[DateKey(now.date)].sehri) <= now.msOfDay < ClockMs(table[DateKey(now.date)].iftar)
    ensures var r := Resolve(table, prev, now);
      var today := table[DateKey(now.date)];
      && ShowsPair(r, today) && r.targetText == UntilIftar && r.currentDua == 1
      && !r.isFinished && !r.isBefore
      && CountsDown(r.countdown, ClockMs(today.iftar) - now.msOfDay)
  {
    var today := table[DateKey(now.date)];
    var nowAt := Instant(now.date, now.msOfDay);
    var iftarAt := Instant(now.date, ClockMs(today.iftar));
    assert Choose(table, now) == Counting(today, UntilIftar, 1, iftarAt);
    ShowCounting(prev, today, UntilIftar, 1, iftarAt, nowAt);
  }

  /** After today's iftar, with an entry for tomorrow: the countdown to tomorrow's
      sehri across midnight, with the sehri dua and tomorrow's pair. */
  lemma ResolveNextSehri(table: map<string, DayTimes>, prev: DisplayData, now: LocalTime)
    requires ValidTime(now) && FirstKey in table
    requires DateKey(now.date) in table
    requires ClockMs(table[DateKey(now.date)].sehri) <= now.msOfDay
    requires ClockMs(table[DateKey(now.date)].iftar) <= now.msOfDay
    requires DateKey(Tomorrow(now.date)) in table
    ensures var r := Resolve(table, prev, now);
      var next := table[DateKey(Tomorrow(now.date))];
      && ShowsPair(r, next) && r.targetText == UntilNextSehri && r.currentDua == 0
      && !r.isFinished && !r.isBefore
      && CountsDown(r.countdown, DayMs - now.msOfDay + ClockMs(next.sehri))
  {
    var next := table[DateKey(Tomorrow(now.date))];
    var nowAt := Instant(now.date, now.msOfDay);
    var nextAt := Instant(Tomorrow(now.date), ClockMs(next.sehri));
    InstantTomorrow(now.date, ClockMs(next.sehri));
    assert Choose(table, now) == Counting(next, UntilNextSehri, 0, nextAt);
    ShowCounting(prev, next, UntilNextSehri, 0, nextAt, nowAt);
  }

  /** After the iftar of the table's last day: the previous state with today's pair,
      the closing heading, a zero countdown and the finished flag; the
      before-Ramadan flag and the dua are carried over. */
  lemma ResolveEnded(table: map<string, DayTimes>, prev: DisplayData, now: LocalTime)
    requires ValidTime(now) && FirstKey in table
    requires DateKey(now.date) in table
    requires ClockMs(table[DateKey(now.date)].sehri) <= now.msOfDay
    requires ClockMs(table[DateKey(now.date)].iftar) <= now.msOfDay
    requires DateKey(Tomorrow(now.date)) !in table
    ensures var r := Resolve(table, prev, now);
      && ShowsPair(r, table[DateKey(now.date)]) && r.targetText == RamadanEnded
      && r.countdown == ZeroCountdown && r.isFinished
      && r.isBefore == prev.isBefore && r.currentDua == prev.currentDua
  {
  }

  /** On a date before the table's first day: placeholders for the times, the
      before-Ramadan flag, the sehri dua, and a countdown to the first day's sehri. */
  lemma ResolveBeforeRamadan(table: map<string, DayTimes>, prev: DisplayData, now: LocalTime)
    requires ValidTime(now) && FirstKey in table
    requires DateKey(now.date) !in table
    requires Before(now.date, FirstDate)
    ensures var r := Resolve(table, prev, now);
      var diff := Instant(FirstDate, ClockMs(table[FirstKey].sehri)) - Instant(now.date, now.msOfDay);
      && r.sehri == "--:--:--" && r.iftar == "--:--:--" && r.fajr == "--:--" && r.maghrib == "--:--"
      && r.targetText == UntilRamadan && r.isBefore && !r.isFinished && r.currentDua == 0
      && diff > 0 && CountsDown(r.countdown, diff)
  {
    FirstDateValid();
    DayNumberOrder(now.date, FirstDate);
    InstantOrder(now.date, now.msOfDay, FirstDate, 0);
    var firstAt := Instant(FirstDate, ClockMs(table[FirstKey].sehri));
    var nowAt := Instant(now.date, now.msOfDay);
    assert Choose(table, now) == BeforeRamadan(firstAt);
    assert Resolve(table, prev, now) == BeforeRamadanDisplay(firstAt - nowAt);
    CountdownSplit(firstAt - nowAt);
  }

  /** On a date without an entry that is not before the table, nothing is written. */
  lemma ResolveNoEntry(table: map<string, DayTimes>, prev: DisplayData, now: LocalTime)
    requires ValidTime(now) && FirstKey in table
    requires DateKey(now.date) !in table
    requires !Before(now.date, FirstDate)
    ensures Resolve(table, prev, now) == prev
  {
    FirstDateValid();
    DayNumberOrder(now.date, FirstDate);
    InstantOrder(now.date, now.msOfDay, FirstDate, 0);
  }

  /** A tick keeps the dua index within the page's two duas. */
  lemma ResolveDuaInRange(table: map<string, DayTimes>, prev: DisplayData, now: LocalTime)
    requires ValidTime(now) && FirstKey in table
    requires prev.currentDua < DuaCount
    ensures Resolve(table, prev, now).currentDua < DuaCount
  {
    ChooseDua(table, now);
    ChooseAhead(table, now);
  }

  /** While the target stays the same (a countdown on a day of the table, or the
      countdown to the first sehri before Ramadan), a later tick never shows more
      time left. */
  lemma ResolveCountdownShrinks(table: map<string, DayTimes>, prev1: DisplayData, prev2: DisplayData,
                                now1: LocalTime, now2: LocalTime)
    requires ValidTime(now1) && ValidTime(now2) && FirstKey in table
    requires Choose(table, now1).Counting? || Choose(table, now1).BeforeRamadan?
    requires Choose(table, now1) == Choose(table, now2)
    requires Instant(now1.date, now1.msOfDay) <= Instant(now2.date, now2.msOfDay)
    ensures CountdownSeconds(Resolve(table, prev2, now2).countdown) <= CountdownSeconds(Resolve(table, prev1, now1).countdown)
  {
    var p := Choose(table, now1);
    var at1, at2 := Instant(now1.date, now1.msOfDay), Instant(now2.date, now2.msOfDay);
    ChooseAhead(table, now1);
    ChooseAhead(table, now2);
    ShowShrinks(prev1, prev2, p, at1, at2);
  }

  /** For a fixed counting phase, the countdown written at a later instant is no
      larger than the one written at an earlier instant. */
  lemma ShowShrinks(prev1: DisplayData, prev2: DisplayData, p: Phase, at1: int, at2: int)
    requires (p.Counting? || p.BeforeRamadan?) && at1 <= at2 < p.targetAt
    ensures CountdownSeconds(Show(prev2, p, at2).countdown) <= CountdownSeconds(Show(prev1, p, at1).countdown)
  {
    var d1, d2 := p.targetAt - at1, p.targetAt - at2;
    ShowCountdown(prev1, p, at1);
    ShowCountdown(prev2, p, at2);
    CountdownMonotone(d2, d1);
    assert CountdownSeconds(CountdownOf(d2)) <= CountdownSeconds(CountdownOf(d1));
  }

  /** Counting down to an instant ahead, either phase writes the split of the
      time left. */
  lemma ShowCountdown(prev: DisplayData, p: Phase, nowAt: int)
    requires (p.Counting? || p.BeforeRamadan?) && nowAt < p.targetAt
    ensures Show(prev, p, nowAt).countdown == CountdownOf(p.targetAt - nowAt)
  {
    if p.Counting? {
      assert (if p.targetAt - nowAt > 0 then p.targetAt - nowAt else 0) == p.targetAt - nowAt;
    }
  }

  /** The state cell the page renders, updated once per tick. */
  class Display {
    /** The timetable the page was built with. */
    const table: map<string, DayTimes>
    var displayData: DisplayData

    /** The table has the first day the before-Ramadan countdown reads, and every
        state the page holds selects one of its duas. */
    predicate Valid()
      reads this
    {
      FirstKey in table && displayData.currentDua < DuaCount
    }

    constructor ()
      ensures table == RamadanData
      ensures displayData == InitialDisplay
      ensures Valid()
    {
      table := RamadanData;
      displayData := InitialDisplay;
      FirstDay();
    }

    /** One run of the resolver at local time now: decide, then write. */
    method Tick(now: LocalTime)
      requires ValidTime(now)
      requires Valid()
      modifies this
      ensures displayData == Resolve(table, old(displayData), now)
      ensures Valid()
    {
      var phase := Decide(now);
      ChooseDua(table, now);
      ChooseAhead(table, now);
      Write(phase, Instant(now.date, now.msOfDay));
    }

    /** The resolver's chain of comparisons against today's and tomorrow's entries. */
    method Decide(now: LocalTime) returns (phase: Phase)
      requires ValidTime(now)
      requires Valid()
      ensures phase == Choose(table, now)
    {
      var todayStr := DateKey(now.date);
      var nowAt := Instant(now.date, now.msOfDay);
      if todayStr in table {
        var todayTimes := table[todayStr];
        var sehriAt := Instant(now.date, ClockMs(todayTimes.sehri));
        var iftarAt := Instant(now.date, ClockMs(todayTimes.iftar));
        var targetAt: int;
        var targetText: Label;
        var displaySehri := todayTimes.sehri;
        var displayIftar := todayTimes.iftar;
        var duaIndex := 0;
        if nowAt < sehriAt {
          targetAt := sehriAt;
          targetText := UntilSehriEnds;
          duaIndex := 0;
        } else if nowAt < iftarAt {
          targetAt := iftarAt;
          targetText := UntilIftar;
          duaIndex := 1;
        } else {
          var tomorrow := Tomorrow(now.date);
          var tomorrowStr := DateKey(tomorrow);
          if tomorrowStr in table {
            var tomorrowTimes := table[tomorrowStr];
            targetAt := Instant(tomorrow, ClockMs(tomorrowTimes.sehri));
            targetText := UntilNextSehri;
            displaySehri := tomorrowTimes.sehri;
            displayIftar := tomorrowTimes.iftar;
            duaIndex := 0;
          } else {
            return Finished(todayTimes);
          }
        }
        phase := Counting(DayTimes(displaySehri, displayIftar), targetText, duaIndex, targetAt);
      } else {
        var firstDayAt := Instant(FirstDate, 0);
        if nowAt < firstDayAt {
          phase := BeforeRamadan(Instant(FirstDate, ClockMs(table[FirstKey].sehri)));
        } else {
          phase := NoEntry;
        }
      }
    }

    /** The state update for a phase at instant nowAt. */
    method Write(phase: Phase, nowAt: int)
      requires phase.BeforeRamadan? ==> nowAt <= phase.targetAt
      modifies this
      ensures displayData == Show(old(displayData), phase, nowAt)
    {
      if phase.Counting? {
        var diff := phase.targetAt - nowAt;
        WriteCountdown(phase.times, phase.heading, phase.dua, if diff > 0 then diff else 0);
      } else if phase.Finished? {
        WriteFinished(phase.today);
      } else if phase.BeforeRamadan? {
        WriteBeforeRamadan(phase.targetAt - nowAt);
      }
    }

    /** Writes a countdown state: the hours, minutes and seconds are the floors of
        the quotients of the difference. */
    method WriteCountdown(times: DayTimes, targetText: Label, duaIndex: nat, diff: nat)
      modifies this
      ensures displayData == CountingDisplay(times, targetText, duaIndex, diff)
    {
      var h := diff / HourMs;
      var m := diff % HourMs / MinuteMs;
      var s := diff % MinuteMs / SecondMs;
      displayData := DisplayData(
        LongText(times.sehri),
        LongText(times.iftar),
        targetText,
        Countdown(h, m, s),
        false,
        false,
        duaIndex,
        ShortText(times.sehri),
        ShortText(times.iftar));
    }

    /** Writes the finished state over the previous one. */
    method WriteFinished(todayTimes: DayTimes)
      modifies this
      ensures displayData == FinishedDisplay(old(displayData), todayTimes)
    {
      displayData := displayData.(
        sehri := LongText(todayTimes.sehri),
        iftar := LongText(todayTimes.iftar),
        targetText := RamadanEnded,
        countdown := Countdown(0, 0, 0),
        isFinished := true,
        fajr := ShortText(todayTimes.sehri),
        maghrib := ShortText(todayTimes.iftar));
    }

    /** Writes the before-Ramadan state: the difference is not clamped here. */
    method WriteBeforeRamadan(diff: nat)
      modifies this
      ensures displayData == BeforeRamadanDisplay(diff)
    {
      var h := diff / HourMs;
      var m := diff % HourMs / MinuteMs;
      var s := diff % MinuteMs / SecondMs;
      displayData := DisplayData(
        "--:--:--",
        "--:--:--",
        UntilRamadan,
        Countdown(h, m, s),
        false,
        true,
        0,
        "--:--",
        "--:--");
    }
  }
}
