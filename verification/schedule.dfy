/** The fixed 30-day sehri/iftar timetable for Ramadan 1447 (19 February to
    20 March 2026) and the clock arithmetic on its entries. */
module Schedule {
  import opened Digits
  import opened TimeFormat
  import opened Calendar

  /** Milliseconds in a second, a minute (60 s), an hour (60 min) and a day (24 h). */
  const SecondMs: nat := 1000
  const MinuteMs: nat := 60000
  const HourMs: nat := 3600000
  const DayMs: nat := 86400000

  /** A time of day as the table writes it, "HH:MM:SS", held as its three fields. */
  datatype Clock = Clock(hour: nat, minute: nat, second: nat)

  type ClockTime = c: Clock | c.hour < 24 && c.minute < 60 && c.second < 60 witness Clock(0, 0, 0)

  /** The table's text for a clock time: each field zero-padded to two digits. */
  function ClockText(c: ClockTime): (t: string)
    ensures IsClockString(t)
  {
    TwoDigitsValue(c.hour);
    TwoDigitsValue(c.minute);
    TwoDigitsValue(c.second);
    ClockLayout(TwoDigits(c.hour), TwoDigits(c.minute), TwoDigits(c.second));
    TwoDigits(c.hour) + ":" + TwoDigits(c.minute) + ":" + TwoDigits(c.second)
  }

  lemma ClockLayout(hh: string, mm: string, ss: string)
    requires |hh| == 2 && |mm| == 2 && |ss| == 2
    requires AllDigits(hh) && AllDigits(mm) && AllDigits(ss)
    ensures var t := hh + ":" + mm + ":" + ss;
      IsClockString(t) && t[..2] == hh && t[3..5] == mm && t[6..] == ss
  {
    var t := hh + ":" + mm + ":" + ss;
    assert t[0] == hh[0] && t[1] == hh[1];
    assert t[3] == mm[0] && t[4] == mm[1];
    assert t[6] == ss[0] && t[7] == ss[1];
  }

  /** The text's fields read back as the clock's fields, which is what parsing it
      (parseInt, or new Date with the text as its time part) recovers. */
  lemma ClockTextFields(c: ClockTime)
    ensures var t := ClockText(c);
      && HourOf(t) == c.hour
      && AllDigits(t[3..5]) && ParseDecimal(t[3..5]) == c.minute
      && AllDigits(t[6..]) && ParseDecimal(t[6..]) == c.second
  {
    TwoDigitsValue(c.hour);
    TwoDigitsValue(c.minute);
    TwoDigitsValue(c.second);
    ClockLayout(TwoDigits(c.hour), TwoDigits(c.minute), TwoDigits(c.second));
  }

  /** A table time as the page shows it in 12-hour form: formatTo12Hour of its text. */
  function LongText(c: ClockTime): string {
    FormatTo12Hour(ClockText(c))
  }

  /** A table time as the page shows it in short form: formatShortTime of its text. */
  function ShortText(c: ClockTime): string {
    FormatShortTime(ClockText(c))
  }

  /** The two forms of a table time: the padded 12-hour hour, the minutes (and, in
      the long form, the seconds) padded to two digits, and the meridiem. */
  lemma ClockTextForms(c: ClockTime)
    ensures LongText(c) ==
      TwoDigits(TwelveHour(c.hour)) + ":" + TwoDigits(c.minute) + ":" + TwoDigits(c.second) + " " + Meridiem(c.hour)
    ensures ShortText(c) == TwoDigits(TwelveHour(c.hour)) + ":" + TwoDigits(c.minute) + " " + Meridiem(c.hour)
  {
    var t := ClockText(c);
    TwoDigitsValue(c.hour);
    TwoDigitsValue(c.minute);
    TwoDigitsValue(c.second);
    ClockLayout(TwoDigits(c.hour), TwoDigits(c.minute), TwoDigits(c.second));
    FormatFields(t);
  }

  /** Milliseconds from local midnight to the clock time: the offset at which
      new Date(`${date}T${time}`) falls within its day. */
  function ClockMs(c: ClockTime): (ms: nat)
    ensures ms < DayMs
  {
    (c.hour * 3600 + c.minute * 60 + c.second) * SecondMs
  }

  /** The clock time a whole-second offset into the day falls on. */
  function ClockAt(ms: nat): Clock {
    Clock(ms / HourMs, ms % HourMs / MinuteMs, ms % MinuteMs / SecondMs)
  }

  /** A clock time is recovered from its offset, so offsets compare clock times faithfully. */
  lemma ClockAtClockMs(c: ClockTime)
    ensures ClockAt(ClockMs(c)) == c
  {
    var ms := ClockMs(c);
    var rest := c.minute * MinuteMs + c.second * SecondMs;
    assert ms == c.hour * HourMs + rest && rest < HourMs;
    assert ms / HourMs == c.hour && ms % HourMs == rest;
    assert rest / MinuteMs == c.minute;
    assert ms % MinuteMs == c.second * SecondMs;
  }

  /** One day's entry: when sehri ends (shown as the fajr time) and when iftar
      begins (shown as the maghrib time). */
  datatype DayTimes = DayTimes(sehri: ClockTime, iftar: ClockTime)

  /** The timetable, keyed by "YYYY-MM-DD". */
  const RamadanData: map<string, DayTimes> :=
    map[
      "2026-02-19" := DayTimes(Clock(5, 23, 17), Clock(17, 57, 6)),
      "2026-02-20" := DayTimes(Clock(5, 22, 17), Clock(17, 57, 59)),
      "2026-02-21" := DayTimes(Clock(5, 21, 16), Clock(17, 58, 51)),
      "2026-02-22" := DayTimes(Clock(5, 20, 13), Clock(17, 59, 43)),
      "2026-02-23" := DayTimes(Clock(5, 19, 10), Clock(18, 0, 34)),
      "2026-02-24" := DayTimes(Clock(5, 18, 5), Clock(18, 1, 25)),
      "2026-02-25" := DayTimes(Clock(5, 16, 59), Clock(18, 2, 16)),
      "2026-02-26" := DayTimes(Clock(5, 15, 52), Clock(18, 3, 6)),
      "2026-02-27" := DayTimes(Clock(5, 14, 44), Clock(18, 3, 56)),
      "2026-02-28" := DayTimes(Clock(5, 13, 35), Clock(18, 4, 46)),
      "2026-03-01" := DayTimes(Clock(5, 12, 5), Clock(18, 5, 47)),
      "2026-03-02" := DayTimes(Clock(5, 10, 53), Clock(18, 6, 36)),
      "2026-03-03" := DayTimes(Clock(5, 9, 41), Clock(18, 7, 25)),
      "2026-03-04" := DayTimes(Clock(5, 8, 28), Clock(18, 8, 13)),
      "2026-03-05" := DayTimes(Clock(5, 7, 13), Clock(18, 9, 1)),
      "2026-03-06" := DayTimes(Clock(5, 5, 58), Clock(18, 9, 49)),
      "2026-03-07" := DayTimes(Clock(5, 4, 43), Clock(18, 10, 36)),
      "2026-03-08" := DayTimes(Clock(5, 3, 26), Clock(18, 11, 24)),
      "2026-03-09" := DayTimes(Clock(5, 2, 9), Clock(18, 12, 10)),
      "2026-03-10" := DayTimes(Clock(5, 0, 50), Clock(18, 12, 57)),
      "2026-03-11" := DayTimes(Clock(4, 59, 31), Clock(18, 13, 43)),
      "2026-03-12" := DayTimes(Clock(4, 58, 12), Clock(18, 14, 29)),
      "2026-03-13" := DayTimes(Clock(4, 56, 51), Clock(18, 15, 15)),
      "2026-03-14" := DayTimes(Clock(4, 55, 30), Clock(18, 16, 0)),
      "2026-03-15" := DayTimes(Clock(4, 54, 9), Clock(18, 16, 46)),
      "2026-03-16" := DayTimes(Clock(4, 52, 47), Clock(18, 17, 31)),
      "2026-03-17" := DayTimes(Clock(4, 51, 24), Clock(18, 18, 16)),
      "2026-03-18" := DayTimes(Clock(4, 50, 0), Clock(18, 19, 1)),
      "2026-03-19" := DayTimes(Clock(4, 48, 37), Clock(18, 19, 46)),
      "2026-03-20" := DayTimes(Clock(4, 47, 12), Clock(18, 20, 31))
    ]

  /** The first day of the table and its key. */
  const FirstDate: Date := Date(2026, 2, 19)
  const FirstKey: string := "2026-02-19"

  /** A timetable in which every day's sehri ends before its iftar begins, so the
      parts of a day (before sehri, the fast, after iftar) follow each other. */
  predicate SehriFirst(table: map<string, DayTimes>) {
    forall k :: k in table ==> ClockMs(table[k].sehri) < ClockMs(table[k].iftar)
  }

  lemma RamadanDataSehriFirst()
    ensures SehriFirst(RamadanData)
  {
  }

  lemma FirstDateValid()
    ensures ValidDate(FirstDate)
  {
  }

  /** The first day's key is in the table and names the first date. */
  lemma FirstDay()
    ensures ValidDate(FirstDate)
    ensures FirstKey in RamadanData
    ensures DateKey(FirstDate) == FirstKey
  {
    Year2026();
    TwoDigitsChars(2);
    TwoDigitsChars(19);
  }

  lemma Year2026()
    ensures IntString(2026) == "2026"
  {
    assert DecimalString(2) == "2";
    assert DecimalString(20) == "20";
    assert DecimalString(202) == "202";
  }
}
