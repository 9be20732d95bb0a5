/** The two time formatters: a 24-hour "HH:MM:SS" string shown as
    "hh:mm:ss AM/PM" or as "hh:mm AM/PM". */
module TimeFormat {
  import opened Digits

  /** A 24-hour clock string: two digits, ':', two digits, ':', two digits. */
  predicate IsClockString(t: string) {
    && |t| == 8
    && t[2] == ':' && t[5] == ':'
    && IsDigit(t[0]) && IsDigit(t[1])
    && IsDigit(t[3]) && IsDigit(t[4])
    && IsDigit(t[6]) && IsDigit(t[7])
  }

  /** A formatter input: empty (the placeholder case) or a clock string. */
  predicate IsFormatterInput(t: string) {
    t == "" || IsClockString(t)
  }

  /** The hour the source reads with parseInt from the first field. */
  function HourOf(t: string): nat
    requires IsClockString(t)
  {
    ParseDecimal(t[..2])
  }

  /** s.split(sep): the pieces between the separators, in order. */
  function Split(s: string, sep: char): (r: seq<string>)
    ensures |r| >= 1
  {
    if s == [] then
      [""]
    else
      var rest := Split(s[1..], sep);
      if s[0] == sep then [""] + rest else [[s[0]] + rest[0]] + rest[1..]
  }

  /** Joining the pieces of a split with the separator gives the string back. */
  function Join(parts: seq<string>, sep: char): string
    requires |parts| >= 1
  {
    if |parts| == 1 then parts[0] else parts[0] + [sep] + Join(parts[1..], sep)
  }

  lemma {:induction false} SplitJoin(s: string, sep: char)
    ensures Join(Split(s, sep), sep) == s
    ensures forall i :: 0 <= i < |Split(s, sep)| ==> sep !in Split(s, sep)[i]
  {
    if s != [] {
      SplitJoin(s[1..], sep);
      var rest := Split(s[1..], sep);
      if s[0] == sep {
        assert Split(s, sep)[1..] == rest;
        assert s == [sep] + s[1..];
      } else {
        var parts := Split(s, sep);
        assert parts[1..] == rest[1..];
        if |rest| == 1 {
          assert s == [s[0]] + rest[0];
        } else {
          assert rest[1..][1..] == rest[2..];
          assert Join(rest, sep) == rest[0] + [sep] + Join(rest[1..], sep);
          assert s == [s[0]] + rest[0] + [sep] + Join(rest[1..], sep);
        }
        forall i | 0 <= i < |parts| ensures sep !in parts[i] {
          if i > 0 {
            assert parts[i] == rest[i];
          }
        }
      }
    }
  }

  lemma {:induction false} SplitNoSeparator(a: string, sep: char)
    requires sep !in a
    ensures Split(a, sep) == [a]
  {
    if a != [] {
      SplitNoSeparator(a[1..], sep);
      assert [a[0]] + a[1..] == a;
    }
  }

  lemma {:induction false} SplitField(a: string, sep: char, rest: string)
    requires sep !in a
    ensures Split(a + [sep] + rest, sep) == [a] + Split(rest, sep)
  {
    var s := a + [sep] + rest;
    if a == [] {
      assert s[1..] == rest;
    } else {
      SplitField(a[1..], sep, rest);
      assert s[1..] == a[1..] + [sep] + rest;
      assert [a[0]] + a[1..] == a;
    }
  }

  /** Splitting a clock string on ':' gives its hour, minute and second fields. */
  lemma SplitClock(t: string)
    requires IsClockString(t)
    ensures Split(t, ':') == [t[..2], t[3..5], t[6..]]
    ensures AllDigits(t[..2]) && AllDigits(t[3..5]) && AllDigits(t[6..])
  {
    assert t == t[..2] + [':'] + (t[3..5] + [':'] + t[6..]);
    assert ':' !in t[..2] by { assert t[..2] == [t[0], t[1]]; }
    assert ':' !in t[3..5] by { assert t[3..5] == [t[3], t[4]]; }
    assert ':' !in t[6..] by { assert t[6..] == [t[6], t[7]]; }
    SplitField(t[..2], ':', t[3..5] + [':'] + t[6..]);
    SplitField(t[3..5], ':', t[6..]);
    SplitNoSeparator(t[6..], ':');
  }

  /** The 12-hour clock hour: 0 and 12 show as 12, 13..23 as 1..11. */
  function TwelveHour(hours: nat): nat {
    var h := hours % 12;
    if h != 0 then h else 12
  }

  /** The 12-hour hour lies in 1..12 and agrees with the 24-hour hour modulo 12. */
  lemma TwelveHourRange(hours: nat)
    ensures 1 <= TwelveHour(hours) <= 12
    ensures TwelveHour(hours) % 12 == hours % 12
  {
    if hours % 12 == 0 {
      assert TwelveHour(hours) == 12;
    }
  }

  /** The hour mapping case by case: midnight is 12 AM, noon 12 PM, the afternoon
      hours lose 12, the morning hours are kept. */
  lemma TwelveHourCases(hours: nat)
    requires hours < 24
    ensures hours == 0 ==> TwelveHour(hours) == 12 && Meridiem(hours) == "AM"
    ensures 1 <= hours <= 11 ==> TwelveHour(hours) == hours && Meridiem(hours) == "AM"
    ensures hours == 12 ==> TwelveHour(hours) == 12 && Meridiem(hours) == "PM"
    ensures 13 <= hours ==> TwelveHour(hours) == hours - 12 && Meridiem(hours) == "PM"
  {
  }

  function Meridiem(hours: nat): string {
    if hours >= 12 then "PM" else "AM"
  }

  /** formatTo12Hour: "--:--:--" for the empty string, otherwise the fields of the
      split string laid out as "hh:mm:ss AM" or "hh:mm:ss PM". */
  function FormatTo12Hour(t: string): string
    requires IsFormatterInput(t)
  {
    if t == "" then
      "--:--:--"
    else
      SplitClock(t);
      TwelveHourText(Split(t, ':'))
  }

  /** The part of formatTo12Hour after the split: [hoursStr, minutes, seconds]. */
  function TwelveHourText(fields: seq<string>): string
    requires |fields| >= 3 && AllDigits(fields[0])
  {
    var hours := ParseDecimal(fields[0]);
    TwoDigits(TwelveHour(hours)) + ":" + fields[1] + ":" + fields[2] + " " + Meridiem(hours)
  }

  /** formatShortTime: "--:--" for the empty string, otherwise "hh:mm AM" or "hh:mm PM". */
  function FormatShortTime(t: string): string
    requires IsFormatterInput(t)
  {
    if t == "" then
      "--:--"
    else
      SplitClock(t);
      ShortTimeText(Split(t, ':'))
  }

  /** The part of formatShortTime after the split: [hoursStr, minutes]. */
  function ShortTimeText(fields: seq<string>): string
    requires |fields| >= 2 && AllDigits(fields[0])
  {
    var hours := ParseDecimal(fields[0]);
    TwoDigits(TwelveHour(hours)) + ":" + fields[1] + " " + Meridiem(hours)
  }

  /** Both formatters see the three fields of a clock string. */
  lemma FormatFields(t: string)
    requires IsClockString(t)
    ensures |t[..2]| == 2 && AllDigits(t[..2]) && HourOf(t) == ParseDecimal(t[..2])
    ensures FormatTo12Hour(t) == TwelveHourText([t[..2], t[3..5], t[6..]])
    ensures FormatShortTime(t) == ShortTimeText([t[..2], t[3..5], t[6..]])
  {
    SplitClock(t);
  }

  /** Character by character: the padded 12-hour hour, ':', the minutes, ':',
      the seconds, a space and the meridiem. */
  lemma TwelveHourTextLayout(hh: string, mm: string, ss: string)
    requires |hh| == 2 && AllDigits(hh) && |mm| == 2 && |ss| == 2
    ensures var hours := ParseDecimal(hh);
      var p := TwoDigits(TwelveHour(hours));
      var r := TwelveHourText([hh, mm, ss]);
      && |p| == 2 && AllDigits(p) && ParseDecimal(p) == TwelveHour(hours)
      && |r| == 11
      && r[..2] == p && r[2] == ':' && r[3..5] == mm && r[5] == ':' && r[6..8] == ss
      && r[8] == ' ' && r[9..] == Meridiem(hours)
  {
    var hours := ParseDecimal(hh);
    PaddedTwelveHour(hours);
    Concatenation(TwoDigits(TwelveHour(hours)), mm, ss, Meridiem(hours));
  }

  /** The padded 12-hour hour is two digits that read back as the 12-hour hour. */
  lemma PaddedTwelveHour(hours: nat)
    ensures var p := TwoDigits(TwelveHour(hours));
      |p| == 2 && AllDigits(p) && ParseDecimal(p) == TwelveHour(hours)
  {
    TwelveHourRange(hours);
    TwoDigitsValue(TwelveHour(hours));
  }

  lemma Concatenation(p: string, mm: string, ss: string, m: string)
    requires |p| == 2 && |mm| == 2 && |ss| == 2 && |m| == 2
    ensures var r := p + ":" + mm + ":" + ss + " " + m;
      && |r| == 11
      && r[..2] == p && r[2] == ':' && r[3..5] == mm && r[5] == ':' && r[6..8] == ss
      && r[8] == ' ' && r[9..] == m
  {
  }

  /** What a 12-hour string shows: a two-digit hour from 1 to 12 congruent to the
      24-hour hour modulo 12, the minutes and seconds copied verbatim, and PM
      exactly when the 24-hour hour is 12 or more. */
  lemma FormatTo12HourMeaning(t: string)
    requires IsClockString(t)
    ensures var r := FormatTo12Hour(t);
      && |r| == 11
      && AllDigits(r[..2])
      && 1 <= ParseDecimal(r[..2]) <= 12
      && ParseDecimal(r[..2]) % 12 == HourOf(t) % 12
      && r[2] == ':' && r[3..5] == t[3..5] && r[5] == ':' && r[6..8] == t[6..8]
      && r[8] == ' ' && r[9..] == (if HourOf(t) >= 12 then "PM" else "AM")
  {
    FormatFields(t);
    TwelveHourTextLayout(t[..2], t[3..5], t[6..]);
    TwelveHourRange(HourOf(t));
  }

  /** The placeholders appear exactly for the empty input. */
  lemma FormatPlaceholders(t: string)
    requires IsFormatterInput(t)
    ensures FormatTo12Hour(t) == "--:--:--" <==> t == ""
    ensures FormatShortTime(t) == "--:--" <==> t == ""
  {
    if t != "" {
      FormatFields(t);
      TwelveHourTextLayout(t[..2], t[3..5], t[6..]);
      ShortIsLongWithoutSeconds(t);
      var r := FormatTo12Hour(t);
      assert IsDigit(r[..2][0]);
      assert r[0] != '-';
      assert FormatShortTime(t)[0] == r[0];
    }
  }

  /** The short form is the long form with its ":ss" field removed, placeholder included. */
  lemma ShortIsLongWithoutSeconds(t: string)
    requires IsFormatterInput(t)
    ensures var long := FormatTo12Hour(t);
      |long| >= 8 && FormatShortTime(t) == long[..5] + long[8..]
  {
    if t == "" {
      assert "--:--:--"[..5] == "--:--";
    } else {
      FormatFields(t);
      var hh, mm, ss := t[..2], t[3..5], t[6..];
      var hours := ParseDecimal(hh);
      var p := TwoDigits(TwelveHour(hours));
      TwelveHourTextLayout(hh, mm, ss);
      var long := TwelveHourText([hh, mm, ss]);
      assert long[..5] == p + ":" + mm;
      assert long[8..] == " " + Meridiem(hours);
    }
  }

  /** A string in the 12-hour shape formatTo12Hour produces. */
  predicate IsTwelveHourString(r: string) {
    && |r| == 11
    && AllDigits(r[..2])
    && r[8] == ' '
    && (r[9..] == "AM" || r[9..] == "PM")
  }

  /** Reads a 12-hour string back into 24-hour form. */
  function To24Hour(r: string): string
    requires IsTwelveHourString(r)
  {
    var hours := ParseDecimal(r[..2]) % 12 + (if r[9..] == "PM" then 12 else 0);
    TwoDigits(hours) + r[2..8]
  }

  /** The 24-hour hour is recovered from the 12-hour hour and the meridiem. */
  lemma HourFromTwelve(hours: nat, h12: nat, pm: bool)
    requires hours < 24 && h12 % 12 == hours % 12 && pm == (hours >= 12)
    ensures h12 % 12 + (if pm then 12 else 0) == hours
  {
  }

  /** Formatting loses nothing for real clock times: reading the 12-hour form back
      gives the original 24-hour string. */
  lemma TwelveHourRoundTrip(t: string)
    requires IsClockString(t) && HourOf(t) < 24
    ensures IsTwelveHourString(FormatTo12Hour(t))
    ensures To24Hour(FormatTo12Hour(t)) == t
  {
    var r := FormatTo12Hour(t);
    FormatTo12HourMeaning(t);
    var hour := HourOf(t);
    assert ParseDecimal(r[..2]) % 12 + (if r[9..] == "PM" then 12 else 0) == hour by {
      var pm := hour >= 12;
      assert (r[9..] == "PM") == pm by {
        assert "AM"[0] != "PM"[0];
      }
      HourFromTwelve(hour, ParseDecimal(r[..2]), pm);
    }
    assert TwoDigits(hour) == t[..2] by {
      FormatFields(t);
      TwoDigitsOfParse(t[..2]);
    }
    assert r[2..8] == t[2..8] by {
      MiddleFields(r, t);
    }
    assert t == t[..2] + t[2..8];
  }

  /** Two strings that agree on ':mm:ss' positions agree on the slice holding them. */
  lemma MiddleFields(r: string, t: string)
    requires |r| >= 8 && |t| >= 8
    requires r[2] == t[2] && r[3..5] == t[3..5] && r[5] == t[5] && r[6..8] == t[6..8]
    ensures r[2..8] == t[2..8]
  {
    assert r[3] == t[3] && r[4] == t[4];
    assert r[6] == t[6] && r[7] == t[7];
  }

  /** A clock string given character by character, formatted. */
  lemma FormatExample(h1: char, h2: char, m1: char, m2: char, s1: char, s2: char,
                      p1: char, p2: char, ampm: string)
    requires IsDigit(h1) && IsDigit(h2) && IsDigit(m1) && IsDigit(m2) && IsDigit(s1) && IsDigit(s2)
    requires IsDigit(p1) && IsDigit(p2)
    requires DigitValue(p1) * 10 + DigitValue(p2) == TwelveHour(DigitValue(h1) * 10 + DigitValue(h2))
    requires ampm == Meridiem(DigitValue(h1) * 10 + DigitValue(h2))
    ensures FormatTo12Hour([h1, h2, ':', m1, m2, ':', s1, s2])
         == [p1, p2, ':', m1, m2, ':', s1, s2, ' '] + ampm
  {
    var t := [h1, h2, ':', m1, m2, ':', s1, s2];
    ClockFieldsOf(h1, h2, m1, m2, s1, s2);
    TwelveHourTextOfDigits(h1, h2, [m1, m2], [s1, s2], p1, p2, ampm);
    assert [p1, p2] + ":" + [m1, m2] + ":" + [s1, s2] + " " + ampm
        == [p1, p2, ':', m1, m2, ':', s1, s2, ' '] + ampm;
  }

  lemma ClockFieldsOf(h1: char, h2: char, m1: char, m2: char, s1: char, s2: char)
    requires IsDigit(h1) && IsDigit(h2) && IsDigit(m1) && IsDigit(m2) && IsDigit(s1) && IsDigit(s2)
    ensures FormatTo12Hour([h1, h2, ':', m1, m2, ':', s1, s2])
         == TwelveHourText([[h1, h2], [m1, m2], [s1, s2]])
  {
    var t := [h1, h2, ':', m1, m2, ':', s1, s2];
    FormatFields(t);
    assert t[..2] == [h1, h2] && t[3..5] == [m1, m2] && t[6..] == [s1, s2];
  }

  lemma TwelveHourTextOfDigits(h1: char, h2: char, mm: string, ss: string,
                               p1: char, p2: char, ampm: string)
    requires IsDigit(h1) && IsDigit(h2) && IsDigit(p1) && IsDigit(p2)
    requires DigitValue(p1) * 10 + DigitValue(p2) == TwelveHour(DigitValue(h1) * 10 + DigitValue(h2))
    requires ampm == Meridiem(DigitValue(h1) * 10 + DigitValue(h2))
    ensures TwelveHourText([[h1, h2], mm, ss]) == [p1, p2] + ":" + mm + ":" + ss + " " + ampm
  {
    var hours := DigitValue(h1) * 10 + DigitValue(h2);
    assert ParseDecimal([h1, h2]) == hours by {
      ParseTwo([h1, h2]);
    }
    assert TwoDigits(TwelveHour(hours)) == [p1, p2] by {
      ParseTwo([p1, p2]);
      TwoDigitsOfParse([p1, p2]);
    }
    TwelveHourTextOf([p1, p2], [h1, h2], mm, ss, ampm);
  }

  lemma TwelveHourTextOf(p: string, hh: string, mm: string, ss: string, ampm: string)
    requires AllDigits(hh) && TwoDigits(TwelveHour(ParseDecimal(hh))) == p
    requires ampm == Meridiem(ParseDecimal(hh))
    ensures TwelveHourText([hh, mm, ss]) == p + ":" + mm + ":" + ss + " " + ampm
  {
  }

  /** Midnight shows as 12 AM. */
  lemma FormatMidnight()
    ensures FormatTo12Hour("00:00:00") == "12:00:00 AM"
  {
    FormatExample('0', '0', '0', '0', '0', '0', '1', '2', "AM");
  }

  /** Noon shows as 12 PM. */
  lemma FormatNoon()
    ensures FormatTo12Hour("12:00:00") == "12:00:00 PM"
  {
    FormatExample('1', '2', '0', '0', '0', '0', '1', '2', "PM");
  }

  /** The first day's iftar time. */
  lemma FormatAfternoon()
    ensures FormatTo12Hour("17:57:06") == "05:57:06 PM"
  {
    FormatExample('1', '7', '5', '7', '0', '6', '0', '5', "PM");
  }

  /** The first day's sehri time. */
  lemma FormatMorning()
    ensures FormatTo12Hour("05:23:17") == "05:23:17 AM"
  {
    FormatExample('0', '5', '2', '3', '1', '7', '0', '5', "AM");
  }

  /** The short form of the first day's iftar time. */
  lemma FormatShortAfternoon()
    ensures FormatShortTime("17:57:06") == "05:57 PM"
  {
    FormatAfternoon();
    ShortIsLongWithoutSeconds("17:57:06");
    assert "05:57:06 PM"[..5] + "05:57:06 PM"[8..] == "05:57 PM";
  }
}
