/**
  HTTP dates character by character: the fixed layout of the printed form, the days of the week, the example of RFC 9110
  in its three forms, and what the parser makes of fields that no printer writes.
 */
module HttpDateLayout {
  import opened Wrappers
  import opened Text
  import opened Calendar
  import opened HttpDate

  // ---- The printed form ----

  lemma TwoDigits(n: nat)
    requires n < 100
    ensures |Padded(n, 2)| == 2 && DigitsValue(Padded(n, 2)) == n
  {
    DecimalValue(n);
    if n < 10 {
      LeadingZeros(1, Decimal(n));
    }
  }

  lemma FourDigits(n: nat)
    requires n < 10000
    ensures |Padded(n, 4)| == 4 && DigitsValue(Padded(n, 4)) == n
  {
    DecimalValue(n);
    var s := Decimal(n);
    DecimalLength(n);
    if |s| < 4 {
      LeadingZeros(4 - |s|, s);
    }
  }

  lemma DecimalLength(n: nat)
    requires n < 10000
    ensures |Decimal(n)| == if n < 10 then 1 else if n < 100 then 2 else if n < 1000 then 3 else 4
  {
    if 10 <= n {
      assert |Decimal(n)| == |Decimal(n / 10)| + 1;
      if 100 <= n {
        assert |Decimal(n / 10)| == |Decimal(n / 10 / 10)| + 1;
        if 1000 <= n {
          assert |Decimal(n / 10 / 10)| == |Decimal(n / 10 / 10 / 10)| + 1;
        }
      }
    }
  }

  /** The name of the day after the day of a name. */
  function NameAfter(day: string): string {
    match day
    case "Mon" => "Tue"
    case "Tue" => "Wed"
    case "Wed" => "Thu"
    case "Thu" => "Fri"
    case "Fri" => "Sat"
    case "Sat" => "Sun"
    case _ => "Mon"
  }

  /** The day of the week `n` days after 1 January 1970, a Thursday, found by counting. */
  function Weekday(n: nat): string {
    if n == 0 then "Thu" else NameAfter(Weekday(n - 1))
  }

  lemma {:induction false} WeekdayIs(n: nat)
    ensures Weekday(n) == DAY_NAMES[(n + 4) % 7]
  {
    if n > 0 {
      WeekdayIs(n - 1);
      assert (n + 3) % 7 == 0 || (n + 3) % 7 == 1 || (n + 3) % 7 == 2 || (n + 3) % 7 == 3 || (n + 3) % 7 == 4
          || (n + 3) % 7 == 5 || (n + 3) % 7 == 6;
      assert (n + 4) % 7 == if (n + 3) % 7 == 6 then 0 else (n + 3) % 7 + 1;
    }
  }

  /** The fields that section 5.6.7 of RFC 9110 wants at the positions of an IMF-fixdate. */
  predicate IsLayout(s: string, weekday: string, date: Date, timeOfDay: nat)
    requires 1 <= date.month <= 12
  {
    var months := ["Jan", "Feb", "Mar", "Apr", "May", "Jun", "Jul", "Aug", "Sep", "Oct", "Nov", "Dec"];
    && |s| == 29
    && s[..3] == weekday && s[3..5] == ", " && s[7] == ' ' && s[8..11] == months[date.month - 1] && s[11] == ' '
    && s[16] == ' ' && s[19] == ':' && s[22] == ':' && s[25..] == " GMT"
    && IsNumeral(s[5..7], date.day) && IsNumeral(s[12..16], date.year)
    && IsNumeral(s[17..19], timeOfDay / 3600) && IsNumeral(s[20..22], timeOfDay / 60 % 60)
    && IsNumeral(s[23..25], timeOfDay % 60)
  }

  predicate IsNumeral(s: string, n: int) {
    AllDigits(s) && DigitsValue(s) == n
  }

  /** A word of `n` characters, the separator behind it, and what follows. */
  lemma WordAt(s: string, at: nat, word: string, separator: string, rest: string)
    requires at <= |s| && s[at..] == word + separator + rest
    ensures var n, m := at + |word|, at + |word| + |separator|;
            m <= |s| && s[at..n] == word && s[n..m] == separator && s[m..] == rest
  {
    var tail := word + separator + rest;
    assert tail[..|word|] == word && tail[|word|..|word| + |separator|] == separator;
    assert tail[|word| + |separator|..] == rest;
    assert s[at..at + |word|] == tail[..|word|];
    assert s[at + |word|..at + |word| + |separator|] == tail[|word|..|word| + |separator|];
    assert s[at + |word| + |separator|..] == tail[|word| + |separator|..];
  }

  lemma Positions(dow: string, day: string, month: string, year: string, h: string, m: string, sec: string)
    requires |dow| == 3 && |day| == 2 && |month| == 3 && |year| == 4 && |h| == 2 && |m| == 2 && |sec| == 2
    ensures var s := ImfText(dow, day, month, year, h + ":" + m + ":" + sec);
            && |s| == 29
            && s[..3] == dow && s[3..5] == ", " && s[5..7] == day && s[7] == ' ' && s[8..11] == month && s[11] == ' '
            && s[12..16] == year && s[16] == ' ' && s[17..19] == h && s[19] == ':' && s[20..22] == m && s[22] == ':'
            && s[23..25] == sec && s[25..] == " GMT"
  {
    var clock := h + ":" + m + ":" + sec;
    var s := ImfText(dow, day, month, year, clock);
    assert s[0..] == s;
    WordAt(s, 0, dow, ", ", day + " " + (month + " " + (year + " " + (clock + " GMT"))));
    WordAt(s, 5, day, " ", month + " " + (year + " " + (clock + " GMT")));
    WordAt(s, 8, month, " ", year + " " + (clock + " GMT"));
    WordAt(s, 12, year, " ", clock + " GMT");
    ClockParts(h, m, sec);
    WordAt(s, 17, h, ":", m + ":" + (sec + " GMT"));
    WordAt(s, 20, m, ":", sec + " GMT");
    assert sec + " GMT" == sec + " GMT" + "";
    WordAt(s, 23, sec, " GMT", "");
    assert s[7] == s[7..8][0] && s[11] == s[11..12][0] && s[16] == s[16..17][0];
    assert s[19] == s[19..20][0] && s[22] == s[22..23][0];
    hide ImfText;
  }

  lemma ClockParts(h: string, m: string, sec: string)
    ensures h + ":" + m + ":" + sec + " GMT" == h + ":" + (m + ":" + (sec + " GMT"))
  {
  }

  lemma ClockNumbers(timeOfDay: nat)
    requires timeOfDay < 86400
    ensures timeOfDay / 3600 < 100 && timeOfDay % 3600 / 60 < 100 && timeOfDay % 60 < 100
    ensures timeOfDay % 3600 / 60 == timeOfDay / 60 % 60
  {
  }

  lemma FieldsLayout(days: nat, timeOfDay: nat)
    requires days <= 2932896 && timeOfDay < 86400
    ensures 1 <= UnixDaysToCivil(days).month <= 12 && UnixDaysToCivil(days).year <= 9999
    ensures IsLayout(FormatFields(days, timeOfDay), Weekday(days), UnixDaysToCivil(days), timeOfDay)
  {
    hide UnixDaysToCivil, Padded, DigitsValue, ImfText, Weekday, ValidDate;
    var date := UnixDaysToCivil(days);
    CivilIsPrinted(days);
    BeforeYear10000(days);
    ClockNumbers(timeOfDay);
    var h, m, sec := timeOfDay / 3600, timeOfDay % 3600 / 60, timeOfDay % 60;
    TwoDigits(date.day);
    FourDigits(date.year);
    TwoDigits(h);
    TwoDigits(m);
    TwoDigits(sec);
    Positions(Weekday(days), Padded(date.day, 2), MONTH_NAMES[date.month - 1], Padded(date.year, 4),
              Padded(h, 2), Padded(m, 2), Padded(sec, 2));
    FieldsAre(days, timeOfDay);
  }

  /** Day 2932896 is 31 December 9999. */
  lemma BeforeYear10000(days: nat)
    ensures UnixDaysToCivil(days).year <= 9999 <==> days <= 2932896
  {
    hide UnixDaysToCivil, DaysSinceEpoch;
    CivilIsValid(days);
    var first := Date(10000, 1, 1);
    assert ValidDate(first);
    DaysBeforeYearClosed(10000);
    ClosedFormIsNaiveCount(first);
    ClosedFormIsOrderIsomorphic(UnixDaysToCivil(days), first);
  }

  lemma CivilIsPrinted(days: nat)
    ensures var date := UnixDaysToCivil(days);
            && 1 <= date.month <= 12 && |MONTH_NAMES[date.month - 1]| == 3 && 1 <= date.day < 100 && 1970 <= date.year
    ensures |Weekday(days)| == 3
  {
    CivilIsValid(days);
    WeekdayIs(days);
  }

  lemma FieldsAre(days: nat, timeOfDay: nat)
    requires timeOfDay < 86400
    ensures var date := UnixDaysToCivil(days);
            && 1 <= date.month <= 12 && 0 <= date.day && 0 <= date.year
            && FormatFields(days, timeOfDay) ==
            ImfText(Weekday(days), Padded(date.day, 2), MONTH_NAMES[date.month - 1], Padded(date.year, 4),
                    Padded(timeOfDay / 3600, 2) + ":" + Padded(timeOfDay % 3600 / 60, 2) + ":"
                    + Padded(timeOfDay % 60, 2))
  {
    CivilIsPrinted(days);
    WeekdayIs(days);
    hide UnixDaysToCivil, Padded, ImfText, Weekday;
  }

  /** Up to the year 9999 every date is printed in the 29 characters of an IMF-fixdate: the right day of the week, two
      digits for the day, the name of the month, four digits for the year, and the time, each in its place. */
  lemma ImfLayout(t: nat)
    requires t < 253402300800
    ensures 1 <= UnixDaysToCivil(t / 86400).month <= 12 && UnixDaysToCivil(t / 86400).year <= 9999
    ensures IsLayout(FormatHttpDate(t), Weekday(t / 86400), UnixDaysToCivil(t / 86400), t % 86400)
  {
    FieldsLayout(t / 86400, t % 86400);
    hide UnixDaysToCivil, FormatFields, IsLayout, Weekday;
    assert FormatHttpDate(t) == FormatFields(t / 86400, t % 86400);
  }

  /** The example of section 5.6.7 of RFC 9110, in its three forms. */
  lemma StandardExample()
    ensures FormatHttpDate(784111777) == "Sun, 06 Nov 1994 08:49:37 GMT"
    ensures ParseHttpDate("Sun, 06 Nov 1994 08:49:37 GMT") == Some(784111777)
    ensures ParseHttpDate("Sunday, 06-Nov-94 08:49:37 GMT") == Some(784111777)
    ensures ParseHttpDate("Sun Nov  6 08:49:37 1994") == Some(784111777)
  {
    hide ParseHttpDate;
    ExampleTexts();
    FormatParseRoundTrip(784111777);
    Rfc850RoundTrip(784111777);
    AsctimeRoundTrip(784111777);
    hide FormatHttpDate, Rfc850Text, AsctimeText;
  }

  lemma ExampleTexts()
    ensures FormatHttpDate(784111777) == "Sun, 06 Nov 1994 08:49:37 GMT"
    ensures Rfc850Text(784111777) == "Sunday, 06-Nov-94 08:49:37 GMT"
    ensures AsctimeText(784111777) == "Sun Nov  6 08:49:37 1994"
    ensures UnixDaysToCivil(784111777 / SECONDS_PER_DAY).year < 2070
  {
    ExampleDay();
    hide UnixDaysToCivil, FormatHttpDate, Rfc850Text, AsctimeText;
    ImfExample();
    Rfc850Example();
    AsctimeExample();
  }

  lemma ExampleDay()
    ensures 784111777 / SECONDS_PER_DAY == 9075 && 784111777 % SECONDS_PER_DAY == 31777
    ensures UnixDaysToCivil(9075) == Date(1994, 11, 6)
  {
    CivilByEra(9075, 4, 144155, 394, 250, 8);
  }

  /** The steps of the conversion, for a day whose era, day of era, year of era, day of year and month are known. */
  lemma CivilByEra(days: int, era: int, doe: int, yoe: int, doy: int, mp: int)
    requires days + 719468 == era * 146097 + doe && 0 <= doe < 146097
    requires yoe == EstimatedYear(doe) && doy == doe - (365 * yoe + yoe / 4 - yoe / 100) && mp == (5 * doy + 2) / 153
    ensures var m := if mp < 10 then mp + 3 else mp - 9;
            UnixDaysToCivil(days) ==
            Date(yoe + era * 400 + (if m <= 2 then 1 else 0), m, doy - (153 * mp + 2) / 5 + 1)
  {
    hide EstimatedYear;
    UniqueQuotient(days + 719468, 146097, era, doe);
  }

  lemma ImfExample()
    ensures FormatHttpDate(784111777) == "Sun, 06 Nov 1994 08:49:37 GMT"
  {
    ExampleDay();
    ExampleNumbers();
    ExampleClock();
    hide UnixDaysToCivil, Padded, ClockText, ImfText;
    assert FormatHttpDate(784111777) == ImfText("Sun", "06", "Nov", "1994", "08:49:37");
    ImfIsSpelledOut("Sun", "06", "Nov", "1994", "08:49:37");
    ImfLiteral();
  }

  lemma ImfLiteral()
    ensures "Sun" + ", " + "06" + " " + "Nov" + " " + "1994" + " " + "08:49:37" + " GMT" ==
            "Sun, 06 Nov 1994 08:49:37 GMT"
  {
    assert "Sun" + ", " + "06" + " " + "Nov" + " " == "Sun, 06 Nov ";
    assert "Sun, 06 Nov " + "1994" + " " + "08:49:37" + " GMT" == "Sun, 06 Nov 1994 08:49:37 GMT";
  }

  lemma ImfIsSpelledOut(dow: string, day: string, month: string, year: string, clock: string)
    ensures ImfText(dow, day, month, year, clock) ==
            dow + ", " + day + " " + month + " " + year + " " + clock + " GMT"
  {
  }

  lemma Rfc850Example()
    ensures Rfc850Text(784111777) == "Sunday, 06-Nov-94 08:49:37 GMT"
  {
    ExampleDay();
    ExampleNumbers();
    ExampleClock();
    hide UnixDaysToCivil, Padded, ClockText, Rfc850Fields;
    assert Rfc850Text(784111777) == Rfc850Fields("Sunday", "06", "Nov", "94", "08:49:37");
    Rfc850IsSpelledOut("Sunday", "06", "Nov", "94", "08:49:37");
    Rfc850Literal();
  }

  lemma Rfc850Literal()
    ensures "Sunday" + ", " + "06" + "-" + "Nov" + "-" + "94" + " " + "08:49:37" + " GMT" ==
            "Sunday, 06-Nov-94 08:49:37 GMT"
  {
    assert "Sunday" + ", " + "06" + "-" + "Nov" + "-" == "Sunday, 06-Nov-";
    assert "Sunday, 06-Nov-" + "94" + " " + "08:49:37" + " GMT" == "Sunday, 06-Nov-94 08:49:37 GMT";
  }

  lemma Rfc850IsSpelledOut(dow: string, day: string, month: string, year: string, clock: string)
    ensures Rfc850Fields(dow, day, month, year, clock) ==
            dow + ", " + day + "-" + month + "-" + year + " " + clock + " GMT"
  {
  }

  lemma AsctimeExample()
    ensures AsctimeText(784111777) == "Sun Nov  6 08:49:37 1994"
  {
    ExampleDay();
    ExampleNumbers();
    ExampleClock();
    hide UnixDaysToCivil, Decimal, ClockText, AsctimeFields;
    assert AsctimeText(784111777) == AsctimeFields("Sun", "Nov", true, "6", "08:49:37", "1994");
    AsctimeIsSpelledOut("Sun", "Nov", "6", "08:49:37", "1994");
    AsctimeLiteral();
  }

  lemma AsctimeLiteral()
    ensures "Sun" + " " + "Nov" + "  " + "6" + " " + "08:49:37" + " " + "1994" == "Sun Nov  6 08:49:37 1994"
  {
    assert "Sun" + " " + "Nov" + "  " + "6" + " " == "Sun Nov  6 ";
    assert "Sun Nov  6 " + "08:49:37" + " " + "1994" == "Sun Nov  6 08:49:37 1994";
  }

  lemma AsctimeIsSpelledOut(dow: string, month: string, day: string, clock: string, year: string)
    ensures AsctimeFields(dow, month, true, day, clock, year) ==
            dow + " " + month + "  " + day + " " + clock + " " + year
  {
  }

  lemma ExampleClock()
    ensures ClockText(31777) == "08:49:37"
  {
    ExampleNumbers();
    hide Padded;
  }

  lemma ExampleNumbers()
    ensures Padded(6, 2) == "06" && Padded(8, 2) == "08" && Padded(49, 2) == "49" && Padded(37, 2) == "37"
    ensures Decimal(6) == "6" && Decimal(1994) == "1994" && Padded(1994, 4) == "1994" && Padded(94, 2) == "94"
  {
    assert Decimal(4) == "4" && Decimal(49) == "4" + "9" && Decimal(3) == "3" && Decimal(37) == "3" + "7";
    assert Decimal(1) == "1" && Decimal(19) == "1" + "9" && Decimal(199) == "19" + "9" && Decimal(1994) == "199" + "4";
    assert Decimal(9) == "9" && Decimal(94) == "9" + "4";
    assert Zeros(1) == "0";
  }

  /** A `u64` that is negative as an `i64` is printed as a date before 1970: the largest as the second before it. */
  lemma LargestIsBeforeEpoch()
    ensures FormatHttpDate(0xFFFF_FFFF_FFFF_FFFF) == "Wed, 31 Dec 1969 23:59:59 GMT"
  {
    LastDay();
    LastSecond();
    LastNumbers();
    LastClock();
    hide UnixDaysToCivil, Padded, ClockText, ImfText, FormatHttpDate;
    assert FormatFields(-1, 86399) == ImfText("Wed", "31", "Dec", "1969", "23:59:59");
    ImfIsSpelledOut("Wed", "31", "Dec", "1969", "23:59:59");
    LastLiteral();
  }

  lemma LastLiteral()
    ensures "Wed" + ", " + "31" + " " + "Dec" + " " + "1969" + " " + "23:59:59" + " GMT" ==
            "Wed, 31 Dec 1969 23:59:59 GMT"
  {
    assert "Wed" + ", " + "31" + " " + "Dec" + " " == "Wed, 31 Dec ";
    assert "Wed, 31 Dec " + "1969" + " " + "23:59:59" + " GMT" == "Wed, 31 Dec 1969 23:59:59 GMT";
  }

  lemma LastDay()
    ensures UnixDaysToCivil(-1) == Date(1969, 12, 31)
  {
    CivilByEra(-1, 4, 135079, 369, 305, 9);
  }

  lemma LastSecond()
    ensures FormatHttpDate(0xFFFF_FFFF_FFFF_FFFF) == FormatFields(-1, 86399)
  {
    hide FormatFields;
    assert AsI64(0xFFFF_FFFF_FFFF_FFFF) == -1;
    assert -1 / SECONDS_PER_DAY == -1 && -1 % SECONDS_PER_DAY == 86399;
  }

  lemma LastNumbers()
    ensures Padded(31, 2) == "31" && Padded(23, 2) == "23" && Padded(59, 2) == "59" && Padded(1969, 4) == "1969"
  {
    assert Decimal(3) == "3" && Decimal(31) == "3" + "1" && Decimal(2) == "2" && Decimal(23) == "2" + "3";
    assert Decimal(5) == "5" && Decimal(59) == "5" + "9";
    assert Decimal(1) == "1" && Decimal(19) == "1" + "9" && Decimal(196) == "19" + "6" && Decimal(1969) == "196" + "9";
  }

  lemma LastClock()
    ensures ClockText(86399) == "23:59:59"
  {
    LastNumbers();
    hide Padded;
  }

  /** A year has at least four characters, of which the sign of a negative one is the first, and no more zeros in front
      than that takes. */
  lemma YearsExactly(y: int)
    ensures var s := YearText(y);
            var digits := if y < 0 then s[1..] else s;
            && 4 <= |s| && (y < 0 <==> s[0] == '-')
            && IsNumeral(digits, if y < 0 then -y else y)
            && (4 < |s| ==> digits[0] != '0')
  {
    var n, width := if y < 0 then -y else y, if y < 0 then 3 else 4;
    var digits := Padded(n, width);
    assert IsDigit(digits[0]);
    DecimalValue(n);
    DecimalIsShortest(n);
    if |Decimal(n)| < width {
      LeadingZeros(width - |Decimal(n)|, Decimal(n));
    }
    if y < 0 {
      assert YearText(y)[1..] == digits;
    }
  }

  // ---- What the parser makes of fields ----

  /** The names of the months, and nothing else. */
  lemma MonthsExactly(s: string, m: int)
    ensures ParseMonth(s) == Some(m) <==>
            1 <= m <= 12
            && s == ["Jan", "Feb", "Mar", "Apr", "May", "Jun", "Jul", "Aug", "Sep", "Oct", "Nov", "Dec"][m - 1]
  {
    if 1 <= m <= 12 {
      assert m == 1 || m == 2 || m == 3 || m == 4 || m == 5 || m == 6
          || m == 7 || m == 8 || m == 9 || m == 10 || m == 11 || m == 12;
    }
  }

  /** Fields amount to a time exactly when the year is 1970 or later, there is such a month, and the day is one from 1
      to 31: counted on the calendar from the first of the month, so that 31 February is early in March. The time
      of day may be anything. */
  lemma FieldsExactly(year: nat, month: int, day: nat, hour: nat, min: nat, sec: nat)
    ensures DateToUnix(year, month, day, hour, min, sec) ==
            if 1970 <= year && 1 <= month <= 12 && 1 <= day <= 31
            then Some((NaiveDays(Date(year, month, 1)) + day - 1) * 86400 + hour * 3600 + min * 60 + sec)
            else None
  {
    if 1970 <= year && 1 <= month <= 12 && 1 <= day <= 31 {
      ClosedFormIsNaiveCount(Date(year, month, day));
    }
  }

  /** A time of day has exactly three numbers, between colons. */
  lemma ClockExactly(pieces: seq<string>)
    requires pieces != [] && forall p :: p in pieces ==> ':' !in p
    ensures ParseClock(Join(pieces, ':')) ==
            if |pieces| != 3 then None
            else
              match (ParseUnsigned(pieces[0], 0xFFFF_FFFF), ParseUnsigned(pieces[1], 0xFFFF_FFFF),
                     ParseUnsigned(pieces[2], 0xFFFF_FFFF))
              case (Some(h), Some(m), Some(s)) => Some((h, m, s))
              case _ => None
  {
    hide Split, ParseUnsigned;
    SplitJoin(pieces, ':');
  }

  /** The date of an RFC 850 text has exactly three fields, between dashes. */
  lemma ThreeFields(dow: string, pieces: seq<string>, clock: string)
    requires IsWord(dow) && ',' !in dow && IsWord(clock) && pieces != [] && |pieces| != 3
    requires forall p :: p in pieces ==> '-' !in p
    requires IsWord(Join(pieces, '-'))
    ensures ParseRfc850(dow + ", " + (Join(pieces, '-') + " " + (clock + " GMT"))).None?
  {
    hide Split, SplitOnce, SplitWhitespace, Trim, ParseUnsigned, ParseMonth, ParseClock, RSplitOnceSpace,
      ParseImfFixdate, Join;
    SplitJoin(pieces, '-');
    Rfc850Splits(dow, Join(pieces, '-'), clock);
  }

  /** A date in the form of an IMF-fixdate but with another time zone is not read. */
  lemma ZoneIsGmt(dow: string, day: string, month: string, year: string, clock: string, zone: string)
    requires IsWord(dow) && ',' !in dow && IsWord(day) && '-' !in day
    requires IsWord(month) && IsWord(year) && IsWord(clock) && IsWord(zone) && zone != "GMT"
    ensures ParseHttpDate(dow + ", " + (day + " " + (month + " " + (year + " " + (clock + " " + zone))))).None?
  {
    var s := dow + ", " + (day + " " + (month + " " + (year + " " + (clock + " " + zone))));
    var tail := month + " " + (year + " " + (clock + " " + zone));
    hide ParseHttpDate, SplitWhitespace, SplitOnce, Trim, ParseMonth, ParseUnsigned, ParseClock, DateToUnix,
      ParseRfc850, ParseAsctime;
    FiveWords(day, month, year, clock, zone);
    SplitOnceComma(dow, day + " " + tail);
    assert s[0] == dow[0] && s[|s| - 1] == zone[|zone| - 1];
    TrimOfText(s);
    Rfc850RejectsImfText(dow, day, tail);
    FourWords(month, year, clock, zone);
    AsctimeRejectsImfText(dow, day, tail);
    assert ParseImfFixdate(s).None?;
    CombineParsers(s, None);
  }

  /** Nor is one in the form of RFC 850. */
  lemma Rfc850ZoneIsGmt(dow: string, date: string, clock: string, zone: string)
    requires IsWord(dow) && ',' !in dow && IsWord(date) && IsWord(clock) && IsWord(zone) && zone != "GMT"
    ensures ParseHttpDate(dow + ", " + (date + " " + (clock + " " + zone))).None?
  {
    hide SplitOnce, SplitWhitespace, Split, RSplitOnceSpace, Trim, ParseMonth, ParseUnsigned, ParseClock, DateToUnix,
      ParseHttpDate;
    var zoned := clock + " " + zone;
    var rest := date + " " + zoned;
    var s := dow + ", " + rest;
    assert s[0] == dow[0] && s[|s| - 1] == zone[|zone| - 1];
    TrimOfText(s);
    SplitOnceComma(dow, rest);
    NoSpaceInWord(date);
    NoSpaceInWord(zone);
    SplitOnceChar(date, ' ', zoned);
    RSplitLastSpace(clock, zone);
    ThreeWords(date, clock, zone);
    WrongWordCount(s, dow, rest);
    assert ParseRfc850(s).None?;
    ThreeWordsAfterDay(dow, date, clock, zone);
    CombineParsers(s, None);
  }

  lemma ThreeWordsAfterDay(dow: string, a: string, b: string, c: string)
    requires IsWord(dow) && IsWord(a) && IsWord(b) && IsWord(c)
    ensures ParseAsctime(dow + ", " + (a + " " + (b + " " + c))).None?
  {
    hide SplitWhitespace, ParseMonth, ParseUnsigned, ParseClock, DateToUnix;
    assert IsWord(dow + ",");
    FourWords(dow + ",", a, b, c);
    assert dow + ", " + (a + " " + (b + " " + c)) == (dow + ",") + " " + (a + " " + (b + " " + c));
  }

  lemma FourWords(a: string, b: string, c: string, d: string)
    requires IsWord(a) && IsWord(b) && IsWord(c) && IsWord(d)
    ensures SplitWhitespace(a + " " + (b + " " + (c + " " + d))) == [a, b, c, d]
  {
    SplitWord(d, "");
    assert d + "" == d;
    SplitWordSpace(c, d);
    SplitWordSpace(b, c + " " + d);
    SplitWordSpace(a, b + " " + (c + " " + d));
  }

  /** The year of an RFC 850 date may have any number of digits: up to 69 it counts from 2000, and from 70 on from
      1900, so that 1994 is read as 3894. A sum that does not fit 32 bits wraps and leaves no date. */
  lemma YearOfRfc850(dow: string, day: string, month: string, year: string, clock: string, yy: nat,
                     c: (nat, nat, nat))
    requires IsWord(dow) && ',' !in dow && IsWord(day) && IsWord(month) && IsWord(year) && IsWord(clock)
    requires '-' !in day && '-' !in month && '-' !in year
    requires ParseUnsigned(year, U32_MAX) == Some(yy) && ParseClock(clock) == Some(c)
    ensures ParseRfc850(Rfc850Fields(dow, day, month, year, clock)) ==
            match (ParseUnsigned(day, U32_MAX), ParseMonth(month))
            case (Some(d), Some(m)) =>
              if yy < 70 then DateToUnix(2000 + yy, m, d, c.0, c.1, c.2)
              else if 1900 + yy <= 0xFFFF_FFFF then DateToUnix(1900 + yy, m, d, c.0, c.1, c.2)
              else None
            case _ => None
  {
    hide Split, SplitOnce, SplitWhitespace, Trim, ParseUnsigned, ParseMonth, ParseClock, RSplitOnceSpace,
      ParseImfFixdate, ParseRfc850, DateToUnix;
    var date := day + "-" + (month + "-" + year);
    DateIsWord(day, month, year);
    DateSplits(day, month, year);
    Rfc850Splits(dow, date, clock);
    ParsedFits(year, yy);
    Rfc850FromParts(Rfc850Fields(dow, day, month, year, clock), dow, date, clock, [day, month, year], yy, c);
  }

  lemma DateIsWord(day: string, month: string, year: string)
    requires IsWord(day) && IsWord(month) && IsWord(year)
    ensures IsWord(day + "-" + (month + "-" + year))
  {
  }

  lemma Rfc850FromParts(s: string, dow: string, date: string, clock: string, fields: seq<string>, yy: nat,
                        c: (nat, nat, nat))
    requires SplitOnce(s, ", ") == Some((dow, date + " " + (clock + " GMT")))
    requires SplitOnce(date + " " + (clock + " GMT"), " ") == Some((date, clock + " GMT"))
    requires RSplitOnceSpace(clock + " GMT") == Some((clock, "GMT"))
    requires Split(date, '-') == fields && |fields| == 3
    requires ParseUnsigned(fields[2], U32_MAX) == Some(yy) && yy <= 0xFFFF_FFFF && ParseClock(clock) == Some(c)
    ensures ParseRfc850(s) ==
            match (ParseUnsigned(fields[0], U32_MAX), ParseMonth(fields[1]))
            case (Some(d), Some(m)) =>
              if yy < 70 then DateToUnix(2000 + yy, m, d, c.0, c.1, c.2)
              else if 1900 + yy <= 0xFFFF_FFFF then DateToUnix(1900 + yy, m, d, c.0, c.1, c.2)
              else None
            case _ => None
  {
    hide Split, SplitOnce, ParseUnsigned, ParseMonth, ParseClock, RSplitOnceSpace, DaysSinceEpoch;
  }

  lemma ParsedFits(s: string, n: nat)
    requires ParseUnsigned(s, U32_MAX) == Some(n)
    ensures n <= 0xFFFF_FFFF
  {
  }
}
