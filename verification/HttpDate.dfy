/**
  Printing and parsing HTTP dates (section 5.6.7 of RFC 9110) as `static_files.rs` does it:
  one printer, and a parser that tries IMF-fixdate, then RFC 850, then asctime.
 */
module HttpDate {
  import opened Wrappers
  import opened Text
  import opened Calendar

  const U32_MAX: nat := 0xFFFF_FFFF
  const SECONDS_PER_DAY: nat := 86400

  const DAY_NAMES: seq<string> := ["Sun", "Mon", "Tue", "Wed", "Thu", "Fri", "Sat"]
  const LONG_DAY_NAMES: seq<string> :=
    ["Sunday", "Monday", "Tuesday", "Wednesday", "Thursday", "Friday", "Saturday"]
  const MONTH_NAMES: seq<string> :=
    ["Jan", "Feb", "Mar", "Apr", "May", "Jun", "Jul", "Aug", "Sep", "Oct", "Nov", "Dec"]

  // ---- Parsing ----

  function ParseMonth(s: string): Option<int> {
    match s
    case "Jan" => Some(1)
    case "Feb" => Some(2)
    case "Mar" => Some(3)
    case "Apr" => Some(4)
    case "May" => Some(5)
    case "Jun" => Some(6)
    case "Jul" => Some(7)
    case "Aug" => Some(8)
    case "Sep" => Some(9)
    case "Oct" => Some(10)
    case "Nov" => Some(11)
    case "Dec" => Some(12)
    case _ => None
  }

  /** Seconds since the epoch. The hour, minute and second are not range-checked by the original. */
  function DateToUnix(year: nat, month: int, day: nat, hour: nat, min: nat, sec: nat): Option<nat> {
    if !(1 <= month <= 12) || !(1 <= day <= 31) || year < 1970 then None
    else
      var days :- DaysSinceEpoch(year, month, day);
      Some(days * SECONDS_PER_DAY + hour * 3600 + min * 60 + sec)
  }

  /** The `hh:mm:ss` field that all three formats share. */
  function ParseClock(s: string): Option<(nat, nat, nat)> {
    var parts := Split(s, ':');
    if |parts| != 3 then None
    else
      var hour :- ParseUnsigned(parts[0], U32_MAX);
      var min :- ParseUnsigned(parts[1], U32_MAX);
      var sec :- ParseUnsigned(parts[2], U32_MAX);
      Some((hour, min, sec))
  }

  function ParseImfFixdate(s: string): Option<nat> {
    var (_, rest) :- SplitOnce(s, ", ");
    var parts := SplitWhitespace(rest);
    if |parts| != 5 || parts[4] != "GMT" then None
    else
      var day :- ParseUnsigned(parts[0], U32_MAX);
      var month :- ParseMonth(parts[1]);
      var year :- ParseUnsigned(parts[2], U32_MAX);
      var (hour, min, sec) :- ParseClock(parts[3]);
      DateToUnix(year, month, day, hour, min, sec)
  }

  /** `rsplit_once(' ')`. */
  function RSplitOnceSpace(s: string): Option<(string, string)> {
    if s == "" then None
    else if s[|s| - 1] == ' ' then Some((s[..|s| - 1], ""))
    else
      var (a, b) :- RSplitOnceSpace(s[..|s| - 1]);
      Some((a, b + [s[|s| - 1]]))
  }

  function ParseRfc850(s: string): Option<nat> {
    var (_, rest) :- SplitOnce(s, ", ");
    var (datePart, timeZone) :- SplitOnce(rest, " ");
    var fields := Split(datePart, '-');
    if |fields| != 3 then None
    else
      var day :- ParseUnsigned(fields[0], U32_MAX);
      var month :- ParseMonth(fields[1]);
      var yy :- ParseUnsigned(fields[2], U32_MAX);
      // 1900 + yy is a u32 addition; it wraps in a build without overflow checks
      var year := if yy < 70 then 2000 + yy else (1900 + yy) % (U32_MAX + 1);
      var (time, zone) :- RSplitOnceSpace(timeZone);
      if zone != "GMT" then None
      else
        var (hour, min, sec) :- ParseClock(time);
        DateToUnix(year, month, day, hour, min, sec)
  }

  function ParseAsctime(s: string): Option<nat> {
    var parts := SplitWhitespace(s);
    if |parts| != 5 then None
    else
      var month :- ParseMonth(parts[1]);
      var day :- ParseUnsigned(parts[2], U32_MAX);
      var (hour, min, sec) :- ParseClock(parts[3]);
      var year :- ParseUnsigned(parts[4], U32_MAX);
      DateToUnix(year, month, day, hour, min, sec)
  }

  function ParseHttpDate(s: string): Option<nat> {
    var t := Trim(s);
    match ParseImfFixdate(t)
    case Some(n) => Some(n)
    case None =>
      match ParseRfc850(t)
      case Some(n) => Some(n)
      case None => ParseAsctime(t)
  }

  // ---- Printing ----

  /** `secs as i64` for a `u64`. */
  function AsI64(secs: nat): int {
    if secs < 0x8000_0000_0000_0000 then secs else secs - 0x1_0000_0000_0000_0000
  }

  /** `{:04}` for an `i64`: the sign counts towards the width. */
  function YearText(y: int): string {
    if y < 0 then "-" + Padded(-y, 3) else Padded(y, 4)
  }

  function ClockText(timeOfDay: nat): string {
    Padded(timeOfDay / 3600, 2) + ":" + Padded(timeOfDay % 3600 / 60, 2) + ":" + Padded(timeOfDay % 60, 2)
  }

  function ImfText(dow: string, day: string, month: string, year: string, clock: string): string {
    dow + ", " + (day + " " + (month + " " + (year + " " + (clock + " GMT"))))
  }

  function FormatSeconds(secs: int): string {
    FormatFields(secs / SECONDS_PER_DAY, secs % SECONDS_PER_DAY)
  }

  function FormatFields(days: int, timeOfDay: nat): string {
    var date := UnixDaysToCivil(days);
    DateIsPrintable(days);
    ImfText(DAY_NAMES[(days + 4) % 7], Padded(date.day, 2), MONTH_NAMES[date.month - 1],
            YearText(date.year), ClockText(timeOfDay))
  }

  function FormatHttpDate(t: nat): string {
    FormatSeconds(AsI64(t))
  }

  lemma DateIsPrintable(days: int)
    ensures ValidDate(UnixDaysToCivil(days))
  {
    var y, doy := MarchCalendar(days);
    MarchDayIsValid(y, doy);
  }

  /** The obsolete formats of section 5.6.7 of RFC 9110, as a peer would print them. */
  function Rfc850Text(t: nat): string {
    var days := t / SECONDS_PER_DAY;
    var date := UnixDaysToCivil(days);
    DateIsPrintable(days);
    Rfc850Fields(LONG_DAY_NAMES[(days + 4) % 7], Padded(date.day, 2), MONTH_NAMES[date.month - 1],
                 Padded(date.year % 100, 2), ClockText(t % SECONDS_PER_DAY))
  }

  function Rfc850Fields(dow: string, day: string, month: string, year: string, clock: string): string {
    dow + ", " + (day + "-" + (month + "-" + year) + " " + (clock + " GMT"))
  }

  function AsctimeText(t: nat): string {
    var days := t / SECONDS_PER_DAY;
    var date := UnixDaysToCivil(days);
    DateIsPrintable(days);
    AsctimeFields(DAY_NAMES[(days + 4) % 7], MONTH_NAMES[date.month - 1], date.day < 10, Decimal(date.day),
                  ClockText(t % SECONDS_PER_DAY), Decimal(date.year))
  }

  /** A one-digit day is padded with a second space. */
  function AsctimeFields(dow: string, month: string, pad: bool, day: string, clock: string, year: string): string {
    dow + " " + (month + " " + ((if pad then " " else "") + (day + " " + (clock + " " + year))))
  }

  // ---- The fields read back ----

  lemma MonthNames(m: int)
    requires 1 <= m <= 12
    ensures ParseMonth(MONTH_NAMES[m - 1]) == Some(m)
    ensures IsWord(MONTH_NAMES[m - 1]) && '-' !in MONTH_NAMES[m - 1]
  {
    assert m == 1 || m == 2 || m == 3 || m == 4 || m == 5 || m == 6
        || m == 7 || m == 8 || m == 9 || m == 10 || m == 11 || m == 12;
  }

  lemma DayNames(i: int)
    requires 0 <= i < 7
    ensures IsWord(DAY_NAMES[i]) && ',' !in DAY_NAMES[i]
    ensures IsWord(LONG_DAY_NAMES[i]) && ',' !in LONG_DAY_NAMES[i]
  {
    assert i == 0 || i == 1 || i == 2 || i == 3 || i == 4 || i == 5 || i == 6;
  }

  lemma ClockSplits(h: string, m: string, s: string)
    requires AllDigits(h) && AllDigits(m) && AllDigits(s)
    ensures Split(h + ":" + m + ":" + s, ':') == [h, m, s]
  {
    hide Split;
    NotInDigits(h, ':');
    NotInDigits(m, ':');
    NotInDigits(s, ':');
    assert Split(s, ':') == [s] by { SplitOne(s, ':'); }
    assert Split(m + ":" + s, ':') == [m, s] by { SplitCons(m, ':', s); }
    SplitCons(h, ':', m + ":" + s);
    assert h + ":" + m + ":" + s == h + ":" + (m + ":" + s);
  }

  lemma ClockIsWord(h: string, m: string, s: string)
    requires AllDigits(h) && AllDigits(m) && AllDigits(s)
    ensures IsWord(h + ":" + m + ":" + s)
  {
  }

  lemma ClockParses(timeOfDay: nat)
    requires timeOfDay < SECONDS_PER_DAY
    ensures ParseClock(ClockText(timeOfDay)) ==
            Some((timeOfDay / 3600, timeOfDay % 3600 / 60, timeOfDay % 60))
    ensures IsWord(ClockText(timeOfDay))
  {
    var h, m, s := timeOfDay / 3600, timeOfDay % 3600 / 60, timeOfDay % 60;
    ClockSplits(Padded(h, 2), Padded(m, 2), Padded(s, 2));
    ClockIsWord(Padded(h, 2), Padded(m, 2), Padded(s, 2));
    ParsePadded(h, 2, U32_MAX);
    ParsePadded(m, 2, U32_MAX);
    ParsePadded(s, 2, U32_MAX);
  }

  lemma ClockAddsUp(timeOfDay: nat)
    ensures timeOfDay / 3600 * 3600 + timeOfDay % 3600 / 60 * 60 + timeOfDay % 60 == timeOfDay
  {
    assert timeOfDay == 3600 * (timeOfDay / 3600) + timeOfDay % 3600;
    assert timeOfDay % 3600 % 60 == timeOfDay % 60;
  }

  lemma FiveWords(a: string, b: string, c: string, d: string, e: string)
    requires IsWord(a) && IsWord(b) && IsWord(c) && IsWord(d) && IsWord(e)
    ensures SplitWhitespace(a + " " + (b + " " + (c + " " + (d + " " + e)))) == [a, b, c, d, e]
  {
    SplitWord(e, "");
    assert e + "" == e;
    SplitWordSpace(d, e);
    SplitWordSpace(c, d + " " + e);
    SplitWordSpace(b, c + " " + (d + " " + e));
    SplitWordSpace(a, b + " " + (c + " " + (d + " " + e)));
  }

  lemma SplitOnceComma(dow: string, rest: string)
    requires ',' !in dow
    ensures SplitOnce(dow + ", " + rest, ", ") == Some((dow, rest))
  {
    var s := dow + ", " + rest;
    forall i | 0 <= i < |dow|
      ensures !OccursAt(s, ", ", i)
    {
      assert s[i] == dow[i] && dow[i] in dow;
      assert i + 2 <= |s| ==> s[i..i + 2][0] == s[i];
    }
    SplitOnceAt(dow, ", ", rest);
  }

  lemma TrimOfText(s: string)
    requires |s| > 0 && !IsWhitespace(s[0]) && !IsWhitespace(s[|s| - 1])
    ensures Trim(s) == s
  {
    TrimTrims(s);
  }

  lemma NoSpaceInWord(w: string)
    requires IsWord(w)
    ensures ' ' !in w
  {
  }

  lemma ImfTextSplits(dow: string, day: string, month: string, year: string, clock: string)
    requires IsWord(dow) && ',' !in dow && IsWord(day) && IsWord(month) && IsWord(year) && IsWord(clock)
    ensures var s := ImfText(dow, day, month, year, clock);
            && Trim(s) == s
            && SplitOnce(s, ", ").Some?
            && SplitWhitespace(SplitOnce(s, ", ").value.1) == [day, month, year, clock, "GMT"]
  {
    var s := ImfText(dow, day, month, year, clock);
    assert clock + " GMT" == clock + " " + "GMT";
    FiveWords(day, month, year, clock, "GMT");
    SplitOnceComma(dow, day + " " + (month + " " + (year + " " + (clock + " GMT"))));
    assert s[0] == dow[0] && s[|s| - 1] == 'T';
    TrimOfText(s);
  }

  lemma Rfc850RejectsImfText(dow: string, day: string, tail: string)
    requires ',' !in dow && IsWord(day) && '-' !in day
    ensures ParseRfc850(dow + ", " + (day + " " + tail)).None?
  {
    SplitOnceComma(dow, day + " " + tail);
    NoSpaceInWord(day);
    SplitOnceChar(day, ' ', tail);
    SplitOne(day, '-');
  }

  lemma AsctimeRejectsImfText(dow: string, day: string, tail: string)
    requires IsWord(dow) && IsWord(day)
    requires |SplitWhitespace(tail)| == 4
    ensures ParseAsctime(dow + ", " + (day + " " + tail)).None?
  {
    SplitWordSpace(day, tail);
    SplitWordSpace(dow + ",", day + " " + tail);
    assert dow + ", " + (day + " " + tail) == (dow + ",") + " " + (day + " " + tail);
  }

  /** What the fields of an IMF-fixdate amount to. */
  function FieldsToUnix(day: string, month: string, year: string, clock: string): Option<nat> {
    var d :- ParseUnsigned(day, U32_MAX);
    var m :- ParseMonth(month);
    var y :- ParseUnsigned(year, U32_MAX);
    var (hour, min, sec) :- ParseClock(clock);
    DateToUnix(y, m, d, hour, min, sec)
  }

  lemma ImfFields(s: string, day: string, month: string, year: string, clock: string)
    requires SplitOnce(s, ", ").Some?
    requires SplitWhitespace(SplitOnce(s, ", ").value.1) == [day, month, year, clock, "GMT"]
    ensures ParseImfFixdate(s) == FieldsToUnix(day, month, year, clock)
  {
  }

  lemma WordsAfterDay(day: string, month: string, year: string, clock: string)
    requires IsWord(day) && IsWord(month) && IsWord(year) && IsWord(clock)
    ensures SplitWhitespace(month + " " + (year + " " + (clock + " GMT"))) == [month, year, clock, "GMT"]
  {
    hide SplitWhitespace;
    var tail := month + " " + (year + " " + (clock + " GMT"));
    assert clock + " GMT" == clock + " " + "GMT";
    FiveWords(day, month, year, clock, "GMT");
    SplitWordSpace(day, tail);
    assert ([day] + SplitWhitespace(tail))[1..] == SplitWhitespace(tail);
    assert [day, month, year, clock, "GMT"][1..] == [month, year, clock, "GMT"];
  }

  /** An IMF-fixdate is decided by its first parser alone. */
  lemma ImfTextParses(dow: string, day: string, month: string, year: string, clock: string)
    requires IsWord(dow) && ',' !in dow && IsWord(day) && '-' !in day
    requires IsWord(month) && IsWord(year) && IsWord(clock)
    ensures ParseHttpDate(ImfText(dow, day, month, year, clock)) == FieldsToUnix(day, month, year, clock)
  {
    var s := ImfText(dow, day, month, year, clock);
    var tail := month + " " + (year + " " + (clock + " GMT"));
    assert s == dow + ", " + (day + " " + tail);
    hide ImfText, ParseHttpDate, ParseImfFixdate, ParseRfc850, ParseAsctime, SplitWhitespace, SplitOnce, Trim;
    ImfTextSplits(dow, day, month, year, clock);
    ImfFields(s, day, month, year, clock);
    WordsAfterDay(day, month, year, clock);
    Rfc850RejectsImfText(dow, day, tail);
    AsctimeRejectsImfText(dow, day, tail);
    CombineParsers(s, ParseImfFixdate(s));
  }

  lemma CombineParsers(s: string, r: Option<nat>)
    requires Trim(s) == s && ParseImfFixdate(s) == r
    requires ParseRfc850(s).None? && ParseAsctime(s).None?
    ensures ParseHttpDate(s) == r
  {
  }

  // ---- The round trip ----

  /** The last second of year 4294967295, the last year that fits a `u32`. */
  const LAST_PRINTABLE: nat := 135536014634284799

  lemma YearFits(days: nat)
    ensures UnixDaysToCivil(days).year <= U32_MAX <==> days <= LAST_PRINTABLE / SECONDS_PER_DAY
  {
    var t := UnixDaysToCivil(days);
    CivilIsValid(days);
    var first := Date(U32_MAX + 1, 1, 1);
    assert ValidDate(first);
    DaysBeforeYearClosed(U32_MAX + 1);
    ClosedFormIsNaiveCount(first);
    ClosedFormIsOrderIsomorphic(t, first);
  }

  lemma DateToUnixOfCivil(days: nat, timeOfDay: nat)
    requires timeOfDay < SECONDS_PER_DAY
    ensures var t := UnixDaysToCivil(days);
            && 1970 <= t.year && 1 <= t.day
            && DateToUnix(t.year, t.month, t.day, timeOfDay / 3600, timeOfDay % 3600 / 60, timeOfDay % 60) ==
               Some(days * SECONDS_PER_DAY + timeOfDay)
  {
    CivilIsValid(days);
    ClockAddsUp(timeOfDay);
  }

  lemma FieldsParse(days: int, timeOfDay: nat)
    requires timeOfDay < SECONDS_PER_DAY
    ensures ParseHttpDate(FormatFields(days, timeOfDay)) ==
            if 0 <= days <= LAST_PRINTABLE / SECONDS_PER_DAY then Some(days * SECONDS_PER_DAY + timeOfDay) else None
  {
    hide ParseHttpDate, ImfText, ParseMonth, DateToUnix, ParseUnsigned, FieldsToUnix, ClockText, Padded, YearText;
    var date := UnixDaysToCivil(days);
    DateIsPrintable(days);
    DayNames((days + 4) % 7);
    DigitsAreWords(Padded(date.day, 2));
    NotInDigits(Padded(date.day, 2), '-');
    MonthNames(date.month);
    YearTextParses(date.year);
    ClockParses(timeOfDay);
    ImfTextParses(DAY_NAMES[(days + 4) % 7], Padded(date.day, 2), MONTH_NAMES[date.month - 1],
                  YearText(date.year), ClockText(timeOfDay));
    FieldsOfCivil(days, timeOfDay);
    if 0 <= days {
      YearFits(days);
      CivilIsValid(days);
    }
  }

  /** A printed date parses back to the same second exactly when its year fits a `u32`. Past that
      point, and for the timestamps that turn negative as an `i64`, the parser rejects it. */
  lemma FormatParseRoundTrip(t: nat)
    requires t < 0x1_0000_0000_0000_0000
    ensures ParseHttpDate(FormatHttpDate(t)) == if t <= LAST_PRINTABLE then Some(t) else None
  {
    hide ParseHttpDate, FormatFields;
    var secs := AsI64(t);
    DaySplit(secs);
    FieldsParse(secs / SECONDS_PER_DAY, secs % SECONDS_PER_DAY);
  }

  lemma DaySplit(secs: int)
    ensures secs / SECONDS_PER_DAY * SECONDS_PER_DAY + secs % SECONDS_PER_DAY == secs
    ensures 0 <= secs / SECONDS_PER_DAY <= LAST_PRINTABLE / SECONDS_PER_DAY <==> 0 <= secs <= LAST_PRINTABLE
  {
  }

  lemma FieldsOfCivil(days: int, timeOfDay: nat)
    requires timeOfDay < SECONDS_PER_DAY
    ensures var date := UnixDaysToCivil(days);
            && ValidDate(date)
            && FieldsToUnix(Padded(date.day, 2), MONTH_NAMES[date.month - 1], YearText(date.year),
                            ClockText(timeOfDay)) ==
               if 1970 <= date.year <= U32_MAX && 0 <= days then Some(days * SECONDS_PER_DAY + timeOfDay) else None
  {
    hide ParseUnsigned, Padded, YearText, ParseMonth, ParseClock, ClockText, UnixDaysToCivil;
    DateIsPrintable(days);
    var date := UnixDaysToCivil(days);
    ParsePadded(date.day, 2, U32_MAX);
    MonthNames(date.month);
    YearTextParses(date.year);
    ClockParses(timeOfDay);
    if 0 <= days {
      DateToUnixOfCivil(days, timeOfDay);
    } else {
      CivilBeforeEpoch(days);
    }
  }

  lemma YearTextParses(y: int)
    ensures IsWord(YearText(y))
    ensures ParseUnsigned(YearText(y), U32_MAX) == if 0 <= y <= U32_MAX then Some(y) else None
  {
    if y < 0 {
      var digits := Padded(-y, 3);
      var s := "-" + digits;
      ParseNonDigit(s, 0, U32_MAX);
      assert forall i :: 1 <= i < |s| ==> s[i] == digits[i - 1];
    } else {
      ParsePadded(y, 4, U32_MAX);
      DigitsAreWords(Padded(y, 4));
    }
  }

  // ---- The obsolete formats ----

  lemma {:induction false} RSplitLastSpace(a: string, b: string)
    requires ' ' !in b
    ensures RSplitOnceSpace(a + " " + b) == Some((a, b))
  {
    var s := a + " " + b;
    if b == "" {
      assert s == a + " ";
    } else {
      var n := |b| - 1;
      assert s[|s| - 1] == b[n] && b[n] in b;
      assert s[..|s| - 1] == a + " " + b[..n];
      RSplitLastSpace(a, b[..n]);
      assert b[..n] + [b[n]] == b;
    }
  }

  lemma ThreeWords(a: string, b: string, c: string)
    requires IsWord(a) && IsWord(b) && IsWord(c)
    ensures SplitWhitespace(a + " " + (b + " " + c)) == [a, b, c]
  {
    SplitWord(c, "");
    assert c + "" == c;
    SplitWordSpace(b, c);
    SplitWordSpace(a, b + " " + c);
  }

  lemma WrongWordCount(s: string, a: string, b: string)
    requires SplitOnce(s, ", ") == Some((a, b)) && |SplitWhitespace(b)| != 5
    ensures ParseImfFixdate(s).None?
  {
  }

  lemma Rfc850Splits(dow: string, date: string, clock: string)
    requires IsWord(dow) && ',' !in dow && IsWord(clock) && IsWord(date)
    ensures var s := dow + ", " + (date + " " + (clock + " GMT"));
            && Trim(s) == s && ParseImfFixdate(s).None?
            && SplitOnce(s, ", ") == Some((dow, date + " " + (clock + " GMT")))
            && SplitOnce(date + " " + (clock + " GMT"), " ") == Some((date, clock + " GMT"))
            && RSplitOnceSpace(clock + " GMT") == Some((clock, "GMT"))
  {
    hide ParseImfFixdate, SplitOnce, SplitWhitespace, RSplitOnceSpace, Trim;
    var zoned := clock + " GMT";
    assert zoned == clock + " " + "GMT";
    RSplitLastSpace(clock, "GMT");
    var rest := date + " " + zoned;
    var s := dow + ", " + rest;
    assert s[0] == dow[0] && s[|s| - 1] == 'T';
    TrimOfText(s);
    SplitOnceComma(dow, rest);
    NoSpaceInWord(date);
    SplitOnceChar(date, ' ', zoned);
    ThreeWords(date, clock, "GMT");
    WrongWordCount(s, dow, rest);
  }

  lemma DateSplits(day: string, month: string, year: string)
    requires '-' !in day && '-' !in month && '-' !in year
    ensures Split(day + "-" + (month + "-" + year), '-') == [day, month, year]
  {
    hide Split;
    assert Split(year, '-') == [year] by { SplitOne(year, '-'); }
    assert Split(month + "-" + year, '-') == [month, year] by { SplitCons(month, '-', year); }
    SplitCons(day, '-', month + "-" + year);
  }

  /** The full year that the two-digit rule reads into a year. */
  function WindowedYear(y: nat): nat {
    if y % 100 < 70 then 2000 + y % 100 else 1900 + y % 100
  }

  lemma Rfc850FromFields(dow: string, day: string, month: string, year: string, clock: string,
                         d: nat, m: int, yy: nat, c: (nat, nat, nat), n: nat)
    requires IsWord(dow) && ',' !in dow && IsWord(day) && IsWord(month) && IsWord(year) && IsWord(clock)
    requires '-' !in day && '-' !in month && '-' !in year
    requires ParseUnsigned(day, U32_MAX) == Some(d) && ParseMonth(month) == Some(m)
    requires ParseUnsigned(year, U32_MAX) == Some(yy) && yy < 100 && ParseClock(clock) == Some(c)
    requires DateToUnix(WindowedYear(yy), m, d, c.0, c.1, c.2) == Some(n)
    ensures ParseHttpDate(Rfc850Fields(dow, day, month, year, clock)) == Some(n)
  {
    hide Split, SplitOnce, SplitWhitespace, Trim, ParseUnsigned, ParseMonth, ParseClock, DateToUnix, RSplitOnceSpace,
      ParseImfFixdate;
    var date := day + "-" + (month + "-" + year);
    assert IsWord(date);
    DateSplits(day, month, year);
    Rfc850Splits(dow, date, clock);
  }

  lemma DateToUnixClock(year: nat, month: int, day: nat, timeOfDay: nat)
    requires 1970 <= year && 1 <= month <= 12 && 1 <= day <= 31
    ensures DateToUnix(year, month, day, timeOfDay / 3600, timeOfDay % 3600 / 60, timeOfDay % 60) ==
            Some(NaiveDays(Date(year, month, day)) * SECONDS_PER_DAY + timeOfDay)
  {
    ClosedFormIsNaiveCount(Date(year, month, day));
    ClockAddsUp(timeOfDay);
  }

  lemma Rfc850Parses(date: Date, dow: string, timeOfDay: nat)
    requires ValidDate(date) && 1970 <= date.year && timeOfDay < SECONDS_PER_DAY
    requires IsWord(dow) && ',' !in dow
    ensures ParseHttpDate(Rfc850Fields(dow, Padded(date.day, 2), MONTH_NAMES[date.month - 1],
                                       Padded(date.year % 100, 2), ClockText(timeOfDay))) ==
            Some(NaiveDays(date.(year := WindowedYear(date.year))) * SECONDS_PER_DAY + timeOfDay)
  {
    hide ParseHttpDate, Rfc850Fields, ParseMonth, ParseClock, DateToUnix, ParseUnsigned, Padded, ClockText;
    var day, year := Padded(date.day, 2), Padded(date.year % 100, 2);
    MonthNames(date.month);
    ClockParses(timeOfDay);
    DigitsAreWords(day);
    DigitsAreWords(year);
    NotInDigits(day, '-');
    NotInDigits(year, '-');
    ParsePadded(date.day, 2, U32_MAX);
    ParsePadded(date.year % 100, 2, U32_MAX);
    DateToUnixClock(WindowedYear(date.year), date.month, date.day, timeOfDay);
    Rfc850FromFields(dow, day, MONTH_NAMES[date.month - 1], year, ClockText(timeOfDay),
                     date.day, date.month, date.year % 100,
                     (timeOfDay / 3600, timeOfDay % 3600 / 60, timeOfDay % 60),
                     NaiveDays(date.(year := WindowedYear(date.year))) * SECONDS_PER_DAY + timeOfDay);
  }

  lemma OlderYear(date: Date, y: int)
    requires 1970 <= y < date.year && 1 <= date.month <= 12
    ensures NaiveDays(date.(year := y)) < NaiveDays(date)
  {
    BeforeYears(y, date.year);
    DaysBeforeMonthClosed(date.year, date.month);
    DaysBeforeMonthClosed(y, date.month);
  }

  /** An RFC 850 date names its century implicitly: it is read back as the same second exactly for
      the hundred years that the two-digit rule covers. */
  lemma Rfc850RoundTrip(t: nat)
    ensures ParseHttpDate(Rfc850Text(t)) == Some(t) <==> UnixDaysToCivil(t / SECONDS_PER_DAY).year < 2070
  {
    hide ParseHttpDate, Rfc850Fields, UnixDaysToCivil, DaysSinceEpoch, Padded, ClockText;
    var days := t / SECONDS_PER_DAY;
    var date := UnixDaysToCivil(days);
    CivilIsValid(days);
    DayNames((days + 4) % 7);
    Rfc850Parses(date, LONG_DAY_NAMES[(days + 4) % 7], t % SECONDS_PER_DAY);
    ClosedFormIsNaiveCount(date);
    assert NaiveDays(date) == days;
    DaySplit(t);
    if date.year < 2070 {
      assert WindowedYear(date.year) == date.year;
    } else {
      OlderYear(date, WindowedYear(date.year));
    }
  }

  lemma AsctimeSplits(dow: string, month: string, pad: bool, day: string, clock: string, year: string)
    requires IsWord(dow) && IsWord(month) && IsWord(day) && IsWord(clock) && IsWord(year)
    ensures SplitWhitespace(AsctimeFields(dow, month, pad, day, clock, year)) == [dow, month, day, clock, year]
  {
    hide WordLength;
    FiveWords(dow, month, day, clock, year);
    var rest := day + " " + (clock + " " + year);
    SplitWordSpace(dow, month + " " + rest);
    SplitWordSpace(month, rest);
    var padded := (if pad then " " else "") + rest;
    SplitWordSpace(dow, month + " " + padded);
    SplitWordSpace(month, padded);
    if pad {
      assert padded[0] == ' ' && padded[1..] == rest;
    } else {
      assert padded == rest;
    }
  }

  lemma NoCommaNoSplit(s: string)
    requires ',' !in s
    ensures SplitOnce(s, ", ").None?
  {
    forall i
      ensures !OccursAt(s, ", ", i)
    {
      if 0 <= i && i + 2 <= |s| {
        assert s[i] != ',' && s[i..i + 2][0] == s[i];
      }
    }
  }

  lemma AsctimeFromFields(s: string, dow: string, month: string, day: string, clock: string, year: string,
                          d: nat, m: int, y: nat, c: (nat, nat, nat), n: nat)
    requires Trim(s) == s && SplitOnce(s, ", ").None?
    requires SplitWhitespace(s) == [dow, month, day, clock, year]
    requires ParseUnsigned(day, U32_MAX) == Some(d) && ParseMonth(month) == Some(m)
    requires ParseUnsigned(year, U32_MAX) == Some(y) && ParseClock(clock) == Some(c)
    requires DateToUnix(y, m, d, c.0, c.1, c.2) == Some(n)
    ensures ParseHttpDate(s) == Some(n)
  {
  }

  lemma NoComma(timeOfDay: nat, m: int, i: int)
    requires timeOfDay < SECONDS_PER_DAY && 1 <= m <= 12 && 0 <= i < 7
    ensures ',' !in ClockText(timeOfDay) && ',' !in MONTH_NAMES[m - 1] && ',' !in DAY_NAMES[i]
  {
    NotInDigits(Padded(timeOfDay / 3600, 2), ',');
    NotInDigits(Padded(timeOfDay % 3600 / 60, 2), ',');
    NotInDigits(Padded(timeOfDay % 60, 2), ',');
    DayNames(i);
    assert m == 1 || m == 2 || m == 3 || m == 4 || m == 5 || m == 6
        || m == 7 || m == 8 || m == 9 || m == 10 || m == 11 || m == 12;
  }

  /** An asctime date is read back as the same second whenever its year fits a `u32`. */
  lemma AsctimeRoundTrip(t: nat)
    requires t <= LAST_PRINTABLE
    ensures ParseHttpDate(AsctimeText(t)) == Some(t)
  {
    hide ParseHttpDate, AsctimeFields, ParseMonth, ParseClock, DateToUnix, ParseUnsigned, ClockText, Decimal;
    var days, timeOfDay := t / SECONDS_PER_DAY, t % SECONDS_PER_DAY;
    var date := UnixDaysToCivil(days);
    CivilIsValid(days);
    YearFits(days);
    DaySplit(t);
    var dow, month, day, clock, year := DAY_NAMES[(days + 4) % 7], MONTH_NAMES[date.month - 1],
      Decimal(date.day), ClockText(timeOfDay), Decimal(date.year);
    DayNames((days + 4) % 7);
    MonthNames(date.month);
    ClockParses(timeOfDay);
    NoComma(timeOfDay, date.month, (days + 4) % 7);
    DigitsAreWords(day);
    DigitsAreWords(year);
    NotInDigits(day, ',');
    NotInDigits(year, ',');
    ParseDecimal(date.day, U32_MAX);
    ParseDecimal(date.year, U32_MAX);
    AsctimeTrim(dow, month, date.day < 10, day, clock, year);
    AsctimeSplits(dow, month, date.day < 10, day, clock, year);
    DateToUnixOfCivil(days, timeOfDay);
    AsctimeFromFields(AsctimeText(t), dow, month, day, clock, year, date.day, date.month, date.year,
                      (timeOfDay / 3600, timeOfDay % 3600 / 60, timeOfDay % 60), t);
  }

  lemma AsctimeTrim(dow: string, month: string, pad: bool, day: string, clock: string, year: string)
    requires IsWord(dow) && IsWord(year)
    requires ',' !in dow && ',' !in month && ',' !in day && ',' !in clock && ',' !in year
    ensures var s := AsctimeFields(dow, month, pad, day, clock, year);
            Trim(s) == s && SplitOnce(s, ", ").None?
  {
    var s := AsctimeFields(dow, month, pad, day, clock, year);
    assert s[0] == dow[0] && s[|s| - 1] == year[|year| - 1];
    TrimOfText(s);
    NoCommaNoSplit(s);
  }
}
