/** `parse_time_str` and `parse_due_str`: from a `day[@time]` string and
    today's date to the moment a reminder falls due. Every exception the
    Python code can raise on the way (from `int()`, `strptime`, date
    arithmetic, `date.replace` or the `datetime` constructor) is a parse
    failure here. */
module DueParser {
  import opened Opt
  import opened Text
  import opened Calendar

  /** A `datetime` value: a day and a time of day. */
  datatype Moment = Moment(date: Date, hour: int, minute: int, second: int)

  /** The outcome of resolving the day part: whether the user-visible
      "next year" note was printed, and the day (None on failure). */
  datatype Rolled = Rolled(note: bool, day: Option<Date>)

  /** The outcome of `parse_due_str`: whether the note was printed, and the
      due moment (None on failure). */
  datatype Parsed = Parsed(note: bool, due: Option<Moment>)

  const DefaultTime := "8am"

  /** The instant of a moment, in seconds on a continuous count of days. The
      source converts with `time.mktime`; only the order of instants matters
      to the rest of the program. */
  function Instant(m: Moment): int
    requires Valid(m.date)
  {
    ((Ordinal(m.date) * 24 + m.hour) * 60 + m.minute) * 60 + m.second
  }

  /** Instants of whole-hour moments are ordered as (date, hour) is. */
  lemma InstantOrder(a: Moment, b: Moment)
    requires Valid(a.date) && 0 <= a.hour < 24 && a.minute == 0 && a.second == 0
    requires Valid(b.date) && 0 <= b.hour < 24 && b.minute == 0 && b.second == 0
    ensures Instant(a) < Instant(b) <==>
              Before(a.date, b.date) || (a.date == b.date && a.hour < b.hour)
    ensures Instant(a) == Instant(b) <==> a == b
  {
    OrdinalOrder(a.date, b.date);
  }

  /** `parse_time_str`: `Nam` gives N, `Npm` gives N + 12, a bare `N` gives N.
      The hour is not range-checked here. */
  function ParseTime(s: string): Option<int>
  {
    if EndsWith(s, "am") then ParseInt(s[..|s| - 2])
    else if EndsWith(s, "pm") then
      match ParseInt(s[..|s| - 2])
      case None => None
      case Some(h) => Some(h + 12)
    else ParseInt(s)
  }

  /** The three documented forms, for every number N. */
  lemma ParseTimeForms(n: int)
    ensures ParseTime(Decimal(n) + "am") == Some(n)
    ensures ParseTime(Decimal(n) + "pm") == Some(n + 12)
    ensures ParseTime(Decimal(n)) == Some(n)
  {
    var d := Decimal(n);
    ParseIntDecimal(n);
    assert (d + "am")[..|d + "am"| - 2] == d;
    assert (d + "pm")[..|d + "pm"| - 2] == d;
    assert !EndsWith(d + "pm", "am");
    assert !EndsWith(d, "am") && !EndsWith(d, "pm");
  }

  /** The examples the source documents: 2am, 5pm and 15. */
  lemma ParseTimeExamples()
    ensures ParseTime("2am") == Some(2)
    ensures ParseTime("5pm") == Some(17)
    ensures ParseTime("15") == Some(15)
  {
    assert Decimal(2) == "2";
    ParseTimeForms(2);
    assert "2am" == Decimal(2) + "am";
    assert Decimal(5) == "5";
    ParseTimeForms(5);
    assert "5pm" == Decimal(5) + "pm";
    assert Decimal(15) == "15";
    ParseTimeForms(15);
  }

  /** 12 is not special-cased: 12am is noon, and 12pm is hour 24, which the
      `datetime` constructor rejects. */
  lemma ParseTimeTwelve()
    ensures ParseTime("12am") == Some(12)
    ensures ParseTime("12pm") == Some(24)
  {
    assert Decimal(12) == "12";
    ParseTimeForms(12);
    assert "12am" == Decimal(12) + "am";
    assert "12pm" == Decimal(12) + "pm";
  }

  /** The `%m` field of `strptime`: one or two ASCII digits naming a month. */
  function MonthField(s: string): Option<int>
  {
    if 1 <= |s| <= 2 && AllDigits(s) && 1 <= DigitsValue(s) <= 12 then Some(DigitsValue(s))
    else None
  }

  /** The `%d` field of `strptime`: one or two ASCII digits naming a day of
      the month, or a space followed by a non-zero digit. */
  function DayField(s: string): Option<int>
  {
    if 1 <= |s| <= 2 && AllDigits(s) && 1 <= DigitsValue(s) <= 31 then Some(DigitsValue(s))
    else if |s| == 2 && s[0] == ' ' && '1' <= s[1] <= '9' then Some(DigitsValue(s[1..]))
    else None
  }

  /** The year `strptime` gives a date that names no year. */
  const StrptimeYear := 1900

  /** `datetime.strptime(s, '%m/%d').date()`: the month/day in 1900, a common
      year, so 02/29 fails like every other day the month lacks. */
  function StrptimeMonthDay(s: string): (r: Option<Date>)
    ensures r.Some? ==> Valid(r.value) && r.value.year == StrptimeYear
  {
    var fields :=
      if |s| >= 2 && s[1] == '/' then (MonthField(s[..1]), DayField(s[2..]))
      else if |s| >= 3 && s[2] == '/' then (MonthField(s[..2]), DayField(s[3..]))
      else (None, None);
    if fields.0.Some? && fields.1.Some? && Valid(Date(StrptimeYear, fields.0.value, fields.1.value))
    then Some(Date(StrptimeYear, fields.0.value, fields.1.value))
    else None
  }

  /** `'%02d' % n`: n written as two decimal digits. */
  function Two(n: int): (s: string)
    requires 0 <= n < 100
    ensures |s| == 2 && AllDigits(s) && DigitsValue(s) == n
  {
    var s := [('0' as int + n / 10) as char, ('0' as int + n % 10) as char];
    assert s[..1][..0] == [];
    assert DigitsValue(s[..1]) == n / 10;
    s
  }

  /** Every day of 1900 written `MM/DD` parses to that month and day. */
  lemma MonthDayParses(m: int, d: int)
    requires 1 <= m <= 12 && 1 <= d <= DaysInMonth(StrptimeYear, m)
    ensures StrptimeMonthDay(Two(m) + "/" + Two(d)) == Some(Date(StrptimeYear, m, d))
  {
    var s := Two(m) + "/" + Two(d);
    assert s[1] != '/' && s[2] == '/';
    assert s[..2] == Two(m) && s[3..] == Two(d);
    assert MonthField(Two(m)) == Some(m);
    assert DayField(Two(d)) == Some(d);
  }

  /** The example the source documents: 12/25. */
  lemma ChristmasParses()
    ensures StrptimeMonthDay("12/25") == Some(Date(StrptimeYear, 12, 25))
  {
    MonthDayParses(12, 25);
    assert Two(12) + "/" + Two(25) == "12/25";
  }

  /** The day named by the day part, before any year roll-over: `+N` is today
      plus N days, anything else is read as `MM/DD` of today's year. */
  function ResolveDay(dayStr: string, today: Date): (r: Option<Date>)
    requires Valid(today)
    ensures r.Some? ==> Valid(r.value)
  {
    if StartsWith(dayStr, "+") then
      match ParseInt(dayStr[1..])
      case None => None
      case Some(n) => AddDays(today, n)
    else
      match StrptimeMonthDay(dayStr)
      case None => None
      case Some(d) => ReplaceYear(d, today.year)
  }

  /** A day before today is taken to mean the same month and day next year;
      the note is printed when that day lies within the 30 days before today. */
  function RollForward(day: Date, today: Date): (r: Rolled)
    requires Valid(day) && Valid(today)
    ensures !Before(day, today) ==> r == Rolled(false, Some(day))
    ensures Before(day, today) && Ordinal(today) > 30 ==>
              (r.note <==> Ordinal(today) - 30 < Ordinal(day))
    ensures Before(day, today) && Ordinal(today) <= 30 ==> r == Rolled(false, None)
    ensures Before(day, today) && r.day.Some? ==>
              r.day.value == Date(today.year + 1, day.month, day.day)
    ensures Before(day, today) ==>
              (r.day.Some? <==> Ordinal(today) > 30 && ReplaceYear(day, today.year + 1).Some?)
    ensures r.day.Some? ==> !Before(r.day.value, today)
  {
    if !Before(day, today) then Rolled(false, Some(day))
    else
      OrdinalRange(today);
      var monthAgo := AddDays(today, -30);
      if monthAgo.None? then Rolled(false, None)
      else
        OrdinalOrder(monthAgo.value, day);
        Rolled(Before(monthAgo.value, day), ReplaceYear(day, today.year + 1))
  }

  /** The day part resolved and rolled forward. */
  function ParseDay(dayStr: string, today: Date): (r: Rolled)
    requires Valid(today)
    ensures r.day.Some? ==> Valid(r.day.value) && !Before(r.day.value, today)
  {
    match ResolveDay(dayStr, today)
    case None => Rolled(false, None)
    case Some(day) => RollForward(day, today)
  }

  /** `parse_due_str`. */
  function ParseDue(s: string, today: Date): (r: Parsed)
    requires Valid(today)
    ensures Count(s, '@') >= 2 ==> r == Parsed(false, None)
    ensures r.due.Some? ==>
              && Valid(r.due.value.date)
              && !Before(r.due.value.date, today)
              && 0 <= r.due.value.hour < 24
              && r.due.value.minute == 0 && r.due.value.second == 0
    ensures r.due.Some? && Count(s, '@') == 0 ==> r.due.value.hour == 8
  {
    var parts := Split(s, '@');
    if |parts| > 2 then Parsed(false, None)
    else
      var timeStr := if |parts| > 1 then parts[1] else DefaultTime;
      var rolled := ParseDay(parts[0], today);
      if rolled.day.None? then Parsed(rolled.note, None)
      else
        match ParseTime(timeStr)
        case None => Parsed(rolled.note, None)
        case Some(hour) =>
          ParseTimeForms(8);
          assert Decimal(8) + "am" == DefaultTime;
          if 0 <= hour < 24 then Parsed(rolled.note, Some(Moment(rolled.day.value, hour, 0, 0)))
          else Parsed(rolled.note, None)
  }

  /** With one `@`, the part after it is the time. The day part alone decides
      the note, and the due moment is the rolled day at the parsed hour
      exactly when both parts parse and the hour is a valid one. */
  lemma ParseDueWithTime(dayStr: string, timeStr: string, today: Date)
    requires Valid(today) && '@' !in dayStr && '@' !in timeStr
    ensures var r := ParseDue(dayStr + "@" + timeStr, today);
            var rolled := ParseDay(dayStr, today);
            var hour := ParseTime(timeStr);
            && r.note == rolled.note
            && (r.due.Some? <==> rolled.day.Some? && hour.Some? && 0 <= hour.value < 24)
            && (r.due.Some? ==> r.due.value == Moment(rolled.day.value, hour.value, 0, 0))
  {
    SplitAtSeparator(dayStr, timeStr, '@');
    assert Split(dayStr + "@" + timeStr, '@') == [dayStr, timeStr];
  }

  /** Without `@`, the time is 8am. */
  lemma ParseDueWithoutTime(dayStr: string, today: Date)
    requires Valid(today) && '@' !in dayStr
    ensures var r := ParseDue(dayStr, today);
            var rolled := ParseDay(dayStr, today);
            && r.note == rolled.note
            && (r.due.Some? <==> rolled.day.Some?)
            && (r.due.Some? ==> r.due.value == Moment(rolled.day.value, 8, 0, 0))
  {
    SplitWithoutSeparator(dayStr, '@');
    ParseTimeForms(8);
    assert Decimal(8) + "am" == DefaultTime;
  }

  /** `MM/DD` names a valid day of today's year: 1900 being a common year,
      the parsed day exists in every year. */
  lemma MonthDayResolves(dayStr: string, today: Date, md: Date)
    requires Valid(today) && !StartsWith(dayStr, "+") && StrptimeMonthDay(dayStr) == Some(md)
    ensures Valid(Date(today.year, md.month, md.day))
    ensures ParseDay(dayStr, today) == RollForward(Date(today.year, md.month, md.day), today)
  {
    assert !IsLeap(StrptimeYear);
    assert DaysInMonth(StrptimeYear, md.month) <= DaysInMonth(today.year, md.month);
    assert ResolveDay(dayStr, today) == Some(Date(today.year, md.month, md.day));
  }

  /** `MM/DD` that is not before today is that day of today's year, with no note. */
  lemma MonthDayThisYear(dayStr: string, today: Date, md: Date)
    requires Valid(today) && !StartsWith(dayStr, "+") && StrptimeMonthDay(dayStr) == Some(md)
    requires !Before(Date(today.year, md.month, md.day), today)
    ensures ParseDay(dayStr, today) == Rolled(false, Some(Date(today.year, md.month, md.day)))
  {
    MonthDayResolves(dayStr, today, md);
  }

  /** `MM/DD` before today is that day of next year; the note is printed
      exactly when the day this year lies within the 30 days before today. */
  lemma MonthDayNextYear(dayStr: string, today: Date, md: Date)
    requires Valid(today) && !StartsWith(dayStr, "+") && StrptimeMonthDay(dayStr) == Some(md)
    requires Before(Date(today.year, md.month, md.day), today)
    requires today.year < MaxYear && Ordinal(today) > 30
    ensures Valid(Date(today.year, md.month, md.day))
    ensures ParseDay(dayStr, today) ==
              Rolled(Ordinal(today) - 30 < Ordinal(Date(today.year, md.month, md.day)),
                     Some(Date(today.year + 1, md.month, md.day)))
  {
    var thisYear := Date(today.year, md.month, md.day);
    MonthDayResolves(dayStr, today, md);
    assert md.day <= DaysInMonth(StrptimeYear, md.month);
    assert ReplaceYear(thisYear, today.year + 1).Some?;
  }

  /** `+N` is today plus N days, before any roll-over. */
  lemma OffsetResolves(n: int, today: Date)
    requires Valid(today)
    ensures ResolveDay("+" + Decimal(n), today) == AddDays(today, n)
  {
    var dayStr := "+" + Decimal(n);
    assert StartsWith(dayStr, "+");
    assert dayStr[1..] == Decimal(n);
    ParseIntDecimal(n);
  }

  /** `+N` with N >= 0 is today plus N days and never rolls over. */
  lemma ForwardOffset(n: nat, today: Date)
    requires Valid(today) && Ordinal(today) + n <= Ordinal(Last)
    ensures var r := ParseDay("+" + Decimal(n), today);
            && !r.note && r.day.Some?
            && Ordinal(r.day.value) == Ordinal(today) + n
  {
    OrdinalRange(today);
    OffsetResolves(n, today);
    var day := AddDays(today, n).value;
    OrdinalOrder(day, today);
    assert ParseDay("+" + Decimal(n), today) == Rolled(false, Some(day));
  }

  /** The roll-over also applies to `+N`: a negative N that lands before today
      moves that month and day to next year. */
  lemma BackwardOffset(n: int, today: Date)
    requires Valid(today) && n < 0 && 1 <= Ordinal(today) + n
    ensures AddDays(today, n).Some?
    ensures var day := AddDays(today, n).value;
            && Before(day, today)
            && ParseDay("+" + Decimal(n), today) == RollForward(day, today)
    ensures var r := ParseDay("+" + Decimal(n), today);
            var day := AddDays(today, n).value;
            r.day.Some? ==> r.day.value == Date(today.year + 1, day.month, day.day)
  {
    OrdinalRange(today);
    OffsetResolves(n, today);
    var day := AddDays(today, n).value;
    OrdinalOrder(day, today);
    assert ParseDay("+" + Decimal(n), today) == RollForward(day, today);
  }

  /** "+0" is today, with no note. */
  lemma PlusZero(today: Date)
    requires Valid(today)
    ensures ParseDay("+0", today) == Rolled(false, Some(today))
  {
    assert Decimal(0) == "0";
    assert "+0" == "+" + Decimal(0);
    ForwardOffset(0, today);
    var rolled := ParseDay("+0", today);
    OrdinalOrder(rolled.day.value, today);
  }

  /** 2pm is hour 14. */
  lemma TwoPm()
    ensures ParseTime("2pm") == Some(14)
  {
    assert Decimal(2) == "2";
    ParseTimeForms(2);
    assert "2pm" == Decimal(2) + "pm";
  }

  /** Adding "+0@2pm" gives 2pm today, with no note. */
  lemma SameDayAfternoon(today: Date)
    requires Valid(today)
    ensures ParseDue("+0@2pm", today) == Parsed(false, Some(Moment(today, 14, 0, 0)))
  {
    PlusZero(today);
    TwoPm();
    ParseDueWithTime("+0", "2pm", today);
    assert "+0@2pm" == "+0" + "@" + "2pm";
  }
}
