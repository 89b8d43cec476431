/** Calendar dates as Python's datetime.strptime(s, "%Y-%m-%d") reads them
    (lifeline/utils.py:14-32, scripts/manage_events.py:110), their
    strftime("%Y-%m-%d") form, and points in time. */
module Dates {
  import opened Wrappers

  /** A point in time on one common scale (seconds). Parsing of ISO timestamps
      and time zones are not modelled: a Moment is already comparable. */
  type Moment = int

  datatype CalendarDate = CalendarDate(year: int, month: int, day: int)

  predicate IsLeapYear(year: int) {
    year % 4 == 0 && (year % 100 != 0 || year % 400 == 0)
  }

  function DaysInMonth(year: int, month: int): int
    requires 1 <= month <= 12
  {
    if month == 2 then (if IsLeapYear(year) then 29 else 28)
    else if month == 4 || month == 6 || month == 9 || month == 11 then 30
    else 31
  }

  /** The dates datetime accepts: years 1 to 9999, a real month, a day the month has. */
  predicate ValidDate(d: CalendarDate) {
    1 <= d.year <= 9999 && 1 <= d.month <= 12 && 1 <= d.day <= DaysInMonth(d.year, d.month)
  }

  predicate IsDigit(c: char) { '0' <= c <= '9' }

  function Digit(c: char): int
    requires IsDigit(c)
  {
    c as int - '0' as int
  }

  function DigitChar(n: int): char
    requires 0 <= n <= 9
  {
    ('0' as int + n) as char
  }

  /** What a %m or %d directive matched: the number and how many characters it took. */
  datatype Field = Field(value: int, width: nat)

  /** strptime's %m pattern, alternatives tried in order: 1[0-2] | 0[1-9] | [1-9]. */
  function MatchMonth(t: string): (r: Option<Field>)
    ensures r.Some? ==> 1 <= r.value.value <= 12 && 1 <= r.value.width <= 2 && r.value.width <= |t|
    ensures r.Some? ==> forall j :: 0 <= j < r.value.width ==> IsDigit(t[j])
  {
    if |t| >= 2 && t[0] == '1' && '0' <= t[1] <= '2' then Some(Field(10 + Digit(t[1]), 2))
    else if |t| >= 2 && t[0] == '0' && '1' <= t[1] <= '9' then Some(Field(Digit(t[1]), 2))
    else if |t| >= 1 && '1' <= t[0] <= '9' then Some(Field(Digit(t[0]), 1))
    else None
  }

  /** strptime's %d pattern, alternatives tried in order:
      3[01] | [12][0-9] | 0[1-9] | [1-9] | ' '[1-9]. */
  function MatchDay(t: string): (r: Option<Field>)
    ensures r.Some? ==> 1 <= r.value.value <= 31 && 1 <= r.value.width <= 2 && r.value.width <= |t|
    ensures r.Some? ==> forall j :: 0 <= j < r.value.width ==> IsDigit(t[j]) || t[j] == ' '
  {
    if |t| >= 2 && t[0] == '3' && (t[1] == '0' || t[1] == '1') then Some(Field(30 + Digit(t[1]), 2))
    else if |t| >= 2 && (t[0] == '1' || t[0] == '2') && IsDigit(t[1]) then Some(Field(10 * Digit(t[0]) + Digit(t[1]), 2))
    else if |t| >= 2 && t[0] == '0' && '1' <= t[1] <= '9' then Some(Field(Digit(t[1]), 2))
    else if |t| >= 1 && '1' <= t[0] <= '9' then Some(Field(Digit(t[0]), 1))
    else if |t| >= 2 && t[0] == ' ' && '1' <= t[1] <= '9' then Some(Field(Digit(t[1]), 2))
    else None
  }

  /** strptime's %Y pattern: exactly four digits. */
  function Year(s: string): int
    requires |s| >= 4 && IsDigit(s[0]) && IsDigit(s[1]) && IsDigit(s[2]) && IsDigit(s[3])
  {
    100 * (10 * Digit(s[0]) + Digit(s[1])) + (10 * Digit(s[2]) + Digit(s[3]))
  }

  /** The pattern match of "%Y-%m-%d" against the whole string: the match is
      anchored at the start, and characters left after the day field are an
      error ("unconverted data remains"). */
  function MatchYmd(s: string): Option<CalendarDate>
  {
    if |s| < 5 || !(IsDigit(s[0]) && IsDigit(s[1]) && IsDigit(s[2]) && IsDigit(s[3])) || s[4] != '-' then None
    else match MatchMonth(s[5..])
      case None => None
      case Some(m) =>
        var k := 5 + m.width;
        if k >= |s| || s[k] != '-' then None
        else match MatchDay(s[k + 1..])
          case None => None
          case Some(d) =>
            if k + 1 + d.width != |s| then None
            else Some(CalendarDate(Year(s), m.value, d.value))
  }

  /** The message strptime raises on a string that does not fit. */
  function StrptimeMessage(s: string): string {
    "time data '" + s + "' does not match format '%Y-%m-%d'"
  }

  /** datetime.strptime(s, "%Y-%m-%d"): the date, or ValueError. */
  function Strptime(s: string): (r: Result<CalendarDate, Failure>)
    ensures r.Ok? ==> ValidDate(r.value) && 8 <= |s| <= 10 && IsDigit(s[0]) && s[4] == '-'
    ensures r.Err? ==> r.error.ValueError?
  {
    match MatchYmd(s)
    case Some(d) => if ValidDate(d) then Ok(d) else Err(ValueError(StrptimeMessage(s)))
    case None => Err(ValueError(StrptimeMessage(s)))
  }

  /** A date strptime accepts is made of digits, dashes and (before a
      one-digit day) a space. */
  lemma DateChars(s: string)
    requires Strptime(s).Ok?
    ensures forall i :: 0 <= i < |s| ==> IsDigit(s[i]) || s[i] == '-' || s[i] == ' '
  {
    var m := MatchMonth(s[5..]).value;
    var k := 5 + m.width;
    var d := MatchDay(s[k + 1..]).value;
    assert k + 1 + d.width == |s|;
    forall i | 0 <= i < |s| ensures IsDigit(s[i]) || s[i] == '-' || s[i] == ' ' {
      if 5 <= i < k {
        assert s[i] == s[5..][i - 5];
      } else if k < i {
        assert s[i] == s[k + 1..][i - k - 1];
      }
    }
  }

  function InvalidDateMessage(s: string): string {
    "Invalid date format: " + s + ". Expected format: YYYY-MM-DD"
  }

  /** validate_date: strptime's date, or ValueError with the one message every
      failure of strptime is turned into. */
  function ValidateDate(s: string): (r: Result<CalendarDate, Failure>)
    ensures r.Ok? <==> Strptime(s).Ok?
    ensures r.Ok? ==> r.value == Strptime(s).value
    ensures r.Err? ==> r.error == ValueError(InvalidDateMessage(s))
  {
    match Strptime(s)
    case Ok(d) => Ok(d)
    case Err(_) => Err(ValueError(InvalidDateMessage(s)))
  }

  function Pad2(n: int): (r: string)
    requires 0 <= n <= 99
    ensures |r| == 2
  {
    [DigitChar(n / 10), DigitChar(n % 10)]
  }

  function Pad4(n: int): (r: string)
    requires 0 <= n <= 9999
    ensures |r| == 4
  {
    Pad2(n / 100) + Pad2(n % 100)
  }

  /** strftime("%Y-%m-%d"), every field zero-padded. */
  function FormatDate(d: CalendarDate): (r: string)
    requires ValidDate(d)
    ensures |r| == 10 && r[4] == '-' && r[7] == '-'
  {
    Pad4(d.year) + "-" + Pad2(d.month) + "-" + Pad2(d.day)
  }

  lemma Pad4Year(n: int, rest: string)
    requires 0 <= n <= 9999
    ensures var t := Pad4(n) + rest; IsDigit(t[0]) && IsDigit(t[1]) && IsDigit(t[2]) && IsDigit(t[3]) && Year(t) == n
  {
    var t := Pad4(n) + rest;
    var hi, lo := n / 100, n % 100;
    assert t[0] == DigitChar(hi / 10) && t[1] == DigitChar(hi % 10);
    assert t[2] == DigitChar(lo / 10) && t[3] == DigitChar(lo % 10);
    assert 10 * Digit(t[0]) + Digit(t[1]) == hi;
    assert 10 * Digit(t[2]) + Digit(t[3]) == lo;
  }

  lemma Pad2Month(m: int, rest: string)
    requires 1 <= m <= 12
    ensures MatchMonth(Pad2(m) + rest) == Some(Field(m, 2))
  {
    var t := Pad2(m) + rest;
    assert t[0] == DigitChar(m / 10) && t[1] == DigitChar(m % 10);
  }

  lemma Pad2Day(d: int, rest: string)
    requires 1 <= d <= 31
    ensures MatchDay(Pad2(d) + rest) == Some(Field(d, 2))
  {
    var t := Pad2(d) + rest;
    assert t[0] == DigitChar(d / 10) && t[1] == DigitChar(d % 10);
  }

  /** Formatting a valid date and reading it back gives the date again. */
  lemma ParseFormatted(d: CalendarDate)
    requires ValidDate(d)
    ensures ValidateDate(FormatDate(d)) == Ok(d)
  {
    var s := FormatDate(d);
    var tail := Pad2(d.month) + "-" + Pad2(d.day);
    assert s == Pad4(d.year) + ("-" + tail);
    Pad4Year(d.year, "-" + tail);
    assert s[5..] == Pad2(d.month) + ("-" + Pad2(d.day));
    Pad2Month(d.month, "-" + Pad2(d.day));
    assert s[8..] == Pad2(d.day) + "";
    Pad2Day(d.day, "");
    assert MatchYmd(s) == Some(d);
  }

  /** A ten-character date string without the space form of %d is already in
      the form strftime gives back. */
  lemma FormattedParsed(s: string)
    requires ValidateDate(s).Ok? && |s| == 10 && s[8] != ' '
    ensures FormatDate(ValidateDate(s).value) == s
  {
    var d := ValidateDate(s).value;
    var m := MatchMonth(s[5..]).value;
    var dd := MatchDay(s[5 + m.width + 1..]).value;
    assert m.width == 2 && dd.width == 2;
    assert d == CalendarDate(Year(s), m.value, dd.value);
    YearDigits(s);
    MonthDigits(s[5..]);
    DayDigits(s[8..]);
    var r := FormatDate(d);
    assert r == Pad4(d.year) + "-" + Pad2(d.month) + "-" + Pad2(d.day);
    assert s == s[..4] + "-" + s[5..7] + "-" + s[8..];
  }

  lemma YearDigits(s: string)
    requires |s| >= 4 && IsDigit(s[0]) && IsDigit(s[1]) && IsDigit(s[2]) && IsDigit(s[3])
    ensures Pad4(Year(s)) == s[..4]
  {
    var hi, lo := 10 * Digit(s[0]) + Digit(s[1]), 10 * Digit(s[2]) + Digit(s[3]);
    assert Year(s) / 100 == hi && Year(s) % 100 == lo;
    assert hi / 10 == Digit(s[0]) && hi % 10 == Digit(s[1]);
    assert lo / 10 == Digit(s[2]) && lo % 10 == Digit(s[3]);
  }

  lemma MonthDigits(t: string)
    requires MatchMonth(t).Some? && MatchMonth(t).value.width == 2
    ensures Pad2(MatchMonth(t).value.value) == t[..2]
  {
  }

  lemma DayDigits(t: string)
    requires MatchDay(t).Some? && MatchDay(t).value.width == 2 && t[0] != ' '
    ensures Pad2(MatchDay(t).value.value) == t[..2]
  {
  }

  /** Lexicographic order on (year, month, day). */
  predicate DateBefore(a: CalendarDate, b: CalendarDate) {
    a.year < b.year || (a.year == b.year && (a.month < b.month || (a.month == b.month && a.day < b.day)))
  }

  /** An order-preserving number for each valid date (31 slots per month, so
      it is not the count of days since an epoch). */
  function DayOrdinal(d: CalendarDate): int {
    (d.year * 12 + d.month - 1) * 31 + d.day - 1
  }

  /** The naive datetime strptime returns: the date at 00:00:00. */
  function Midnight(d: CalendarDate): (r: Moment)
    ensures r % 86400 == 0
  {
    DayOrdinal(d) * 86400
  }

  /** Comparing two midnights is comparing the dates. */
  lemma MidnightOrder(a: CalendarDate, b: CalendarDate)
    requires ValidDate(a) && ValidDate(b)
    ensures Midnight(a) < Midnight(b) <==> DateBefore(a, b)
    ensures Midnight(a) == Midnight(b) <==> a == b
  {
  }
}
