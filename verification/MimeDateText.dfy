/** RFC 1123 dates as text, and the proof that parsing undoes formatting. */
module MimeDateText {
  import opened HttpChars
  import opened Calendar
  import opened MimeDate

  /** The first second of 2038. */
  const YEAR_2038 := 2145916800

  // ------------------------------------------------------------------ formatting

  function DayName(w: nat): (s: string)
    requires w < 7
    ensures |s| == 3
  {
    if w == 0 then "Sun" else if w == 1 then "Mon" else if w == 2 then "Tue" else if w == 3 then "Wed"
    else if w == 4 then "Thu" else if w == 5 then "Fri" else "Sat"
  }

  function MonthName(m: nat): (s: string)
    requires m < 12
    ensures |s| == 3
  {
    if m == 0 then "Jan" else if m == 1 then "Feb" else if m == 2 then "Mar" else if m == 3 then "Apr"
    else if m == 4 then "May" else if m == 5 then "Jun" else if m == 6 then "Jul" else if m == 7 then "Aug"
    else if m == 8 then "Sep" else if m == 9 then "Oct" else if m == 10 then "Nov" else "Dec"
  }

  function Digit(n: nat): (c: char)
    requires n < 10
    ensures c as int == '0' as int + n
  {
    ('0' as int + n) as char
  }

  /** Day, date and time of day as 29 characters. */
  function Text(w: nat, d: Date, h: nat, m: nat, s: nat): (t: string)
    requires w < 7 && 0 <= d.month < 12 && 0 <= d.day < 100 && 0 <= d.year < 10000 && h < 100 && m < 100 && s < 100
    ensures |t| == 29
  {
    var day, mon := DayName(w), MonthName(d.month);
    [day[0], day[1], day[2], ',', ' ',
     Digit(d.day / 10), Digit(d.day % 10), ' ',
     mon[0], mon[1], mon[2], ' ',
     Digit(d.year / 1000), Digit(d.year / 100 % 10), Digit(d.year / 10 % 10), Digit(d.year % 10), ' ',
     Digit(h / 10), Digit(h % 10), ':',
     Digit(m / 10), Digit(m % 10), ':',
     Digit(s / 10), Digit(s % 10), ' ', 'G', 'M', 'T']
  }

  /** The date a time falls on. */
  function DateOf(t: nat): (d: Date)
    requires t / 86400 < 460995
    ensures ValidDate(d) && DayNumber(d) == t / 86400 && d.year < 10000
  {
    LowUntil460995(t / 86400);
    SlowDateRight(t / 86400);
    YearBelow10000(SlowDate(t / 86400).value);
    SlowDate(t / 86400).value
  }

  lemma YearBelow10000(d: Date)
    requires ValidDate(d) && DayNumber(d) < 460995
    ensures d.year < 10000
  {
    if d.year >= 3300 {
      if d.year > 3300 { LaterYear(3300, d.year); }
      MarchFirst(1400);
      MonthStarts(3300);
      LaterMonth(d.year, 0, 12);
      if d.month > 0 { LaterMonth(d.year, 0, d.month); }
    }
  }

  /** `mime_format_date`. */
  function Format(t: nat): (s: string)
    requires t / 86400 < 460995
    ensures |s| == 29
  {
    Text((4 + t / 86400) % 7, DateOf(t), t / 3600 % 24, t / 60 % 60, t % 60)
  }

  // --------------------------------------------------------------------- parsing

  function Three(a: char, b: char, c: char): (n: int) {
    a as int * 0x10000 + b as int * 0x100 + c as int
  }

  /** The search for the weekday by its three characters as one number. */
  function DayIndex(n: int): (w: int) {
    if n <= 0x53756E then
      if n == 0x467269 then 5 else if n == 0x4D6F6E then 1 else if n == 0x536174 then 6
      else if n == 0x53756E then 0 else -1
    else
      if n == 0x546875 then 4 else if n == 0x547565 then 2 else if n == 0x576564 then 3 else -1
  }

  function MonthIndex(n: int): (m: int) {
    if n <= 0x4A756C then
      if n <= 0x446563 then
        if n == 0x417072 then 3 else if n == 0x417567 then 7 else if n == 0x446563 then 11 else -1
      else
        if n == 0x466562 then 1 else if n == 0x4A616E then 0 else if n == 0x4A756C then 6 else -1
    else if n <= 0x4D6179 then
      if n == 0x4A756E then 5 else if n == 0x4D6172 then 2 else if n == 0x4D6179 then 4 else -1
    else
      if n == 0x4E6F76 then 10 else if n == 0x4F6374 then 9 else if n == 0x536570 then 8 else -1
  }

  function Value(c: char): (v: int) {
    c as int - '0' as int
  }

  /** A parsed time, or a date in a form that the table-driven matcher would have to decide. */
  datatype Parsed = Time(t: int) | OtherForm

  /** The time of a date, as the last part of `mime_parse_date` computes it. */
  function TimeOf(year: int, month: int, day: int, h: int, m: int, s: int): (t: int)
    requires 0 <= month < 12
  {
    if year > 137 then INT_MAX
    else if year < 70 then 0
    else
      var days := day + DaysTo(month) + MarchBase(if month < 2 then year - 1 else year) + 1;
      ((days * 24 + h) * 60 + m) * 60 + s
  }

  /** The RFC 822 branch. */
  function ParseFast(s: string): (r: Parsed)
    requires |s| >= 29
  {
    var w, mon := DayIndex(Three(s[0], s[1], s[2])), MonthIndex(Three(s[8], s[9], s[10]));
    if w < 0 || mon < 0 then OtherForm
    else if s[19] != ':' || s[22] != ':' then Time(0)
    else Time(TimeOf(
      Value(s[12]) * 1000 + Value(s[13]) * 100 + Value(s[14]) * 10 + Value(s[15]) - 1900, mon,
      Value(s[5]) * 10 + Value(s[6]), Value(s[17]) * 10 + Value(s[18]),
      Value(s[20]) * 10 + Value(s[21]), Value(s[23]) * 10 + Value(s[24])))
  }

  /** `mime_parse_date`. */
  function Parse(s: string): (r: Parsed) {
    if s != "" && IsWs(s[0]) then Parse(s[1..])
    else if s != "" && IsDigit(s[0]) then OtherForm
    else if |s| >= 29 && s[3] == ',' then ParseFast(s)
    else OtherForm
  }

  // ---------------------------------------------------------------- the round trip

  lemma DayIndexOfName(w: nat)
    requires w < 7
    ensures var s := DayName(w); DayIndex(Three(s[0], s[1], s[2])) == w && !IsWs(s[0]) && !IsDigit(s[0])
  {
  }

  lemma MonthIndexOfName(m: nat)
    requires m < 12
    ensures var s := MonthName(m); MonthIndex(Three(s[0], s[1], s[2])) == m
  {
  }

  lemma TwoDigits(n: nat)
    requires n < 100
    ensures Value(Digit(n / 10)) * 10 + Value(Digit(n % 10)) == n
  {
  }

  lemma FourDigits(n: nat)
    requires n < 10000
    ensures Value(Digit(n / 1000)) * 1000 + Value(Digit(n / 100 % 10)) * 100
          + Value(Digit(n / 10 % 10)) * 10 + Value(Digit(n % 10)) == n
  {
    assert n == n / 10 * 10 + n % 10;
    assert n / 10 == n / 100 * 10 + n / 10 % 10;
    assert n / 100 == n / 1000 * 10 + n / 100 % 10;
  }

  /** Parsing the text of a date gives the time of that date. */
  lemma ParseText(w: nat, d: Date, h: nat, m: nat, s: nat)
    requires w < 7 && 0 <= d.month < 12 && 0 <= d.day < 100 && 0 <= d.year < 10000 && h < 100 && m < 100 && s < 100
    ensures Parse(Text(w, d, h, m, s)) == Time(TimeOf(d.year - 1900, d.month, d.day, h, m, s))
  {
    hide DayIndex, MonthIndex, DayName, MonthName, TimeOf, Digit, Value;
    DayIndexOfName(w);
    MonthIndexOfName(d.month);
    TwoDigits(d.day);
    FourDigits(d.year);
    TwoDigits(h);
    TwoDigits(m);
    TwoDigits(s);
  }

  lemma YearOfTime(d: Date)
    requires ValidDate(d) && DayNumber(d) >= 0
    ensures d.year >= 1970
    ensures d.year <= 2037 <==> DayNumber(d) < YEAR_2038 / 86400
  {
    MonthStarts(d.year);
    if d.month > 0 { LaterMonth(d.year, 0, d.month); }
    LaterMonth(d.year, d.month, 12);
    MarchFirst(138);
    MonthStarts(2038);
    if d.year < 2038 { LaterYear(d.year, 2038); }
    if d.year > 2038 { LaterYear(2038, d.year); }
  }

  lemma TimeParts(t: nat)
    ensures ((t / 86400 * 24 + t / 3600 % 24) * 60 + t / 60 % 60) * 60 + t % 60 == t
  {
    assert t / 3600 == t / 60 / 60 && t / 86400 == t / 3600 / 24;
  }

  /** For times up to the year 3232 formatting and parsing give back the time exactly up to
      the end of 2037; after that parsing gives the largest 32-bit time. */
  lemma ParseUndoesFormat(t: nat)
    requires t / 86400 < 460995
    ensures Parse(Format(t)) == Time(if t < YEAR_2038 then t else INT_MAX)
  {
    hide MarchBase, Text, Parse, SlowDate;
    var d := DateOf(t);
    ParseText((4 + t / 86400) % 7, d, t / 3600 % 24, t / 60 % 60, t % 60);
    YearOfTime(d);
    if d.year <= 2037 {
      DayNumberFormula(d);
      TimeParts(t);
    }
  }

  /** No step of the time computation leaves the 32-bit range for those times. */
  lemma NoOverflow(t: nat)
    requires t < YEAR_2038
    ensures var days, h, m := t / 86400, t / 3600 % 24, t / 60 % 60;
      && 0 <= days * 24 <= days * 24 + h <= INT_MAX
      && (days * 24 + h) * 60 + m <= INT_MAX
      && ((days * 24 + h) * 60 + m) * 60 + t % 60 <= INT_MAX
  {
    TimeParts(t);
  }

  /** The entry of `mime_parse_date`: skip white space, then choose the form. */
  method ParseDate(s: string) returns (r: Parsed)
    ensures r == Parse(s)
  {
    var i := 0;
    while i < |s| && IsWs(s[i])
      invariant 0 <= i <= |s| && Parse(s[i..]) == Parse(s)
    {
      assert s[i..][1..] == s[i + 1..];
      i := i + 1;
    }
    var buf := s[i..];
    if buf != "" && IsDigit(buf[0]) {
      r := OtherForm;
    } else if |buf| >= 29 && buf[3] == ',' {
      r := ParseFast(buf);
    } else {
      r := OtherForm;
    }
  }

  // ------------------------------------------------------------------ the formatter

  function Two(n: nat): (s: string)
    requires n < 100
    ensures |s| == 2
  {
    [Digit(n / 10), Digit(n % 10)]
  }

  function Four(n: nat): (s: string)
    requires n < 10000
    ensures |s| == 4
  {
    [Digit(n / 1000), Digit(n / 100 % 10), Digit(n / 10 % 10), Digit(n % 10)]
  }

  lemma TextParts(w: nat, d: Date, h: nat, m: nat, s: nat)
    requires w < 7 && 0 <= d.month < 12 && 0 <= d.day < 100 && 0 <= d.year < 10000 && h < 100 && m < 100 && s < 100
    ensures Text(w, d, h, m, s) == DayName(w) + ", " + (Two(d.day) + " ") + MonthName(d.month) + " "
      + (Four(d.year) + " ") + (Two(h) + ":") + (Two(m) + ":") + (Two(s) + " ") + "GMT"
  {
    hide DayName, MonthName, Digit;
  }

  lemma YearSteps(y: nat)
    requires y < 10000
    ensures y / 10 / 10 == y / 100 && y / 10 / 10 / 10 == y / 1000 && y / 1000 % 10 == y / 1000
  {
  }

  lemma Decade(y: nat)
    ensures 2000 <= y <= 2009 ==> y / 1000 == 2 && y / 100 % 10 == 0 && y / 10 % 10 == 0 && y % 10 == y - 2000
    ensures 1990 <= y <= 1999 ==> y / 1000 == 1 && y / 100 % 10 == 9 && y / 10 % 10 == 9 && y % 10 == y - 1990
  {
  }

  // The year, with two decades written out.
  method YearDigits(y: nat) returns (s: string)
    requires y < 10000
    ensures s == Four(y)
  {
    YearSteps(y);
    Decade(y);
    if 2000 <= y <= 2009 {
      s := ['2', '0', '0', Digit(y - 2000)];
    } else if 1990 <= y <= 1999 {
      s := ['1', '9', '9', Digit(y - 1990)];
    } else {
      var a, year := Digit(y % 10), y / 10;
      var b := Digit(year % 10);
      year := year / 10;
      var c := Digit(year % 10);
      year := year / 10;
      s := [Digit(year % 10), c, b, a];
    }
  }

  // Write at the cursor.
  method Write(buffer: array<char>, at: nat, s: string) returns (next: nat)
    requires at + |s| <= buffer.Length
    modifies buffer
    ensures next == at + |s| && buffer[..next] == old(buffer[..at]) + s
  {
    forall j | 0 <= j < |s| {
      buffer[at + j] := s[j];
    }
    next := at + |s|;
  }

  /** The writes of `mime_format_date`. */
  method WriteText(buffer: array<char>, w: nat, d: Date, h: nat, m: nat, s: nat)
    requires w < 7 && 0 <= d.month < 12 && 0 <= d.day < 100 && 0 <= d.year < 10000 && h < 100 && m < 100 && s < 100
    requires buffer.Length >= 30
    modifies buffer
    ensures buffer[..29] == Text(w, d, h, m, s) && buffer[29] == '\0'
  {
    hide DayName, MonthName, Two, Four, Text;
    TextParts(w, d, h, m, s);
    var year := YearDigits(d.year);
    assert buffer[..0] == "" && "" + DayName(w) == DayName(w);
    var at := Write(buffer, 0, DayName(w));
    at := Write(buffer, at, ", ");
    at := Write(buffer, at, Two(d.day) + " ");
    at := Write(buffer, at, MonthName(d.month));
    at := Write(buffer, at, " ");
    at := Write(buffer, at, year + " ");
    at := Write(buffer, at, Two(h) + ":");
    at := Write(buffer, at, Two(m) + ":");
    at := Write(buffer, at, Two(s) + " ");
    at := Write(buffer, at, "GMT");
    buffer[29] := '\0';
  }
}
