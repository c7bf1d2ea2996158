/** What formatted dates say and what date texts mean, stated by the calendar and by the
    layout of section 7.1.1.1 of RFC 7231, not by each other. */
module MimeDateLaws {
  import opened HttpChars
  import opened Calendar
  import opened MimeDate
  import opened MimeDateText

  function WeekdayName(w: Weekday): (s: string) {
    match w
    case Sunday => "Sun"
    case Monday => "Mon"
    case Tuesday => "Tue"
    case Wednesday => "Wed"
    case Thursday => "Thu"
    case Friday => "Fri"
    case Saturday => "Sat"
  }

  const MONTHS := ["Jan", "Feb", "Mar", "Apr", "May", "Jun", "Jul", "Aug", "Sep", "Oct", "Nov", "Dec"]

  /** `s` spells `n` in decimal, with all its digits. */
  ghost predicate Decimal(s: string, n: nat) {
    if |s| == 0 then n == 0
    else s[|s| - 1] == DIGITS[n % 10] && Decimal(s[..|s| - 1], n / 10)
  }

  /** The fixed layout: weekday, day, month, year, time of day. */
  ghost predicate SaysDate(s: string, w: Weekday, d: Date, h: nat, m: nat, sec: nat) {
    && |s| == 29 && 0 <= d.month < 12 && d.day >= 0 && d.year >= 0
    && s[..3] == WeekdayName(w) && s[3] == ',' && s[4] == ' ' && Decimal(s[5..7], d.day) && s[7] == ' '
    && s[8..11] == MONTHS[d.month] && s[11] == ' ' && Decimal(s[12..16], d.year) && s[16] == ' '
    && Decimal(s[17..19], h) && s[19] == ':' && Decimal(s[20..22], m) && s[22] == ':'
    && Decimal(s[23..25], sec) && s[25] == ' ' && s[26] == 'G' && s[27] == 'M' && s[28] == 'T'
  }

  lemma DigitIs(n: nat)
    requires n < 10
    ensures Digit(n) == DIGITS[n]
  {
  }

  lemma TwoAre(s: string, n: nat)
    requires |s| == 2 && n < 100 && s[0] == Digit(n / 10) && s[1] == Digit(n % 10)
    ensures Decimal(s, n)
  {
    hide Digit;
    DigitIs(n / 10);
    DigitIs(n % 10);
    assert s[..1][..0] == "" && n / 10 / 10 == 0;
    assert Decimal(s[..1], n / 10) by { assert Decimal("", 0); }
  }

  lemma FourAre(s: string, n: nat)
    requires |s| == 4 && n < 10000
    requires s[0] == Digit(n / 1000) && s[1] == Digit(n / 100 % 10) && s[2] == Digit(n / 10 % 10) && s[3] == Digit(n % 10)
    ensures Decimal(s, n)
  {
    hide Digit;
    DigitIs(n / 10 % 10);
    DigitIs(n % 10);
    var t := s[..3][..2];
    assert n / 100 / 10 == n / 1000 && n / 10 / 10 == n / 100;
    TwoAre(t, n / 100);
    assert Decimal(s[..3], n / 10);
  }

  lemma DayNameIs(w: nat)
    requires w < 7
    ensures DayName(w) == WeekdayName(WeekdayNumber(w))
  {
    assert WeekdayNumber(2) == Tuesday && WeekdayNumber(4) == Thursday && WeekdayNumber(6) == Saturday;
  }

  lemma MonthNameIs(m: nat)
    requires m < 12
    ensures MonthName(m) == MONTHS[m]
  {
  }

  lemma TextSays(w: nat, d: Date, h: nat, m: nat, s: nat)
    requires w < 7 && 0 <= d.month < 12 && 0 <= d.day < 100 && 0 <= d.year < 10000 && h < 100 && m < 100 && s < 100
    ensures SaysDate(Text(w, d, h, m, s), WeekdayNumber(w), d, h, m, s)
  {
    hide Text, Digit, DayName, MonthName, WeekdayNumber, WeekdayName, Decimal;
    var t := Text(w, d, h, m, s);
    DayNameIs(w);
    MonthNameIs(d.month);
    FrontChars(w, d, h, m, s);
    BackChars(w, d, h, m, s);
    TwoAre(t[5..7], d.day);
    FourAre(t[12..16], d.year);
    TwoAre(t[17..19], h);
    TwoAre(t[20..22], m);
    TwoAre(t[23..25], s);
  }

  lemma FrontChars(w: nat, d: Date, h: nat, m: nat, s: nat)
    requires w < 7 && 0 <= d.month < 12 && 0 <= d.day < 100 && 0 <= d.year < 10000 && h < 100 && m < 100 && s < 100
    ensures var t := Text(w, d, h, m, s);
      && t[..3] == DayName(w) && t[3] == ',' && t[4] == ' ' && t[5] == Digit(d.day / 10) && t[6] == Digit(d.day % 10)
      && t[7] == ' ' && t[8..11] == MonthName(d.month) && t[11] == ' '
  {
    hide Digit, DayName, MonthName;
    var t, day, mon := Text(w, d, h, m, s), DayName(w), MonthName(d.month);
    assert t[..3] == [day[0], day[1], day[2]] == day;
    assert t[8..11] == [mon[0], mon[1], mon[2]] == mon;
  }

  lemma BackChars(w: nat, d: Date, h: nat, m: nat, s: nat)
    requires w < 7 && 0 <= d.month < 12 && 0 <= d.day < 100 && 0 <= d.year < 10000 && h < 100 && m < 100 && s < 100
    ensures var t := Text(w, d, h, m, s);
      && t[12] == Digit(d.year / 1000) && t[13] == Digit(d.year / 100 % 10) && t[14] == Digit(d.year / 10 % 10)
      && t[15] == Digit(d.year % 10) && t[16] == ' '
      && t[17] == Digit(h / 10) && t[18] == Digit(h % 10) && t[19] == ':'
      && t[20] == Digit(m / 10) && t[21] == Digit(m % 10) && t[22] == ':'
      && t[23] == Digit(s / 10) && t[24] == Digit(s % 10) && t[25] == ' ' && t[26] == 'G' && t[27] == 'M' && t[28] == 'T'
  {
    hide Digit, DayName, MonthName;
  }

  /** A formatted time says the calendar date of its day, the weekday of that date, and the
      hours, minutes and seconds since its midnight. */
  lemma FormatSays(t: nat)
    requires t / 86400 < 460995
    ensures var d := DateOf(t); var rest := t - t / 86400 * 86400;
      && ValidDate(d) && DayNumber(d) == t / 86400 && d.year >= 1970
      && SaysDate(Format(t), WeekdayOf(d), d, rest / 3600, rest / 60 % 60, rest % 60)
  {
    hide Text, SaysDate, SlowDate, WeekdayNumber;
    var d := DateOf(t);
    YearOfTime(d);
    WeekdayByNumber(d);
    TextSays((4 + t / 86400) % 7, d, t / 3600 % 24, t / 60 % 60, t % 60);
    DayTime(t);
  }

  lemma DayTime(t: nat)
    ensures var rest := t - t / 86400 * 86400;
      rest / 3600 == t / 3600 % 24 && rest / 60 % 60 == t / 60 % 60 && rest % 60 == t % 60
  {
    var days, rest := t / 86400, t - t / 86400 * 86400;
    assert t == days * 86400 + rest;
    Hours(days, rest);
    Minutes(days, rest);
    Seconds(days, rest);
  }

  lemma Hours(days: nat, rest: nat)
    requires rest < 86400
    ensures (days * 86400 + rest) / 3600 % 24 == rest / 3600
  {
    assert (days * 86400 + rest) / 3600 == days * 24 + rest / 3600;
  }

  lemma Minutes(days: nat, rest: nat)
    ensures (days * 86400 + rest) / 60 % 60 == rest / 60 % 60
  {
    assert (days * 86400 + rest) / 60 == days * 1440 + rest / 60;
    SixtyTurns(24 * days, rest / 60);
  }

  lemma {:induction false} SixtyTurns(k: nat, x: nat)
    ensures (60 * k + x) % 60 == x % 60
  {
    if k > 0 {
      SixtyTurns(k - 1, x);
      assert 60 * k + x == 60 * (k - 1) + x + 60;
    }
  }

  lemma Seconds(days: nat, rest: nat)
    ensures (days * 86400 + rest) % 60 == rest % 60
  {
    SixtyTurns(1440 * days, rest);
  }

  /** A date text means the seconds from 1970 to it, whatever weekday it names and however
      many blanks stand before it; dates after 2037 mean the largest time. */
  lemma TextMeans(w: nat, d: Date, h: nat, m: nat, s: nat)
    requires w < 7 && ValidDate(d) && 1970 <= d.year < 10000 && h < 24 && m < 60 && s < 60
    ensures Parse(Text(w, d, h, m, s)) ==
      Time(if d.year > 2037 then INT_MAX else DayNumber(d) * 86400 + h * 3600 + m * 60 + s)
  {
    hide Text, Parse, MarchBase;
    ParseText(w, d, h, m, s);
    DayNumberFormula(d);
  }

  predicate IsByte(c: char) {
    (c as int) < 256
  }

  /** The two searches by three characters find the names and nothing else. */
  lemma OnlyDayNames(a: char, b: char, c: char)
    requires IsByte(a) && IsByte(b) && IsByte(c)
    ensures var w := DayIndex(Three(a, b, c)); w < 0 || (w < 7 && DayName(w) == [a, b, c])
  {
  }

  lemma OnlyMonthNames(a: char, b: char, c: char)
    requires IsByte(a) && IsByte(b) && IsByte(c)
    ensures var m := MonthIndex(Three(a, b, c)); m < 0 || (m < 12 && MonthName(m) == [a, b, c])
  {
  }

  /** In a text with a comma in the fourth place the name of a day and of a month must
      stand in their places, and the colons in theirs; without the colons the time is 0. */
  lemma FixedForm(s: string)
    requires |s| >= 29 && s[3] == ',' && !IsWs(s[0]) && !IsDigit(s[0])
    requires forall i :: 0 <= i < 11 ==> IsByte(s[i])
    ensures Parse(s) == OtherForm <==>
      !((exists w :: 0 <= w < 7 && DayName(w) == s[..3]) && exists m :: 0 <= m < 12 && MonthName(m) == s[8..11])
    ensures Parse(s) != OtherForm && (s[19] != ':' || s[22] != ':') ==> Parse(s) == Time(0)
  {
    hide DayIndex, MonthIndex, DayName, MonthName, TimeOf;
    OnlyDayNames(s[0], s[1], s[2]);
    OnlyMonthNames(s[8], s[9], s[10]);
    assert s[..3] == [s[0], s[1], s[2]] && s[8..11] == [s[8], s[9], s[10]];
    if w :| 0 <= w < 7 && DayName(w) == s[..3] {
      DayIndexOfName(w);
    }
    if m :| 0 <= m < 12 && MonthName(m) == s[8..11] {
      MonthIndexOfName(m);
    }
  }

  /** Blanks in front change nothing. */
  lemma {:induction false} BlanksInFront(blanks: string, s: string)
    requires forall i :: 0 <= i < |blanks| ==> IsWs(blanks[i])
    ensures Parse(blanks + s) == Parse(s)
    decreases |blanks|
  {
    if blanks == "" {
      assert blanks + s == s;
    } else {
      assert (blanks + s)[1..] == blanks[1..] + s;
      BlanksInFront(blanks[1..], s);
    }
  }

  lemma FormatIsText(t: nat)
    requires t / 86400 < 460995
    ensures Format(t) == Text((4 + t / 86400) % 7, DateOf(t), t / 3600 % 24, t / 60 % 60, t % 60)
    ensures SlowDate(t / 86400) == Some(DateOf(t))
  {
    hide Text, SlowDate;
    LowUntil460995(t / 86400);
    SlowDateRight(t / 86400);
  }

  /** `mime_format_date` into a buffer; the date comes from the table. */
  method FormatDate(table: DateTable, buffer: array<char>, value: nat) returns (len: nat)
    requires table.Valid() && value / 86400 < 460995 && buffer.Length >= 30
    modifies buffer
    ensures len == 29 && buffer[..29] == Format(value) && buffer[29] == '\0'
    ensures var d := DateOf(value); var rest := value - value / 86400 * 86400;
      && ValidDate(d) && DayNumber(d) == value / 86400 && d.year >= 1970
      && SaysDate(buffer[..29], WeekdayOf(d), d, rest / 3600, rest / 60 % 60, rest % 60)
  {
    hide SlowDate, Text, SaysDate, WeekdayOf, DateOf, Format, DayNumber;
    FormatSays(value);
    FormatIsText(value);
    var v := value;
    var sec := v % 60;
    v := v / 60;
    var min := v % 60;
    v := v / 60;
    var hour := v % 24;
    v := v / 24;
    assert v == value / 86400 && hour == value / 3600 % 24;
    var wday := (4 + v) % 7;
    var r := table.DaysToMdy(v);
    SlowDateDefined(v);
    var d := r.value;
    assert d == DateOf(value);
    WriteText(buffer, wday, d, hour, min, sec);
    len := 29;
  }
}
