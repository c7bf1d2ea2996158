/** The Gregorian calendar from 1969 on, defined by counting days, and its uniqueness.
    The date code of `MimeDate` is measured against it. */
module Calendar {

  /** Month 0 is January; the day of the month counts from 1. */
  datatype Date = Date(year: int, month: int, day: int)

  predicate IsLeap(y: int) {
    y % 4 == 0 && (y % 100 != 0 || y % 400 == 0)
  }

  function DaysInMonth(y: int, m: int): (n: int) {
    if m == 1 then (if IsLeap(y) then 29 else 28)
    else if m == 3 || m == 5 || m == 8 || m == 10 then 30
    else 31
  }

  function YearLength(y: int): (n: int) {
    if IsLeap(y) then 366 else 365
  }

  predicate ValidDate(d: Date) {
    d.year >= 1969 && 0 <= d.month < 12 && 1 <= d.day <= DaysInMonth(d.year, d.month)
  }

  /** Days from 1 January 1970 to 1 January of year `y`. */
  function DaysBeforeYear(y: int): (n: int)
    requires y >= 1969
  {
    if y == 1969 then -365 else DaysBeforeYear(y - 1) + YearLength(y - 1)
  }

  function DaysBeforeMonth(y: int, m: int): (n: int)
    requires 0 <= m <= 12
  {
    if m == 0 then 0 else DaysBeforeMonth(y, m - 1) + DaysInMonth(y, m - 1)
  }

  /** The day number of a date; 1 January 1970 is day 0. */
  function DayNumber(d: Date): (n: int)
    requires ValidDate(d)
  {
    DaysBeforeYear(d.year) + DaysBeforeMonth(d.year, d.month) + d.day - 1
  }

  lemma MonthStarts(y: int)
    ensures var l := YearLength(y) - 365;
      && DaysBeforeMonth(y, 0) == 0 && DaysBeforeMonth(y, 1) == 31
      && DaysBeforeMonth(y, 2) == 59 + l && DaysBeforeMonth(y, 3) == 90 + l
      && DaysBeforeMonth(y, 4) == 120 + l && DaysBeforeMonth(y, 5) == 151 + l
      && DaysBeforeMonth(y, 6) == 181 + l && DaysBeforeMonth(y, 7) == 212 + l
      && DaysBeforeMonth(y, 8) == 243 + l && DaysBeforeMonth(y, 9) == 273 + l
      && DaysBeforeMonth(y, 10) == 304 + l && DaysBeforeMonth(y, 11) == 334 + l
      && DaysBeforeMonth(y, 12) == 365 + l
  {
    assert DaysBeforeMonth(y, 1) == 31;
    assert DaysBeforeMonth(y, 2) == 31 + DaysInMonth(y, 1);
    assert DaysBeforeMonth(y, 4) == DaysBeforeMonth(y, 2) + 61;
    assert DaysBeforeMonth(y, 6) == DaysBeforeMonth(y, 4) + 61;
    assert DaysBeforeMonth(y, 8) == DaysBeforeMonth(y, 6) + 62;
    assert DaysBeforeMonth(y, 10) == DaysBeforeMonth(y, 8) + 61;
    assert DaysBeforeMonth(y, 12) == DaysBeforeMonth(y, 10) + 61;
  }

  // A day of year y lies before 1 January of every later year.
  lemma {:induction false} LaterYear(y: int, z: int)
    requires 1969 <= y < z
    ensures DaysBeforeYear(y) + YearLength(y) <= DaysBeforeYear(z)
    decreases z - y
  {
    if y + 1 < z {
      LaterYear(y, z - 1);
    }
  }

  lemma {:induction false} LaterMonth(y: int, m: int, k: int)
    requires 0 <= m < k <= 12
    ensures DaysBeforeMonth(y, m) + DaysInMonth(y, m) <= DaysBeforeMonth(y, k)
    decreases k - m
  {
    if m + 1 < k {
      LaterMonth(y, m, k - 1);
    }
  }

  /** A day number belongs to one date only. */
  lemma DayNumberInjective(a: Date, b: Date)
    requires ValidDate(a) && ValidDate(b) && DayNumber(a) == DayNumber(b)
    ensures a == b
  {
    LaterMonth(a.year, a.month, 12);
    LaterMonth(b.year, b.month, 12);
    MonthStarts(a.year);
    MonthStarts(b.year);
    if a.year < b.year { LaterYear(a.year, b.year); }
    if b.year < a.year { LaterYear(b.year, a.year); }
    if a.month < b.month { LaterMonth(a.year, a.month, b.month); }
    if b.month < a.month { LaterMonth(b.year, b.month, a.month); }
  }

  // ---------------------------------------------------------------------- weekdays

  datatype Weekday = Sunday | Monday | Tuesday | Wednesday | Thursday | Friday | Saturday

  function NextWeekday(w: Weekday): (v: Weekday) {
    match w
    case Sunday => Monday
    case Monday => Tuesday
    case Tuesday => Wednesday
    case Wednesday => Thursday
    case Thursday => Friday
    case Friday => Saturday
    case Saturday => Sunday
  }

  /** The day before. */
  function Yesterday(d: Date): (e: Date)
    requires ValidDate(d) && d.year >= 1970
    ensures ValidDate(e)
  {
    if d.day > 1 then d.(day := d.day - 1)
    else if d.month > 0 then Date(d.year, d.month - 1, DaysInMonth(d.year, d.month - 1))
    else Date(d.year - 1, 11, 31)
  }

  lemma YesterdayIsOneLess(d: Date)
    requires ValidDate(d) && d.year >= 1970
    ensures DayNumber(Yesterday(d)) == DayNumber(d) - 1
  {
    if d.day == 1 && d.month == 0 {
      MonthStarts(d.year - 1);
    }
  }

  /** 1 January 1970 was a Thursday, and every date falls on the weekday after that of the
      day before. */
  function WeekdayOf(d: Date): (w: Weekday)
    requires ValidDate(d) && DayNumber(d) >= 0 && d.year >= 1970
    decreases DayNumber(d)
  {
    if d == Date(1970, 0, 1) then Thursday
    else
      YesterdayIsOneLess(d);
      FirstDayIsLeast(d);
      NextWeekday(WeekdayOf(Yesterday(d)))
  }

  lemma FirstDayIsLeast(d: Date)
    requires ValidDate(d) && d.year >= 1970 && d != Date(1970, 0, 1)
    ensures DayNumber(d) > 0 && Yesterday(d).year >= 1970
  {
    if d.month > 0 { LaterMonth(d.year, 0, d.month); }
    if d.year > 1970 { LaterYear(1970, d.year); }
  }

  /** The n-th weekday after a Sunday. */
  function WeekdayNumber(n: nat): (w: Weekday) {
    if n == 0 then Sunday else NextWeekday(WeekdayNumber(n - 1))
  }

  lemma {:induction false} WeekdaysRepeat(n: nat)
    ensures WeekdayNumber(n) == WeekdayNumber(n % 7)
  {
    hide WeekdayNumber;
    if n >= 7 {
      WeekdaysRepeat(n - 7);
      SevenLess(n);
      SevenOn(n - 7);
    }
  }

  lemma SevenLess(n: nat)
    requires n >= 7
    ensures n % 7 == (n - 7) % 7
  {
  }

  lemma {:induction false} SevenOn(n: nat)
    ensures WeekdayNumber(n + 7) == WeekdayNumber(n)
  {
    if n > 0 {
      SevenOn(n - 1);
    } else {
      assert WeekdayNumber(2) == Tuesday && WeekdayNumber(4) == Thursday && WeekdayNumber(6) == Saturday;
    }
  }

  /** The weekday of a date by its day number. */
  lemma {:induction false} WeekdayByNumber(d: Date)
    requires ValidDate(d) && DayNumber(d) >= 0 && d.year >= 1970
    ensures WeekdayOf(d) == WeekdayNumber((4 + DayNumber(d)) % 7)
    decreases DayNumber(d)
  {
    WeekdaysRepeat(4 + DayNumber(d));
    if d == Date(1970, 0, 1) {
      assert DayNumber(d) == 0 && WeekdayNumber(2) == Tuesday && WeekdayNumber(4) == Thursday;
    } else {
      FirstDayIsLeast(d);
      YesterdayIsOneLess(d);
      WeekdayByNumber(Yesterday(d));
      WeekdaysRepeat(4 + DayNumber(d) - 1);
    }
  }
}
