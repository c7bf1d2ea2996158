/** Day numbers to dates and back, and RFC 1123 dates (section 7.1.1.1 of RFC 7231) as text. */
module MimeDate {
  import opened HttpChars
  import opened Calendar

  const DAYS_OFFSET := 25508
  const INT_MAX := 0x7FFF_FFFF

  // --------------------------------------------------------- day number to date

  /** The month of the d-th day of a year that starts on 1 March (d = 1 is 1 March). */
  function MonthOf(d: nat): (m: int) {
    if d <= 31 then 2 else if d <= 61 then 3 else if d <= 92 then 4 else if d <= 122 then 5
    else if d <= 153 then 6 else if d <= 184 then 7 else if d <= 214 then 8 else if d <= 245 then 9
    else if d <= 275 then 10 else if d <= 306 then 11 else if d <= 337 then 0 else 1
  }

  /** The days from 1 March to the first of each month, less one. */
  function DaysTo(m: int): (n: int) {
    if m == 0 then 305 else if m == 1 then 336 else if m == 2 then -1 else if m == 3 then 30
    else if m == 4 then 60 else if m == 5 then 91 else if m == 6 then 121 else if m == 7 then 152
    else if m == 8 then 183 else if m == 9 then 213 else if m == 10 then 244 else 274
  }

  /** The day before 1 March of year 1900 + y. */
  function MarchBase(y: nat): (n: int) {
    y * 365 + y / 4 - y / 100 + (y / 100 + 3) / 4 - DAYS_OFFSET - 1
  }

  // What the leap-year terms of the formula do from one year to the next.
  lemma QuarterStep(h: nat, q: nat)
    requires q < 100
    ensures (100 * h + q + 1) / 4 - (100 * h + q) / 4 == if q % 4 == 3 then 1 else 0
    ensures (100 * h + q) / 100 == h && (100 * h + q + 1) / 100 == if q == 99 then h + 1 else h
  {
  }

  lemma CenturyStep(h: nat)
    ensures (h + 4) / 4 - (h + 3) / 4 == if h % 4 == 0 then 1 else 0
    ensures (2000 + 100 * h) % 400 == 0 <==> h % 4 == 0
  {
  }

  lemma {:induction false} Remainders(k: nat, r: nat)
    requires r < 100
    ensures (100 * k + r) % 100 == r && (100 * k + r) % 4 == r % 4
  {
    if k > 0 {
      Remainders(k - 1, r);
      HundredMore(100 * (k - 1) + r);
    }
  }

  lemma HundredMore(x: nat)
    ensures (x + 100) % 100 == x % 100 && (x + 100) % 4 == x % 4
  {
    FourMore(x, 25);
  }

  lemma {:induction false} FourMore(x: nat, n: nat)
    ensures (x + 4 * n) % 4 == x % 4
  {
    if n > 0 {
      FourMore(x, n - 1);
    }
  }

  lemma LeapByParts(h: nat, q: nat)
    requires q < 100
    ensures IsLeap(1901 + 100 * h + q) <==> q % 4 == 3 && (q == 99 ==> h % 4 == 0)
  {
    if q == 99 {
      CenturyStep(h);
      Remainders(20 + h, 0);
    } else {
      Remainders(19 + h, q + 1);
      assert 1901 + 100 * h + q == 100 * (19 + h) + (q + 1);
    }
  }

  lemma MarchBaseStep(y: nat)
    ensures MarchBase(y + 1) == MarchBase(y) + YearLength(1901 + y)
  {
    var h, q := y / 100, y % 100;
    QuarterStep(h, q);
    CenturyStep(h);
    LeapByParts(h, q);
    assert y == 100 * h + q;
  }

  lemma {:induction false} MarchFirst(y: nat)
    requires y >= 69
    ensures DaysBeforeYear(1900 + y) + DaysBeforeMonth(1900 + y, 2) == MarchBase(y) + 1
  {
    MonthStarts(1900 + y);
    if y > 69 {
      MonthStarts(1899 + y);
      MarchFirst(y - 1);
      MarchBaseStep(y - 1);
    }
  }

  /** The closed formula both conversions rest on is the calendar's day number. */
  lemma DayNumberFormula(d: Date)
    requires ValidDate(d) && d.year >= 1970
    ensures DayNumber(d) == MarchBase(d.year - 1900 - (if d.month < 2 then 1 else 0)) + 1 + DaysTo(d.month) + d.day
  {
    MonthStarts(d.year);
    MonthStarts(d.year - 1);
    MarchFirst(d.year - 1900);
    MarchFirst(d.year - 1901);
  }

  /** The first year, from the guess on, whose 1 March is not before the day. */
  function YearFrom(mday: nat, year: nat): (y: nat)
    ensures y >= year && MarchBase(y) >= mday
    ensures y == year || MarchBase(y - 1) < mday
    decreases mday - MarchBase(year)
  {
    if MarchBase(year) < mday then MarchBaseStep(year); YearFrom(mday, year + 1) else year
  }

  function Guess(mday: nat): (y: nat) {
    mday / 365 + 69
  }

  datatype Option<T> = None | Some(value: T)

  /** The d-th day of the year that starts on 1 March 1900 + y. */
  function FromMarch(y: nat, d: nat): (r: Date) {
    var m := MonthOf(d);
    Date((if m > 1 then y else y + 1) + 1900, m, d - DaysTo(m) - 1)
  }

  /** `mime_days_since_epoch_to_mdy_slowcase`; None where it reports a bad date. */
  function SlowDate(mday: nat): (r: Option<Date>)
  {
    var year := YearFrom(mday, Guess(mday));
    SplitYear(mday - MarchBase(if year == Guess(mday) then year else year - 1), year)
  }

  // Day d of the year that ends with February of 1900 + year.
  function SplitYear(d: int, year: nat): (r: Option<Date>)
    requires year > 0
  {
    if d < 0 || d > 366 then None else Some(FromMarch(year - 1, d))
  }

  /** A caller can check beforehand whether the year guess lies before the day. */
  predicate GuessIsLow(mday: nat) {
    MarchBase(Guess(mday)) < mday
  }

  lemma FromMarchRight(y: nat, d: nat)
    requires y >= 70 || (y == 69 && d > 306)
    requires 1 <= d <= YearLength(1901 + y)
    ensures ValidDate(FromMarch(y, d)) && DayNumber(FromMarch(y, d)) == MarchBase(y) + d
  {
    DayNumberFormula(FromMarch(y, d));
  }

  lemma MarchBase69()
    ensures MarchBase(69) == -307
  {
  }

  lemma SlowDateRight(mday: nat)
    requires GuessIsLow(mday)
    ensures SlowDate(mday).Some? && ValidDate(SlowDate(mday).value) && DayNumber(SlowDate(mday).value) == mday
  {
    hide MarchBase;
    var year := YearFrom(mday, Guess(mday));
    MarchBaseStep(year - 1);
    MarchBase69();
    FromMarchRight(year - 1, mday - MarchBase(year - 1));
  }

  /** The conversion gives the Gregorian date exactly when the guess lies before the day. */
  lemma SlowDateExact(mday: nat)
    ensures GuessIsLow(mday) <==>
      (SlowDate(mday).Some? && ValidDate(SlowDate(mday).value) && DayNumber(SlowDate(mday).value) == mday)
  {
    if GuessIsLow(mday) {
      SlowDateRight(mday);
    }
  }

  /** That is every day before day 460995 (29 February 3232), and not that day. */
  lemma LowUntil460995(mday: nat)
    ensures mday < 460995 ==> GuessIsLow(mday)
    ensures mday == 460995 ==> !GuessIsLow(mday) && SlowDate(mday) == Some(Date(3231, 2, 0))
  {
    var q, r, y := mday / 365, mday % 365, Guess(mday);
    if mday < 460995 {
      assert mday == 365 * q + r && y == q + 69 && y <= 1331;
      var h := y / 100;
      assert h <= 13;
      if h == 13 {
        assert y / 4 <= 332;
      } else {
        assert y < 100 * (h + 1) && y / 4 <= 25 * h + 24;
      }
    }
  }

  /** The loop that refines the guess; also returns the base the day is counted from. */
  method RefineGuess(mday: nat) returns (year: nat, base: int)
    ensures year == YearFrom(mday, Guess(mday))
    ensures base == MarchBase(if year == Guess(mday) then year else year - 1)
  {
    hide MarchBase;
    year := Guess(mday);
    var dp := MarchBase(year);
    base := dp;
    while dp < mday
      invariant year >= Guess(mday) && dp == MarchBase(year)
      invariant YearFrom(mday, year) == YearFrom(mday, Guess(mday))
      invariant base == MarchBase(if year == Guess(mday) then year else year - 1)
      decreases mday - dp
    {
      MarchBaseStep(year);
      base := dp;
      year := year + 1;
      dp := MarchBase(year);
    }
  }

  method DaysToMdySlow(days: nat) returns (r: Option<Date>)
    ensures r == SlowDate(days)
  {
    hide MarchBase, YearFrom;
    var year, base := RefineGuess(days);
    r := MonthAndDay(days - base, year);
  }

  // The last part of the conversion.
  method MonthAndDay(d: int, y: nat) returns (r: Option<Date>)
    requires y > 0
    ensures r == SplitYear(d, y)
  {
    var year := y;
    if d < 0 || d > 366 {
      r := None;
    } else {
      var month := MonthOf(d);
      if month > 1 {
        year := year - 1;
      }
      r := Some(Date(year + 1900, month, d - DaysTo(month) - 1));
    }
  }

  lemma SlowDateDefined(mday: nat)
    requires mday < 460995
    ensures SlowDate(mday).Some?
  {
    LowUntil460995(mday);
    SlowDateRight(mday);
  }

  // ------------------------------------------------------------- lookup table

  // The table holds what the slow conversion gives.
  ghost predicate TableRight(first: nat, table: seq<Date>) {
    forall i {:trigger table[i]} :: 0 <= i < |table| ==> SlowDate(first + i) == Some(table[i])
  }

  lemma TableExtends(first: nat, table: seq<Date>, d: Date)
    requires TableRight(first, table) && SlowDate(first + |table|) == Some(d)
    ensures TableRight(first, table + [d])
  {
    hide SlowDate;
  }

  method BuildTable(first: nat, count: nat) returns (table: seq<Date>)
    requires first + count <= 460995
    ensures |table| == count && TableRight(first, table)
  {
    hide SlowDate, TableRight;
    table := [];
    TableEmpty(first);
    var i := 0;
    while i < count
      invariant 0 <= i <= count && |table| == i && TableRight(first, table)
    {
      SlowDateDefined(first + i);
      var r := DaysToMdySlow(first + i);
      TableExtends(first, table, r.value);
      table := table + [r.value];
      i := i + 1;
    }
  }

  lemma TableEmpty(first: nat)
    ensures TableRight(first, [])
  {
  }

  class DateTable {
    var first: nat
    var last: nat
    var table: seq<Date>

    ghost predicate Valid()
      reads this
    {
      first <= last && |table| == last - first + 1 && TableRight(first, table)
    }

    /** `mime_init_date_format_table`, a year around today. */
    constructor (today: nat)
      requires 366 <= today < 460995 - 366
      ensures Valid() && first == today - 366 && last == today + 366
    {
      first, last := today - 366, today + 366;
      var t := BuildTable(today - 366, 2 * 366 + 1);
      table := t;
    }

    /** `mime_days_since_epoch_to_mdy`: the table never changes the answer. */
    method DaysToMdy(days: nat) returns (r: Option<Date>)
      requires Valid()
      ensures r == SlowDate(days)
    {
      if first <= days <= last {
        r := Some(table[days - first]);
      } else {
        r := DaysToMdySlow(days);
      }
    }
  }
}
