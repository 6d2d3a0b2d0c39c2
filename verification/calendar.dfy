/** Proleptic Gregorian calendar dates without a time of day, and the two
    JavaScript `Date` operations the date-pair generator relies on: the
    constructor `new Date(year, monthIndex, day)` (which carries month and day
    overflow into the next unit) and `setDate(getDate() + n)` (a shift by
    whole days). */
module Calendar {

  datatype Date = Date(year: int, month: nat, day: nat)

  /** A year and a month 1..12, the value a `"YYYY-MM"` setting names. */
  datatype YearMonth = YearMonth(year: int, month: int)

  predicate IsLeapYear(y: int) {
    y % 4 == 0 && (y % 100 != 0 || y % 400 == 0)
  }

  function DaysInMonth(y: int, m: int): (n: int)
    requires 1 <= m <= 12
    ensures 28 <= n <= 31
  {
    if m == 2 then (if IsLeapYear(y) then 29 else 28)
    else if m == 4 || m == 6 || m == 9 || m == 11 then 30
    else 31
  }

  function DaysInYear(y: int): int {
    DaysInMonth(y, 1) + DaysInMonth(y, 2) + DaysInMonth(y, 3) + DaysInMonth(y, 4)
    + DaysInMonth(y, 5) + DaysInMonth(y, 6) + DaysInMonth(y, 7) + DaysInMonth(y, 8)
    + DaysInMonth(y, 9) + DaysInMonth(y, 10) + DaysInMonth(y, 11) + DaysInMonth(y, 12)
  }

  /** The month lengths add up to the Gregorian year length. */
  lemma YearLength(y: int)
    ensures DaysInYear(y) == if IsLeapYear(y) then 366 else 365
  {
  }

  predicate ValidDate(d: Date) {
    1 <= d.month <= 12 && 1 <= d.day <= DaysInMonth(d.year, d.month)
  }

  /** Strict chronological order of dates. */
  predicate Before(a: Date, b: Date) {
    || a.year < b.year
    || (a.year == b.year && a.month < b.month)
    || (a.year == b.year && a.month == b.month && a.day < b.day)
  }

  function LastDayOf(ym: YearMonth): (d: Date)
    requires 1 <= ym.month <= 12
    ensures ValidDate(d)
  {
    Date(ym.year, ym.month, DaysInMonth(ym.year, ym.month))
  }

  function NextDay(d: Date): (r: Date)
    requires ValidDate(d)
    ensures ValidDate(r) && Before(d, r)
  {
    if d.day < DaysInMonth(d.year, d.month) then Date(d.year, d.month, d.day + 1)
    else if d.month < 12 then Date(d.year, d.month + 1, 1)
    else Date(d.year + 1, 1, 1)
  }

  function PrevDay(d: Date): (r: Date)
    requires ValidDate(d)
    ensures ValidDate(r) && Before(r, d)
  {
    if d.day > 1 then Date(d.year, d.month, d.day - 1)
    else if d.month > 1 then Date(d.year, d.month - 1, DaysInMonth(d.year, d.month - 1))
    else Date(d.year - 1, 12, 31)
  }

  /** No valid date lies strictly between a date and the next one. */
  lemma NextDayIsImmediate(d: Date, x: Date)
    requires ValidDate(d) && ValidDate(x)
    ensures Before(d, x) <==> !Before(x, NextDay(d))
  {
  }

  /** No valid date lies strictly between a date and the previous one. */
  lemma PrevDayIsImmediate(d: Date, x: Date)
    requires ValidDate(d) && ValidDate(x)
    ensures Before(x, d) <==> !Before(PrevDay(d), x)
  {
  }

  /** Stepping forward and back one day are inverse. */
  lemma NextPrevInverse(d: Date)
    requires ValidDate(d)
    ensures PrevDay(NextDay(d)) == d
    ensures NextDay(PrevDay(d)) == d
  {
  }

  /** `setDate(getDate() + n)` on a date: shift by `n` whole days, forwards or
      backwards, across month and year ends. */
  function AddDays(d: Date, n: int): (r: Date)
    requires ValidDate(d)
    ensures ValidDate(r)
    ensures n > 0 ==> Before(d, r)
    ensures n < 0 ==> Before(r, d)
    ensures n == 0 ==> r == d
    decreases if n >= 0 then n else -n
  {
    if n == 0 then d
    else if n > 0 then AddDays(NextDay(d), n - 1)
    else AddDays(PrevDay(d), n + 1)
  }

  /** Inside one month, a shift by `k` days just adds `k` to the day. */
  lemma {:induction false} AddDaysWithinMonth(d: Date, k: nat)
    requires ValidDate(d)
    requires d.day + k <= DaysInMonth(d.year, d.month)
    ensures AddDays(d, k) == Date(d.year, d.month, d.day + k)
    decreases k
  {
    if k > 0 {
      AddDaysWithinMonth(NextDay(d), k - 1);
    }
  }

  /** Two forward shifts compose into one. */
  lemma {:induction false} AddDaysForward(d: Date, a: nat, b: nat)
    requires ValidDate(d)
    ensures AddDays(AddDays(d, a), b) == AddDays(d, a + b)
    decreases a
  {
    if a > 0 {
      AddDaysForward(NextDay(d), a - 1, b);
    }
  }

  /** Two backward shifts compose into one. */
  lemma {:induction false} AddDaysBackward(d: Date, a: nat, b: nat)
    requires ValidDate(d)
    ensures AddDays(AddDays(d, -(a as int)), -(b as int)) == AddDays(d, -(a + b) as int)
    decreases a
  {
    if a > 0 {
      AddDaysBackward(PrevDay(d), a - 1, b);
    }
  }

  /** Any two shifts compose into one, whatever their signs: a shift past
      the end of a month and back again lands where the difference leads. */
  lemma AddDaysCompose(d: Date, a: int, b: int)
    requires ValidDate(d)
    ensures AddDays(AddDays(d, a), b) == AddDays(d, a + b)
  {
    if a >= 0 && b >= 0 {
      AddDaysForward(d, a, b);
    } else if a <= 0 && b <= 0 {
      AddDaysBackward(d, -a, -b);
    } else if a > 0 {
      if a + b >= 0 {
        // the forward shift by a is the shift by a + b followed by -b more
        var e := AddDays(d, a + b);
        AddDaysForward(d, a + b, -b);
        AddDaysInverse(e, -b);
      } else {
        // the backward shift by b is -a (undoing a) followed by a + b more
        AddDaysBackward(AddDays(d, a), a, -(a + b));
        AddDaysInverse(d, a);
      }
    } else {
      if a + b <= 0 {
        var e := AddDays(d, a + b);
        AddDaysBackward(d, -(a + b), b);
        AddDaysInverse(e, -b);
      } else {
        AddDaysForward(AddDays(d, a), -a, a + b);
        AddDaysInverse(d, a);
      }
    }
  }

  /** Shifting by `n` days and then by `-n` days returns to the start. */
  lemma {:induction false} AddDaysInverse(d: Date, n: int)
    requires ValidDate(d)
    ensures AddDays(AddDays(d, n), -n) == d
    decreases if n >= 0 then n else -n
  {
    if n > 0 {
      // the last forward step is undone by the first backward step
      AddDaysForward(d, n - 1, 1);
      var e := AddDays(d, n - 1);
      NextPrevInverse(e);
      assert AddDays(d, n) == NextDay(e);
      assert AddDays(NextDay(e), -n) == AddDays(e, -(n - 1));
      AddDaysInverse(d, n - 1);
    } else if n < 0 {
      AddDaysBackward(d, -n - 1, 1);
      var e := AddDays(d, n + 1);
      NextPrevInverse(e);
      assert AddDays(d, n) == PrevDay(e);
      assert AddDays(PrevDay(e), -n) == AddDays(e, -(n + 1));
      AddDaysInverse(d, n + 1);
    }
  }

  /** JavaScript's `Date` constructor reads a year 0..99 as 1900..1999. */
  function FullYear(y: int): int {
    if 0 <= y <= 99 then 1900 + y else y
  }

  /** A zero-based month index outside 0..11 moves into an earlier or later
      year, keeping the absolute month count. */
  function NormalizeMonth(y: int, monthIndex: int): (ym: YearMonth)
    ensures 1 <= ym.month <= 12
    ensures 12 * ym.year + (ym.month - 1) == 12 * y + monthIndex
  {
    YearMonth(y + monthIndex / 12, monthIndex % 12 + 1)
  }

  /** The calendar date of `new Date(y, monthIndex, day)`: the month is
      normalised first, then `day - 1` days are counted from its 1st. A day
      inside the month is taken as it stands, day 0 is the last day of the
      month before (any day below 1 falls before the month), and a day past
      the month's end carries over into the next month. */
  function MakeDate(y: int, monthIndex: int, day: int): (r: Date)
    ensures ValidDate(r)
    ensures var ym := NormalizeMonth(FullYear(y), monthIndex);
            && (1 <= day <= DaysInMonth(ym.year, ym.month) ==> r == Date(ym.year, ym.month, day))
            && (day == 0 ==> r == PrevDay(Date(ym.year, ym.month, 1)))
            && (day < 1 ==> Before(r, Date(ym.year, ym.month, 1)))
    ensures var ym, next := NormalizeMonth(FullYear(y), monthIndex), NormalizeMonth(FullYear(y), monthIndex + 1);
            var n := DaysInMonth(ym.year, ym.month);
            n < day <= n + DaysInMonth(next.year, next.month) ==> r == Date(next.year, next.month, day - n)
  {
    var ym := NormalizeMonth(FullYear(y), monthIndex);
    var next := NormalizeMonth(FullYear(y), monthIndex + 1);
    CountFromFirst(ym, next, day);
    AddDays(Date(ym.year, ym.month, 1), day - 1)
  }

  /** Counting `day - 1` days from the 1st of a month, for the three ranges
      of `day`. */
  lemma CountFromFirst(ym: YearMonth, next: YearMonth, day: int)
    requires 1 <= ym.month <= 12 && 1 <= next.month <= 12
    requires 12 * next.year + (next.month - 1) == 12 * ym.year + (ym.month - 1) + 1
    ensures var first, n := Date(ym.year, ym.month, 1), DaysInMonth(ym.year, ym.month);
            var r := AddDays(first, day - 1);
            && (1 <= day <= n ==> r == Date(ym.year, ym.month, day))
            && (day == 0 ==> r == PrevDay(first))
            && (n < day <= n + DaysInMonth(next.year, next.month) ==> r == Date(next.year, next.month, day - n))
  {
    var first, n := Date(ym.year, ym.month, 1), DaysInMonth(ym.year, ym.month);
    if 1 <= day <= n {
      AddDaysWithinMonth(first, day - 1);
    } else if day == 0 {
      assert AddDays(first, -1) == AddDays(PrevDay(first), 0);
    } else if n < day <= n + DaysInMonth(next.year, next.month) {
      var last := Date(ym.year, ym.month, n);
      AddDaysWithinMonth(first, n - 1);
      AddDaysForward(first, n - 1, 1);
      assert AddDays(last, 1) == AddDays(NextDay(last), 0);
      if ym.month == 12 {
        assert next.month == 1 && next.year == ym.year + 1;
      } else {
        assert next.month == ym.month + 1 && next.year == ym.year;
      }
      var nextFirst := Date(next.year, next.month, 1);
      assert NextDay(last) == nextFirst;
      AddDaysCompose(first, n, day - 1 - n);
      AddDaysWithinMonth(nextFirst, day - 1 - n);
    }
  }

  /** The 1st of a month named by a year 0..99 falls in 1900..1999; any
      other year is taken as it stands. */
  lemma TwoDigitYears(y: int, monthIndex: int)
    requires 0 <= monthIndex <= 11
    ensures 0 <= y <= 99 ==> MakeDate(y, monthIndex, 1) == Date(1900 + y, monthIndex + 1, 1)
    ensures !(0 <= y <= 99) ==> MakeDate(y, monthIndex, 1) == Date(y, monthIndex + 1, 1)
  {
  }

  /** The month a `"year-mon"` setting denotes once the constructor has
      normalised it. */
  function TargetMonth(year: int, mon: int): (ym: YearMonth)
    ensures 1 <= ym.month <= 12
  {
    NormalizeMonth(FullYear(year), mon - 1)
  }

  /** `new Date(year, mon - 1, 1)` is the 1st of the target month and
      `new Date(year, mon, 0)` is its last day, with the Gregorian month length. */
  lemma MonthBounds(year: int, mon: int)
    ensures MakeDate(year, mon - 1, 1) == Date(TargetMonth(year, mon).year, TargetMonth(year, mon).month, 1)
    ensures MakeDate(year, mon, 0) == LastDayOf(TargetMonth(year, mon))
  {
    var t := TargetMonth(year, mon);
    var n := NormalizeMonth(FullYear(year), mon);
    // the month after the target month
    assert 12 * n.year + (n.month - 1) == 12 * t.year + (t.month - 1) + 1;
    if t.month == 12 {
      assert n.month == 1 && n.year == t.year + 1;
    } else {
      assert n.month == t.month + 1 && n.year == t.year;
    }
    assert MakeDate(year, mon, 0) == PrevDay(Date(n.year, n.month, 1));
  }
}
