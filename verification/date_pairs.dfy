/** The date-pair generator of the browser-driven script: every
    (departure, return) pair of one month whose return lies a fixed trip length
    after the departure and not after the month's last day. */
module DatePairs {
  import opened Calendar

  datatype DatePair = DatePair(depart: Date, ret: Date)

  function DaysIn(ym: YearMonth): int
    requires 1 <= ym.month <= 12
  {
    DaysInMonth(ym.year, ym.month)
  }

  /** The pair departing on day `k` of the month. */
  function PairOn(ym: YearMonth, trip: int, k: int): DatePair
    requires 1 <= ym.month <= 12 && 1 <= k <= DaysIn(ym)
  {
    var d := Date(ym.year, ym.month, k);
    DatePair(d, AddDays(d, trip))
  }

  /** Whether the trip starting on day `k` is back by the month's last day. */
  predicate Fits(ym: YearMonth, trip: int, k: int)
    requires 1 <= ym.month <= 12 && 1 <= k <= DaysIn(ym)
  {
    !Before(LastDayOf(ym), PairOn(ym, trip, k).ret)
  }

  /** Reference definition: the departure days `k`..last, each kept exactly
      when its return fits in the month. */
  function PairsFrom(ym: YearMonth, trip: int, k: int): seq<DatePair>
    requires 1 <= ym.month <= 12 && 1 <= k <= DaysIn(ym) + 1
    decreases DaysIn(ym) + 1 - k
  {
    if k > DaysIn(ym) then []
    else (if Fits(ym, trip, k) then [PairOn(ym, trip, k)] else []) + PairsFrom(ym, trip, k + 1)
  }

  function MonthPairs(ym: YearMonth, trip: int): seq<DatePair>
    requires 1 <= ym.month <= 12
  {
    PairsFrom(ym, trip, 1)
  }

  /** The number of departure days that leave room for the trip. */
  function PairCount(days: int, trip: int): int {
    if trip <= 0 then days else if trip >= days then 0 else days - trip
  }

  /** A trip starting on day `k` overruns the month exactly when
      `k + trip` is past the last day; shorter or backward trips never do. */
  lemma ReturnPastEnd(ym: YearMonth, trip: int, k: int)
    requires 1 <= ym.month <= 12 && 1 <= k <= DaysIn(ym)
    ensures !Fits(ym, trip, k) <==> k + trip > DaysIn(ym)
  {
    var dim := DaysIn(ym);
    var d := Date(ym.year, ym.month, k);
    var end := LastDayOf(ym);
    if trip >= 0 && k + trip <= dim {
      AddDaysWithinMonth(d, trip);
    } else if trip >= 0 {
      AddDaysWithinMonth(d, dim - k);
      AddDaysForward(d, dim - k, trip - (dim - k));
      assert AddDays(d, trip) == AddDays(end, trip - (dim - k));
    }
  }

  /** Since the filter drops a suffix of the days, it is a prefix of the
      month: days `k`..`PairCount` in order. */
  lemma {:induction false} PairsFromShape(ym: YearMonth, trip: int, k: int)
    requires 1 <= ym.month <= 12 && 1 <= k <= DaysIn(ym) + 1
    ensures var n := PairCount(DaysIn(ym), trip);
            var r := PairsFrom(ym, trip, k);
            && |r| == (if n >= k then n - k + 1 else 0)
            && forall i :: 0 <= i < |r| ==> k + i <= DaysIn(ym) && r[i] == PairOn(ym, trip, k + i)
    decreases DaysIn(ym) + 1 - k
  {
    var n := PairCount(DaysIn(ym), trip);
    if k <= DaysIn(ym) {
      ReturnPastEnd(ym, trip, k);
      PairsFromShape(ym, trip, k + 1);
      var rest := PairsFrom(ym, trip, k + 1);
      if Fits(ym, trip, k) {
        assert n >= k;
        var r := [PairOn(ym, trip, k)] + rest;
        assert PairsFrom(ym, trip, k) == r;
        forall i | 0 <= i < |r|
          ensures k + i <= DaysIn(ym) && r[i] == PairOn(ym, trip, k + i)
        {
          if i > 0 {
            var j := i - 1;
            assert r[i] == rest[j];
            assert rest[j] == PairOn(ym, trip, k + 1 + j);
            assert k + 1 + j == k + i;
          }
        }
      } else {
        assert n < k;
        assert PairsFrom(ym, trip, k) == rest;
      }
    }
  }

  /** Properties of the month's pairs: as many as `PairCount`, departures on
      consecutive days from the 1st, each return `trip` days after its
      departure and no later than the last day of the month. */
  lemma MonthPairsShape(ym: YearMonth, trip: int)
    requires 1 <= ym.month <= 12
    ensures var r := MonthPairs(ym, trip);
            && |r| == PairCount(DaysIn(ym), trip)
            && (forall i :: 0 <= i < |r| ==> ValidDate(r[i].depart))
            && (forall i :: 0 <= i < |r| ==> r[i].depart == Date(ym.year, ym.month, i + 1))
            && (forall i :: 0 <= i < |r| ==> r[i].ret == AddDays(r[i].depart, trip))
            && (forall i :: 0 <= i < |r| ==> !Before(LastDayOf(ym), r[i].ret))
            && (forall i :: 0 <= i < |r| ==> trip >= 0 ==> r[i].ret == Date(ym.year, ym.month, i + 1 + trip))
  {
    PairsFromShape(ym, trip, 1);
    var r := MonthPairs(ym, trip);
    forall i | 0 <= i < |r|
      ensures !Before(LastDayOf(ym), r[i].ret)
      ensures trip >= 0 ==> r[i].ret == Date(ym.year, ym.month, i + 1 + trip)
    {
      ReturnPastEnd(ym, trip, i + 1);
      if trip >= 0 {
        AddDaysWithinMonth(Date(ym.year, ym.month, i + 1), trip);
      }
    }
  }

  /** Departures come in strictly increasing order, each the day after the
      one before. */
  lemma MonthPairsIncreasing(ym: YearMonth, trip: int)
    requires 1 <= ym.month <= 12
    ensures var r := MonthPairs(ym, trip);
            && (forall i :: 0 <= i < |r| - 1 ==>
                  ValidDate(r[i].depart) && r[i + 1].depart == NextDay(r[i].depart))
            && (forall i, j :: 0 <= i < j < |r| ==> Before(r[i].depart, r[j].depart))
  {
    MonthPairsShape(ym, trip);
  }

  /** `generateDatePairs(month, tripLength)`: start at the 1st of the month,
      step one day at a time while the departure is not past the last day,
      and stop at the first pair whose return is past it. */
  method GenerateDatePairs(year: int, mon: int, tripLength: int) returns (pairs: seq<DatePair>)
    ensures var ym := TargetMonth(year, mon);
            && pairs == MonthPairs(ym, tripLength)
            && |pairs| == PairCount(DaysIn(ym), tripLength)
            && (forall i :: 0 <= i < |pairs| ==> pairs[i].depart == Date(ym.year, ym.month, i + 1))
            && (forall i :: 0 <= i < |pairs| ==> pairs[i].ret == AddDays(pairs[i].depart, tripLength))
            && (forall i :: 0 <= i < |pairs| ==> !Before(LastDayOf(ym), pairs[i].ret))
  {
    MonthBounds(year, mon);
    var start := MakeDate(year, mon - 1, 1);
    var end := MakeDate(year, mon, 0);
    ghost var ym := TargetMonth(year, mon);
    ghost var n := PairCount(DaysIn(ym), tripLength);
    var d := start;
    pairs := [];
    ghost var k := 1;
    while !Before(end, d)
      invariant 1 <= k <= DaysIn(ym) + 1 && k - 1 <= n
      invariant ValidDate(d)
      invariant k <= DaysIn(ym) ==> d == Date(ym.year, ym.month, k)
      invariant k == DaysIn(ym) + 1 ==> Before(end, d)
      invariant |pairs| == k - 1
      invariant forall i :: 0 <= i < k - 1 ==> pairs[i] == PairOn(ym, tripLength, i + 1)
      decreases DaysIn(ym) + 1 - k
    {
      var ret := AddDays(d, tripLength);
      ReturnPastEnd(ym, tripLength, k);
      if Before(end, ret) {
        break;
      }
      pairs := pairs + [DatePair(d, ret)];
      d := NextDay(d);
      k := k + 1;
    }
    assert |pairs| == n;
    MonthPairsShape(ym, tripLength);
  }

  /** A 30-day month with a seven-day trip gives 23 pairs, June 1 -> 8
      through June 23 -> 30. */
  lemma ThirtyDayMonthExample()
    ensures var r := MonthPairs(YearMonth(2024, 6), 7);
            && |r| == 23
            && r[0] == DatePair(Date(2024, 6, 1), Date(2024, 6, 8))
            && r[22] == DatePair(Date(2024, 6, 23), Date(2024, 6, 30))
  {
    MonthPairsShape(YearMonth(2024, 6), 7);
  }

  /** February has a 29th day in leap years only, so a week-long trip has 22
      departure days in 2024 and 2000 ... */
  lemma LeapFebruaryExample()
    ensures |MonthPairs(YearMonth(2024, 2), 7)| == 22
    ensures |MonthPairs(YearMonth(2000, 2), 7)| == 22
  {
    assert DaysIn(YearMonth(2024, 2)) == 29;
    assert DaysIn(YearMonth(2000, 2)) == 29;
    MonthPairsShape(YearMonth(2024, 2), 7);
    MonthPairsShape(YearMonth(2000, 2), 7);
  }

  /** ... and 21 in 2023 and 1900. */
  lemma CommonFebruaryExample()
    ensures |MonthPairs(YearMonth(2023, 2), 7)| == 21
    ensures |MonthPairs(YearMonth(1900, 2), 7)| == 21
  {
    assert DaysIn(YearMonth(2023, 2)) == 28;
    assert DaysIn(YearMonth(1900, 2)) == 28;
    MonthPairsShape(YearMonth(2023, 2), 7);
    MonthPairsShape(YearMonth(1900, 2), 7);
  }

  /** A trip at least as long as the month yields nothing. */
  lemma TooLongTripIsEmpty(ym: YearMonth, trip: int)
    requires 1 <= ym.month <= 12 && trip >= DaysIn(ym)
    ensures MonthPairs(ym, trip) == []
  {
    MonthPairsShape(ym, trip);
  }
}
