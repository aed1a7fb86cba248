/**
 * Calendar dates as the day numbers of the proleptic Gregorian calendar
 * (Python's `date.toordinal()`: 0001-01-01 is day 1).  Comparing dates
 * compares day numbers, adding a `timedelta` of k days adds k, and the
 * year and month are computed from the day number.
 */
module Calendar {

  datatype Date = Date(ordinal: int)

  /** `a >= b` on dates. */
  predicate OnOrAfter(a: Date, b: Date)
  {
    a.ordinal >= b.ordinal
  }

  /** `d + timedelta(days=k)`. */
  function AddDays(d: Date, k: int): (e: Date)
    ensures k > 0 ==> !OnOrAfter(d, e)
    ensures k <= 0 ==> OnOrAfter(d, e)
  {
    Date(d.ordinal + k)
  }

  /**
   * (year, month) of a day number, by the days-to-civil conversion over
   * 400-year eras of 146097 days, with years starting in March.
   */
  function YearMonth(d: Date): (ym: (int, int))
    ensures 1 <= ym.1 <= 12
  {
    var z := d.ordinal + 305;                    // days since 0000-03-01
    var era := z / 146097;
    var doe := z - era * 146097;                 // day of era, 0..146096
    var yoe := (doe - doe / 1460 + doe / 36524 - doe / 146096) / 365;
    var y := yoe + era * 400;
    var doy := doe - (365 * yoe + yoe / 4 - yoe / 100);  // day of March-based year
    var mp := (5 * doy + 2) / 153;               // March == 0
    var m := if mp < 10 then mp + 3 else mp - 9;
    (if m <= 2 then y + 1 else y, m)
  }

  function Year(d: Date): int
  {
    YearMonth(d).0
  }

  function Month(d: Date): (m: int)
    ensures 1 <= m <= 12
  {
    YearMonth(d).1
  }

  /**
   * `(a.year - b.year) * 12 + (a.month - b.month)`: calendar months from
   * b to a, ignoring the day of the month.
   */
  function MonthsBetween(b: Date, a: Date): (m: int)
    ensures b == a ==> m == 0
    ensures Year(a) == Year(b) ==> -11 <= m <= 11
    ensures Year(a) > Year(b) ==> m >= 1
  {
    (Year(a) - Year(b)) * 12 + (Month(a) - Month(b))
  }

  /** 1970-01-01 is day 719163, as `date(1970, 1, 1).toordinal()` gives it. */
  lemma UnixEpoch()
    ensures YearMonth(Date(719163)) == (1970, 1)
  {
    assert 719468 / 146097 == 4;
    assert 135080 / 1460 == 92 && 135080 / 36524 == 3 && 135080 / 146096 == 0;
    assert 134991 / 365 == 369;
    assert 369 / 4 == 92 && 369 / 100 == 3;
    assert 1532 / 153 == 10;
  }

  /** The leap day 2024-02-29 is day 738945. */
  lemma LeapDay()
    ensures YearMonth(Date(738945)) == (2024, 2)
  {
    assert 739250 / 146097 == 5;
    assert 8765 / 1460 == 6 && 8765 / 36524 == 0 && 8765 / 146096 == 0;
    assert 8759 / 365 == 23;
    assert 23 / 4 == 5 && 23 / 100 == 0;
    assert 1827 / 153 == 11;
  }

  /** The day after it, 738946, starts March 2024. */
  lemma DayAfterLeapDay()
    ensures YearMonth(Date(738946)) == (2024, 3)
  {
    assert 739251 / 146097 == 5;
    assert 8766 / 1460 == 6 && 8766 / 36524 == 0 && 8766 / 146096 == 0;
    assert 8760 / 365 == 24;
    assert 24 / 4 == 6 && 24 / 100 == 0;
    assert 2 / 153 == 0;
  }
}
