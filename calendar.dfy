/** The use-year calendar: which year's points a calendar date draws on. */
module Calendar {

  /** A calendar date; `month` is 1..12 and `day` 1..31 for every date the application handles. */
  datatype Date = Date(year: int, month: int, day: int)

  /** The month a use year starts in. The contract table stores a start month per contract, but the
    * code never reads it and uses this constant. */
  const UseYearStartMonth: int := 9

  /** Lexicographic order on dates. */
  predicate NotAfter(a: Date, b: Date) {
    a.year < b.year
    || (a.year == b.year && a.month < b.month)
    || (a.year == b.year && a.month == b.month && a.day <= b.day)
  }

  /** `get_use_year`: a date in September or later belongs to that year's use year, an earlier
    * one to the previous year's. */
  function UseYear(d: Date): (y: int)
    ensures y == d.year || y == d.year - 1
    ensures y == d.year <==> d.month >= UseYearStartMonth
  {
    if d.month >= 9 then d.year else d.year - 1
  }

  /** The use year `y` runs from September 1st of `y` up to, not including, September 1st of
    * `y + 1`: the date lies in that window exactly when `UseYear` returns `y`. */
  lemma UseYearWindow(d: Date, y: int)
    requires 1 <= d.month <= 12 && 1 <= d.day
    ensures UseYear(d) == y <==>
              NotAfter(Date(y, 9, 1), d) && !NotAfter(Date(y + 1, 9, 1), d)
  {
    if UseYear(d) == y {
      if d.month >= 9 {
        assert d.year == y;
      } else {
        assert d.year == y + 1;
      }
    }
  }

  /** Later dates never draw on an earlier use year. */
  lemma UseYearMonotone(a: Date, b: Date)
    requires NotAfter(a, b)
    ensures UseYear(a) <= UseYear(b)
  {
  }
}
