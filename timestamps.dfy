/**
 * Timestamps of the tabular store. The store holds the parsed instant
 * (`pd.to_datetime` of the export's ISO-8601 string); queries only look at its
 * calendar year and month and at its chronological order, so an instant is
 * modelled by those projections plus its offset inside the month.
 */
module Timestamps {

  type MonthNumber = m: int | 1 <= m <= 12 witness 1

  /** A UTC instant: calendar year, calendar month and milliseconds since the month began. */
  datatype Instant = Instant(year: int, month: MonthNumber, offsetMs: nat)

  /** Chronological order (a total preorder on instants). */
  predicate NotAfter(a: Instant, b: Instant) {
    a.year < b.year
    || (a.year == b.year && (a.month < b.month || (a.month == b.month && a.offsetMs <= b.offsetMs)))
  }

  lemma NotAfterTotal(a: Instant, b: Instant)
    ensures NotAfter(a, b) || NotAfter(b, a)
  {
  }

  lemma NotAfterTransitive(a: Instant, b: Instant, c: Instant)
    requires NotAfter(a, b) && NotAfter(b, c)
    ensures NotAfter(a, c)
  {
  }

  /** A calendar month, the bucket of `ts.dt.to_period('M')` ("YYYY-MM"). */
  datatype YearMonth = YearMonth(year: int, month: MonthNumber)

  function MonthOf(t: Instant): YearMonth {
    YearMonth(t.year, t.month)
  }

  /**
   * Position of a month on the calendar. "YYYY-MM" strings of four-digit years
   * sort lexicographically in the same order as this index.
   */
  function MonthIndex(m: YearMonth): int {
    m.year * 12 + (m.month - 1)
  }

  /** The index orders months as "YYYY-MM" does, and two months share an index only if equal. */
  lemma MonthIndexOrder(a: YearMonth, b: YearMonth)
    ensures MonthIndex(a) < MonthIndex(b) <==> a.year < b.year || (a.year == b.year && a.month < b.month)
    ensures MonthIndex(a) == MonthIndex(b) <==> a == b
  {
    if a.year < b.year {
      assert a.year * 12 + 12 <= b.year * 12;
    } else if b.year < a.year {
      assert b.year * 12 + 12 <= a.year * 12;
    }
  }
}
