/**
 * The transaction record of pkg/transactions (types.go), restricted to the
 * fields the grouping window reads. The valuta date is a calendar date
 * (window.go and csv.go treat it as a time.Time); amounts are whole cents.
 */
module Records {
  import opened Text

  type Month = m: int | 1 <= m <= 12 witness 1
  type Day = d: int | 1 <= d <= 31 witness 1

  datatype Date = Date(year: int, month: Month, day: Day)

  /** time.Month.String() */
  function MonthName(m: Month): string
  {
    ["January", "February", "March", "April", "May", "June", "July",
     "August", "September", "October", "November", "December"][m - 1]
  }

  /** time.Time.Format("- 02.01"): day and month, two digits each. */
  function FormatDayMonth(d: Date): string
  {
    "- " + Pad2(d.day) + "." + Pad2(d.month)
  }

  datatype Transaction = Transaction(
    valutaDate: Date,
    purpose: string,
    beneficiary: string,
    amount: int)
}
