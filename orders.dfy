/**
 * The merged order table the dashboard aggregates: one row per order line
 * item, with the columns the aggregation helpers read. Timestamps are whole
 * seconds since the epoch; payments are in cents.
 */
module Orders {
  import opened Wrappers

  const SecondsPerDay: int := 86400

  /**
   * A `payment_value` cell as loaded: a number (in cents), a text that is not
   * yet numeric, or an empty cell (NaN).
   */
  datatype Cell = Num(cents: int) | Text(text: string) | Blank

  /** One order line item. A missing id, name, status or score is `None`. */
  datatype Row = Row(
    orderId: Option<string>,
    customerId: Option<string>,
    customerState: Option<string>,
    customerCity: Option<string>,
    productId: Option<string>,
    category: Option<string>,
    orderStatus: Option<string>,
    reviewScore: Option<int>,
    payment: Cell,
    purchasedAt: int,
    approvedAt: Option<int>)

  /** The calendar day (days since the epoch) a timestamp falls on: floor division, as day bins are. */
  function DayOf(t: int): (d: int)
    ensures d * SecondsPerDay <= t < (d + 1) * SecondsPerDay
  {
    t / SecondsPerDay
  }

  /** Midnight at the start of day `d`: what a date string such as "2018-01-31" compares as. */
  function Midnight(d: int): int { d * SecondsPerDay }

  /** What a pandas `sum` adds for a cell: its number, and nothing for an empty (NaN) cell. */
  function Amount(c: Cell): int { if c.Num? then c.cents else 0 }
}
