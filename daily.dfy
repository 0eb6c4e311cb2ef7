/**
 * The daily time series: `resample(rule='D', on='order_approved_at')` over the
 * order table, as built by `create_daily_orders_df` (distinct orders and
 * revenue per day) and `create_sum_spend_df` (spend per day). Resampling emits
 * every calendar day from the first to the last approval day, so a day
 * without rows appears with zero orders and zero revenue.
 */
module Daily {
  import opened Wrappers
  import opened Orders
  import opened Sorting

  /** A row of `daily_orders_df`: the day, `order_count` and `revenue`. */
  datatype DailyOrders = DailyOrders(day: int, orderCount: nat, revenue: int)

  /** A row of `sum_spend_df`: the day and `total_spend`. */
  datatype DailySpend = DailySpend(day: int, totalSpend: int)

  /** The row has an approval time (not NaT) and it falls on day `d`. */
  predicate ApprovedOn(r: Row, d: int)
  {
    r.approvedAt.Some? && DayOf(r.approvedAt.value) == d
  }

  /** The approval day of every row that has one, in row order. */
  function ApprovalDays(rows: seq<Row>): (ds: seq<int>)
    ensures forall d :: d in ds <==> exists i :: 0 <= i < |rows| && ApprovedOn(rows[i], d)
  {
    if rows == [] then []
    else
      var p := rows[..|rows| - 1];
      var x := rows[|rows| - 1];
      assert forall i :: 0 <= i < |p| ==> rows[i] == p[i];
      ApprovalDays(p) + (if x.approvedAt.Some? then [DayOf(x.approvedAt.value)] else [])
  }

  /** The distinct non-missing order ids among the rows approved on day `d` (`nunique`). */
  function OrdersOn(rows: seq<Row>, d: int): set<string>
  {
    if rows == [] then {}
    else
      var x := rows[|rows| - 1];
      OrdersOn(rows[..|rows| - 1], d) + (if ApprovedOn(x, d) && x.orderId.Some? then {x.orderId.value} else {})
  }

  /** An order id is among day `d`'s orders exactly when a row approved on `d` carries it. */
  lemma {:induction false} OrdersOnMembers(rows: seq<Row>, d: int)
    ensures forall id :: id in OrdersOn(rows, d) <==>
              exists i :: 0 <= i < |rows| && ApprovedOn(rows[i], d) && rows[i].orderId == Some(id)
  {
    if rows != [] {
      var p := rows[..|rows| - 1];
      assert forall i :: 0 <= i < |p| ==> p[i] == rows[i];
      OrdersOnMembers(p, d);
    }
  }

  /** The sum of the payments of the rows approved on day `d`; an empty day sums to 0. */
  function RevenueOn(rows: seq<Row>, d: int): int
  {
    if rows == [] then 0
    else
      var x := rows[|rows| - 1];
      RevenueOn(rows[..|rows| - 1], d) + (if ApprovedOn(x, d) then Amount(x.payment) else 0)
  }

  /** The number of rows approved on day `d`. */
  function RowsOn(rows: seq<Row>, d: int): nat
  {
    if rows == [] then 0
    else RowsOn(rows[..|rows| - 1], d) + (if ApprovedOn(rows[|rows| - 1], d) then 1 else 0)
  }

  /** The sum of the payments of every row that has an approval time. */
  function ApprovedRevenue(rows: seq<Row>): int
  {
    if rows == [] then 0
    else
      var x := rows[|rows| - 1];
      ApprovedRevenue(rows[..|rows| - 1]) + (if x.approvedAt.Some? then Amount(x.payment) else 0)
  }

  /** The daily bins for the `n` consecutive days starting at day `lo`. */
  function OrderBins(rows: seq<Row>, lo: int, n: nat): (t: seq<DailyOrders>)
    ensures |t| == n
    ensures forall i :: 0 <= i < n ==> t[i].day == lo + i
    ensures forall i :: 0 <= i < n ==>
              t[i].orderCount == |OrdersOn(rows, t[i].day)| && t[i].revenue == RevenueOn(rows, t[i].day)
    decreases n
  {
    if n == 0 then []
    else [DailyOrders(lo, |OrdersOn(rows, lo)|, RevenueOn(rows, lo))] + OrderBins(rows, lo + 1, n - 1)
  }

  /**
   * `create_daily_orders_df`: one row per consecutive day from the first to
   * the last approval day, with the number of distinct orders and the revenue
   * of that day; no rows with an approval time give an empty table.
   */
  function CreateDailyOrders(rows: seq<Row>): (t: seq<DailyOrders>)
    ensures t == [] <==> ApprovalDays(rows) == []
    ensures t != [] ==> t[0].day == MinOf(ApprovalDays(rows)) && t[|t| - 1].day == MaxOf(ApprovalDays(rows))
    ensures forall i :: 0 < i < |t| ==> t[i].day == t[i - 1].day + 1
    ensures forall i :: 0 <= i < |t| ==>
              t[i].orderCount == |OrdersOn(rows, t[i].day)| && t[i].revenue == RevenueOn(rows, t[i].day)
  {
    var ds := ApprovalDays(rows);
    if ds == [] then []
    else
      var lo := MinOf(ds);
      var hi := MaxOf(ds);
      assert lo <= hi;
      var t := OrderBins(rows, lo, hi - lo + 1);
      assert t[|t| - 1].day == hi;
      t
  }

  /**
   * `create_sum_spend_df`: the same resampling with only the payment sum.
   * Its days are exactly those of `create_daily_orders_df` and each day's
   * `total_spend` is that day's `revenue`.
   */
  function CreateSumSpend(rows: seq<Row>): (t: seq<DailySpend>)
    ensures |t| == |CreateDailyOrders(rows)|
    ensures forall i :: 0 <= i < |t| ==>
              t[i].day == CreateDailyOrders(rows)[i].day && t[i].totalSpend == CreateDailyOrders(rows)[i].revenue
  {
    var ds := ApprovalDays(rows);
    if ds == [] then []
    else
      var lo := MinOf(ds);
      var n := MaxOf(ds) - lo + 1;
      DailyIsBins(rows);
      SpendMatchesOrders(rows, lo, n);
      SpendBins(rows, lo, n)
  }

  /** The spend bins for the `n` consecutive days starting at day `lo`. */
  function SpendBins(rows: seq<Row>, lo: int, n: nat): (t: seq<DailySpend>)
    ensures |t| == n
    ensures forall i :: 0 <= i < n ==> t[i].day == lo + i && t[i].totalSpend == RevenueOn(rows, lo + i)
    decreases n
  {
    if n == 0 then []
    else [DailySpend(lo, RevenueOn(rows, lo))] + SpendBins(rows, lo + 1, n - 1)
  }

  /** The spend bins and the order bins over the same days agree on every day and its revenue. */
  lemma SpendMatchesOrders(rows: seq<Row>, lo: int, n: nat)
    ensures |SpendBins(rows, lo, n)| == |OrderBins(rows, lo, n)|
    ensures forall i :: 0 <= i < n ==>
              SpendBins(rows, lo, n)[i].day == OrderBins(rows, lo, n)[i].day
              && SpendBins(rows, lo, n)[i].totalSpend == OrderBins(rows, lo, n)[i].revenue
  {
  }

  /** Every approval day has its row in the series. */
  lemma DailyCoversApprovals(rows: seq<Row>)
    ensures forall i, d :: 0 <= i < |rows| && ApprovedOn(rows[i], d) ==>
              exists j :: 0 <= j < |CreateDailyOrders(rows)| && CreateDailyOrders(rows)[j].day == d
  {
    var ds := ApprovalDays(rows);
    var t := CreateDailyOrders(rows);
    forall i, d | 0 <= i < |rows| && ApprovedOn(rows[i], d)
      ensures exists j :: 0 <= j < |t| && t[j].day == d
    {
      assert d in ds;
      var lo := MinOf(ds);
      assert t[d - lo].day == d;
    }
  }

  /** A day with no approved row appears with zero orders and zero revenue. */
  lemma {:induction false} EmptyDayIsZero(rows: seq<Row>, d: int)
    requires forall i :: 0 <= i < |rows| ==> !ApprovedOn(rows[i], d)
    ensures OrdersOn(rows, d) == {} && RevenueOn(rows, d) == 0
  {
    if rows != [] {
      var p := rows[..|rows| - 1];
      assert forall i :: 0 <= i < |p| ==> p[i] == rows[i];
      EmptyDayIsZero(p, d);
    }
  }

  /** A day's distinct order count is at most the number of rows approved that day. */
  lemma {:induction false} OrderCountBound(rows: seq<Row>, d: int)
    ensures |OrdersOn(rows, d)| <= RowsOn(rows, d)
  {
    if rows != [] {
      OrderCountBound(rows[..|rows| - 1], d);
    }
  }

  /** The sum of the revenues of the bins of a day window. */
  function WindowRevenue(t: seq<DailyOrders>): int
  {
    if t == [] then 0 else t[0].revenue + WindowRevenue(t[1..])
  }

  /** The payments of the rows approved on a day in [lo, hi). */
  function RevenueBetween(rows: seq<Row>, lo: int, hi: int): int
  {
    if rows == [] then 0
    else
      var x := rows[|rows| - 1];
      RevenueBetween(rows[..|rows| - 1], lo, hi)
        + (if x.approvedAt.Some? && lo <= DayOf(x.approvedAt.value) < hi then Amount(x.payment) else 0)
  }

  lemma {:induction false} RevenueBetweenSplit(rows: seq<Row>, lo: int, hi: int)
    requires lo < hi
    ensures RevenueBetween(rows, lo, hi) == RevenueOn(rows, lo) + RevenueBetween(rows, lo + 1, hi)
  {
    if rows != [] {
      RevenueBetweenSplit(rows[..|rows| - 1], lo, hi);
    }
  }

  lemma {:induction false} OrderBinsRevenue(rows: seq<Row>, lo: int, n: nat)
    ensures WindowRevenue(OrderBins(rows, lo, n)) == RevenueBetween(rows, lo, lo + n)
    decreases n
  {
    if n == 0 {
      RevenueBetweenEmpty(rows, lo);
    } else {
      var t := OrderBins(rows, lo, n);
      assert t[1..] == OrderBins(rows, lo + 1, n - 1);
      OrderBinsRevenue(rows, lo + 1, n - 1);
      RevenueBetweenSplit(rows, lo, lo + n);
    }
  }

  lemma {:induction false} RevenueBetweenEmpty(rows: seq<Row>, lo: int)
    ensures RevenueBetween(rows, lo, lo) == 0
  {
    if rows != [] {
      RevenueBetweenEmpty(rows[..|rows| - 1], lo);
    }
  }

  lemma {:induction false} RevenueBetweenCovers(rows: seq<Row>, lo: int, hi: int)
    requires forall i :: 0 <= i < |rows| && rows[i].approvedAt.Some? ==> lo <= DayOf(rows[i].approvedAt.value) < hi
    ensures RevenueBetween(rows, lo, hi) == ApprovedRevenue(rows)
  {
    if rows != [] {
      var p := rows[..|rows| - 1];
      assert forall i :: 0 <= i < |p| ==> p[i] == rows[i];
      RevenueBetweenCovers(p, lo, hi);
    }
  }

  /** Every approval day lies between the first and the last approval day. */
  lemma ApprovalDayBounds(rows: seq<Row>, i: int)
    requires 0 <= i < |rows| && rows[i].approvedAt.Some?
    ensures ApprovalDays(rows) != []
    ensures MinOf(ApprovalDays(rows)) <= DayOf(rows[i].approvedAt.value) <= MaxOf(ApprovalDays(rows))
  {
    var ds := ApprovalDays(rows);
    var d := DayOf(rows[i].approvedAt.value);
    assert ApprovedOn(rows[i], d);
    assert d in ds;
    var j :| 0 <= j < |ds| && ds[j] == d;
  }

  /**
   * No payment is lost or counted twice by the daily binning: the revenues of
   * all days add up to the payments of all rows that have an approval time
   * (the "Total Income" the dashboard shows).
   */
  lemma DailyRevenueTotal(rows: seq<Row>)
    ensures WindowRevenue(CreateDailyOrders(rows)) == ApprovedRevenue(rows)
  {
    var ds := ApprovalDays(rows);
    if ds == [] {
      assert forall i :: 0 <= i < |rows| && rows[i].approvedAt.Some? ==> DayOf(rows[i].approvedAt.value) in ds;
      RevenueBetweenCovers(rows, 0, 0);
      RevenueBetweenEmpty(rows, 0);
    } else {
      var lo := MinOf(ds);
      var hi := MaxOf(ds);
      DailyIsBins(rows);
      forall i | 0 <= i < |rows| && rows[i].approvedAt.Some?
        ensures lo <= DayOf(rows[i].approvedAt.value) < hi + 1
      {
        ApprovalDayBounds(rows, i);
      }
      BinsRevenueTotal(rows, lo, hi);
    }
  }

  /** When some row is approved, the daily table is the bins from the first to the last approval day. */
  lemma DailyIsBins(rows: seq<Row>)
    requires ApprovalDays(rows) != []
    ensures MinOf(ApprovalDays(rows)) <= MaxOf(ApprovalDays(rows))
    ensures CreateDailyOrders(rows)
         == OrderBins(rows, MinOf(ApprovalDays(rows)), MaxOf(ApprovalDays(rows)) - MinOf(ApprovalDays(rows)) + 1)
  {
    var ds := ApprovalDays(rows);
    assert MinOf(ds) <= ds[0] <= MaxOf(ds);
  }

  /** Bins over a window holding every approval day add up to all approved payments. */
  lemma BinsRevenueTotal(rows: seq<Row>, lo: int, hi: int)
    requires lo <= hi
    requires forall i :: 0 <= i < |rows| && rows[i].approvedAt.Some? ==> lo <= DayOf(rows[i].approvedAt.value) < hi + 1
    ensures WindowRevenue(OrderBins(rows, lo, hi - lo + 1)) == ApprovedRevenue(rows)
  {
    OrderBinsRevenue(rows, lo, hi - lo + 1);
    RevenueBetweenCovers(rows, lo, hi + 1);
  }
}
