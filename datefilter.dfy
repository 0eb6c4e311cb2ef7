/**
 * The date-range selection of the dashboard: `main_df` keeps the rows whose
 * approval time lies between the two chosen dates, both compared as midnight.
 */
module DateFilter {
  import opened Wrappers
  import opened Orders

  /** `order_approved_at >= str(start) & order_approved_at <= str(end)`; a missing time (NaT) compares false. */
  predicate InRange(r: Row, startDay: int, endDay: int)
  {
    r.approvedAt.Some? && Midnight(startDay) <= r.approvedAt.value <= Midnight(endDay)
  }

  /** The boolean-mask selection: the rows in range, each as often as in the input, in input order. */
  function FilterByDate(rows: seq<Row>, startDay: int, endDay: int): (r: seq<Row>)
    ensures forall i :: 0 <= i < |r| ==> InRange(r[i], startDay, endDay)
    ensures |r| <= |rows|
  {
    if rows == [] then []
    else
      var p := rows[..|rows| - 1];
      var x := rows[|rows| - 1];
      assert rows == p + [x];
      FilterByDate(p, startDay, endDay) + (if InRange(x, startDay, endDay) then [x] else [])
  }

  /** Every row in range is kept as often as it occurs, and no other row is kept. */
  lemma {:induction false} FilterCounts(rows: seq<Row>, startDay: int, endDay: int)
    ensures forall x :: multiset(FilterByDate(rows, startDay, endDay))[x]
                     == if InRange(x, startDay, endDay) then multiset(rows)[x] else 0
  {
    if rows != [] {
      var p := rows[..|rows| - 1];
      var x := rows[|rows| - 1];
      assert rows == p + [x];
      FilterCounts(p, startDay, endDay);
    }
  }

  /** The filter keeps relative order: filtering a concatenation concatenates the filtered parts. */
  lemma {:induction false} FilterAppend(a: seq<Row>, b: seq<Row>, startDay: int, endDay: int)
    ensures FilterByDate(a + b, startDay, endDay) == FilterByDate(a, startDay, endDay) + FilterByDate(b, startDay, endDay)
  {
    if b == [] {
      assert a + b == a;
    } else {
      var p := b[..|b| - 1];
      var x := b[|b| - 1];
      var ab := a + b;
      assert ab[..|ab| - 1] == a + p && ab[|ab| - 1] == x;
      var tail := if InRange(x, startDay, endDay) then [x] else [];
      assert FilterByDate(ab, startDay, endDay) == FilterByDate(a + p, startDay, endDay) + tail;
      assert FilterByDate(b, startDay, endDay) == FilterByDate(p, startDay, endDay) + tail;
      FilterAppend(a, p, startDay, endDay);
    }
  }

  /** A row approved after midnight of the end date is dropped, though it is on the end date. */
  lemma LaterOnEndDayDropped(rows: seq<Row>, startDay: int, endDay: int, x: Row)
    requires x.approvedAt.Some? && DayOf(x.approvedAt.value) == endDay
    requires x.approvedAt.value > Midnight(endDay)
    ensures x !in FilterByDate(rows, startDay, endDay)
  {
    FilterCounts(rows, startDay, endDay);
    assert multiset(FilterByDate(rows, startDay, endDay))[x] == 0;
  }

  /** A row approved at some time on a day strictly between the dates, or at either midnight, is kept. */
  lemma InsideKept(rows: seq<Row>, startDay: int, endDay: int, x: Row)
    requires x in rows && x.approvedAt.Some?
    requires Midnight(startDay) <= x.approvedAt.value <= Midnight(endDay)
    ensures x in FilterByDate(rows, startDay, endDay)
  {
    FilterCounts(rows, startDay, endDay);
    assert multiset(rows)[x] > 0;
    assert multiset(FilterByDate(rows, startDay, endDay))[x] > 0;
  }
}
