/**
 * `create_rm_df`: it coerces the payment column of the table it is given in
 * place, drops the rows whose payment is not a number, measures every
 * customer's recency (whole days from their last purchase to one day after
 * the latest purchase of all kept rows), frequency (distinct orders) and
 * monetary value (summed payments), and returns three top-5 lists.
 */
module Rfm {
  import opened Wrappers
  import opened Orders
  import opened Sorting
  import opened Grouping

  /** A row of the RFM table. */
  datatype RfmRow = RfmRow(customerId: string, recency: int, frequency: nat, monetary: int)

  /**
   * `pd.to_numeric(errors='coerce')` on one cell: a number stays, a text
   * becomes the number `parse` reads from it or NaN when it reads none, and
   * NaN stays NaN. No text is left afterwards.
   */
  function Coerce(c: Cell, parse: string -> Option<int>): (d: Cell)
    ensures !d.Text?
    ensures c.Num? ==> d == c
    ensures d.Num? <==> c.Num? || (c.Text? && parse(c.text).Some?)
    ensures c.Text? && parse(c.text).Some? ==> d == Num(parse(c.text).value)
  {
    match c
    case Num(_) => c
    case Text(s) => (match parse(s) case Some(v) => Num(v) case None => Blank)
    case Blank => Blank
  }

  function CoerceRow(r: Row, parse: string -> Option<int>): Row
  {
    r.(payment := Coerce(r.payment, parse))
  }

  /** Coercion works row by row: coercing a concatenation concatenates the coerced parts. */
  lemma {:induction false} CoercedAppend(a: seq<Row>, b: seq<Row>, parse: string -> Option<int>)
    ensures Coerced(a + b, parse) == Coerced(a, parse) + Coerced(b, parse)
  {
    if b == [] {
      assert a + b == a;
    } else {
      var p := b[..|b| - 1];
      var ab := a + b;
      assert ab[..|ab| - 1] == a + p && ab[|ab| - 1] == b[|b| - 1];
      CoercedAppend(a, p, parse);
    }
  }

  /** The table after the payment column is overwritten with its coerced values; nothing else changes. */
  function Coerced(s: seq<Row>, parse: string -> Option<int>): (r: seq<Row>)
    ensures |r| == |s|
    ensures forall i :: 0 <= i < |s| ==> r[i] == CoerceRow(s[i], parse)
  {
    if s == [] then [] else Coerced(s[..|s| - 1], parse) + [CoerceRow(s[|s| - 1], parse)]
  }

  /**
   * Lines 77-79: `rfm_df = df` aliases the caller's table and its payment
   * column is overwritten in place, row by row here. (The purchase times are
   * already whole seconds, so their `to_datetime` leaves them as they are.)
   */
  method CoercePayments(rows: array<Row>, parse: string -> Option<int>)
    modifies rows
    ensures rows[..] == Coerced(old(rows[..]), parse)
  {
    var i := 0;
    while i < rows.Length
      invariant 0 <= i <= rows.Length
      invariant forall j :: 0 <= j < i ==> rows[j] == CoerceRow(old(rows[j]), parse)
      invariant forall j :: i <= j < rows.Length ==> rows[j] == old(rows[j])
    {
      rows[i] := CoerceRow(rows[i], parse);
      i := i + 1;
    }
  }

  /** `dropna(subset=['payment_value'])`: the rows whose payment is a number, in order. */
  function DropUnpaid(s: seq<Row>): (r: seq<Row>)
    ensures forall i :: 0 <= i < |r| ==> r[i].payment.Num?
    ensures forall x :: x in r <==> x in s && x.payment.Num?
    ensures |r| <= |s|
  {
    if s == [] then []
    else
      var p := s[..|s| - 1];
      var x := s[|s| - 1];
      assert s == p + [x];
      DropUnpaid(p) + (if x.payment.Num? then [x] else [])
  }

  /** `dropna` keeps every copy of a row with a numeric payment, in order, and no other row. */
  lemma {:induction false} DropUnpaidCounts(s: seq<Row>)
    ensures forall x :: multiset(DropUnpaid(s))[x] == if x.payment.Num? then multiset(s)[x] else 0
  {
    if s != [] {
      var p := s[..|s| - 1];
      var x := s[|s| - 1];
      assert s == p + [x];
      DropUnpaidCounts(p);
    }
  }

  /** Dropping from a table with one more row drops or keeps that row. */
  lemma DropUnpaidSnoc(s: seq<Row>, x: Row)
    ensures DropUnpaid(s + [x]) == DropUnpaid(s) + (if x.payment.Num? then [x] else [])
  {
    var sx := s + [x];
    assert sx[..|sx| - 1] == s && sx[|sx| - 1] == x;
  }

  /** Dropping works row by row: dropping from a concatenation concatenates the dropped parts. */
  lemma {:induction false} DropUnpaidAppend(a: seq<Row>, b: seq<Row>)
    ensures DropUnpaid(a + b) == DropUnpaid(a) + DropUnpaid(b)
  {
    if b == [] {
      assert a + b == a;
    } else {
      var p := b[..|b| - 1];
      var x := b[|b| - 1];
      assert a + b == (a + p) + [x] && b == p + [x];
      DropUnpaidSnoc(a + p, x);
      DropUnpaidSnoc(p, x);
      DropUnpaidAppend(a, p);
    }
  }

  function CustomerKey(r: Row): Option<string> { r.customerId }

  function CustomerOf(e: RfmRow): string { e.customerId }

  /** The latest purchase time of a non-empty table. */
  function LatestPurchase(s: seq<Row>): (m: int)
    requires |s| > 0
    ensures exists i :: 0 <= i < |s| && s[i].purchasedAt == m
    ensures forall i :: 0 <= i < |s| ==> s[i].purchasedAt <= m
  {
    if |s| == 1 then s[0].purchasedAt
    else
      var p := s[..|s| - 1];
      var m := LatestPurchase(p);
      assert forall i :: 0 <= i < |p| ==> p[i] == s[i];
      if s[|s| - 1].purchasedAt > m then s[|s| - 1].purchasedAt else m
  }

  /** The latest purchase time of customer `c`, who has a row in `s`. */
  function LastPurchaseOf(s: seq<Row>, c: string): (m: int)
    requires HasKey(s, CustomerKey, c)
    ensures exists i :: 0 <= i < |s| && s[i].customerId == Some(c) && s[i].purchasedAt == m
    ensures forall i :: 0 <= i < |s| && s[i].customerId == Some(c) ==> s[i].purchasedAt <= m
  {
    var p := s[..|s| - 1];
    var x := s[|s| - 1];
    assert forall i :: 0 <= i < |p| ==> p[i] == s[i];
    if x.customerId != Some(c) then
      assert HasKey(p, CustomerKey, c) by {
        var i :| 0 <= i < |s| && CustomerKey(s[i]) == Some(c);
        assert i < |p|;
        assert CustomerKey(p[i]) == Some(c);
      }
      LastPurchaseOf(p, c)
    else if exists i :: 0 <= i < |p| && p[i].customerId == Some(c) then
      assert HasKey(p, CustomerKey, c) by {
        var i :| 0 <= i < |p| && p[i].customerId == Some(c);
        assert CustomerKey(p[i]) == Some(c);
      }
      var m := LastPurchaseOf(p, c);
      if x.purchasedAt > m then x.purchasedAt else m
    else
      x.purchasedAt
  }

  /** The distinct non-missing order ids of customer `c` (`nunique`). */
  function OrdersOf(s: seq<Row>, c: string): set<string>
  {
    if s == [] then {}
    else
      var x := s[|s| - 1];
      OrdersOf(s[..|s| - 1], c) + (if x.customerId == Some(c) && x.orderId.Some? then {x.orderId.value} else {})
  }

  /** An order id belongs to customer `c`'s orders exactly when one of `c`'s rows carries it. */
  lemma {:induction false} OrdersOfMembers(s: seq<Row>, c: string)
    ensures forall id :: id in OrdersOf(s, c) <==>
              exists i :: 0 <= i < |s| && s[i].customerId == Some(c) && s[i].orderId == Some(id)
  {
    if s != [] {
      var p := s[..|s| - 1];
      assert forall i :: 0 <= i < |p| ==> p[i] == s[i];
      OrdersOfMembers(p, c);
    }
  }

  /** The sum of the payments of customer `c`'s rows. */
  function SpendOf(s: seq<Row>, c: string): int
  {
    if s == [] then 0
    else
      var x := s[|s| - 1];
      SpendOf(s[..|s| - 1], c) + (if x.customerId == Some(c) then Amount(x.payment) else 0)
  }

  /** A customer has no more distinct orders than rows. */
  lemma {:induction false} OrdersAtMostRows(s: seq<Row>, c: string)
    ensures |OrdersOf(s, c)| <= Weight(s, CustomerKey, One, c)
  {
    if s != [] {
      OrdersAtMostRows(s[..|s| - 1], c);
    }
  }

  /** Customer `c`'s RFM row with reference time `ref`. */
  function EntryFor(s: seq<Row>, c: string, ref: int): RfmRow
    requires HasKey(s, CustomerKey, c)
  {
    RfmRow(c, (ref - LastPurchaseOf(s, c)) / SecondsPerDay, |OrdersOf(s, c)|, SpendOf(s, c))
  }

  /** The RFM rows of the given customers, each of whom has a row in `s`, with reference time `ref`. */
  function RfmRows(keys: seq<string>, s: seq<Row>, ref: int): (t: seq<RfmRow>)
    requires forall i :: 0 <= i < |keys| ==> HasKey(s, CustomerKey, keys[i])
    ensures |t| == |keys|
    ensures forall i :: 0 <= i < |t| ==> t[i] == EntryFor(s, keys[i], ref)
  {
    seq(|keys|, i requires 0 <= i < |keys| => EntryFor(s, keys[i], ref))
  }

  /**
   * One RFM row of the kept rows `s`: the customer has a row; recency is the
   * whole days from their last purchase to one day past the latest purchase
   * overall, so at least 1, and exactly 1 when their last purchase is less
   * than a day before the latest; frequency is their number of distinct
   * orders, at least 1 exactly when one of their rows has an order id and at
   * most their number of rows; monetary is the sum of their payments.
   */
  ghost predicate RfmEntry(s: seq<Row>, e: RfmRow)
  {
    && HasKey(s, CustomerKey, e.customerId)
    && |s| > 0
    && e.recency == (LatestPurchase(s) + SecondsPerDay - LastPurchaseOf(s, e.customerId)) / SecondsPerDay
    && e.recency >= 1
    && (e.recency == 1 <==> LatestPurchase(s) - LastPurchaseOf(s, e.customerId) < SecondsPerDay)
    && e.frequency == |OrdersOf(s, e.customerId)|
    && (e.frequency >= 1 <==> exists i :: 0 <= i < |s| && s[i].customerId == Some(e.customerId) && s[i].orderId.Some?)
    && e.frequency <= Weight(s, CustomerKey, One, e.customerId)
    && e.monetary == SpendOf(s, e.customerId)
  }

  lemma RfmEntryOfKey(s: seq<Row>, c: string, ref: int)
    requires HasKey(s, CustomerKey, c) && |s| > 0 && ref == LatestPurchase(s) + SecondsPerDay
    ensures RfmEntry(s, EntryFor(s, c, ref))
  {
    var last := LastPurchaseOf(s, c);
    var gap := LatestPurchase(s) - last;
    assert gap >= 0;
    var r := (ref - last) / SecondsPerDay;
    assert ref - last == gap + SecondsPerDay;
    assert r == gap / SecondsPerDay + 1;
    OrdersAtMostRows(s, c);
    OrdersOfMembers(s, c);
    if exists i :: 0 <= i < |s| && s[i].customerId == Some(c) && s[i].orderId.Some? {
      var i :| 0 <= i < |s| && s[i].customerId == Some(c) && s[i].orderId.Some?;
      assert s[i].orderId.value in OrdersOf(s, c);
    }
  }

  /**
   * The RFM table of the kept rows `s` (`groupby('customer_id').agg(...)`):
   * one row per customer id present in `s` and no other, each customer once,
   * each row an `RfmEntry`. With no kept customer the table is empty and the
   * reference time is never used.
   */
  function RfmTable(s: seq<Row>): (t: seq<RfmRow>)
    ensures UniqueBy(t, CustomerOf)
    ensures forall c :: (exists i :: 0 <= i < |t| && t[i].customerId == c) <==> HasKey(s, CustomerKey, c)
    ensures forall i :: 0 <= i < |t| ==> RfmEntry(s, t[i])
  {
    var keys := GroupKeys(s, CustomerKey);
    if keys == [] then
      assert forall c :: !HasKey(s, CustomerKey, c);
      []
    else
      assert HasKey(s, CustomerKey, keys[0]);
      var ref := LatestPurchase(s) + SecondsPerDay;
      var t := RfmRows(keys, s, ref);
      RfmRowsFacts(s, keys, ref, t);
      t
  }

  lemma RfmRowsFacts(s: seq<Row>, keys: seq<string>, ref: int, t: seq<RfmRow>)
    requires keys == GroupKeys(s, CustomerKey) && |s| > 0 && ref == LatestPurchase(s) + SecondsPerDay
    requires t == RfmRows(keys, s, ref)
    ensures UniqueBy(t, CustomerOf)
    ensures forall c :: (exists i :: 0 <= i < |t| && t[i].customerId == c) <==> HasKey(s, CustomerKey, c)
    ensures forall i :: 0 <= i < |t| ==> RfmEntry(s, t[i])
  {
    forall i | 0 <= i < |t| ensures RfmEntry(s, t[i]) {
      assert keys[i] in keys;
      RfmEntryOfKey(s, keys[i], ref);
    }
    forall i, j | 0 <= i < j < |t| ensures CustomerOf(t[i]) != CustomerOf(t[j]) {
      assert t[i].customerId == keys[i] && t[j].customerId == keys[j];
    }
    forall c ensures (exists i :: 0 <= i < |t| && t[i].customerId == c) <==> c in keys {
      if c in keys {
        var i :| 0 <= i < |keys| && keys[i] == c;
        assert t[i].customerId == c;
      }
    }
  }

  function NegRecency(e: RfmRow): int { -e.recency }
  function Frequency(e: RfmRow): int { e.frequency }
  function Monetary(e: RfmRow): int { e.monetary }

  /**
   * `rfm.sort_values('recency', ascending=True).head(5)`: at most five rows
   * of the table, by ascending recency, and no row left out is more recent
   * than a row kept.
   */
  function TopRecency(t: seq<RfmRow>): (r: seq<RfmRow>)
    ensures |r| == Min(5, |t|)
    ensures multiset(r) <= multiset(t)
    ensures forall i, j :: 0 <= i < j < |r| ==> r[i].recency <= r[j].recency
    ensures forall x, y :: x in t && x !in r && y in r ==> y.recency <= x.recency
  {
    var r := TopK(t, NegRecency, 5);
    TopRecencyOrder(t, r);
    r
  }

  lemma TopRecencyOrder(t: seq<RfmRow>, r: seq<RfmRow>)
    requires r == TopK(t, NegRecency, 5)
    ensures forall i, j :: 0 <= i < j < |r| ==> r[i].recency <= r[j].recency
    ensures forall x, y :: x in t && x !in r && y in r ==> y.recency <= x.recency
  {
    forall i, j | 0 <= i < j < |r| ensures r[i].recency <= r[j].recency {
      assert NegRecency(r[i]) >= NegRecency(r[j]);
    }
    forall x, y | x in t && x !in r && y in r ensures y.recency <= x.recency {
      assert NegRecency(x) <= NegRecency(y);
    }
  }

  /**
   * `rfm.sort_values('frequency', ascending=False).head(5)`: at most five
   * rows of the table, by descending frequency, and no row left out has more
   * orders than a row kept.
   */
  function TopFrequency(t: seq<RfmRow>): (r: seq<RfmRow>)
    ensures |r| == Min(5, |t|)
    ensures multiset(r) <= multiset(t)
    ensures forall i, j :: 0 <= i < j < |r| ==> r[i].frequency >= r[j].frequency
    ensures forall x, y :: x in t && x !in r && y in r ==> x.frequency <= y.frequency
  {
    var r := TopK(t, Frequency, 5);
    TopFrequencyOrder(t, r);
    r
  }

  lemma TopFrequencyOrder(t: seq<RfmRow>, r: seq<RfmRow>)
    requires r == TopK(t, Frequency, 5)
    ensures forall i, j :: 0 <= i < j < |r| ==> r[i].frequency >= r[j].frequency
    ensures forall x, y :: x in t && x !in r && y in r ==> x.frequency <= y.frequency
  {
    forall i, j | 0 <= i < j < |r| ensures r[i].frequency >= r[j].frequency {
      assert Frequency(r[i]) >= Frequency(r[j]);
    }
    forall x, y | x in t && x !in r && y in r ensures x.frequency <= y.frequency {
      assert Frequency(x) <= Frequency(y);
    }
  }

  /**
   * `rfm.sort_values('monetary', ascending=False).head(5)`: at most five rows
   * of the table, by descending monetary value, and no row left out spent
   * more than a row kept.
   */
  function TopMonetary(t: seq<RfmRow>): (r: seq<RfmRow>)
    ensures |r| == Min(5, |t|)
    ensures multiset(r) <= multiset(t)
    ensures forall i, j :: 0 <= i < j < |r| ==> r[i].monetary >= r[j].monetary
    ensures forall x, y :: x in t && x !in r && y in r ==> x.monetary <= y.monetary
  {
    var r := TopK(t, Monetary, 5);
    TopMonetaryOrder(t, r);
    r
  }

  lemma TopMonetaryOrder(t: seq<RfmRow>, r: seq<RfmRow>)
    requires r == TopK(t, Monetary, 5)
    ensures forall i, j :: 0 <= i < j < |r| ==> r[i].monetary >= r[j].monetary
    ensures forall x, y :: x in t && x !in r && y in r ==> x.monetary <= y.monetary
  {
    forall i, j | 0 <= i < j < |r| ensures r[i].monetary >= r[j].monetary {
      assert Monetary(r[i]) >= Monetary(r[j]);
    }
    forall x, y | x in t && x !in r && y in r ensures x.monetary <= y.monetary {
      assert Monetary(x) <= Monetary(y);
    }
  }

  /**
   * `create_rm_df`: coerces the caller's payment column in place, then
   * builds the RFM table of the rows whose payment is a number and returns
   * its three top-5 lists.
   */
  method CreateRmDf(rows: array<Row>, parse: string -> Option<int>)
    returns (topRecency: seq<RfmRow>, topFrequency: seq<RfmRow>, topMonetary: seq<RfmRow>)
    modifies rows
    ensures rows[..] == Coerced(old(rows[..]), parse)
    ensures topRecency == TopRecency(RfmTable(DropUnpaid(rows[..])))
    ensures topFrequency == TopFrequency(RfmTable(DropUnpaid(rows[..])))
    ensures topMonetary == TopMonetary(RfmTable(DropUnpaid(rows[..])))
  {
    CoercePayments(rows, parse);
    var clean := DropUnpaid(rows[..]);
    var rfm := RfmTable(clean);
    topRecency := TopRecency(rfm);
    topFrequency := TopFrequency(rfm);
    topMonetary := TopMonetary(rfm);
  }

  /** The RFM table of a whole input: coerce, drop, group. */
  function RfmOf(rows: seq<Row>, parse: string -> Option<int>): seq<RfmRow>
  {
    RfmTable(DropUnpaid(Coerced(rows, parse)))
  }

  /**
   * A row whose payment fails to coerce changes nothing, wherever it stands:
   * not the reference time, not any customer's row.
   */
  lemma UncoercibleRowIgnored(a: seq<Row>, x: Row, b: seq<Row>, parse: string -> Option<int>)
    requires !Coerce(x.payment, parse).Num?
    ensures RfmOf(a + [x] + b, parse) == RfmOf(a + b, parse)
  {
    var ca, cx, cb := Coerced(a, parse), CoerceRow(x, parse), Coerced(b, parse);
    CoercedAround(a, x, b, parse);
    DropUnpaidAround(ca, cx, cb);
    assert DropUnpaid(Coerced(a + [x] + b, parse)) == DropUnpaid(Coerced(a + b, parse));
  }

  lemma CoercedAround(a: seq<Row>, x: Row, b: seq<Row>, parse: string -> Option<int>)
    ensures Coerced(a + [x] + b, parse) == Coerced(a, parse) + [CoerceRow(x, parse)] + Coerced(b, parse)
    ensures Coerced(a + b, parse) == Coerced(a, parse) + Coerced(b, parse)
  {
    CoercedAppend(a + [x], b, parse);
    CoercedAppend(a, [x], parse);
    CoercedAppend(a, b, parse);
    assert [x][..0] == [];
  }

  lemma DropUnpaidAround(a: seq<Row>, y: Row, b: seq<Row>)
    requires !y.payment.Num?
    ensures DropUnpaid(a + [y] + b) == DropUnpaid(a + b)
  {
    DropUnpaidSnoc(a, y);
    assert DropUnpaid(a) + [] == DropUnpaid(a);
    DropUnpaidAppend(a + [y], b);
    DropUnpaidAppend(a, b);
  }

  /** A customer all of whose payments fail to coerce has no row in the RFM table. */
  lemma DroppedCustomerAbsent(rows: seq<Row>, parse: string -> Option<int>, c: string)
    requires forall i :: 0 <= i < |rows| && rows[i].customerId == Some(c) ==> !Coerce(rows[i].payment, parse).Num?
    ensures forall i :: 0 <= i < |RfmOf(rows, parse)| ==> RfmOf(rows, parse)[i].customerId != c
  {
    var coerced := Coerced(rows, parse);
    var kept := DropUnpaid(coerced);
    forall i | 0 <= i < |kept| ensures CustomerKey(kept[i]) != Some(c) {
      assert kept[i] in coerced;
      var j :| 0 <= j < |coerced| && coerced[j] == kept[i];
      assert coerced[j] == CoerceRow(rows[j], parse);
    }
  }
}
