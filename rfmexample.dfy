/**
 * A worked RFM example: customer A buys on day 1 (50) and day 10 (70),
 * customer B on day 5 (200). The reference time is day 11, so A has
 * recency 1, two orders and 120 spent, and B recency 6, one order and 200.
 */
module RfmExample {
  import opened Wrappers
  import opened Orders
  import opened Sorting
  import opened Grouping
  import opened Rfm

  /** A paid purchase by customer `c` of order `o`, approved at its purchase time. */
  function Purchase(c: string, o: string, day: int, cents: int): Row
  {
    Row(Some(o), Some(c), None, None, None, None, None, None, Num(cents), day * SecondsPerDay, Some(day * SecondsPerDay))
  }

  function Sample(): seq<Row>
  {
    [Purchase("A", "o1", 1, 50), Purchase("B", "o2", 5, 200), Purchase("A", "o3", 10, 70)]
  }

  lemma SamplePrefixes()
    ensures Sample()[..2] == [Sample()[0], Sample()[1]]
    ensures [Sample()[0], Sample()[1]][..1] == [Sample()[0]]
    ensures [Sample()[0]][..0] == []
  {
  }

  lemma SampleKeys()
    ensures GroupKeys(Sample(), CustomerKey) == ["A", "B"]
  {
    var s := Sample();
    SamplePrefixes();
    assert GroupKeys([s[0]], CustomerKey) == ["A"];
    assert GroupKeys([s[0], s[1]], CustomerKey) == ["A", "B"];
  }

  lemma SampleOrders()
    ensures OrdersOf(Sample(), "A") == {"o1", "o3"}
    ensures OrdersOf(Sample(), "B") == {"o2"}
    ensures SpendOf(Sample(), "A") == 120
    ensures SpendOf(Sample(), "B") == 200
  {
    var s := Sample();
    SamplePrefixes();
    assert OrdersOf([s[0]], "A") == {"o1"};
    assert OrdersOf([s[0], s[1]], "A") == {"o1"};
    assert OrdersOf([s[0]], "B") == {};
    assert OrdersOf([s[0], s[1]], "B") == {"o2"};
    assert SpendOf([s[0]], "A") == 50 && SpendOf([s[0], s[1]], "A") == 50;
    assert SpendOf([s[0]], "B") == 0 && SpendOf([s[0], s[1]], "B") == 200;
  }

  lemma SampleTimes()
    ensures LatestPurchase(Sample()) == 10 * SecondsPerDay
    ensures HasKey(Sample(), CustomerKey, "A") && LastPurchaseOf(Sample(), "A") == 10 * SecondsPerDay
    ensures HasKey(Sample(), CustomerKey, "B") && LastPurchaseOf(Sample(), "B") == 5 * SecondsPerDay
  {
    var s := Sample();
    assert CustomerKey(s[0]) == Some("A") && CustomerKey(s[1]) == Some("B");
  }

  lemma SampleEntryA()
    ensures HasKey(Sample(), CustomerKey, "A") && EntryFor(Sample(), "A", 11 * SecondsPerDay) == RfmRow("A", 1, 2, 120)
  {
    SampleTimes();
    SampleFrequencyA();
    SampleOrders();
  }

  lemma SampleFrequencyA()
    ensures |OrdersOf(Sample(), "A")| == 2
  {
    SampleOrders();
    assert {"o1", "o3"} == {"o1"} + {"o3"};
  }

  lemma SampleEntryB()
    ensures HasKey(Sample(), CustomerKey, "B") && EntryFor(Sample(), "B", 11 * SecondsPerDay) == RfmRow("B", 6, 1, 200)
  {
    SampleOrders();
    SampleTimes();
  }

  lemma SampleRows()
    ensures HasKey(Sample(), CustomerKey, "A") && HasKey(Sample(), CustomerKey, "B")
    ensures RfmRows(["A", "B"], Sample(), 11 * SecondsPerDay)
         == [EntryFor(Sample(), "A", 11 * SecondsPerDay), EntryFor(Sample(), "B", 11 * SecondsPerDay)]
  {
    SampleTimes();
  }

  lemma SampleAllPaid()
    ensures DropUnpaid(Sample()) == Sample()
  {
    SamplePrefixes();
  }

  /** The RFM table of the example, customers in order of first appearance. */
  lemma Example()
    ensures RfmTable(DropUnpaid(Sample())) == [RowA(), RowB()]
  {
    SampleAllPaid();
    SampleKeys();
    SampleTimes();
    SampleRows();
    SampleEntryA();
    SampleEntryB();
  }

  function RowA(): RfmRow { RfmRow("A", 1, 2, 120) }
  function RowB(): RfmRow { RfmRow("B", 6, 1, 200) }

  /** A table of at most five rows is its own top five, in sorted order. */
  lemma TopFiveOfSmall(t: seq<RfmRow>, key: RfmRow -> int)
    requires |t| <= 5
    ensures TopK(t, key, 5) == SortDesc(t, key)
  {
    assert Min(5, |t|) == |t|;
  }

  /** Sorting the two example rows inserts A into the sorted B. */
  lemma SortTwo(key: RfmRow -> int)
    ensures SortDesc([RowA(), RowB()], key) == Insert(RowA(), [RowB()], key)
  {
    var t := [RowA(), RowB()];
    assert t[1..] == [RowB()] && [RowB()][1..] == [];
  }

  /** Sorting the two example rows by a key on which A is ahead keeps them as they are. */
  lemma SortAFirst(key: RfmRow -> int)
    requires key(RowA()) >= key(RowB())
    ensures TopK([RowA(), RowB()], key, 5) == [RowA(), RowB()]
  {
    TopFiveOfSmall([RowA(), RowB()], key);
    SortTwo(key);
  }

  /** Sorting the two example rows by a key on which B is ahead swaps them. */
  lemma SortBFirst(key: RfmRow -> int)
    requires key(RowA()) < key(RowB())
    ensures TopK([RowA(), RowB()], key, 5) == [RowB(), RowA()]
  {
    TopFiveOfSmall([RowA(), RowB()], key);
    SortTwo(key);
    assert [RowB()][1..] == [];
  }

  /** The example's top lists: A is the more recent and more frequent customer, B the bigger spender. */
  lemma ExampleTops()
    ensures TopRecency([RowA(), RowB()]) == [RowA(), RowB()]
    ensures TopFrequency([RowA(), RowB()]) == [RowA(), RowB()]
    ensures TopMonetary([RowA(), RowB()]) == [RowB(), RowA()]
  {
    SortAFirst(NegRecency);
    SortAFirst(Frequency);
    SortBFirst(Monetary);
  }
}
