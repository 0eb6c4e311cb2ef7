/**
 * The ranking helpers of the dashboard: product counts per category
 * (`create_sum_order_items_df`), value counts of review scores and order
 * statuses with their most common value (`review_score_df`,
 * `create_order_status`), and distinct customers per state and per city with
 * the most common one (`create_bystate_df`, `create_bycity_df`).
 */
module Rankings {
  import opened Wrappers
  import opened Orders
  import opened Sorting
  import opened Grouping

  /** A ranking together with its most common key, as the helpers return `(table, most_common)`. */
  datatype Ranked<K> = Ranked(table: seq<Count<K>>, mostCommon: K)

  /** The message of the `ValueError` that `idxmax` raises on an empty table. */
  const ArgmaxOfEmpty: string := "attempt to get argmax of an empty sequence"

  function CategoryOf(r: Row): Option<string> { r.category }
  function ScoreOf(r: Row): Option<int> { r.reviewScore }
  function StatusOf(r: Row): Option<string> { r.orderStatus }
  function StateOf(r: Row): Option<string> { r.customerState }
  function CityOf(r: Row): Option<string> { r.customerCity }

  /** `count()` of `product_id`: a row weighs 1 when its product id is present. */
  function HasProduct(r: Row): nat { if r.productId.Some? then 1 else 0 }

  /**
   * `create_sum_order_items_df`: one row per category present (a row with no
   * category is in no group), its `product_count` the number of that
   * category's rows with a product id, sorted by descending count. The counts
   * add up to the rows that have both a category and a product id.
   */
  function CreateSumOrderItems(rows: seq<Row>): (t: seq<Count<string>>)
    ensures UniqueBy(t, KeyOf)
    ensures forall i :: 0 <= i < |t| ==> HasKey(rows, CategoryOf, t[i].key)
    ensures forall c :: HasKey(rows, CategoryOf, c) ==> exists i :: 0 <= i < |t| && t[i].key == c
    ensures forall i :: 0 <= i < |t| ==> t[i].count == Weight(rows, CategoryOf, HasProduct, t[i].key)
    ensures SortedDesc(t, ByCount)
    ensures SumCounts(t) == TotalWeight(rows, CategoryOf, HasProduct)
  {
    Ranking(rows, CategoryOf, HasProduct)
  }

  /**
   * The properties of value counts `t` with most common value `m`: not
   * empty; counts non-increasing; each value once; exactly the values present,
   * each counted by its rows; the counts adding up to the rows that have a
   * value; and `m` the first entry, whose count no entry exceeds.
   */
  ghost predicate ValueCountsOf<K(!new)>(rows: seq<Row>, key: Row -> Option<K>, t: seq<Count<K>>, m: K)
  {
    && |t| > 0
    && SortedDesc(t, ByCount)
    && UniqueBy(t, KeyOf)
    && (forall i :: 0 <= i < |t| ==> HasKey(rows, key, t[i].key))
    && (forall k :: HasKey(rows, key, k) ==> exists i :: 0 <= i < |t| && t[i].key == k)
    && (forall i :: 0 <= i < |t| ==> t[i].count == Weight(rows, key, One, t[i].key))
    && SumCounts(t) == TotalWeight(rows, key, One)
    && m == t[0].key
    && (forall i :: 0 <= i < |t| ==> t[i].count <= t[0].count)
  }

  /**
   * `series.value_counts().sort_values(ascending=False)` followed by
   * `idxmax()`: the count table of the non-missing values, and as the most
   * common value the first entry, whose count no other entry exceeds. With no
   * value at all, `idxmax` raises.
   */
  function MostCommonValue<K(==,!new)>(rows: seq<Row>, key: Row -> Option<K>): (r: Result<Ranked<K>>)
    ensures r.Err? <==> forall i :: 0 <= i < |rows| ==> key(rows[i]).None?
    ensures r.Err? ==> r.message == ArgmaxOfEmpty
    ensures r.Ok? ==> ValueCountsOf(rows, key, r.value.table, r.value.mostCommon)
    ensures r.Ok? ==> r.value.table == Ranking(rows, key, One)
  {
    var t := Ranking(rows, key, One);
    if t == [] then Err(ArgmaxOfEmpty)
    else
      assert forall i :: 0 <= i < |t| ==> ByCount(t[i]) <= ByCount(t[0]);
      Ok(Ranked(t, t[0].key))
  }

  /**
   * `review_score_df`: the review scores by descending number of rows, each
   * score once, the counts adding up to the rows that have a score; the most
   * common score has the largest count. With no score at all, `idxmax` raises.
   */
  function ReviewScores(rows: seq<Row>): (r: Result<Ranked<int>>)
    ensures r.Err? <==> forall i :: 0 <= i < |rows| ==> rows[i].reviewScore.None?
    ensures r.Err? ==> r.message == ArgmaxOfEmpty
    ensures r.Ok? ==> ValueCountsOf(rows, ScoreOf, r.value.table, r.value.mostCommon)
  {
    MostCommonValue(rows, ScoreOf)
  }

  /**
   * `create_order_status`: the order statuses by descending number of rows,
   * each status once, the counts adding up to the rows that have a status;
   * the most common status has the largest count. With no status at all,
   * `idxmax` raises.
   */
  function CreateOrderStatus(rows: seq<Row>): (r: Result<Ranked<string>>)
    ensures r.Err? <==> forall i :: 0 <= i < |rows| ==> rows[i].orderStatus.None?
    ensures r.Err? ==> r.message == ArgmaxOfEmpty
    ensures r.Ok? ==> ValueCountsOf(rows, StatusOf, r.value.table, r.value.mostCommon)
  {
    MostCommonValue(rows, StatusOf)
  }

  /** The distinct non-missing customer ids of the rows whose `key` column is `k`. */
  function CustomersIn(rows: seq<Row>, key: Row -> Option<string>, k: string): (c: set<string>)
    ensures forall id :: id in c <==>
              exists i :: 0 <= i < |rows| && key(rows[i]) == Some(k) && rows[i].customerId == Some(id)
  {
    if rows == [] then {}
    else
      var p := rows[..|rows| - 1];
      var x := rows[|rows| - 1];
      assert forall i :: 0 <= i < |p| ==> p[i] == rows[i];
      CustomersIn(p, key, k) + (if key(x) == Some(k) && x.customerId.Some? then {x.customerId.value} else {})
  }

  /** The distinct non-missing customer ids of the whole table. */
  function AllCustomers(rows: seq<Row>): (c: set<string>)
    ensures forall id :: id in c <==> exists i :: 0 <= i < |rows| && rows[i].customerId == Some(id)
  {
    if rows == [] then {}
    else
      var p := rows[..|rows| - 1];
      var x := rows[|rows| - 1];
      assert forall i :: 0 <= i < |p| ==> p[i] == rows[i];
      AllCustomers(p) + (if x.customerId.Some? then {x.customerId.value} else {})
  }

  /** A group has no more distinct customers than rows. */
  lemma {:induction false} CustomersAtMostRows(rows: seq<Row>, key: Row -> Option<string>, k: string)
    ensures |CustomersIn(rows, key, k)| <= Weight(rows, key, One, k)
  {
    if rows != [] {
      CustomersAtMostRows(rows[..|rows| - 1], key, k);
    }
  }

  /** `groupby(key).customer_id.nunique()` over the given keys, in their order. */
  function CustomerTable(keys: seq<string>, rows: seq<Row>, key: Row -> Option<string>): (t: seq<Count<string>>)
    ensures |t| == |keys|
    ensures forall i :: 0 <= i < |t| ==> t[i] == Count(keys[i], |CustomersIn(rows, key, keys[i])|)
  {
    if keys == [] then [] else [Count(keys[0], |CustomersIn(rows, key, keys[0])|)] + CustomerTable(keys[1..], rows, key)
  }

  /**
   * One group of a distinct-customer ranking: the group's key occurs in the
   * table, its count is the number of distinct customer ids among its rows,
   * at most its number of rows and the number of customers overall, and at
   * least one exactly when one of its rows has a customer id.
   */
  ghost predicate CustomerGroup(rows: seq<Row>, key: Row -> Option<string>, e: Count<string>)
  {
    && HasKey(rows, key, e.key)
    && e.count == |CustomersIn(rows, key, e.key)|
    && e.count <= Weight(rows, key, One, e.key)
    && e.count <= |AllCustomers(rows)|
    && (e.count >= 1 <==> exists j :: 0 <= j < |rows| && key(rows[j]) == Some(e.key) && rows[j].customerId.Some?)
  }

  /** The properties of a distinct-customer ranking `t` with most common key `m`. */
  ghost predicate CustomerRankingOf(rows: seq<Row>, key: Row -> Option<string>, t: seq<Count<string>>, m: string)
  {
    && SortedDesc(t, ByCount)
    && UniqueBy(t, KeyOf)
    && (forall i :: 0 <= i < |t| ==> CustomerGroup(rows, key, t[i]))
    && (forall k :: HasKey(rows, key, k) ==> exists i :: 0 <= i < |t| && t[i].key == k)
    && LeastMostCommon(t, m)
  }

  lemma CustomerGroupOfKey(rows: seq<Row>, key: Row -> Option<string>, c: string)
    requires HasKey(rows, key, c)
    ensures CustomerGroup(rows, key, Count(c, |CustomersIn(rows, key, c)|))
  {
    CustomersAtMostRows(rows, key, c);
    SubsetCardinality(CustomersIn(rows, key, c), AllCustomers(rows));
    if exists j :: 0 <= j < |rows| && key(rows[j]) == Some(c) && rows[j].customerId.Some? {
      var j :| 0 <= j < |rows| && key(rows[j]) == Some(c) && rows[j].customerId.Some?;
      assert rows[j].customerId.value in CustomersIn(rows, key, c);
    }
  }

  /**
   * The shared body of `create_bystate_df` and `create_bycity_df`: distinct
   * customers per group, each group once, sorted by descending count; a
   * group counts at least one customer exactly when one of its rows has a
   * customer id, and at most its number of rows and the number of distinct
   * customers overall. The most common key is taken by `idxmax` before the
   * sort, on the key-ordered group-by result: the least key among those
   * with the largest count. With no group at all, `idxmax` raises.
   */
  function CustomerRanking(rows: seq<Row>, key: Row -> Option<string>): (r: Result<Ranked<string>>)
    ensures r.Err? <==> forall i :: 0 <= i < |rows| ==> key(rows[i]).None?
    ensures r.Err? ==> r.message == ArgmaxOfEmpty
    ensures r.Ok? ==> CustomerRankingOf(rows, key, r.value.table, r.value.mostCommon)
  {
    var keys := GroupKeys(rows, key);
    var u := CustomerTable(keys, rows, key);
    if u == [] then
      assert forall i :: 0 <= i < |rows| && key(rows[i]).Some? ==> key(rows[i]).value in keys;
      Err(ArgmaxOfEmpty)
    else
      var m := u[ArgMaxLeastKey(u)].key;
      var t := SortDesc(u, ByCount);
      CustomerRankingFacts(rows, key, keys, u, t, m);
      Ok(Ranked(t, m))
  }

  lemma CustomerRankingFacts(rows: seq<Row>, key: Row -> Option<string>, keys: seq<string>,
                             u: seq<Count<string>>, t: seq<Count<string>>, m: string)
    requires keys == GroupKeys(rows, key) && u == CustomerTable(keys, rows, key) && |u| > 0
    requires t == SortDesc(u, ByCount) && m == u[ArgMaxLeastKey(u)].key
    ensures CustomerRankingOf(rows, key, t, m)
  {
    CustomerTableKeys(rows, key, keys, u);
    SortKeepsUnique(u, ByCount, KeyOf);
    LeastMostCommonOfArgMax(u);
    SortKeepsMembers(u, ByCount);
    LeastMostCommonReordered(u, t, m);
    CustomerTableGroups(rows, key, keys, u);
    SortedGroups(rows, key, u, t);
    SortedCoversKeys(rows, key, u, t);
  }

  lemma CustomerTableKeys(rows: seq<Row>, key: Row -> Option<string>, keys: seq<string>, u: seq<Count<string>>)
    requires keys == GroupKeys(rows, key) && u == CustomerTable(keys, rows, key)
    ensures UniqueBy(u, KeyOf)
    ensures forall k :: HasKey(rows, key, k) ==> exists p :: 0 <= p < |u| && u[p].key == k
  {
    forall k | HasKey(rows, key, k) ensures exists p :: 0 <= p < |u| && u[p].key == k {
      var p :| 0 <= p < |keys| && keys[p] == k;
      assert u[p].key == k;
    }
  }

  lemma CustomerTableGroups(rows: seq<Row>, key: Row -> Option<string>, keys: seq<string>, u: seq<Count<string>>)
    requires keys == GroupKeys(rows, key) && u == CustomerTable(keys, rows, key)
    ensures forall k :: 0 <= k < |u| ==> CustomerGroup(rows, key, u[k])
  {
    forall k | 0 <= k < |u| ensures CustomerGroup(rows, key, u[k]) {
      assert keys[k] in keys;
      CustomerGroupOfKey(rows, key, keys[k]);
    }
  }

  lemma SortedGroups(rows: seq<Row>, key: Row -> Option<string>, u: seq<Count<string>>, t: seq<Count<string>>)
    requires forall x :: x in t <==> x in u
    requires forall k :: 0 <= k < |u| ==> CustomerGroup(rows, key, u[k])
    ensures forall i :: 0 <= i < |t| ==> CustomerGroup(rows, key, t[i])
  {
    forall i | 0 <= i < |t| ensures CustomerGroup(rows, key, t[i]) {
      assert t[i] in u;
    }
  }

  lemma SortedCoversKeys(rows: seq<Row>, key: Row -> Option<string>, u: seq<Count<string>>, t: seq<Count<string>>)
    requires forall x :: x in t <==> x in u
    requires forall k :: HasKey(rows, key, k) ==> exists p :: 0 <= p < |u| && u[p].key == k
    ensures forall k :: HasKey(rows, key, k) ==> exists i :: 0 <= i < |t| && t[i].key == k
  {
    forall k | HasKey(rows, key, k) ensures exists i :: 0 <= i < |t| && t[i].key == k {
      var p :| 0 <= p < |u| && u[p].key == k;
      assert u[p] in t;
      var i :| 0 <= i < |t| && t[i] == u[p];
    }
  }

  /**
   * `create_bystate_df`: distinct customers per `customer_state` and the
   * most common state, the least state name among those with the most
   * customers.
   */
  function CreateByState(rows: seq<Row>): (r: Result<Ranked<string>>)
    ensures r.Err? <==> forall i :: 0 <= i < |rows| ==> rows[i].customerState.None?
    ensures r.Ok? ==> CustomerRankingOf(rows, StateOf, r.value.table, r.value.mostCommon)
  {
    CustomerRanking(rows, StateOf)
  }

  /**
   * `create_bycity_df`: distinct customers per `customer_city` and the most
   * common city, the least city name among those with the most customers.
   */
  function CreateByCity(rows: seq<Row>): (r: Result<Ranked<string>>)
    ensures r.Err? <==> forall i :: 0 <= i < |rows| ==> rows[i].customerCity.None?
    ensures r.Ok? ==> CustomerRankingOf(rows, CityOf, r.value.table, r.value.mostCommon)
  {
    CustomerRanking(rows, CityOf)
  }
}
