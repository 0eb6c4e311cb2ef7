# Brazil e-commerce dashboard: aggregation core

This project models the data-preparation core of a Streamlit dashboard over a
merged table of Brazilian e-commerce orders. The model covers the helpers that
turn the order table into the dashboard's figures:

- the date-range selection of the rows shown (`main_df`);
- the daily series of distinct orders, revenue and spend (`create_daily_orders_df`,
  `create_sum_spend_df`);
- the product count per category (`create_sum_order_items_df`);
- the review-score and order-status value counts with their most common value
  (`review_score_df`, `create_order_status`);
- the distinct customers per state and per city with the most common one
  (`create_bystate_df`, `create_bycity_df`);
- the RFM analysis (`create_rm_df`): recency, frequency and monetary value per
  customer, and the top five customers by each.

The order table is a sequence of `Orders.Row` values. A missing id, name,
status, score or approval time (NaN/NaT) is `None`. A payment cell is a number
in cents, a text not yet converted, or empty. Timestamps are whole seconds
since the epoch, and a day is `t / 86400` with floor division.

Modules:

- `Wrappers`: `Option` and `Result`.
- `Sorting`: a descending insertion sort by an integer key, and `TopK` for `sort_values(...).head(k)`.
- `Grouping`: group-by keys in first-occurrence order, weighted counts, count tables sorted by count, and the `idxmax` choice.
- `Orders`: the row and cell types, and day arithmetic.
- `DateFilter`: the date-range mask.
- `Daily`: the daily resampling.
- `Rankings`: the category, score, status, state and city helpers.
- `Rfm`: `create_rm_df`. The payment column is coerced in place, in an array the caller owns, since the source aliases its argument. The rest is computed as functions of the coerced rows.
- `RfmExample`: a worked three-row RFM example.

In these places pandas behaves differently from what one might expect, and the model follows pandas:

- `resample('D')` emits every calendar day from the first to the last approval
  day, so a day with no rows appears with zero orders and zero revenue. It is
  not omitted.
- `create_rm_df` on a table with no paid row returns three empty lists rather than failing.
- In `create_bystate_df` and `create_bycity_df` the most common value is picked by
  `idxmax` before the sort, on the group-by result ordered by key. It is
  therefore the least name, in code-point order, among the groups with the
  largest count, and not simply the first row of the sorted table.
- `idxmax` on an empty series raises `ValueError`. The model returns
  `Err("attempt to get argmax of an empty sequence")` for review scores,
  order statuses, states and cities when no row has a value.

## Model

| member | source | states |
|---|---|---|
| DateFilter.FilterByDate | dashboard/dashboard.py:123-124 | every kept row has an approval time between midnight of the start date and midnight of the end date; no more rows than the input |
| DateFilter.FilterCounts | dashboard/dashboard.py:123-124 | each row occurs in the selection exactly as often as in the input when it is in range, and not at all otherwise |
| DateFilter.FilterAppend | dashboard/dashboard.py:123-124 | the mask keeps the input order: filtering a concatenation concatenates the filtered parts |
| DateFilter.LaterOnEndDayDropped | dashboard/dashboard.py:124 | a row approved on the end date but after its midnight is not selected |
| DateFilter.InsideKept | dashboard/dashboard.py:123-124 | a row approved between the two midnights is selected |
| Orders.DayOf | dashboard/dashboard.py:12 | the day bin of a timestamp: the day whose midnight is at or before it and whose next midnight is after it |
| Daily.ApprovalDays | dashboard/dashboard.py:12 | a day is listed exactly when some row with an approval time falls on it |
| Daily.CreateDailyOrders | dashboard/dashboard.py:11-22 | empty exactly when no row has an approval time; runs over consecutive days from the first to the last approval day; each day's order count is the number of distinct order ids approved that day and its revenue is the sum of their payments |
| Daily.CreateSumSpend | dashboard/dashboard.py:24-33 | the same days as the daily orders series, each with total spend equal to that day's revenue |
| Daily.DailyCoversApprovals | dashboard/dashboard.py:12-15 | every day on which some row is approved has its row in the series |
| Daily.EmptyDayIsZero | dashboard/dashboard.py:12-15 | a day with no approved row has no orders and zero revenue |
| Daily.OrdersOnMembers | dashboard/dashboard.py:13 | an order id is among a day's orders exactly when a row approved that day carries it |
| Daily.OrderCountBound | dashboard/dashboard.py:13 | a day's distinct order count is at most the number of rows approved that day |
| Daily.DailyRevenueTotal | dashboard/dashboard.py:12-15 | the revenues of all days add up to the payments of all rows with an approval time: nothing is lost or counted twice |
| Sorting.Insert | dashboard/dashboard.py:40 | inserting into a non-increasing sequence keeps it non-increasing and adds exactly that element |
| Sorting.SortDesc | dashboard/dashboard.py:40 | the result is non-increasing by the key and a permutation of the input |
| Sorting.SortKeepsMembers | dashboard/dashboard.py:40 | an element is in the sorted sequence exactly when it is in the input |
| Sorting.SortKeepsUnique | dashboard/dashboard.py:56 | sorting keeps a table free of duplicate keys |
| Sorting.TopK | dashboard/dashboard.py:91-93 | `head(k)` after a descending sort: min(k, n) elements taken from the input, non-increasing, and no element left out has a larger key than one kept |
| Sorting.TakeKeepsUnique | dashboard/dashboard.py:91-93 | the top-k of a table without duplicate ids has none either |
| Grouping.GroupKeys | dashboard/dashboard.py:36 | the group keys are duplicate-free and are exactly the non-missing keys of the rows |
| Grouping.Tally | dashboard/dashboard.py:36 | one entry per non-missing key, each with the total weight of its rows, summing to the weight of all keyed rows |
| Grouping.TallySum | dashboard/dashboard.py:36 | the counts of the group table add up to the weight of all keyed rows |
| Grouping.SumCountsSorted | dashboard/dashboard.py:40 | sorting a count table keeps the sum of its counts |
| Grouping.Ranking | dashboard/dashboard.py:36-40 | the sorted group table: non-increasing counts, each key once, exactly the non-missing keys, each count the weight of the key's rows, counts summing to the weight of all keyed rows, empty exactly when no row has a key |
| Grouping.BelowTransitive | dashboard/dashboard.py:55 | code-point string order is transitive |
| Grouping.BelowTotal | dashboard/dashboard.py:55 | any two distinct strings are ordered one way or the other |
| Grouping.ArgMaxLeastKey | dashboard/dashboard.py:55 | `idxmax` on a key-ordered table: an entry with the largest count, and no other entry with that count has a smaller key |
| Grouping.LeastMostCommonOfArgMax | dashboard/dashboard.py:55 | the key `idxmax` picks is the least key with the largest count |
| Grouping.LeastMostCommonReordered | dashboard/dashboard.py:55-56 | that characterisation survives the later sort, because it holds of any table with the same entries |
| Rankings.CreateSumOrderItems | dashboard/dashboard.py:35-42 | one row per category present, counting that category's rows with a product id, sorted by descending count, the counts summing to the rows that have both a category and a product id |
| Rankings.MostCommonValue | dashboard/dashboard.py:45-46 | an error exactly when no row has a value; otherwise the value counts with the first entry as most common value, whose count no entry exceeds |
| Rankings.ReviewScores | dashboard/dashboard.py:44-48 | an error exactly when no row has a score; otherwise each score present exactly once and no other, by descending count, counts equal to the rows with that score and summing to the scored rows, and the most common score is the first entry and has the largest count |
| Rankings.CreateOrderStatus | dashboard/dashboard.py:70-74 | the same as for review scores, for order statuses |
| Rankings.CustomersIn | dashboard/dashboard.py:51 | a customer id belongs to a group exactly when one of the group's rows carries it |
| Rankings.AllCustomers | dashboard/dashboard.py:51 | a customer id is among all customers exactly when some row carries it |
| Rankings.CustomersAtMostRows | dashboard/dashboard.py:51 | a group has no more distinct customers than rows |
| Rankings.CustomerGroupOfKey | dashboard/dashboard.py:51 | each group's distinct-customer count is at most its rows and at most all customers, and is at least one exactly when one of its rows has a customer id |
| Rankings.CustomerRanking | dashboard/dashboard.py:50-58 | an error exactly when no row has a key; otherwise each group once, sorted by descending distinct-customer count, every key present, and as most common key the least key among those with the largest count |
| Rankings.CreateByState | dashboard/dashboard.py:50-58 | the distinct-customer ranking of states, with its most common state; an error exactly when no row has a state |
| Rankings.CreateByCity | dashboard/dashboard.py:60-68 | the distinct-customer ranking of cities, with its most common city; an error exactly when no row has a city |
| Rfm.Coerce | dashboard/dashboard.py:79 | `to_numeric(errors='coerce')`: no text is left; a number is unchanged; a text that parses becomes the number it parses to; the cell is a number exactly when it was one or its text parses |
| Rfm.Coerced | dashboard/dashboard.py:79 | the coerced column has the same length and coerces each row's payment, leaving the rest of the row alone |
| Rfm.CoercePayments | dashboard/dashboard.py:77-79 | the caller's table itself is overwritten with its coerced payments |
| Rfm.DropUnpaid | dashboard/dashboard.py:80 | only rows with a numeric payment remain, and every such row remains |
| Rfm.DropUnpaidCounts | dashboard/dashboard.py:80 | every copy of a row with a numeric payment is kept, and no copy of any other row |
| Rfm.DropUnpaidAppend | dashboard/dashboard.py:80 | `dropna` keeps the row order: dropping from a concatenation concatenates the dropped parts |
| Rfm.CoercedAppend | dashboard/dashboard.py:79 | coercion works row by row: coercing a concatenation concatenates the coerced parts |
| Rfm.LatestPurchase | dashboard/dashboard.py:82 | the latest purchase time of the kept rows: one of them and at or after all of them |
| Rfm.LastPurchaseOf | dashboard/dashboard.py:85 | a customer's last purchase: one of their purchase times and at or after all of them |
| Rfm.OrdersOfMembers | dashboard/dashboard.py:86 | an order id is among a customer's orders exactly when one of their rows carries it |
| Rfm.OrdersAtMostRows | dashboard/dashboard.py:86 | a customer has no more distinct orders than rows |
| Rfm.RfmEntryOfKey | dashboard/dashboard.py:82-88 | a customer's RFM row: recency is the whole days from their last purchase to one day past the latest purchase, at least 1, and exactly 1 when their last purchase is less than a day before the latest; frequency is their distinct order ids, at least 1 exactly when one of their rows has an order id, and at most their rows; monetary is the sum of their payments |
| Rfm.RfmTable | dashboard/dashboard.py:82-90 | one RFM row per customer, each customer once, exactly the customers of the kept rows, each row as above |
| Rfm.TopRecency | dashboard/dashboard.py:91 | at most five RFM rows, taken from the table, by ascending recency, and no row left out is more recent than one kept |
| Rfm.TopFrequency | dashboard/dashboard.py:92 | at most five RFM rows, taken from the table, by descending frequency, and no row left out has more orders than one kept |
| Rfm.TopMonetary | dashboard/dashboard.py:93 | at most five RFM rows, taken from the table, by descending monetary value, and no row left out spent more than one kept |
| Rfm.CreateRmDf | dashboard/dashboard.py:76-95 | the caller's payments are coerced in place, and the three lists are the top fives of the RFM table of the rows with a numeric payment |
| Rfm.UncoercibleRowIgnored | dashboard/dashboard.py:79-80 | inserting a row whose payment does not coerce anywhere in the table changes no RFM row, not even the reference time |
| Rfm.DroppedCustomerAbsent | dashboard/dashboard.py:79-84 | a customer none of whose payments coerce has no RFM row |
| RfmExample.Example | dashboard/dashboard.py:82-90 | with purchases by A on day 1 (50) and day 10 (70) and by B on day 5 (200), the RFM rows are A: recency 1, frequency 2, monetary 120, and B: recency 6, frequency 1, monetary 200 |
| RfmExample.ExampleTops | dashboard/dashboard.py:91-93 | for those two RFM rows the top lists are A then B by recency and by frequency, and B then A by monetary value |

## Left out

- The Streamlit page: the sidebar, logo, date picker widget, headers, metrics and every matplotlib/seaborn chart are presentation, not computation.
- Loading `all_data.csv`, the initial sort by approval time and the `to_datetime` conversions are I/O and parsing. The model starts from a table of rows whose times are already whole seconds.
- The date picker's values are parameters `startDay` and `endDay` (days since the epoch). The widget bounds them by the first and last approval time, and the model does not need that bound.
- `format_currency` and the means and sums shown as metrics are formatting of figures the model already computes.
- The string-to-number parsing inside `to_numeric` is the parameter `parse`. The model does not say which texts are numbers.
- `create_rm_df` also converts `order_purchase_timestamp` with `to_datetime`. The purchase times are already whole seconds here, so that step is the identity and changes nothing in place.
- Rfm.CoercePayments: the source's `rfm_df = df` overwrites `main_df`, itself a slice of `all_df` (pandas warns about a copy). The model coerces the caller's array and does not model the copy-or-view question.
- Daily.CreateDailyOrders: a payment that is still text is counted as 0 in a day's sum. In pandas such a column would fail to sum or would concatenate, and the dashboard's data has numeric payments there.
- Sorting.SortDesc: pandas' default sort is not stable, so rows with equal keys may come in any order. The model fixes one order (insertion sort), and the contracts state only what holds for every order: non-increasing keys and a permutation.
- Rankings.ReviewScores and Rankings.CreateOrderStatus: the most common value is the first entry after the sort, and the contract states only that it has the largest count. Which of several tied values comes first is not pinned down, for the reason above.
- Purchase times are never missing: `purchasedAt` is a plain integer. In pandas a NaT purchase time is skipped by the `max()` calls at lines 82 and 85, and a customer whose purchase times are all NaT gets a NaN recency. The model does not cover that case.
- Group order: `groupby` returns its groups in ascending key order, and `GroupKeys`, `Tally`, `CustomerTable` and `RfmTable` list them in first-occurrence order instead. No returned result depends on this. Every table is sorted afterwards by an unstable sort whose tie order is not promised, and `ArgMaxLeastKey` picks the least key whatever the order.
- Sub-second timestamps and time zones: times are whole seconds and days are UTC calendar days.
- Payments are integers (cents) rather than floating point, so sums are exact.
