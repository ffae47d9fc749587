/**
 * The `DataAnalyzer` summaries of a (filtered) transaction table. Each
 * summary only reads the table it is given, so each is a function of it.
 */
module Aggregator {
  import opened Wrappers
  import opened Sequences
  import opened Sorting
  import opened Strings
  import opened Counting
  import opened Records
  import Datetime

  // ---------------------------------------------------------------------------
  // Columns

  function Category(r: Row): Option<string> { r.category }

  /** The category of a row that `groupby(category)["product_id"].count()` counts: one with a product id. */
  function CountedCategory(r: Row): Option<string> {
    if r.productId.Some? then r.category else None
  }

  function Score(r: Row): Option<int> { r.reviewScore }

  function Status(r: Row): Option<string> { r.status }

  function StateOf(r: Row): Option<string> { r.state }

  /** The calendar day of a row's approval instant; `None` for NaT, which `resample` leaves out. */
  function ApprovalDay(r: Row): Option<int> {
    if r.approvedAt.Stamp? then Some(Datetime.DayOf(r.approvedAt.seconds)) else None
  }

  /** A payment in cents, NaN counting as nothing (`sum` skips it). */
  function Cents(r: Row): int {
    if r.payment.Some? then r.payment.value else 0
  }

  // ---------------------------------------------------------------------------
  // Daily orders and daily spend (`resample(rule='D', on='order_approved_at')`)

  datatype DailyOrder = DailyOrder(day: int, orderCount: nat, revenue: int)

  datatype DailySpend = DailySpend(day: int, totalSpend: int)

  /** The distinct non-missing order ids approved on day `d` (`nunique`). */
  function OrderIdsOn(rows: seq<Row>, d: int): set<string> {
    set i | 0 <= i < |rows| && ApprovalDay(rows[i]) == Some(d) && rows[i].orderId.Some? :: rows[i].orderId.value
  }

  /** The sum of the payments of the rows approved on day `d`. */
  function RevenueOn(rows: seq<Row>, d: int): int
    decreases |rows|
  {
    if rows == [] then 0
    else (if ApprovalDay(rows[0]) == Some(d) then Cents(rows[0]) else 0) + RevenueOn(rows[1..], d)
  }

  lemma DayOfMonotone(a: int, b: int)
    requires a <= b
    ensures Datetime.DayOf(a) <= Datetime.DayOf(b)
  {
  }

  /** The first and last day that `resample` bins: the days of the earliest and latest approval instants. */
  function DayRange(rows: seq<Row>): (r: Option<(int, int)>)
    ensures r.None? <==> forall i :: 0 <= i < |rows| ==> ApprovalDay(rows[i]).None?
    ensures r.Some? ==> r.value.0 <= r.value.1
    ensures r.Some? ==> forall i :: 0 <= i < |rows| && ApprovalDay(rows[i]).Some? ==>
                          r.value.0 <= ApprovalDay(rows[i]).value <= r.value.1
    ensures r.Some? ==> exists i :: 0 <= i < |rows| && ApprovalDay(rows[i]) == Some(r.value.0)
    ensures r.Some? ==> exists i :: 0 <= i < |rows| && ApprovalDay(rows[i]) == Some(r.value.1)
  {
    match ApprovalRange(rows)
    case None => None
    case Some((lo, hi)) =>
      DayOfMonotone(lo, hi);
      assert forall i :: 0 <= i < |rows| && HasApproval(rows[i]) ==>
        Datetime.DayOf(lo) <= Datetime.DayOf(rows[i].approvedAt.seconds) <= Datetime.DayOf(hi);
      Some((Datetime.DayOf(lo), Datetime.DayOf(hi)))
  }

  /**
   * `create_daily_orders_df`: one row per calendar day from the first to the
   * last approval day, each with that day's distinct order count and revenue;
   * days without approvals are present with zeros.
   */
  function CreateDailyOrders(rows: seq<Row>): (r: seq<DailyOrder>)
    ensures r == [] <==> forall i :: 0 <= i < |rows| ==> ApprovalDay(rows[i]).None?
    ensures forall i :: 0 <= i < |r| ==> r[i].day == r[0].day + i
    ensures forall i :: 0 <= i < |rows| && ApprovalDay(rows[i]).Some? ==>
              r != [] && r[0].day <= ApprovalDay(rows[i]).value <= r[|r| - 1].day
    ensures r != [] ==> exists i :: 0 <= i < |rows| && ApprovalDay(rows[i]) == Some(r[0].day)
    ensures r != [] ==> exists i :: 0 <= i < |rows| && ApprovalDay(rows[i]) == Some(r[|r| - 1].day)
    ensures forall i :: 0 <= i < |r| ==>
              r[i].orderCount == |OrderIdsOn(rows, r[i].day)| && r[i].revenue == RevenueOn(rows, r[i].day)
  {
    DailyOrdersFacts(rows, DailyBins(rows));
    DailyBins(rows)
  }

  /** One bin per day from the first to the last approval day. */
  function DailyBins(rows: seq<Row>): seq<DailyOrder> {
    match DayRange(rows)
    case None => []
    case Some((first, last)) =>
      seq(last - first + 1, i requires 0 <= i <= last - first =>
        DailyOrder(first + i, |OrderIdsOn(rows, first + i)|, RevenueOn(rows, first + i)))
  }

  // The contract of `CreateDailyOrders`, proved apart from it to keep each proof within the solver's budget.
  lemma DailyOrdersFacts(rows: seq<Row>, r: seq<DailyOrder>)
    requires r == DailyBins(rows)
    ensures r == [] <==> forall i :: 0 <= i < |rows| ==> ApprovalDay(rows[i]).None?
    ensures forall i :: 0 <= i < |r| ==> r[i].day == r[0].day + i
    ensures forall i :: 0 <= i < |rows| && ApprovalDay(rows[i]).Some? ==>
              r != [] && r[0].day <= ApprovalDay(rows[i]).value <= r[|r| - 1].day
    ensures r != [] ==> exists i :: 0 <= i < |rows| && ApprovalDay(rows[i]) == Some(r[0].day)
    ensures r != [] ==> exists i :: 0 <= i < |rows| && ApprovalDay(rows[i]) == Some(r[|r| - 1].day)
    ensures forall i :: 0 <= i < |r| ==>
              r[i].orderCount == |OrderIdsOn(rows, r[i].day)| && r[i].revenue == RevenueOn(rows, r[i].day)
  {
  }

  /** `create_sum_spend_df`: the same daily bins with only the payment sum. */
  function CreateSumSpend(rows: seq<Row>): (r: seq<DailySpend>)
    ensures |r| == |CreateDailyOrders(rows)|
    ensures forall i :: 0 <= i < |r| ==>
              r[i].day == CreateDailyOrders(rows)[i].day && r[i].totalSpend == CreateDailyOrders(rows)[i].revenue
  {
    match DayRange(rows)
    case None => []
    case Some((first, last)) =>
      seq(last - first + 1, i requires 0 <= i <= last - first => DailySpend(first + i, RevenueOn(rows, first + i)))
  }

  /** A day on which nothing was approved has no orders and no revenue. */
  lemma {:induction false} QuietDay(rows: seq<Row>, d: int)
    requires forall i :: 0 <= i < |rows| ==> ApprovalDay(rows[i]) != Some(d)
    ensures OrderIdsOn(rows, d) == {} && RevenueOn(rows, d) == 0
    decreases |rows|
  {
    if rows != [] {
      assert forall i :: 0 <= i < |rows[1..]| ==> rows[1..][i] == rows[i + 1];
      QuietDay(rows[1..], d);
    }
  }

  function OrderCountTotal(r: seq<DailyOrder>): nat
    decreases |r|
  {
    if r == [] then 0 else r[0].orderCount + OrderCountTotal(r[1..])
  }

  function RevenueTotal(r: seq<DailyOrder>): int
    decreases |r|
  {
    if r == [] then 0 else r[0].revenue + RevenueTotal(r[1..])
  }

  /** Distinct non-missing order ids among the rows with an approval instant. */
  function ApprovedOrderIds(rows: seq<Row>): set<string> {
    set i | 0 <= i < |rows| && ApprovalDay(rows[i]).Some? && rows[i].orderId.Some? :: rows[i].orderId.value
  }

  /** Distinct order ids approved on a day in `[a, b)`. */
  function OrderIdsBetween(rows: seq<Row>, a: int, b: int): set<string> {
    set i | 0 <= i < |rows| && ApprovalDay(rows[i]).Some? && a <= ApprovalDay(rows[i]).value < b
            && rows[i].orderId.Some? :: rows[i].orderId.value
  }

  /** Every order id that is approved at all is approved on one calendar day only. */
  predicate OneDayPerOrder(rows: seq<Row>) {
    forall i, j ::
      (0 <= i < |rows| && 0 <= j < |rows| && rows[i].orderId.Some? && rows[i].orderId == rows[j].orderId
       && ApprovalDay(rows[i]).Some? && ApprovalDay(rows[j]).Some?)
      ==> ApprovalDay(rows[i]) == ApprovalDay(rows[j])
  }

  lemma OrderIdsSplit(rows: seq<Row>, a: int, b: int)
    requires OneDayPerOrder(rows) && a < b
    ensures |OrderIdsBetween(rows, a, b)| == |OrderIdsOn(rows, a)| + |OrderIdsBetween(rows, a + 1, b)|
  {
    var on, rest := OrderIdsOn(rows, a), OrderIdsBetween(rows, a + 1, b);
    assert OrderIdsBetween(rows, a, b) == on + rest;
    forall x | x in on ensures x !in rest {
      var i :| 0 <= i < |rows| && ApprovalDay(rows[i]) == Some(a) && rows[i].orderId == Some(x);
      assert forall j :: 0 <= j < |rows| && rows[j].orderId == Some(x) && ApprovalDay(rows[j]).Some? ==>
        ApprovalDay(rows[j]) == Some(a);
    }
    assert on * rest == {};
  }

  lemma {:induction false} OrderCountsFrom(rows: seq<Row>, r: seq<DailyOrder>, first: int, k: nat)
    requires OneDayPerOrder(rows) && k <= |r|
    requires forall i :: 0 <= i < |r| ==> r[i].day == first + i && r[i].orderCount == |OrderIdsOn(rows, first + i)|
    ensures OrderCountTotal(r[k..]) == |OrderIdsBetween(rows, first + k, first + |r|)|
    decreases |r| - k
  {
    if k == |r| {
      assert OrderIdsBetween(rows, first + k, first + |r|) == {};
    } else {
      OrderCountsFrom(rows, r, first, k + 1);
      assert r[k..][1..] == r[k + 1..];
      OrderIdsSplit(rows, first + k, first + |r|);
    }
  }

  /**
   * When no order id is approved on two different days, the daily order counts
   * add up to the number of distinct approved order ids.
   */
  lemma DailyOrderCountsSum(rows: seq<Row>)
    requires OneDayPerOrder(rows)
    ensures OrderCountTotal(CreateDailyOrders(rows)) == |ApprovedOrderIds(rows)|
  {
    var r := CreateDailyOrders(rows);
    if r == [] {
      assert ApprovedOrderIds(rows) == {};
    } else {
      CountsCoverApproved(rows, r, r[0].day);
    }
  }

  lemma CountsCoverApproved(rows: seq<Row>, r: seq<DailyOrder>, first: int)
    requires OneDayPerOrder(rows) && r != []
    requires forall i :: 0 <= i < |r| ==> r[i].day == first + i && r[i].orderCount == |OrderIdsOn(rows, first + i)|
    requires forall i :: 0 <= i < |rows| && ApprovalDay(rows[i]).Some? ==>
               first <= ApprovalDay(rows[i]).value < first + |r|
    ensures OrderCountTotal(r) == |ApprovedOrderIds(rows)|
  {
    OrderCountsFrom(rows, r, first, 0);
    assert r[0..] == r;
    var ids := OrderIdsBetween(rows, first, first + |r|);
    forall x | x in ApprovedOrderIds(rows) ensures x in ids {
      var i :| 0 <= i < |rows| && ApprovalDay(rows[i]).Some? && rows[i].orderId == Some(x);
    }
    assert ids == ApprovedOrderIds(rows);
  }

  /** The sum of the payments of the rows approved on a day in `[a, b)`. */
  function RevenueBetween(rows: seq<Row>, a: int, b: int): int
    decreases |rows|
  {
    if rows == [] then 0
    else (if ApprovalDay(rows[0]).Some? && a <= ApprovalDay(rows[0]).value < b then Cents(rows[0]) else 0)
         + RevenueBetween(rows[1..], a, b)
  }

  /** The payments of every row with an approval instant. */
  function ApprovedRevenue(rows: seq<Row>): int
    decreases |rows|
  {
    if rows == [] then 0
    else (if ApprovalDay(rows[0]).Some? then Cents(rows[0]) else 0) + ApprovedRevenue(rows[1..])
  }

  lemma {:induction false} RevenueSplit(rows: seq<Row>, a: int, b: int)
    requires a < b
    ensures RevenueBetween(rows, a, b) == RevenueOn(rows, a) + RevenueBetween(rows, a + 1, b)
    decreases |rows|
  {
    if rows != [] {
      RevenueSplit(rows[1..], a, b);
    }
  }

  lemma {:induction false} RevenueBetweenAll(rows: seq<Row>, a: int, b: int)
    requires forall i :: 0 <= i < |rows| && ApprovalDay(rows[i]).Some? ==> a <= ApprovalDay(rows[i]).value < b
    ensures RevenueBetween(rows, a, b) == ApprovedRevenue(rows)
    decreases |rows|
  {
    if rows != [] {
      assert forall i :: 0 <= i < |rows[1..]| ==> rows[1..][i] == rows[i + 1];
      RevenueBetweenAll(rows[1..], a, b);
    }
  }

  lemma {:induction false} RevenueFrom(rows: seq<Row>, r: seq<DailyOrder>, first: int, k: nat)
    requires k <= |r|
    requires forall i :: 0 <= i < |r| ==> r[i].day == first + i && r[i].revenue == RevenueOn(rows, first + i)
    ensures RevenueTotal(r[k..]) == RevenueBetween(rows, first + k, first + |r|)
    decreases |r| - k
  {
    if k == |r| {
      EmptyRevenueBetween(rows, first + k);
    } else {
      RevenueFrom(rows, r, first, k + 1);
      assert r[k..][1..] == r[k + 1..];
      RevenueSplit(rows, first + k, first + |r|);
    }
  }

  lemma {:induction false} EmptyRevenueBetween(rows: seq<Row>, a: int)
    ensures RevenueBetween(rows, a, a) == 0
    decreases |rows|
  {
    if rows != [] {
      EmptyRevenueBetween(rows[1..], a);
    }
  }

  /** The daily revenues add up to the payments of every approved row (the dashboard's total revenue). */
  lemma DailyRevenueSum(rows: seq<Row>)
    ensures RevenueTotal(CreateDailyOrders(rows)) == ApprovedRevenue(rows)
  {
    var r := CreateDailyOrders(rows);
    if r == [] {
      NoApprovedRevenue(rows);
    } else {
      RevenueCoversApproved(rows, r, r[0].day);
    }
  }

  lemma RevenueCoversApproved(rows: seq<Row>, r: seq<DailyOrder>, first: int)
    requires r != []
    requires forall i :: 0 <= i < |r| ==> r[i].day == first + i && r[i].revenue == RevenueOn(rows, first + i)
    requires forall i :: 0 <= i < |rows| && ApprovalDay(rows[i]).Some? ==>
               first <= ApprovalDay(rows[i]).value < first + |r|
    ensures RevenueTotal(r) == ApprovedRevenue(rows)
  {
    RevenueFrom(rows, r, first, 0);
    assert r[0..] == r;
    RevenueBetweenAll(rows, first, first + |r|);
  }

  lemma {:induction false} NoApprovedRevenue(rows: seq<Row>)
    requires forall i :: 0 <= i < |rows| ==> ApprovalDay(rows[i]).None?
    ensures ApprovedRevenue(rows) == 0
    decreases |rows|
  {
    if rows != [] {
      assert forall i :: 0 <= i < |rows[1..]| ==> rows[1..][i] == rows[i + 1];
      NoApprovedRevenue(rows[1..]);
    }
  }

  // ---------------------------------------------------------------------------
  // Grouped counts

  /** The group keys of `groupby` (default `sort=True`): each distinct value once, in string order. */
  function GroupKeys(ks: seq<string>): (g: seq<string>)
    ensures IsDistinct(g)
    ensures forall k :: k in g <==> k in ks
    ensures IsSortedBy(g, StrLe)
  {
    var d := Distinct(ks);
    var g := SortBy(d, StrLe);
    assert IsTotal(StrLe) by {
      forall a, b ensures StrLe(a, b) || StrLe(b, a) { StrLeTotal(a, b); }
    }
    assert IsTransitive(StrLe) by {
      forall a, b, c | StrLe(a, b) && StrLe(b, c) ensures StrLe(a, c) { StrLeTransitive(a, b, c); }
    }
    SortBySorted(d, StrLe);
    assert forall k :: k in g <==> k in multiset(g);
    assert IsDistinct(g) by {
      assert DistinctBy(d, Id);
      PermutationDistinctBy(d, g, Id);
    }
    g
  }

  /**
   * `create_sum_order_items_df`: for each non-missing category, the number of
   * its rows with a non-missing product id, by descending count.
   */
  function CreateSumOrderItems(rows: seq<Row>): (r: seq<Entry<string>>)
    ensures DistinctBy(r, EntryKey)
    ensures forall k :: k in Present(rows, Category) <==> HasKey(r, k)
    ensures forall i :: 0 <= i < |r| ==> r[i].count == multiset(Present(rows, CountedCategory))[r[i].key]
    ensures NonIncreasing(r)
    ensures Total(r) == |Present(rows, CountedCategory)|
  {
    var groups := GroupKeys(Present(rows, Category));
    var t := Tally(groups, Present(rows, CountedCategory));
    var r := SortByCount(t);
    ItemCounts(rows, groups, t, r);
    r
  }

  // The contract of `CreateSumOrderItems` except `NonIncreasing`, proved apart from it to keep each proof within the solver's budget.
  lemma ItemCounts(rows: seq<Row>, groups: seq<string>, t: seq<Entry<string>>, r: seq<Entry<string>>)
    requires groups == GroupKeys(Present(rows, Category)) && t == Tally(groups, Present(rows, CountedCategory))
    requires r == SortByCount(t)
    ensures DistinctBy(r, EntryKey)
    ensures forall k :: k in Present(rows, Category) <==> HasKey(r, k)
    ensures forall i :: 0 <= i < |r| ==> r[i].count == multiset(Present(rows, CountedCategory))[r[i].key]
    ensures Total(r) == |Present(rows, CountedCategory)|
  {
    var items := Present(rows, CountedCategory);
    forall k | k in items ensures k in groups {
      var i :| 0 <= i < |rows| && CountedCategory(rows[i]) == Some(k);
      assert Category(rows[i]) == Some(k);
    }
    TallyFacts(groups, items, t);
    SameEntries(t, r, multiset(items));
  }

  /**
   * `review_score_df`: the distribution of the non-missing review scores by
   * descending count, and the most common score (`None` where `idxmax` raises
   * because there is no score).
   */
  function ReviewScores(rows: seq<Row>): (r: (seq<Entry<int>>, Option<int>))
    ensures DistinctBy(r.0, EntryKey)
    ensures forall k :: k in Present(rows, Score) <==> HasKey(r.0, k)
    ensures forall i :: 0 <= i < |r.0| ==> r.0[i].count == multiset(Present(rows, Score))[r.0[i].key]
    ensures NonIncreasing(r.0)
    ensures Total(r.0) == |Present(rows, Score)|
    ensures r.1.None? <==> Present(rows, Score) == []
    ensures r.1.Some? ==> r.0 != [] && r.1.value == r.0[0].key
    ensures r.1.Some? ==> forall k :: multiset(Present(rows, Score))[k] <= multiset(Present(rows, Score))[r.1.value]
  {
    var scores := Present(rows, Score);
    var counts := ValueCounts(scores);
    if scores == [] then (counts, IdxMax(counts))
    else
      ModeOfValueCounts(scores);
      (counts, IdxMax(counts))
  }

  /**
   * `create_order_status`: the distribution of the non-missing order statuses
   * by descending count, and the most common status.
   */
  function CreateOrderStatus(rows: seq<Row>): (r: (seq<Entry<string>>, Option<string>))
    ensures DistinctBy(r.0, EntryKey)
    ensures forall k :: k in Present(rows, Status) <==> HasKey(r.0, k)
    ensures forall i :: 0 <= i < |r.0| ==> r.0[i].count == multiset(Present(rows, Status))[r.0[i].key]
    ensures NonIncreasing(r.0)
    ensures Total(r.0) == |Present(rows, Status)|
    ensures r.1.None? <==> Present(rows, Status) == []
    ensures r.1.Some? ==> r.0 != [] && r.1.value == r.0[0].key
    ensures r.1.Some? ==> forall k :: multiset(Present(rows, Status))[k] <= multiset(Present(rows, Status))[r.1.value]
  {
    var statuses := Present(rows, Status);
    var counts := ValueCounts(statuses);
    if statuses == [] then (counts, IdxMax(counts))
    else
      ModeOfValueCounts(statuses);
      (counts, IdxMax(counts))
  }

  /** The distinct non-missing customer ids of the rows in state `s` (`nunique`). */
  function CustomersIn(rows: seq<Row>, s: string): set<string> {
    set i | 0 <= i < |rows| && rows[i].state == Some(s) && rows[i].customerId.Some? :: rows[i].customerId.value
  }

  /** A state never has more distinct customers than rows. */
  lemma {:induction false} CustomersAtMostRows(rows: seq<Row>, s: string)
    ensures |CustomersIn(rows, s)| <= multiset(Present(rows, StateOf))[s]
    decreases |rows|
  {
    if rows != [] {
      var rest := rows[1..];
      CustomersAtMostRows(rest, s);
      assert forall i :: 0 < i < |rows| ==> rows[i] == rest[i - 1];
      var here := if rows[0].state == Some(s) then 1 else 0;
      assert multiset(Present(rows, StateOf))[s] == here + multiset(Present(rest, StateOf))[s] by {
        if rows[0].state.Some? {
          assert Present(rows, StateOf) == [rows[0].state.value] + Present(rest, StateOf);
        }
      }
      if rows[0].state == Some(s) && rows[0].customerId.Some? {
        var more := {rows[0].customerId.value} + CustomersIn(rest, s);
        SubsetSize(CustomersIn(rows, s), more);
        assert |more| <= 1 + |CustomersIn(rest, s)|;
      } else {
        SubsetSize(CustomersIn(rows, s), CustomersIn(rest, s));
      }
    }
  }

  /** One entry per state in group-key order: the state and its distinct customer count. */
  function StateTable(rows: seq<Row>, groups: seq<string>): seq<Entry<string>> {
    seq(|groups|, i requires 0 <= i < |groups| => Entry(groups[i], |CustomersIn(rows, groups[i])|))
  }

  /**
   * `create_bystate_df`: distinct customers per non-missing state by descending
   * count, and the state with the most customers, taken before the sort from
   * the key-ordered groups, so that a tie goes to the smallest state.
   */
  function CreateByState(rows: seq<Row>): (r: (seq<Entry<string>>, Option<string>))
    ensures DistinctBy(r.0, EntryKey)
    ensures forall k :: k in Present(rows, StateOf) <==> HasKey(r.0, k)
    ensures forall i :: 0 <= i < |r.0| ==> r.0[i].count == |CustomersIn(rows, r.0[i].key)|
    ensures forall i :: 0 <= i < |r.0| ==> r.0[i].count <= multiset(Present(rows, StateOf))[r.0[i].key]
    ensures NonIncreasing(r.0)
    ensures r.1.None? <==> Present(rows, StateOf) == []
    ensures r.1.Some? ==> r.1.value in Present(rows, StateOf)
    ensures r.1.Some? ==> forall i :: 0 <= i < |r.0| ==> r.0[i].count <= |CustomersIn(rows, r.1.value)|
    ensures r.1.Some? ==> forall i :: 0 <= i < |r.0| && r.0[i].count == |CustomersIn(rows, r.1.value)| ==>
                            StrLe(r.1.value, r.0[i].key)
  {
    ByStateFacts(rows, ByStateOf(rows));
    ByStateOf(rows)
  }

  /** The table sorted by count, and the first maximum of the key-ordered table. */
  function ByStateOf(rows: seq<Row>): (seq<Entry<string>>, Option<string>) {
    var t := StateTable(rows, GroupKeys(Present(rows, StateOf)));
    (SortByCount(t), IdxMax(t))
  }

  // The contract of `CreateByState`, proved apart from it to keep each proof within the solver's budget.
  lemma ByStateFacts(rows: seq<Row>, r: (seq<Entry<string>>, Option<string>))
    requires r == ByStateOf(rows)
    ensures DistinctBy(r.0, EntryKey)
    ensures forall k :: k in Present(rows, StateOf) <==> HasKey(r.0, k)
    ensures forall i :: 0 <= i < |r.0| ==> r.0[i].count == |CustomersIn(rows, r.0[i].key)|
    ensures forall i :: 0 <= i < |r.0| ==> r.0[i].count <= multiset(Present(rows, StateOf))[r.0[i].key]
    ensures NonIncreasing(r.0)
    ensures r.1.None? <==> Present(rows, StateOf) == []
    ensures r.1.Some? ==> r.1.value in Present(rows, StateOf)
    ensures r.1.Some? ==> forall i :: 0 <= i < |r.0| ==> r.0[i].count <= |CustomersIn(rows, r.1.value)|
    ensures r.1.Some? ==> forall i :: 0 <= i < |r.0| && r.0[i].count == |CustomersIn(rows, r.1.value)| ==>
                            StrLe(r.1.value, r.0[i].key)
  {
    var states := Present(rows, StateOf);
    var groups := GroupKeys(states);
    var t := StateTable(rows, groups);
    ByStateTable(rows, states, groups, t, r.0);
    ByStateMode(rows, states, groups, t, r.0, r.1);
  }

  lemma ByStateTable(rows: seq<Row>, states: seq<string>, groups: seq<string>, t: seq<Entry<string>>,
                     r: seq<Entry<string>>)
    requires states == Present(rows, StateOf) && groups == GroupKeys(states)
    requires t == StateTable(rows, groups) && r == SortByCount(t)
    ensures DistinctBy(r, EntryKey)
    ensures forall k :: k in states <==> HasKey(r, k)
    ensures forall i :: 0 <= i < |r| ==> r[i].count == |CustomersIn(rows, r[i].key)|
    ensures forall i :: 0 <= i < |r| ==> r[i].count <= multiset(states)[r[i].key]
    ensures NonIncreasing(r)
  {
    assert DistinctBy(t, EntryKey);
    StateCounts(rows, states, groups, t, r);
  }

  lemma ByStateMode(rows: seq<Row>, states: seq<string>, groups: seq<string>, t: seq<Entry<string>>,
                    r: seq<Entry<string>>, m: Option<string>)
    requires states == Present(rows, StateOf) && IsSortedBy(groups, StrLe)
    requires forall k :: k in groups <==> k in states
    requires t == StateTable(rows, groups) && m == IdxMax(t)
    requires forall e :: e in r <==> e in t
    ensures m.None? <==> states == []
    ensures m.Some? ==> m.value in states
    ensures m.Some? ==> forall i :: 0 <= i < |r| ==> r[i].count <= |CustomersIn(rows, m.value)|
    ensures m.Some? ==> forall i :: 0 <= i < |r| && r[i].count == |CustomersIn(rows, m.value)| ==>
                          StrLe(m.value, r[i].key)
  {
    if states != [] {
      assert states[0] in groups;
    }
    if t != [] {
      SmallestTiedState(rows, groups, t, r);
    }
  }

  lemma StateCounts(rows: seq<Row>, states: seq<string>, groups: seq<string>, t: seq<Entry<string>>,
                    r: seq<Entry<string>>)
    requires states == Present(rows, StateOf) && forall k :: k in groups <==> k in states
    requires t == StateTable(rows, groups) && forall e :: e in r <==> e in t
    ensures forall k :: k in states <==> HasKey(r, k)
    ensures forall i :: 0 <= i < |r| ==> r[i].count == |CustomersIn(rows, r[i].key)|
    ensures forall i :: 0 <= i < |r| ==> r[i].count <= multiset(states)[r[i].key]
  {
    SameKeysAsGroups(states, groups, t, r);
    forall i | 0 <= i < |r|
      ensures r[i].count == |CustomersIn(rows, r[i].key)| && r[i].count <= multiset(states)[r[i].key]
    {
      assert r[i] in t;
      CustomersAtMostRows(rows, r[i].key);
    }
  }

  lemma SameKeysAsGroups(states: seq<string>, groups: seq<string>, t: seq<Entry<string>>, r: seq<Entry<string>>)
    requires forall k :: k in groups <==> k in states
    requires |t| == |groups| && forall i :: 0 <= i < |t| ==> t[i].key == groups[i]
    requires forall e :: e in r <==> e in t
    ensures forall k :: k in states <==> HasKey(r, k)
  {
    forall k | k in states ensures HasKey(r, k) {
      var i :| 0 <= i < |groups| && groups[i] == k;
      assert t[i] in r;
    }
    forall k | HasKey(r, k) ensures k in states {
      var i :| 0 <= i < |r| && r[i].key == k;
      assert r[i] in t;
    }
  }

  lemma SmallestTiedState(rows: seq<Row>, groups: seq<string>, t: seq<Entry<string>>, r: seq<Entry<string>>)
    requires IsSortedBy(groups, StrLe) && t == StateTable(rows, groups) && t != []
    requires forall e :: e in r <==> e in t
    ensures groups[ArgMax(t)] in groups
    ensures forall i :: 0 <= i < |r| ==> r[i].count <= |CustomersIn(rows, groups[ArgMax(t)])|
    ensures forall i :: 0 <= i < |r| && r[i].count == |CustomersIn(rows, groups[ArgMax(t)])| ==>
              StrLe(groups[ArgMax(t)], r[i].key)
  {
    var m := ArgMax(t);
    forall i | 0 <= i < |r|
      ensures r[i].count <= |CustomersIn(rows, groups[m])|
      ensures r[i].count == |CustomersIn(rows, groups[m])| ==> StrLe(groups[m], r[i].key)
    {
      assert r[i] in t;
      var j :| 0 <= j < |t| && t[j] == r[i];
      if r[i].count == t[m].count {
        if j == m {
          StrLeTotal(groups[m], groups[m]);
        }
      }
    }
  }
}
