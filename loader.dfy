/**
 * The load phase of the dashboard script and its date filter: the table is
 * sorted by its approval column as read, the geolocation table keeps the first
 * row of each unique customer, the six timestamp columns are coerced one by
 * one, the approval range bounds the date picker, and the chosen dates select
 * the rows the summaries are computed over.
 */
module Loader {
  import opened Wrappers
  import opened Sequences
  import opened Sorting
  import opened Records
  import opened Datetime
  import opened Aggregator

  // ---------------------------------------------------------------------------
  // Sorting by the approval column

  lemma ApprovalLeIsOrder()
    ensures IsTotal(ApprovalLe) && IsTransitive(ApprovalLe)
  {
    forall a, b ensures ApprovalLe(a, b) || ApprovalLe(b, a) {
      ApprovalLeTotal(a, b);
    }
    forall a, b, c | ApprovalLe(a, b) && ApprovalLe(b, c) ensures ApprovalLe(a, c) {
      ApprovalLeTransitive(a, b, c);
    }
  }

  /** `sort_values(by="order_approved_at")` on the table as read: a reordering by the approval cell, NaN last. */
  function SortByApproval(rows: seq<Row>): (r: seq<Row>)
    ensures |r| == |rows|
    ensures multiset(r) == multiset(rows)
    ensures IsSortedBy(r, ApprovalLe)
  {
    ApprovalLeIsOrder();
    SortBySorted(rows, ApprovalLe);
    assert |multiset(rows)| == |rows|;
    SortBy(rows, ApprovalLe)
  }

  /** In a table read from the file, the rows whose approval cell is NaN come after all others once sorted. */
  lemma MissingApprovalsLast(rows: seq<Row>, i: int, j: int)
    requires forall k :: 0 <= k < |rows| ==> IsRaw(rows[k].approvedAt)
    requires 0 <= i < j < |rows|
    requires SortByApproval(rows)[i].approvedAt.Missing?
    ensures SortByApproval(rows)[j].approvedAt.Missing?
  {
    var sorted := SortByApproval(rows);
    assert sorted[j] in multiset(rows);
    assert ApprovalLe(sorted[i], sorted[j]);
  }

  /**
   * Sorting the text of the approval column orders the instants it parses to:
   * once coerced, the approval instants of the sorted table never decrease.
   */
  lemma CoercedApprovalsAscending(sorted: seq<Row>, i: int, j: int)
    requires IsSortedBy(sorted, ApprovalLe)
    requires forall k :: 0 <= k < |sorted| ==> IsRaw(sorted[k].approvedAt)
    requires 0 <= i < j < |sorted|
    requires HasApproval(CoerceRow(sorted[i])) && HasApproval(CoerceRow(sorted[j]))
    ensures CoerceRow(sorted[i]).approvedAt.seconds <= CoerceRow(sorted[j]).approvedAt.seconds
  {
    var a, b := sorted[i].approvedAt, sorted[j].approvedAt;
    assert a.Text? && b.Text?;
    assert CellLe(a, b);
    ParseMonotone(a.text, b.text);
  }

  /** The unique customer id, the key of `drop_duplicates(subset='customer_unique_id')`. */
  function UniqueCustomer(r: Row): Option<string> { r.customerUniqueId }

  lemma KeysOfPermutation<T, K>(a: seq<T>, b: seq<T>, key: T -> K)
    requires multiset(a) == multiset(b)
    ensures KeysOf(a, key) == KeysOf(b, key)
  {
    forall i | 0 <= i < |a| ensures key(a[i]) in KeysOf(b, key) {
      assert a[i] in multiset(b);
      var j :| 0 <= j < |b| && b[j] == a[i];
    }
    forall j | 0 <= j < |b| ensures key(b[j]) in KeysOf(a, key) {
      assert b[j] in multiset(a);
      var i :| 0 <= i < |a| && a[i] == b[j];
    }
  }

  // ---------------------------------------------------------------------------
  // The load phase

  /** The loop over the timestamp columns: each pass coerces one whole column of every row. */
  method CoerceDatetimeColumns(sorted: seq<Row>) returns (table: seq<Row>)
    ensures |table| == |sorted|
    ensures forall i :: 0 <= i < |table| ==> table[i] == CoerceRow(sorted[i])
  {
    table := sorted;
    for k := 0 to |DatetimeColumns|
      invariant |table| == |sorted|
      invariant forall i :: 0 <= i < |table| ==> CoercedOn(sorted[i], table[i], DatetimeColumns[..k])
    {
      var c := DatetimeColumns[k];
      assert DatetimeColumns[..k + 1] == DatetimeColumns[..k] + [c];
      table := seq(|table|, i requires 0 <= i < |table| => table[i].With(c, ToDatetime(table[i].Get(c))));
    }
    assert DatetimeColumns[..|DatetimeColumns|] == DatetimeColumns;
    forall i | 0 <= i < |table| ensures table[i] == CoerceRow(sorted[i]) {
      CoercedOnAll(sorted[i], table[i]);
    }
  }

  /** The geolocation table: the first row, in sort order, of each unique customer id, NaN being one id. */
  lemma GeolocationFacts(loaded: seq<Row>, sorted: seq<Row>, geolocation: seq<Row>)
    requires sorted == SortByApproval(loaded) && geolocation == KeepFirst(sorted, UniqueCustomer)
    ensures forall x :: x in geolocation ==> x in loaded
    ensures KeysOf(geolocation, UniqueCustomer) == KeysOf(loaded, UniqueCustomer)
  {
    SubsequenceMembers(geolocation, sorted);
    assert forall x :: x in sorted ==> x in multiset(loaded);
    KeysOfPermutation(sorted, loaded, UniqueCustomer);
  }

  /** For a table as read, the sorted and coerced approval instants never decrease. */
  lemma LoadedApprovalsAscending(loaded: seq<Row>, sorted: seq<Row>, table: seq<Row>)
    requires sorted == SortByApproval(loaded)
    requires |table| == |sorted| && forall i :: 0 <= i < |table| ==> table[i] == CoerceRow(sorted[i])
    requires forall k :: 0 <= k < |loaded| ==> IsRaw(loaded[k].approvedAt)
    ensures forall i, j :: 0 <= i < j < |table| && HasApproval(table[i]) && HasApproval(table[j]) ==>
              table[i].approvedAt.seconds <= table[j].approvedAt.seconds
  {
    forall k | 0 <= k < |sorted| ensures IsRaw(sorted[k].approvedAt) {
      assert sorted[k] in multiset(loaded);
    }
    forall i, j | 0 <= i < j < |table| && HasApproval(table[i]) && HasApproval(table[j])
      ensures table[i].approvedAt.seconds <= table[j].approvedAt.seconds
    {
      CoercedApprovalsAscending(sorted, i, j);
    }
  }

  /**
   * Sorts the table as read, takes the geolocation table from it before any
   * coercion, coerces the six timestamp columns in turn and computes the
   * approval range. `range` is `None` when no approval cell parses; the
   * script would then hand NaT bounds to the date picker.
   */
  method Load(loaded: seq<Row>) returns (table: seq<Row>, geolocation: seq<Row>, range: Option<(int, int)>)
    ensures |table| == |loaded|
    ensures forall i :: 0 <= i < |table| ==> table[i] == CoerceRow(SortByApproval(loaded)[i])
    ensures (forall k :: 0 <= k < |loaded| ==> IsRaw(loaded[k].approvedAt)) ==>
              forall i, j :: 0 <= i < j < |table| && HasApproval(table[i]) && HasApproval(table[j]) ==>
                table[i].approvedAt.seconds <= table[j].approvedAt.seconds
    ensures IsSubsequence(geolocation, SortByApproval(loaded))
    ensures forall x :: x in geolocation ==> x in loaded
    ensures DistinctBy(geolocation, UniqueCustomer)
    ensures KeysOf(geolocation, UniqueCustomer) == KeysOf(loaded, UniqueCustomer)
    ensures forall i :: 0 <= i < |geolocation| ==>
              && UniqueCustomer(geolocation[i]) in KeysOf(SortByApproval(loaded), UniqueCustomer)
              && geolocation[i] == FirstWith(SortByApproval(loaded), UniqueCustomer, UniqueCustomer(geolocation[i]))
    ensures forall i, j :: 0 <= i < j < |geolocation| ==>
              FirstIndex(SortByApproval(loaded), UniqueCustomer, UniqueCustomer(geolocation[i]))
              < FirstIndex(SortByApproval(loaded), UniqueCustomer, UniqueCustomer(geolocation[j]))
    ensures range == ApprovalRange(table)
    ensures range.None? <==> forall i :: 0 <= i < |table| ==> !HasApproval(table[i])
    ensures range.Some? ==> forall i :: 0 <= i < |table| && HasApproval(table[i]) ==>
                              range.value.0 <= table[i].approvedAt.seconds <= range.value.1
  {
    var sorted := SortByApproval(loaded);
    geolocation := KeepFirst(sorted, UniqueCustomer);
    GeolocationFacts(loaded, sorted, geolocation);
    table := CoerceDatetimeColumns(sorted);
    if forall k :: 0 <= k < |loaded| ==> IsRaw(loaded[k].approvedAt) {
      LoadedApprovalsAscending(loaded, sorted, table);
    }
    range := ApprovalRange(table);
  }

  // ---------------------------------------------------------------------------
  // The date filter

  /** The approval instant lies in `[lo, hi]`; NaT lies in no range. */
  predicate ApprovedWithin(r: Row, lo: int, hi: int) {
    r.approvedAt.Stamp? && lo <= r.approvedAt.seconds <= hi
  }

  /**
   * The selection as the script writes it: both picked dates become their
   * midnights and the approval instant is compared with both.
   */
  function SelectDateRange(table: seq<Row>, startDay: int, endDay: int): (r: seq<Row>)
    ensures IsSubsequence(r, table)
    ensures forall x :: x in r <==> x in table && ApprovedWithin(x, startDay * SecondsPerDay, endDay * SecondsPerDay)
    ensures forall x :: multiset(r)[x] ==
              if ApprovedWithin(x, startDay * SecondsPerDay, endDay * SecondsPerDay) then multiset(table)[x] else 0
  {
    Filter(table, x => ApprovedWithin(x, startDay * SecondsPerDay, endDay * SecondsPerDay))
  }

  /** As written, of the end day only the instant at midnight is kept. */
  lemma SelectDateRangeMembers(table: seq<Row>, startDay: int, endDay: int, x: Row)
    ensures x in SelectDateRange(table, startDay, endDay) <==>
              && x in table && HasApproval(x)
              && startDay <= DayOf(x.approvedAt.seconds)
              && (DayOf(x.approvedAt.seconds) < endDay || x.approvedAt.seconds == endDay * SecondsPerDay)
  {
  }

  /** Applying the same bounds to the selection selects it again. */
  lemma SelectDateRangeIdempotent(table: seq<Row>, startDay: int, endDay: int)
    ensures SelectDateRange(SelectDateRange(table, startDay, endDay), startDay, endDay)
            == SelectDateRange(table, startDay, endDay)
  {
    FilterIdempotent(table, x => ApprovedWithin(x, startDay * SecondsPerDay, endDay * SecondsPerDay));
  }

  /** The approval instant falls on a day from `startDay` to `endDay`. */
  predicate ApprovedOnDays(r: Row, startDay: int, endDay: int) {
    r.approvedAt.Stamp? && startDay * SecondsPerDay <= r.approvedAt.seconds < (endDay + 1) * SecondsPerDay
  }

  /**
   * The selection the date picker evidently means: every row approved on a
   * day from the start day to the end day, both included.
   */
  function SelectDateRangeInclusive(table: seq<Row>, startDay: int, endDay: int): (r: seq<Row>)
    ensures IsSubsequence(r, table)
    ensures forall x :: x in r <==> x in table && ApprovedOnDays(x, startDay, endDay)
    ensures forall x :: multiset(r)[x] == if ApprovedOnDays(x, startDay, endDay) then multiset(table)[x] else 0
  {
    Filter(table, x => ApprovedOnDays(x, startDay, endDay))
  }

  /** With the intended bound, a row is kept exactly when its approval day is in the picked range. */
  lemma SelectDateRangeInclusiveMembers(table: seq<Row>, startDay: int, endDay: int, x: Row)
    ensures x in SelectDateRangeInclusive(table, startDay, endDay) <==>
              x in table && HasApproval(x) && startDay <= DayOf(x.approvedAt.seconds) <= endDay
  {
  }

  /**
   * As written, the default selection (the days of the earliest and latest
   * approval) drops the latest order unless it was approved exactly at midnight.
   */
  lemma DefaultRangeDropsLatest(table: seq<Row>)
    requires ApprovalRange(table).Some?
    requires ApprovalRange(table).value.1 % SecondsPerDay != 0
    ensures exists i :: 0 <= i < |table| && HasApproval(table[i]) &&
                        table[i] !in SelectDateRange(table, DayOf(ApprovalRange(table).value.0),
                                                     DayOf(ApprovalRange(table).value.1))
  {
    var hi := ApprovalRange(table).value.1;
    var i :| 0 <= i < |table| && table[i].approvedAt == Stamp(hi);
    assert hi != DayOf(hi) * SecondsPerDay;
  }

  /**
   * One order of 1.00 approved at 10:00 on 1 January 1970: the default
   * selection as written is empty, so its daily revenues add up to 0 instead
   * of the order's payment.
   */
  lemma DefaultRangeDropsOnlyOrder()
    ensures var row := Row(Some("o"), Some("c"), Some("u"), None, None, Some(100), None, None, None,
                           Stamp(36000), Missing, Missing, Missing, Missing, Missing);
            && ApprovalRange([row]) == Some((36000, 36000))
            && SelectDateRange([row], DayOf(36000), DayOf(36000)) == []
            && RevenueTotal(CreateDailyOrders(SelectDateRange([row], DayOf(36000), DayOf(36000)))) == 0
            && ApprovedRevenue([row]) == 100
  {
    var row := Row(Some("o"), Some("c"), Some("u"), None, None, Some(100), None, None, None,
                   Stamp(36000), Missing, Missing, Missing, Missing, Missing);
    assert DayOf(36000) == 0;
    assert row !in SelectDateRange([row], 0, 0);
    assert ApprovedRevenue([row]) == 100 + ApprovedRevenue([row][1..]);
  }

  /** With the intended bound, the default selection keeps every row that has an approval instant. */
  lemma DefaultRangeKeepsAll(table: seq<Row>)
    requires ApprovalRange(table).Some?
    ensures SelectDateRangeInclusive(table, DayOf(ApprovalRange(table).value.0), DayOf(ApprovalRange(table).value.1))
            == Filter(table, HasApproval)
  {
    var lo, hi := ApprovalRange(table).value.0, ApprovalRange(table).value.1;
    var s, e := DayOf(lo), DayOf(hi);
    forall x | x in table ensures ApprovedOnDays(x, s, e) == HasApproval(x) {
      if HasApproval(x) {
        var i :| 0 <= i < |table| && table[i] == x;
        assert lo <= x.approvedAt.seconds <= hi;
      }
    }
    FilterCongruent(table, x => ApprovedOnDays(x, s, e), HasApproval);
  }

  lemma {:induction false} ApprovedRevenueOfApproved(rows: seq<Row>)
    ensures ApprovedRevenue(Filter(rows, HasApproval)) == ApprovedRevenue(rows)
    decreases |rows|
  {
    if rows != [] {
      ApprovedRevenueOfApproved(rows[1..]);
      if HasApproval(rows[0]) {
        var r := Filter(rows[1..], HasApproval);
        assert ([rows[0]] + r)[0] == rows[0] && ([rows[0]] + r)[1..] == r;
      }
    }
  }

  /** With the intended bound, the default selection's daily revenues add up to all approved payments. */
  lemma DefaultRangeShowsAllRevenue(table: seq<Row>)
    requires ApprovalRange(table).Some?
    ensures RevenueTotal(CreateDailyOrders(SelectDateRangeInclusive(table, DayOf(ApprovalRange(table).value.0),
                                                                    DayOf(ApprovalRange(table).value.1))))
            == ApprovedRevenue(table)
  {
    var sel := SelectDateRangeInclusive(table, DayOf(ApprovalRange(table).value.0), DayOf(ApprovalRange(table).value.1));
    DefaultRangeKeepsAll(table);
    DailyRevenueSum(sel);
    ApprovedRevenueOfApproved(table);
  }

  /**
   * With the corrected filter, a range that holds no approval gives an empty
   * table, and every summary of it is empty with no most common value.
   */
  lemma EmptySelection(table: seq<Row>, startDay: int, endDay: int)
    requires forall i :: 0 <= i < |table| ==> !ApprovedOnDays(table[i], startDay, endDay)
    ensures var sel := SelectDateRangeInclusive(table, startDay, endDay);
            && sel == []
            && CreateDailyOrders(sel) == [] && CreateSumSpend(sel) == [] && CreateSumOrderItems(sel) == []
            && ReviewScores(sel) == ([], None) && CreateByState(sel) == ([], None)
            && CreateOrderStatus(sel) == ([], None)
  {
    var sel := SelectDateRangeInclusive(table, startDay, endDay);
    assert forall x :: x !in sel;
  }

  lemma OnDaysIntersection(x: Row, s1: int, e1: int, s2: int, e2: int)
    ensures (ApprovedOnDays(x, s1, e1) && ApprovedOnDays(x, s2, e2)) ==
            ApprovedOnDays(x, if s1 < s2 then s2 else s1, if e1 < e2 then e1 else e2)
  {
  }

  /** Narrowing a selection is selecting the intersection of the two day ranges. */
  lemma NarrowSelection(table: seq<Row>, s1: int, e1: int, s2: int, e2: int)
    ensures SelectDateRangeInclusive(SelectDateRangeInclusive(table, s1, e1), s2, e2)
            == SelectDateRangeInclusive(table, if s1 < s2 then s2 else s1, if e1 < e2 then e1 else e2)
  {
    var s, e := if s1 < s2 then s2 else s1, if e1 < e2 then e1 else e2;
    var p: Row -> bool := x => ApprovedOnDays(x, s1, e1);
    var q: Row -> bool := x => ApprovedOnDays(x, s2, e2);
    var both: Row -> bool := x => ApprovedOnDays(x, s, e);
    assert SelectDateRangeInclusive(table, s1, e1) == Filter(table, p);
    assert SelectDateRangeInclusive(Filter(table, p), s2, e2) == Filter(Filter(table, p), q);
    assert SelectDateRangeInclusive(table, s, e) == Filter(table, both);
    forall x | x in table ensures both(x) == (p(x) && q(x)) {
      OnDaysIntersection(x, s1, e1, s2, e2);
    }
    FilterFilter(table, p, q, both);
  }
}
