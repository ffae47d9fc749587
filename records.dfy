/**
 * One row of the merged transaction table and the cells of its six timestamp
 * columns. A timestamp cell holds the text read from the file until the load
 * phase coerces it; payments are whole cents.
 */
module Records {
  import opened Wrappers
  import opened Strings
  import Datetime

  /** A timestamp column's cell: NaN/NaT, the text read from the file, or a parsed instant in seconds. */
  datatype Cell = Missing | Text(text: string) | Stamp(seconds: int)

  datatype DateCol = ApprovedAt | CarrierDate | CustomerDate | EstimatedDate | PurchasedAt | ShippingLimit

  /** The timestamp columns the load phase coerces, in the order it visits them. */
  const DatetimeColumns: seq<DateCol> :=
    [ApprovedAt, CarrierDate, CustomerDate, EstimatedDate, PurchasedAt, ShippingLimit]

  datatype Row = Row(
    orderId: Option<string>,
    customerId: Option<string>,
    customerUniqueId: Option<string>,
    productId: Option<string>,
    category: Option<string>,
    payment: Option<int>,
    reviewScore: Option<int>,
    status: Option<string>,
    state: Option<string>,
    approvedAt: Cell,
    carrierDate: Cell,
    customerDate: Cell,
    estimatedDate: Cell,
    purchasedAt: Cell,
    shippingLimit: Cell)
  {
    function Get(c: DateCol): Cell {
      match c
      case ApprovedAt => approvedAt
      case CarrierDate => carrierDate
      case CustomerDate => customerDate
      case EstimatedDate => estimatedDate
      case PurchasedAt => purchasedAt
      case ShippingLimit => shippingLimit
    }

    /** This row with column `c` replaced by `v`. */
    function With(c: DateCol, v: Cell): (r: Row)
      ensures r.Get(c) == v
      ensures forall d :: d != c ==> r.Get(d) == Get(d)
      ensures r.SameOutsideDates(this)
    {
      match c
      case ApprovedAt => this.(approvedAt := v)
      case CarrierDate => this.(carrierDate := v)
      case CustomerDate => this.(customerDate := v)
      case EstimatedDate => this.(estimatedDate := v)
      case PurchasedAt => this.(purchasedAt := v)
      case ShippingLimit => this.(shippingLimit := v)
    }

    /** Every column that is not a timestamp column agrees with `other`. */
    predicate SameOutsideDates(other: Row) {
      && orderId == other.orderId && customerId == other.customerId
      && customerUniqueId == other.customerUniqueId && productId == other.productId
      && category == other.category && payment == other.payment && reviewScore == other.reviewScore
      && status == other.status && state == other.state
    }
  }

  /** `pd.to_datetime(cell, errors='coerce')`: text that does not parse becomes NaT. */
  function ToDatetime(c: Cell): (r: Cell)
    ensures r.Missing? || r.Stamp?
    ensures c.Stamp? || c.Missing? ==> r == c
    ensures c.Text? ==> (r.Stamp? <==> Datetime.ParseDatetime(c.text).Some?)
    ensures c.Text? && r.Stamp? ==> r.seconds == Datetime.ParseDatetime(c.text).value
  {
    match c
    case Text(s) =>
      (match Datetime.ParseDatetime(s)
       case Some(t) => Stamp(t)
       case None => Missing)
    case _ => c
  }

  /** Coercing twice is coercing once. */
  lemma ToDatetimeIdempotent(c: Cell)
    ensures ToDatetime(ToDatetime(c)) == ToDatetime(c)
  {
  }

  /** The row with every timestamp column coerced. */
  function CoerceRow(r: Row): Row {
    r.(approvedAt := ToDatetime(r.approvedAt), carrierDate := ToDatetime(r.carrierDate),
       customerDate := ToDatetime(r.customerDate), estimatedDate := ToDatetime(r.estimatedDate),
       purchasedAt := ToDatetime(r.purchasedAt), shippingLimit := ToDatetime(r.shippingLimit))
  }

  /** `r` is `orig` with exactly the columns in `cols` coerced. */
  predicate CoercedOn(orig: Row, r: Row, cols: seq<DateCol>) {
    && r.SameOutsideDates(orig)
    && forall c :: r.Get(c) == if c in cols then ToDatetime(orig.Get(c)) else orig.Get(c)
  }

  /** Coercing all six columns one by one is `CoerceRow`. */
  lemma CoercedOnAll(orig: Row, r: Row)
    requires CoercedOn(orig, r, DatetimeColumns)
    ensures r == CoerceRow(orig)
  {
    assert r.Get(ApprovedAt) == ToDatetime(orig.Get(ApprovedAt));
    assert r.Get(CarrierDate) == ToDatetime(orig.Get(CarrierDate));
    assert r.Get(CustomerDate) == ToDatetime(orig.Get(CustomerDate));
    assert r.Get(EstimatedDate) == ToDatetime(orig.Get(EstimatedDate));
    assert r.Get(PurchasedAt) == ToDatetime(orig.Get(PurchasedAt));
    assert r.Get(ShippingLimit) == ToDatetime(orig.Get(ShippingLimit));
  }

  /** A cell as read from the file: text, or NaN for an empty field. */
  predicate IsRaw(c: Cell) {
    c.Text? || c.Missing?
  }

  function Rank(c: Cell): nat {
    match c
    case Stamp(_) => 0
    case Text(_) => 1
    case Missing => 2
  }

  /**
   * The order `sort_values` uses on a timestamp column: strings by Python's
   * string order and NaN last (`na_position='last'`). Parsed instants, which the
   * column does not hold when it is sorted, are placed first.
   */
  predicate CellLe(a: Cell, b: Cell) {
    if Rank(a) != Rank(b) then Rank(a) < Rank(b)
    else match (a, b)
      case (Stamp(x), Stamp(y)) => x <= y
      case (Text(x), Text(y)) => StrLe(x, y)
      case _ => true
  }

  predicate ApprovalLe(a: Row, b: Row) {
    CellLe(a.approvedAt, b.approvedAt)
  }

  lemma ApprovalLeTotal(a: Row, b: Row)
    ensures ApprovalLe(a, b) || ApprovalLe(b, a)
  {
    if a.approvedAt.Text? && b.approvedAt.Text? {
      StrLeTotal(a.approvedAt.text, b.approvedAt.text);
    }
  }

  lemma ApprovalLeTransitive(a: Row, b: Row, c: Row)
    requires ApprovalLe(a, b) && ApprovalLe(b, c)
    ensures ApprovalLe(a, c)
  {
    if a.approvedAt.Text? && b.approvedAt.Text? && c.approvedAt.Text? {
      StrLeTransitive(a.approvedAt.text, b.approvedAt.text, c.approvedAt.text);
    }
  }

  predicate HasApproval(r: Row) {
    r.approvedAt.Stamp?
  }

  /** `min()` and `max()` of the approval column, skipping NaT; `None` when every cell is NaT. */
  function ApprovalRange(rows: seq<Row>): (r: Option<(int, int)>)
    ensures r.None? <==> forall i :: 0 <= i < |rows| ==> !HasApproval(rows[i])
    ensures r.Some? ==> r.value.0 <= r.value.1
    ensures r.Some? ==> forall i :: 0 <= i < |rows| && HasApproval(rows[i]) ==>
                          r.value.0 <= rows[i].approvedAt.seconds <= r.value.1
    ensures r.Some? ==> exists i :: 0 <= i < |rows| && rows[i].approvedAt == Stamp(r.value.0)
    ensures r.Some? ==> exists i :: 0 <= i < |rows| && rows[i].approvedAt == Stamp(r.value.1)
    decreases |rows|
  {
    if rows == [] then None
    else
      var rest := ApprovalRange(rows[1..]);
      assert forall i :: 0 < i < |rows| ==> rows[i] == rows[1..][i - 1];
      if !HasApproval(rows[0]) then rest
      else
        var t := rows[0].approvedAt.seconds;
        match rest
        case None => Some((t, t))
        case Some((lo, hi)) =>
          var lo', hi' := if t < lo then t else lo, if t > hi then t else hi;
          assert exists i :: 0 <= i < |rows| && rows[i].approvedAt == Stamp(lo') by {
            if t >= lo { var j :| 0 <= j < |rows[1..]| && rows[1..][j].approvedAt == Stamp(lo); assert rows[j + 1] == rows[1..][j]; }
          }
          assert exists i :: 0 <= i < |rows| && rows[i].approvedAt == Stamp(hi') by {
            if t <= hi { var j :| 0 <= j < |rows[1..]| && rows[1..][j].approvedAt == Stamp(hi); assert rows[j + 1] == rows[1..][j]; }
          }
          Some((lo', hi'))
  }
}
