/** The shipment plan table of orders/models.py: `OrderPlan` rows, unique
    on (plan_date, section, row_index), and `check_over_qty`, which compares
    the quantity planned for an order with its contracted quantity. */
module Plans {
  import opened Wrappers
  import opened Orders

  /** One cell of the plan board. `order` is the code of the linked order,
      NULL when there is none; `planQty` and `truckCount` may be NULL. */
  datatype OrderPlan = OrderPlan(
    order: Option<string>,
    planDate: Date,
    section: string,
    rowIndex: int,
    siteName: string,
    startTime: string,
    planQty: Option<real>,
    truckCount: Option<int>,
    planNote: string)

  /** The `unique_together` key of a plan. */
  datatype PlanKey = PlanKey(planDate: Date, section: string, rowIndex: int)

  function KeyOf(p: OrderPlan): PlanKey
  {
    PlanKey(p.planDate, p.section, p.rowIndex)
  }

  /** No two rows share a key. */
  predicate UniqueKeys(rows: seq<OrderPlan>)
  {
    forall i, j :: 0 <= i < j < |rows| ==> KeyOf(rows[i]) != KeyOf(rows[j])
  }

  /** The database refuses a row whose key is taken (IntegrityError);
      `check_over_qty` on a plan without an order reads `qty` of None
      (AttributeError). */
  datatype PlanError = DuplicateKey(key: PlanKey) | NoOrder

  /** What a row adds to `Sum('plan_qty')` over the plans of order `code`:
      rows of other orders and NULL quantities add nothing. */
  function Contribution(p: OrderPlan, code: string): real
  {
    if p.order == Some(code) && p.planQty.Some? then p.planQty.value else 0.0
  }

  /** `OrderPlan.objects.filter(order=code).aggregate(Sum('plan_qty'))`,
      with an empty or all-NULL sum read as 0 (`or 0`). */
  function PlannedTotal(rows: seq<OrderPlan>, code: string): real
  {
    if rows == [] then 0.0 else Contribution(rows[0], code) + PlannedTotal(rows[1..], code)
  }

  /** The sum over a concatenation is the sum of the sums. */
  lemma {:induction false} PlannedTotalAppend(a: seq<OrderPlan>, b: seq<OrderPlan>, code: string)
    ensures PlannedTotal(a + b, code) == PlannedTotal(a, code) + PlannedTotal(b, code)
  {
    if a != [] {
      assert (a + b)[1..] == a[1..] + b;
      PlannedTotalAppend(a[1..], b, code);
    } else {
      assert a + b == b;
    }
  }

  /** The sum is that of the rows as a bag: the order in which the table
      holds its rows does not matter. */
  lemma {:induction false} PlannedTotalPermutation(a: seq<OrderPlan>, b: seq<OrderPlan>, code: string)
    requires multiset(a) == multiset(b)
    ensures PlannedTotal(a, code) == PlannedTotal(b, code)
    decreases |a|
  {
    if a != [] {
      var x := a[0];
      assert x in multiset(b);
      var i :| 0 <= i < |b| && b[i] == x;
      var rest := b[..i] + b[i + 1..];
      assert b == b[..i] + [x] + b[i + 1..];
      assert a == [x] + a[1..];
      assert multiset(b) == multiset(b[..i]) + multiset([x]) + multiset(b[i + 1..]);
      assert multiset(a) == multiset([x]) + multiset(a[1..]);
      assert multiset(rest) == multiset(b[..i]) + multiset(b[i + 1..]);
      assert multiset(a[1..]) == multiset(a) - multiset([x]);
      assert multiset(a[1..]) == multiset(rest);
      PlannedTotalPermutation(a[1..], rest, code);
      PlannedTotalAppend(b[..i] + [x], b[i + 1..], code);
      PlannedTotalAppend(b[..i], [x], code);
      PlannedTotalAppend(b[..i], b[i + 1..], code);
      assert PlannedTotal([x], code) == Contribution(x, code);
    } else {
      assert b == [];
    }
  }

  /** When no row of the order carries a quantity the sum is 0. */
  lemma {:induction false} PlannedTotalNone(rows: seq<OrderPlan>, code: string)
    requires forall i :: 0 <= i < |rows| ==> rows[i].order != Some(code) || rows[i].planQty.None?
    ensures PlannedTotal(rows, code) == 0.0
  {
    if rows != [] {
      PlannedTotalNone(rows[1..], code);
    }
  }

  /** A row added to the table raises the sum of its own order by its
      quantity and leaves the sums of all other orders as they were. */
  lemma PlannedTotalInsert(rows: seq<OrderPlan>, p: OrderPlan, code: string)
    ensures p.order == Some(code) && p.planQty.Some? ==>
      PlannedTotal(rows + [p], code) == PlannedTotal(rows, code) + p.planQty.value
    ensures p.order != Some(code) || p.planQty.None? ==>
      PlannedTotal(rows + [p], code) == PlannedTotal(rows, code)
  {
    PlannedTotalAppend(rows, [p], code);
    assert PlannedTotal([p], code) == Contribution(p, code);
  }

  /** `OrderPlan.check_over_qty` for `plan`, over the plan table `rows` and
      the order table `orders`: whether more is planned for the plan's order
      than was contracted. */
  function CheckOverQty(rows: seq<OrderPlan>, plan: OrderPlan, orders: map<string, Order>): (r: Result<bool, PlanError>)
    requires plan.order.Some? ==> plan.order.value in orders
    ensures r.Failure? <==> plan.order.None?
    ensures r.Success? ==> (r.value <==> PlannedTotal(rows, plan.order.value) > orders[plan.order.value].qty)
  {
    match plan.order
    case None => Failure(NoOrder)
    case Some(code) => Success(PlannedTotal(rows, code) > orders[code].qty)
  }

  /** The verdict does not depend on the order of the table's rows. */
  lemma OverQtyPermutation(a: seq<OrderPlan>, b: seq<OrderPlan>, plan: OrderPlan, orders: map<string, Order>)
    requires multiset(a) == multiset(b)
    requires plan.order.Some? ==> plan.order.value in orders
    ensures CheckOverQty(a, plan, orders) == CheckOverQty(b, plan, orders)
  {
    if plan.order.Some? {
      PlannedTotalPermutation(a, b, plan.order.value);
    }
  }

  /** The verdict for one order is untouched by a new plan of another order
      or one with no quantity. */
  lemma OverQtyOtherInsert(rows: seq<OrderPlan>, p: OrderPlan, plan: OrderPlan, orders: map<string, Order>)
    requires plan.order.Some? ==> plan.order.value in orders
    requires p.order != plan.order || p.planQty.None?
    ensures CheckOverQty(rows + [p], plan, orders) == CheckOverQty(rows, plan, orders)
  {
    if plan.order.Some? {
      PlannedTotalInsert(rows, p, plan.order.value);
    }
  }

  /** The plan table, holding at most one row per key. */
  class PlanTable {
    var rows: seq<OrderPlan>

    ghost predicate Valid()
      reads this
    {
      UniqueKeys(rows)
    }

    constructor ()
      ensures Valid() && rows == []
    {
      rows := [];
    }

    /** Saving a new `OrderPlan`: the row is added unless its key is taken,
        in which case the unique constraint refuses it and nothing changes. */
    method Insert(p: OrderPlan) returns (r: Result<(), PlanError>)
      requires Valid()
      modifies this
      ensures Valid()
      ensures r.Failure? <==> exists i :: 0 <= i < |old(rows)| && KeyOf(old(rows)[i]) == KeyOf(p)
      ensures r.Success? ==> rows == old(rows) + [p]
      ensures r.Failure? ==> rows == old(rows) && r.error == DuplicateKey(KeyOf(p))
    {
      if exists i | 0 <= i < |rows| :: KeyOf(rows[i]) == KeyOf(p) {
        return Failure(DuplicateKey(KeyOf(p)));
      }
      rows := rows + [p];
      r := Success(());
    }
  }
}
