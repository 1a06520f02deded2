/** The order that the pages of a query are cut from, in terms of the values. */
module PageOrder {
  import opened ModelValues
  import opened ModelQuery
  import opened CursorPaging
  import opened QueryMeaning

  /**
   * In the answer, of two rows that the plan's earlier orders do not tell apart, the first one's value is not after the
   * second one's for an ascending order and not before it for a descending one. Rows that none of the plan's orders
   * tells apart come by ascending id, unless the plan orders by the id itself.
   */
  lemma AnswerInOrder(rows: seq<Row>, plan: Plan, tail: seq<Constraint>, i: nat, j: nat, k: nat)
    requires i < j < |Answer(rows, plan, tail)|
    requires var s := Answer(rows, plan, tail);
             && AllComparable(plan.orders + [Order("id", Asc)], s[i], s[j])
             && AlikeUpTo(plan.orders, s[i], s[j], k)
    ensures var s := Answer(rows, plan, tail);
            if k < |plan.orders| then
              var x, y := Get(s[i], plan.orders[k].attribute), Get(s[j], plan.orders[k].attribute);
              if plan.orders[k].direction == Asc then InOrder(x, y) else InOrder(y, x)
            else (exists m :: 0 <= m < |plan.orders| && plan.orders[m].attribute == "id") ||
                 InOrder(Get(s[i], "id"), Get(s[j], "id"))
  {
    var s, orders := Answer(rows, plan, tail), DeterministicOrders(plan.orders);
    var all := plan.orders + [Order("id", Asc)];
    SortKeeps(orders, Filter(rows, (r: Row) => MatchesConstraints(r, plan.constraints + tail)));
    assert orders == plan.orders || orders == all;
    assert forall m :: 0 <= m < |plan.orders| ==> all[m] == plan.orders[m];
    if k < |orders| {
      RowsInOrder(orders, s[i], s[j], k);
    }
  }
}
