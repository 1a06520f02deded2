/** What the order, the predicates and the slice of a query mean in terms of the values themselves, without the comparator. */
module QueryMeaning {
  import opened Options
  import opened ModelValues
  import opened ModelQuery

  // ---------------------------------------------------------------- the order of each kind of value

  /** A proper prefix, or the first character that differs is the smaller one. */
  ghost predicate TextBefore(a: string, b: string) {
    a < b || exists k :: 0 <= k < |a| && k < |b| && a[..k] == b[..k] && a[k] < b[k]
  }

  predicate Moment(v: Value) {
    v.Graphite? || v.Instant?
  }

  predicate Iso(v: Value) {
    v.LocalDate? || v.Duration?
  }

  predicate SameKind(x: Value, y: Value) {
    (x.Flag? && y.Flag?) || (x.Num? && y.Num?) || (x.Text? && y.Text?) || (Moment(x) && Moment(y)) || (Iso(x) && Iso(y))
  }

  /** Values of one kind, the first one smaller: false before true, numbers and microseconds by `<`, texts by their characters. */
  ghost predicate Before(x: Value, y: Value) {
    || (x.Flag? && y.Flag? && !x.b && y.b)
    || (x.Num? && y.Num? && x.n < y.n)
    || (x.Text? && y.Text? && TextBefore(x.s, y.s))
    || (Moment(x) && Moment(y) && x.micros < y.micros)
    || (Iso(x) && Iso(y) && TextBefore(x.iso, y.iso))
  }

  /** Ascending order: nothing is followed by a smaller value, and rows without a value come first. */
  ghost predicate InOrder(x: Value, y: Value) {
    !Before(y, x) && (y.Nullish() ==> x.Nullish())
  }

  ghost predicate Alike(x: Value, y: Value) {
    (x.Nullish() && y.Nullish()) || (SameKind(x, y) && !Before(x, y) && !Before(y, x))
  }

  /** A column holds values of one kind, or none. */
  predicate Comparable(x: Value, y: Value) {
    SameKind(x, y) || x.Nullish() || y.Nullish()
  }

  lemma {:induction false} TextLessIsBefore(a: string, b: string)
    ensures TextLess(a, b) <==> TextBefore(a, b)
  {
    if |a| > 0 && |b| > 0 && a[0] == b[0] {
      TextLessIsBefore(a[1..], b[1..]);
      BeforeBehind(a[0], a[1..], b[1..]);
      assert a == [a[0]] + a[1..] && b == [b[0]] + b[1..];
    } else if |a| > 0 && |b| > 0 && a[0] < b[0] {
      assert a[..0] == b[..0];
    }
  }

  /** A common first character does not matter. */
  lemma BeforeBehind(c: char, x: string, y: string)
    ensures TextBefore([c] + x, [c] + y) <==> TextBefore(x, y)
  {
    var a, b := [c] + x, [c] + y;
    assert a[1..] == x && b[1..] == y;
    if k :| 0 <= k < |x| && k < |y| && x[..k] == y[..k] && x[k] < y[k] {
      assert a[..k + 1] == [c] + x[..k] && b[..k + 1] == [c] + y[..k];
      assert a[k + 1] < b[k + 1];
    }
    if k :| 0 <= k < |a| && k < |b| && a[..k] == b[..k] && a[k] < b[k] {
      assert k > 0 && x[..k - 1] == a[..k][1..] && y[..k - 1] == b[..k][1..];
      assert x[k - 1] < y[k - 1];
    }
  }

  lemma ComparedInOrder(x: Value, y: Value)
    requires Comparable(x, y)
    ensures Compare(x, y) < 0 ==> InOrder(x, y) && !InOrder(y, x)
    ensures Compare(x, y) == 0 <==> Alike(x, y)
    ensures Compare(x, y) > 0 ==> InOrder(y, x) && !InOrder(x, y)
  {
    if SameKind(x, y) {
      ComparedByKind(x, y);
    }
  }

  lemma ComparedByKind(x: Value, y: Value)
    requires SameKind(x, y)
    ensures Compare(x, y) < 0 <==> Before(x, y)
    ensures Compare(x, y) > 0 <==> Before(y, x)
  {
    if x.Text? {
      TextsCompared(x.s, y.s);
    } else if Iso(x) {
      TextsCompared(x.iso, y.iso);
    }
  }

  lemma TextsCompared(a: string, b: string)
    ensures TextLess(a, b) <==> TextBefore(a, b)
    ensures TextLess(b, a) <==> TextBefore(b, a)
    ensures a == b ==> !TextLess(a, b)
    ensures a != b ==> (TextLess(a, b) <==> !TextLess(b, a))
  {
    TextLessIsBefore(a, b);
    TextLessIsBefore(b, a);
    TextLessTotal(a, b);
  }

  // ---------------------------------------------------------------- predicates

  /** What an operator says of two values; null is below nothing and above nothing here. */
  ghost predicate Relates(x: Value, operator: Operator, y: Value) {
    match operator
    case Eq => Alike(x, y)
    case Ne => !Alike(x, y)
    case Lt => Before(x, y)
    case Le => SameKind(x, y) && !Before(y, x)
    case Gt => Before(y, x)
    case Ge => SameKind(x, y) && !Before(x, y)
  }

  lemma OperatorMeaning(x: Value, operator: Operator, y: Value)
    requires Comparable(x, y)
    ensures ComparisonMatches(x, operator, y) <==> Relates(x, operator, y)
  {
    ComparedInOrder(x, y);
    CompareFlips(x, y);
  }

  /** The values that a predicate compares are of one kind. */
  predicate Fits(row: Row, p: Predicate) {
    match p
    case Comparison(attribute, _, value) => Comparable(Get(row, attribute), value)
    case Column(attribute, _, compared) => Comparable(Get(row, attribute), Get(row, compared))
    case Membership(attribute, values, _) => forall v :: v in values ==> Comparable(Get(row, attribute), v)
    case Between(attribute, low, high, _) => Comparable(Get(row, attribute), low) && Comparable(Get(row, attribute), high)
    case IsNull(_, _) => true
    case Group(_) => true
  }

  ghost predicate Says(row: Row, p: Predicate) {
    match p
    case Comparison(attribute, operator, value) => Relates(Get(row, attribute), operator, value)
    case Column(attribute, operator, compared) => Relates(Get(row, attribute), operator, Get(row, compared))
    case Membership(attribute, values, negate) => negate != exists v :: v in values && Alike(Get(row, attribute), v)
    case Between(attribute, low, high, negate) => negate != (InOrder(low, Get(row, attribute)) && InOrder(Get(row, attribute), high))
    case IsNull(attribute, negate) => negate != (attribute !in row || row[attribute] == Absent || row[attribute] == Null)
    case Group(predicates) => |predicates| == 0 || exists k :: 0 <= k < |predicates| && Decides(row, predicates, k)
  }

  /** A predicate matches exactly the rows whose own values it speaks of. */
  lemma PredicateMeaning(row: Row, p: Predicate)
    requires Fits(row, p)
    ensures MatchesPredicate(row, p) <==> Says(row, p)
  {
    match p
    case Comparison(attribute, operator, value) => OperatorMeaning(Get(row, attribute), operator, value);
    case Column(attribute, operator, compared) => OperatorMeaning(Get(row, attribute), operator, Get(row, compared));
    case Membership(attribute, values, negate) =>
      forall v | v in values ensures Compare(Get(row, attribute), v) == 0 <==> Alike(Get(row, attribute), v) {
        ComparedInOrder(Get(row, attribute), v);
      }
    case Between(attribute, low, high, negate) =>
      ComparedInOrder(Get(row, attribute), low);
      ComparedInOrder(Get(row, attribute), high);
    case IsNull(_, _) =>
    case Group(predicates) => LeftFoldMeaning(row, predicates);
  }

  // ---------------------------------------------------------------- the slice and the order of a result

  /** The rows from the offset on, as many as the limit allows. */
  lemma SliceMeaning(rows: seq<Row>, limit: Option<nat>, offset: Option<nat>)
    ensures var slice, start := Slice(rows, limit, offset), if offset.Some? then offset.value else 0;
            && (forall i :: 0 <= i < |slice| ==> start + i < |rows| && slice[i] == rows[start + i])
            && (forall i :: start <= i < |rows| && (limit.Some? ==> i < start + limit.value) ==>
                  i - start < |slice| && slice[i - start] == rows[i])
            && (limit.Some? ==> |slice| <= limit.value)
  {
  }

  /** The two rows cannot be told apart by the first `k` orders. */
  ghost predicate AlikeUpTo(orders: seq<Order>, l: Row, r: Row, k: nat) {
    k <= |orders| && forall m :: 0 <= m < k ==> Alike(Get(l, orders[m].attribute), Get(r, orders[m].attribute))
  }

  ghost predicate AllComparable(orders: seq<Order>, l: Row, r: Row) {
    forall m :: 0 <= m < |orders| ==> Comparable(Get(l, orders[m].attribute), Get(r, orders[m].attribute))
  }

  lemma {:induction false} RowsInOrder(orders: seq<Order>, l: Row, r: Row, k: nat)
    requires RowCompare(orders, l, r) <= 0 && AllComparable(orders, l, r)
    requires k < |orders| && AlikeUpTo(orders, l, r, k)
    ensures var x, y := Get(l, orders[k].attribute), Get(r, orders[k].attribute);
            if orders[k].direction == Asc then InOrder(x, y) else InOrder(y, x)
  {
    ComparedInOrder(Get(l, orders[0].attribute), Get(r, orders[0].attribute));
    if k > 0 {
      RowsInOrder(orders[1..], l, r, k - 1);
    }
  }

  /**
   * In the result of a query, of any two rows that the earlier orders do not tell apart, the first one's value
   * is not after the second one's for an ascending order, and not before it for a descending one.
   */
  lemma ResultInOrder(rows: seq<Row>, plan: Plan, i: nat, j: nat, k: nat)
    requires var result := ApplyModelQueryPlan(rows, plan);
             i < j < |result| && k < |plan.orders| &&
             AllComparable(plan.orders, result[i], result[j]) && AlikeUpTo(plan.orders, result[i], result[j], k)
    ensures var result := ApplyModelQueryPlan(rows, plan);
            var x, y := Get(result[i], plan.orders[k].attribute), Get(result[j], plan.orders[k].attribute);
            if plan.orders[k].direction == Asc then InOrder(x, y) else InOrder(y, x)
  {
    var kept := Filter(rows, (r: Row) => MatchesConstraints(r, plan.constraints));
    var result := ApplyModelQueryPlan(rows, plan);
    SortKeeps(plan.orders, kept);
    SliceMeaning(Sort(plan.orders, kept), plan.limit, plan.offset);
    RowsInOrder(plan.orders, result[i], result[j], k);
  }
}
