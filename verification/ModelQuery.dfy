/** The in-memory meaning of a model query plan: filter, stable sort, slice. */
module ModelQuery {
  import opened Options
  import opened ModelValues

  type Row = map<string, Value>

  function Get(row: Row, attribute: string): Value {
    if attribute in row then row[attribute] else Absent
  }

  datatype Operator = Eq | Ne | Lt | Le | Gt | Ge

  datatype Connective = And | Or

  datatype Predicate =
    | Comparison(attribute: string, operator: Operator, value: Value)
    | Membership(attribute: string, values: seq<Value>, negate: bool)
    | IsNull(attribute: string, negate: bool)
    | Between(attribute: string, low: Value, high: Value, negate: bool)
    | Column(attribute: string, operator: Operator, compared: string)
    | Group(predicates: seq<Constraint>)

  datatype Constraint = Constraint(boolean: Connective, test: Predicate)

  datatype Direction = Asc | Desc

  datatype Order = Order(attribute: string, direction: Direction)

  /** `constrain` holds what a `whereHas` callback adds to the related query it is given. */
  datatype RelationshipConstraint =
    RelationshipConstraint(path: seq<string>, operator: Operator, count: nat, constrain: Option<Plan>)

  datatype Plan = Plan(constraints: seq<Constraint>, orders: seq<Order>,
                       relationships: seq<RelationshipConstraint>, limit: Option<nat>, offset: Option<nat>)

  // ---------------------------------------------------------------- predicates

  predicate ComparisonMatches(left: Value, operator: Operator, right: Value) {
    match operator
    case Eq => ComparableValue(left) == ComparableValue(right)
    case Ne => ComparableValue(left) != ComparableValue(right)
    case _ =>
      if left.Nullish() || right.Nullish() then false
      else
        var compared := Compare(left, right);
        match operator
        case Lt => compared < 0
        case Le => compared <= 0
        case Gt => compared > 0
        case _ => compared >= 0
  }

  predicate MatchesPredicate(row: Row, p: Predicate)
    decreases p
  {
    match p
    case Group(predicates) => MatchesConstraints(row, predicates)
    case IsNull(attribute, negate) => negate != Get(row, attribute).Nullish()
    case Membership(attribute, values, negate) =>
      negate != (exists v | v in values :: Compare(Get(row, attribute), v) == 0)
    case Between(attribute, low, high, negate) =>
      negate != (Compare(Get(row, attribute), low) >= 0 && Compare(Get(row, attribute), high) <= 0)
    case Column(attribute, operator, compared) =>
      ComparisonMatches(Get(row, attribute), operator, Get(row, compared))
    case Comparison(attribute, operator, value) =>
      ComparisonMatches(Get(row, attribute), operator, value)
  }

  predicate Holds(row: Row, constraint: Constraint)
    decreases constraint
  {
    MatchesPredicate(row, constraint.test)
  }

  /** The fold from the left without precedence: the last constraint is combined with all before it. */
  predicate MatchesConstraints(row: Row, constraints: seq<Constraint>)
    decreases constraints
  {
    if |constraints| == 0 then true
    else
      var last := constraints[|constraints| - 1];
      var matched := Holds(row, last);
      if |constraints| == 1 then matched
      else if last.boolean == And then MatchesConstraints(row, constraints[..|constraints| - 1]) && matched
      else MatchesConstraints(row, constraints[..|constraints| - 1]) || matched
  }

  method EvaluateConstraint(row: Row, constraint: Constraint) returns (result: bool)
    ensures result == Holds(row, constraint)
    decreases constraint
  {
    match constraint.test
    case Group(predicates) => result := EvaluateConstraints(row, predicates);
    case _ => result := MatchesPredicate(row, constraint.test);
  }

  method EvaluateConstraints(row: Row, constraints: seq<Constraint>) returns (result: bool)
    ensures result == MatchesConstraints(row, constraints)
    decreases constraints
  {
    if |constraints| == 0 {
      return true;
    }
    result := EvaluateConstraint(row, constraints[0]);
    assert constraints[..1] == [constraints[0]];
    var index := 1;
    while index < |constraints|
      invariant 1 <= index <= |constraints|
      invariant result == MatchesConstraints(row, constraints[..index])
    {
      var constraint := constraints[index];
      var matched := EvaluateConstraint(row, constraint);
      assert constraints[..index + 1][..index] == constraints[..index];
      result := if constraint.boolean == And then result && matched else result || matched;
      index := index + 1;
    }
    assert constraints[..index] == constraints;
  }

  /** The position `k` from which a constraint list is satisfied: `k` starts a disjunct and holds, and no later conjunct fails. */
  ghost predicate Decides(row: Row, constraints: seq<Constraint>, k: nat)
    requires k < |constraints|
  {
    (k == 0 || constraints[k].boolean == Or) && Holds(row, constraints[k]) &&
    forall j :: k < j < |constraints| && constraints[j].boolean == And
                ==> Holds(row, constraints[j])
  }

  /** What the fold means, without the fold. */
  lemma {:induction false} LeftFoldMeaning(row: Row, constraints: seq<Constraint>)
    ensures MatchesConstraints(row, constraints) <==>
            |constraints| == 0 || exists k :: 0 <= k < |constraints| && Decides(row, constraints, k)
  {
    var n := |constraints| - 1;
    if n < 0 {
      return;
    }
    var init, last := constraints[..n], constraints[n];
    if n == 0 {
      assert Decides(row, constraints, 0) <==> Holds(row, last);
      return;
    }
    LeftFoldMeaning(row, init);
    if MatchesConstraints(row, constraints) {
      if last.boolean == Or && Holds(row, last) {
        assert Decides(row, constraints, n);
      } else {
        var k :| 0 <= k < |init| && Decides(row, init, k);
        assert Decides(row, constraints, k) by {
          forall j | k < j < |constraints| && constraints[j].boolean == And
            ensures Holds(row, constraints[j])
          {
            if j < n {
              assert init[j] == constraints[j];
            }
          }
        }
      }
    }
    if exists k :: 0 <= k < |constraints| && Decides(row, constraints, k) {
      var k :| 0 <= k < |constraints| && Decides(row, constraints, k);
      if k < n {
        assert Decides(row, init, k) by {
          forall j | k < j < |init| && init[j].boolean == And ensures Holds(row, init[j]) {
            assert init[j] == constraints[j];
          }
        }
      }
    }
  }

  ghost predicate Conjuncts(constraints: seq<Constraint>) {
    forall c :: c in constraints ==> c.boolean == And
  }

  /** Constraints appended with `and` restrict the whole earlier formula. */
  lemma {:induction false} AppendedConjuncts(row: Row, earlier: seq<Constraint>, added: seq<Constraint>)
    requires Conjuncts(added)
    ensures MatchesConstraints(row, earlier + added) <==>
            MatchesConstraints(row, earlier) && forall c :: c in added ==> Holds(row, c)
    decreases |added|
  {
    if |added| == 0 {
      assert earlier + added == earlier;
    } else {
      var n := |added| - 1;
      AppendedConjuncts(row, earlier, added[..n]);
      var all := earlier + added;
      assert all[..|all| - 1] == earlier + added[..n];
      assert all[|all| - 1] == added[n] && added[n] in added;
      assert forall c :: c in added <==> c in added[..n] || c == added[n];
    }
  }

  // ---------------------------------------------------------------- filter

  function Filter(rows: seq<Row>, keep: Row -> bool): (kept: seq<Row>)
    ensures |kept| <= |rows|
    ensures forall r :: r in kept <==> r in rows && keep(r)
  {
    if |rows| == 0 then []
    else (if keep(rows[0]) then [rows[0]] else []) + Filter(rows[1..], keep)
  }

  lemma {:induction false} FilterCongruent(rows: seq<Row>, f: Row -> bool, g: Row -> bool)
    requires forall r :: r in rows ==> f(r) == g(r)
    ensures Filter(rows, f) == Filter(rows, g)
  {
    if |rows| > 0 {
      FilterCongruent(rows[1..], f, g);
    }
  }

  lemma {:induction false} FilterAppend(a: seq<Row>, b: seq<Row>, f: Row -> bool)
    ensures Filter(a + b, f) == Filter(a, f) + Filter(b, f)
  {
    if |a| == 0 {
      assert a + b == b;
    } else {
      assert (a + b)[1..] == a[1..] + b;
      FilterAppend(a[1..], b, f);
    }
  }

  lemma {:induction false} FilterFilter(rows: seq<Row>, f: Row -> bool, g: Row -> bool)
    ensures Filter(Filter(rows, f), g) == Filter(rows, (r: Row) => f(r) && g(r))
  {
    if |rows| > 0 {
      FilterFilter(rows[1..], f, g);
      FilterAppend(if f(rows[0]) then [rows[0]] else [], Filter(rows[1..], f), g);
    }
  }

  lemma {:induction false} FilterAll(rows: seq<Row>, f: Row -> bool)
    requires forall r :: r in rows ==> f(r)
    ensures Filter(rows, f) == rows
  {
    if |rows| > 0 {
      FilterAll(rows[1..], f);
    }
  }

  lemma {:induction false} FilterNone(rows: seq<Row>, f: Row -> bool)
    requires forall r :: r in rows ==> !f(r)
    ensures Filter(rows, f) == []
  {
    if |rows| > 0 {
      FilterNone(rows[1..], f);
    }
  }

  // ---------------------------------------------------------------- stable sort

  function Signed(d: Direction, c: int): int {
    if d == Asc then c else -c
  }

  /** The comparator of the sort: the first order that distinguishes two rows decides. */
  function RowCompare(orders: seq<Order>, l: Row, r: Row): int {
    if |orders| == 0 then 0
    else
      var c := Compare(Get(l, orders[0].attribute), Get(r, orders[0].attribute));
      if c != 0 then Signed(orders[0].direction, c) else RowCompare(orders[1..], l, r)
  }

  lemma {:induction false} RowCompareFlips(orders: seq<Order>, l: Row, r: Row)
    ensures RowCompare(orders, r, l) == -RowCompare(orders, l, r)
  {
    if |orders| > 0 {
      CompareFlips(Get(l, orders[0].attribute), Get(r, orders[0].attribute));
      RowCompareFlips(orders[1..], l, r);
    }
  }

  lemma {:induction false} RowCompareTransitive(orders: seq<Order>, a: Row, b: Row, c: Row)
    ensures RowCompare(orders, a, b) <= 0 && RowCompare(orders, b, c) <= 0 ==> RowCompare(orders, a, c) <= 0
    ensures RowCompare(orders, a, b) < 0 && RowCompare(orders, b, c) <= 0 ==> RowCompare(orders, a, c) < 0
    ensures RowCompare(orders, a, b) <= 0 && RowCompare(orders, b, c) < 0 ==> RowCompare(orders, a, c) < 0
  {
    if |orders| > 0 {
      var x, y, z := Get(a, orders[0].attribute), Get(b, orders[0].attribute), Get(c, orders[0].attribute);
      CompareTransitive(x, y, z);
      CompareTransitive(z, y, x);
      CompareFlips(x, y);
      CompareFlips(y, z);
      CompareFlips(x, z);
      RowCompareTransitive(orders[1..], a, b, c);
    }
  }

  function Insert(orders: seq<Order>, row: Row, sorted: seq<Row>): seq<Row> {
    if |sorted| == 0 || RowCompare(orders, row, sorted[0]) <= 0 then [row] + sorted
    else [sorted[0]] + Insert(orders, row, sorted[1..])
  }

  /** A stable sort; SortIsTheStableSort shows that no other stable sort differs from it. */
  function Sort(orders: seq<Order>, rows: seq<Row>): seq<Row> {
    if |rows| == 0 then [] else Insert(orders, rows[0], Sort(orders, rows[1..]))
  }

  ghost predicate Sorted(orders: seq<Order>, rows: seq<Row>) {
    forall i, j :: 0 <= i < j < |rows| ==> RowCompare(orders, rows[i], rows[j]) <= 0
  }

  lemma {:induction false} InsertKeeps(orders: seq<Order>, row: Row, rows: seq<Row>)
    requires Sorted(orders, rows)
    ensures Sorted(orders, Insert(orders, row, rows))
    ensures forall r :: r in Insert(orders, row, rows) <==> r == row || r in rows
  {
    if |rows| == 0 {
    } else if RowCompare(orders, row, rows[0]) <= 0 {
      forall j | 0 <= j < |rows| ensures RowCompare(orders, row, rows[j]) <= 0 {
        RowCompareTransitive(orders, row, rows[0], rows[j]);
      }
    } else {
      InsertKeeps(orders, row, rows[1..]);
      var rest := Insert(orders, row, rows[1..]);
      assert rows == [rows[0]] + rows[1..];
      forall j | 0 <= j < |rest| ensures RowCompare(orders, rows[0], rest[j]) <= 0 {
        assert rest[j] in rest;
        RowCompareFlips(orders, row, rows[0]);
      }
    }
  }

  lemma {:induction false} InsertCounts(orders: seq<Order>, row: Row, rows: seq<Row>)
    ensures multiset(Insert(orders, row, rows)) == multiset(rows) + multiset{row}
  {
    if |rows| > 0 && RowCompare(orders, row, rows[0]) > 0 {
      InsertCounts(orders, row, rows[1..]);
      assert rows == [rows[0]] + rows[1..];
    }
  }

  lemma {:induction false} SortCounts(orders: seq<Order>, rows: seq<Row>)
    ensures multiset(Sort(orders, rows)) == multiset(rows)
  {
    if |rows| > 0 {
      SortCounts(orders, rows[1..]);
      InsertCounts(orders, rows[0], Sort(orders, rows[1..]));
      assert rows == [rows[0]] + rows[1..];
    }
  }

  /** Sorting yields an ordered permutation. */
  lemma SortKeeps(orders: seq<Order>, rows: seq<Row>)
    ensures Sorted(orders, Sort(orders, rows))
    ensures forall r :: r in Sort(orders, rows) <==> r in rows
    ensures multiset(Sort(orders, rows)) == multiset(rows)
  {
    SortCounts(orders, rows);
    SortOrders(orders, rows);
  }

  lemma {:induction false} SortOrders(orders: seq<Order>, rows: seq<Row>)
    ensures Sorted(orders, Sort(orders, rows))
    ensures forall r :: r in Sort(orders, rows) <==> r in rows
  {
    if |rows| > 0 {
      SortOrders(orders, rows[1..]);
      InsertKeeps(orders, rows[0], Sort(orders, rows[1..]));
      assert rows == [rows[0]] + rows[1..];
    }
  }

  lemma {:induction false} InsertFilter(orders: seq<Order>, row: Row, rows: seq<Row>, keep: Row -> bool)
    requires Sorted(orders, rows)
    ensures Filter(Insert(orders, row, rows), keep) ==
            if keep(row) then Insert(orders, row, Filter(rows, keep)) else Filter(rows, keep)
  {
    if |rows| == 0 {
    } else if RowCompare(orders, row, rows[0]) <= 0 {
      assert ([row] + rows)[1..] == rows;
      LeastInserts(orders, row, rows, keep);
    } else {
      InsertFilter(orders, row, rows[1..], keep);
      var rest := Insert(orders, row, rows[1..]);
      assert ([rows[0]] + rest)[1..] == rest;
      if keep(row) && keep(rows[0]) {
        var kept := Filter(rows, keep);
        assert kept == [rows[0]] + Filter(rows[1..], keep);
        assert kept[1..] == Filter(rows[1..], keep);
      } else if keep(row) {
        assert Filter(rows, keep) == Filter(rows[1..], keep);
      }
    }
  }

  /** A row that is not above the first of ordered rows is inserted in front of what is kept of them. */
  lemma LeastInserts(orders: seq<Order>, row: Row, rows: seq<Row>, keep: Row -> bool)
    requires Sorted(orders, rows) && |rows| > 0 && RowCompare(orders, row, rows[0]) <= 0
    ensures Insert(orders, row, Filter(rows, keep)) == [row] + Filter(rows, keep)
  {
    var kept := Filter(rows, keep);
    if |kept| > 0 {
      assert kept[0] in kept;
      var j :| 0 <= j < |rows| && rows[j] == kept[0];
      RowCompareTransitive(orders, row, rows[0], rows[j]);
    }
  }

  /** Stable sorting commutes with filtering. */
  lemma {:induction false} SortFilter(orders: seq<Order>, rows: seq<Row>, keep: Row -> bool)
    ensures Sort(orders, Filter(rows, keep)) == Filter(Sort(orders, rows), keep)
  {
    if |rows| > 0 {
      var head, tail := rows[0], rows[1..];
      var kept := Filter(tail, keep);
      calc {
        Filter(Sort(orders, rows), keep);
        Filter(Insert(orders, head, Sort(orders, tail)), keep);
        { SortKeeps(orders, tail); InsertFilter(orders, head, Sort(orders, tail), keep); }
        if keep(head) then Insert(orders, head, Filter(Sort(orders, tail), keep)) else Filter(Sort(orders, tail), keep);
        { SortFilter(orders, tail, keep); }
        if keep(head) then Insert(orders, head, Sort(orders, kept)) else Sort(orders, kept);
        { SortCons(orders, head, kept); }
        if keep(head) then Sort(orders, [head] + kept) else Sort(orders, kept);
        { FilterCons(rows, keep); }
        Sort(orders, Filter(rows, keep));
      }
    }
  }

  lemma FilterCons(rows: seq<Row>, keep: Row -> bool)
    requires |rows| > 0
    ensures Filter(rows, keep) == if keep(rows[0]) then [rows[0]] + Filter(rows[1..], keep) else Filter(rows[1..], keep)
  {
  }

  lemma SortCons(orders: seq<Order>, row: Row, rows: seq<Row>)
    ensures Sort(orders, [row] + rows) == Insert(orders, row, Sort(orders, rows))
  {
    assert ([row] + rows)[1..] == rows;
  }

  /** The rows the comparator cannot tell from `row`, in the order they stand. */
  function Ties(orders: seq<Order>, rows: seq<Row>, row: Row): seq<Row> {
    Filter(rows, (r: Row) => RowCompare(orders, r, row) == 0)
  }

  lemma {:induction false} SameTiesSameOrder(orders: seq<Order>, s: seq<Row>, t: seq<Row>)
    requires Sorted(orders, s) && Sorted(orders, t)
    requires forall row :: Ties(orders, s, row) == Ties(orders, t, row)
    ensures s == t
  {
    if |s| == 0 {
      if |t| > 0 {
        SomeTies(orders, t);
      }
    } else {
      RowCompareFlips(orders, s[0], s[0]);
      assert s[0] in Ties(orders, s, s[0]);
      assert s[0] in Ties(orders, t, s[0]);
      assert |t| > 0;
      RowCompareFlips(orders, t[0], t[0]);
      assert t[0] in Ties(orders, t, t[0]);
      assert t[0] in Ties(orders, s, t[0]);
      RowCompareFlips(orders, s[0], t[0]);
      HeadOfTies(orders, s, t[0]);
      HeadOfTies(orders, t, t[0]);
      assert s[0] == t[0];
      forall row ensures Ties(orders, s[1..], row) == Ties(orders, t[1..], row) {
        assert Ties(orders, s, row) == Ties(orders, t, row);
        TailOfTies(orders, s, row);
        TailOfTies(orders, t, row);
      }
      SameTiesSameOrder(orders, s[1..], t[1..]);
      assert s == [s[0]] + s[1..] && t == [t[0]] + t[1..];
    }
  }

  lemma SomeTies(orders: seq<Order>, s: seq<Row>)
    requires |s| > 0
    ensures exists row :: Ties(orders, s, row) != []
  {
    RowCompareFlips(orders, s[0], s[0]);
    HeadOfTies(orders, s, s[0]);
    assert Ties(orders, s, s[0]) != [];
  }

  lemma HeadOfTies(orders: seq<Order>, s: seq<Row>, row: Row)
    requires |s| > 0 && RowCompare(orders, s[0], row) == 0
    ensures |Ties(orders, s, row)| > 0 && Ties(orders, s, row)[0] == s[0]
  {
  }

  lemma TailOfTies(orders: seq<Order>, s: seq<Row>, row: Row)
    requires |s| > 0
    ensures Ties(orders, s[1..], row) ==
            if RowCompare(orders, s[0], row) == 0 then Ties(orders, s, row)[1..] else Ties(orders, s, row)
  {
  }

  /** Any arrangement that is sorted and keeps ties in their first order is the result of Sort. */
  lemma SortIsTheStableSort(orders: seq<Order>, rows: seq<Row>, arranged: seq<Row>)
    ensures Sorted(orders, arranged) && (forall row :: Ties(orders, arranged, row) == Ties(orders, rows, row))
            <==> arranged == Sort(orders, rows)
  {
    SortKeeps(orders, rows);
    forall row ensures Ties(orders, Sort(orders, rows), row) == Ties(orders, rows, row) {
      var tie := (r: Row) => RowCompare(orders, r, row) == 0;
      SortFilter(orders, rows, tie);
      AllTied(orders, Filter(rows, tie), row);
    }
    if Sorted(orders, arranged) && forall row :: Ties(orders, arranged, row) == Ties(orders, rows, row) {
      SameTiesSameOrder(orders, arranged, Sort(orders, rows));
    }
  }

  lemma {:induction false} AllTied(orders: seq<Order>, rows: seq<Row>, row: Row)
    requires forall r :: r in rows ==> RowCompare(orders, r, row) == 0
    ensures Sort(orders, rows) == rows
  {
    if |rows| > 1 {
      AllTied(orders, rows[1..], row);
      RowCompareFlips(orders, rows[1], row);
      RowCompareTransitive(orders, rows[0], row, rows[1]);
    }
  }

  // ---------------------------------------------------------------- the plan

  function Slice(rows: seq<Row>, limit: Option<nat>, offset: Option<nat>): seq<Row> {
    var start := if offset.Some? then offset.value else 0;
    var from := if start < |rows| then start else |rows|;
    var to := if limit.Some? && start + limit.value < |rows| then start + limit.value else |rows|;
    rows[from..if to < from then from else to]
  }

  function Arrange(rows: seq<Row>, plan: Plan): (arranged: seq<Row>) {
    Slice(if |plan.orders| > 0 then Sort(plan.orders, rows) else rows, plan.limit, plan.offset)
  }

  function ApplyModelQueryPlan(rows: seq<Row>, plan: Plan): seq<Row> {
    Arrange(Filter(rows, (r: Row) => MatchesConstraints(r, plan.constraints)), plan)
  }

  lemma ArrangeKeeps(rows: seq<Row>, plan: Plan)
    ensures forall r :: r in Arrange(rows, plan) ==> r in rows
  {
    SortKeeps(plan.orders, rows);
  }

  ghost predicate Unlimited(plan: Plan) {
    plan.limit.None? && plan.offset.None?
  }

  lemma ArrangeFilter(rows: seq<Row>, plan: Plan, keep: Row -> bool)
    requires Unlimited(plan)
    ensures Filter(Arrange(rows, plan), keep) == Arrange(Filter(rows, keep), plan)
  {
    SortFilter(plan.orders, rows, keep);
    assert forall s: seq<Row> :: Slice(s, None, None) == s;
  }

  lemma {:induction false} SortWithoutOrders(rows: seq<Row>)
    ensures Sort([], rows) == rows
  {
    if |rows| > 0 {
      SortWithoutOrders(rows[1..]);
    }
  }
}
