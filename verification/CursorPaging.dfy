/** Keyset cursor pagination over a plan, forwards and backwards. */
module CursorPaging {
  import opened Options
  import opened ModelValues
  import opened ModelQuery
  import opened DateTimeCodec

  const MAX_PAGE_SIZE := 1000
  const CURSOR_VERSION := 2
  const ID := "id"

  datatype QueryError = InvalidQuery | InvalidCursor

  datatype Outcome<+T> = Ok(value: T) | Err(error: QueryError)

  /** The cursor before it is written as JSON text in base64url. */
  datatype Cursor = Cursor(version: int, model: string, ordering: seq<Order>, values: Json)

  datatype Input = Input(first: int, after: Option<Cursor>, before: Option<Cursor>)

  datatype Page = Page(items: seq<Row>, next: Option<Cursor>, previous: Option<Cursor>)

  datatype Position = After | Before

  function DeterministicOrders(orders: seq<Order>): (r: seq<Order>)
    ensures exists i :: 0 <= i < |r| && r[i].attribute == ID
    ensures orders <= r
    ensures r != orders ==> forall i :: 0 <= i < |orders| ==> orders[i].attribute != ID
  {
    if exists i :: 0 <= i < |orders| && orders[i].attribute == ID then orders
    else
      var r := orders + [Order(ID, Asc)];
      assert r[|orders|].attribute == ID;
      r
  }

  // ---------------------------------------------------------------- cursors

  /** The row's value for one order; an absent attribute is written as null. */
  function OrderValue(row: Row, order: Order): Value {
    var v := Get(row, order.attribute);
    if v == Absent then Null else v
  }

  function OrderValues(row: Row, orders: seq<Order>): (values: seq<Value>)
    ensures |values| == |orders|
    ensures Present(values)
  {
    if |orders| == 0 then [] else [OrderValue(row, orders[0])] + OrderValues(row, orders[1..])
  }

  predicate Present(values: seq<Value>) {
    forall i :: 0 <= i < |values| ==> values[i] != Absent
  }

  function Scalars(values: seq<Value>): seq<Doxa> {
    if |values| == 0 then [] else [Scalar(values[0])] + Scalars(values[1..])
  }

  /** The scalar values of a decoded array; none when it holds a list or an object. */
  function CursorValues(items: seq<Doxa>): Option<seq<Value>> {
    if |items| == 0 then Some([])
    else
      var rest := CursorValues(items[1..]);
      if rest.None? || !items[0].Scalar? || items[0].v == Absent then None else Some([items[0].v] + rest.value)
  }

  lemma {:induction false} ScalarsEncode(t: TimeText, values: seq<Value>)
    requires Present(values)
    ensures Encode(t, List(Scalars(values))).Some? && Encode(t, List(Scalars(values))).value.JArray?
    ensures CursorValues(Scalars(values)) == Some(values)
  {
    if |values| > 0 {
      ScalarsEncode(t, values[1..]);
      assert Scalars(values)[0] == Scalar(values[0]) && Scalars(values)[1..] == Scalars(values[1..]);
      assert Encode(t, List(Scalars(values[1..]))).Some? ==> EncodeItems(t, Scalars(values[1..])).Some?;
      assert Encode(t, Scalar(values[0])).Some? && values == [values[0]] + values[1..];
    }
  }

  function EncodeCursor(t: TimeText, model: string, row: Row, orders: seq<Order>): Cursor {
    ScalarsEncode(t, OrderValues(row, orders));
    Cursor(CURSOR_VERSION, model, orders, Encode(t, List(Scalars(OrderValues(row, orders)))).value)
  }

  function DecodeCursor(t: TimeText, cursor: Cursor, model: string, orders: seq<Order>): (r: Option<seq<Value>>)
    ensures r.Some? ==> Present(r.value)
  {
    if cursor.version != CURSOR_VERSION || cursor.model != model || cursor.ordering != orders ||
       !cursor.values.JArray?
    then None
    else
      var decoded := Decode(t, cursor.values);
      if decoded.None? || !decoded.value.List? then None
      else
        CursorValuesPresent(decoded.value.items);
        CursorValues(decoded.value.items)
  }

  lemma {:induction false} CursorValuesPresent(items: seq<Doxa>)
    ensures CursorValues(items).Some? ==> Present(CursorValues(items).value)
  {
    if |items| > 0 {
      CursorValuesPresent(items[1..]);
    }
  }

  /** Decoding a row's cursor yields the row's ordering values. */
  lemma CursorRoundTrip(t: TimeText, model: string, row: Row, orders: seq<Order>)
    requires t.Sound()
    ensures DecodeCursor(t, EncodeCursor(t, model, row, orders), model, orders) == Some(OrderValues(row, orders))
  {
    var values := OrderValues(row, orders);
    ScalarsEncode(t, values);
    RoundTrip(t, List(Scalars(values)));
  }

  /** The two cursor functions of one model and one ordering. */
  datatype CursorCodec = CursorCodec(encode: Row -> Cursor, decode: Cursor -> Option<seq<Value>>)
  {
    ghost predicate Sound(orders: seq<Order>) {
      forall row: Row :: decode(encode(row)) == Some(OrderValues(row, orders))
    }
  }

  function CodecFor(t: TimeText, model: string, orders: seq<Order>): CursorCodec {
    CursorCodec((row: Row) => EncodeCursor(t, model, row, orders), (c: Cursor) => DecodeCursor(t, c, model, orders))
  }

  lemma CodecIsSound(t: TimeText, model: string, orders: seq<Order>)
    requires t.Sound()
    ensures CodecFor(t, model, orders).Sound(orders)
  {
    forall row: Row
      ensures CodecFor(t, model, orders).decode(CodecFor(t, model, orders).encode(row)) == Some(OrderValues(row, orders))
    {
      CursorRoundTrip(t, model, row, orders);
    }
  }

  // ---------------------------------------------------------------- the position constraint

  function PositionPredicate(order: Order, value: Value, position: Position): Predicate {
    if value == Null then
      if (order.direction == Asc && position == After) || (order.direction == Desc && position == Before)
      then IsNull(order.attribute, true)
      else Membership(order.attribute, [], false)
    else
      var forward := if order.direction == Asc then Gt else Lt;
      var backward := if forward == Gt then Lt else Gt;
      var comparison := Comparison(order.attribute, if position == After then forward else backward, value);
      if (order.direction == Asc && position == Before) || (order.direction == Desc && position == After) then
        Group([Constraint(And, comparison), Constraint(Or, IsNull(order.attribute, false))])
      else comparison
  }

  function EqualTo(order: Order, value: Value): Constraint {
    Constraint(And, if value == Null then IsNull(order.attribute, false) else Comparison(order.attribute, Eq, value))
  }

  function Equals(orders: seq<Order>, values: seq<Value>, count: nat): seq<Constraint>
    requires count <= |orders| == |values|
  {
    seq(count, i requires 0 <= i < count => EqualTo(orders[i], values[i]))
  }

  function Alternative(orders: seq<Order>, values: seq<Value>, index: nat, position: Position): Constraint
    requires index < |orders| == |values|
  {
    Constraint(if index == 0 then And else Or,
               Group(Equals(orders, values, index) +
                     [Constraint(And, PositionPredicate(orders[index], values[index], position))]))
  }

  function Alternatives(orders: seq<Order>, values: seq<Value>, position: Position): seq<Constraint>
    requires |orders| == |values|
  {
    seq(|orders|, i requires 0 <= i < |orders| => Alternative(orders, values, i, position))
  }

  function CursorConstraint(orders: seq<Order>, values: seq<Value>, position: Position): Constraint
    requires |orders| == |values|
  {
    Constraint(And, Group(Alternatives(orders, values, position)))
  }

  /** The sort's comparator against the values of a cursor instead of a second row. */
  function CompareTo(orders: seq<Order>, row: Row, values: seq<Value>): int
    requires |orders| == |values|
  {
    if |orders| == 0 then 0
    else
      var c := Compare(Get(row, orders[0].attribute), values[0]);
      if c != 0 then Signed(orders[0].direction, c) else CompareTo(orders[1..], row, values[1..])
  }

  function Toward(position: Position, c: int): int {
    if position == After then c else -c
  }

  ghost predicate DiffersFirstAt(orders: seq<Order>, row: Row, values: seq<Value>, position: Position, k: nat)
    requires k < |orders| == |values|
  {
    && (forall j :: 0 <= j < k ==> Compare(Get(row, orders[j].attribute), values[j]) == 0)
    && Toward(position, Signed(orders[k].direction, Compare(Get(row, orders[k].attribute), values[k]))) > 0
  }

  lemma PositionMeaning(row: Row, order: Order, value: Value, position: Position)
    requires value != Absent
    ensures MatchesPredicate(row, PositionPredicate(order, value, position)) <==>
            Toward(position, Signed(order.direction, Compare(Get(row, order.attribute), value))) > 0
  {
    var p := PositionPredicate(order, value, position);
    if p.Group? {
      Disjunction(row, p.predicates[0], p.predicates[1]);
    }
  }

  lemma Disjunction(row: Row, a: Constraint, b: Constraint)
    requires b.boolean == Or
    ensures MatchesConstraints(row, [a, b]) <==> Holds(row, a) || Holds(row, b)
  {
    assert [a, b][..1] == [a];
    assert MatchesConstraints(row, [a]) == Holds(row, a);
  }

  lemma Conjunction(row: Row, constraints: seq<Constraint>)
    requires Conjuncts(constraints)
    ensures MatchesConstraints(row, constraints) <==>
            forall i :: 0 <= i < |constraints| ==> Holds(row, constraints[i])
  {
    AppendedConjuncts(row, [], constraints);
    assert [] + constraints == constraints;
  }

  lemma EqualToMeaning(row: Row, order: Order, value: Value)
    requires value != Absent
    ensures Holds(row, EqualTo(order, value)) <==> Compare(Get(row, order.attribute), value) == 0
  {
  }

  lemma AlternativeMeaning(row: Row, orders: seq<Order>, values: seq<Value>, k: nat, position: Position)
    requires k < |orders| == |values| && Present(values)
    ensures Holds(row, Alternative(orders, values, k, position)) <==> DiffersFirstAt(orders, row, values, position, k)
  {
    var at := Constraint(And, PositionPredicate(orders[k], values[k], position));
    var all := Equals(orders, values, k) + [at];
    Conjunction(row, all);
    PositionMeaning(row, orders[k], values[k], position);
    forall j | 0 <= j < k
      ensures Holds(row, all[j]) <==> Compare(Get(row, orders[j].attribute), values[j]) == 0
    {
      EqualToMeaning(row, orders[j], values[j]);
    }
    assert all[k] == at;
  }

  lemma {:induction false} CompareToMeaning(orders: seq<Order>, row: Row, values: seq<Value>, position: Position)
    requires |orders| == |values|
    ensures Toward(position, CompareTo(orders, row, values)) > 0 <==>
            exists k :: 0 <= k < |orders| && DiffersFirstAt(orders, row, values, position, k)
  {
    if |orders| > 0 {
      CompareToMeaning(orders[1..], row, values[1..], position);
      var c := Compare(Get(row, orders[0].attribute), values[0]);
      if c != 0 {
        assert DiffersFirstAt(orders, row, values, position, 0) <==> Toward(position, Signed(orders[0].direction, c)) > 0;
      } else {
        forall k | 0 <= k < |orders| - 1
          ensures DiffersFirstAt(orders[1..], row, values[1..], position, k) <==>
                  DiffersFirstAt(orders, row, values, position, k + 1)
        {
          ShiftDifference(orders, row, values, position, k);
        }
        if exists k :: 0 <= k < |orders| && DiffersFirstAt(orders, row, values, position, k) {
          var k :| 0 <= k < |orders| && DiffersFirstAt(orders, row, values, position, k);
          assert DiffersFirstAt(orders[1..], row, values[1..], position, k - 1);
        }
      }
    }
  }

  lemma ShiftDifference(orders: seq<Order>, row: Row, values: seq<Value>, position: Position, k: nat)
    requires k + 1 < |orders| == |values|
    requires Compare(Get(row, orders[0].attribute), values[0]) == 0
    ensures DiffersFirstAt(orders[1..], row, values[1..], position, k) <==>
            DiffersFirstAt(orders, row, values, position, k + 1)
  {
    if DiffersFirstAt(orders[1..], row, values[1..], position, k) {
      forall j | 0 <= j < k + 1 ensures Compare(Get(row, orders[j].attribute), values[j]) == 0 {
        if j > 0 {
          assert orders[1..][j - 1] == orders[j];
        }
      }
    }
  }

  /** The generated or-of-prefix-equalities holds of exactly the rows strictly past the cursor. */
  lemma CursorConstraintMeaning(row: Row, orders: seq<Order>, values: seq<Value>, position: Position)
    requires 0 < |orders| == |values| && Present(values)
    ensures Holds(row, CursorConstraint(orders, values, position)) <==>
            Toward(position, CompareTo(orders, row, values)) > 0
  {
    var alternatives := Alternatives(orders, values, position);
    LeftFoldMeaning(row, alternatives);
    CompareToMeaning(orders, row, values, position);
    forall k | 0 <= k < |orders|
      ensures Decides(row, alternatives, k) <==> DiffersFirstAt(orders, row, values, position, k)
    {
      AlternativeMeaning(row, orders, values, k, position);
      assert alternatives[k] == Alternative(orders, values, k, position);
    }
  }

  /** Comparing with a row's cursor values is comparing with the row. */
  lemma {:induction false} CompareToRow(orders: seq<Order>, row: Row, other: Row)
    ensures CompareTo(orders, row, OrderValues(other, orders)) == RowCompare(orders, row, other)
  {
    if |orders| > 0 {
      CompareToRow(orders[1..], row, other);
    }
  }

  // ---------------------------------------------------------------- rows in the full order

  ghost predicate UniqueIds(rows: seq<Row>) {
    forall i, j :: 0 <= i < j < |rows| ==> Compare(Get(rows[i], ID), Get(rows[j], ID)) != 0
  }

  ghost predicate Distinguished(orders: seq<Order>, rows: seq<Row>) {
    forall i, j :: 0 <= i < j < |rows| ==> RowCompare(orders, rows[i], rows[j]) != 0
  }

  ghost predicate Strict(orders: seq<Order>, rows: seq<Row>) {
    forall i, j :: 0 <= i < j < |rows| ==> RowCompare(orders, rows[i], rows[j]) < 0
  }

  lemma {:induction false} IdDistinguishes(orders: seq<Order>, l: Row, r: Row)
    requires exists i :: 0 <= i < |orders| && orders[i].attribute == ID
    requires Compare(Get(l, ID), Get(r, ID)) != 0
    ensures RowCompare(orders, l, r) != 0
  {
    if orders[0].attribute != ID {
      var i :| 0 <= i < |orders| && orders[i].attribute == ID;
      assert orders[1..][i - 1].attribute == ID;
      IdDistinguishes(orders[1..], l, r);
    }
  }

  lemma {:induction false} FilterDistinguished(orders: seq<Order>, rows: seq<Row>, keep: Row -> bool)
    requires Distinguished(orders, rows)
    ensures Distinguished(orders, Filter(rows, keep))
  {
    if |rows| > 0 {
      FilterDistinguished(orders, rows[1..], keep);
      var rest := Filter(rows[1..], keep);
      forall j | 0 <= j < |rest| ensures RowCompare(orders, rows[0], rest[j]) != 0 {
        assert rest[j] in rest;
      }
    }
  }

  lemma {:induction false} SortStrict(orders: seq<Order>, rows: seq<Row>)
    requires Distinguished(orders, rows)
    ensures Strict(orders, Sort(orders, rows))
  {
    if |rows| > 0 {
      SortStrict(orders, rows[1..]);
      SortKeeps(orders, rows[1..]);
      InsertStrict(orders, rows[0], Sort(orders, rows[1..]));
    }
  }

  lemma {:induction false} InsertStrict(orders: seq<Order>, row: Row, rows: seq<Row>)
    requires Strict(orders, rows)
    requires forall r :: r in rows ==> RowCompare(orders, row, r) != 0
    ensures Strict(orders, Insert(orders, row, rows))
    ensures forall r :: r in Insert(orders, row, rows) <==> r == row || r in rows
  {
    if |rows| > 0 {
      assert rows == [rows[0]] + rows[1..];
      if RowCompare(orders, row, rows[0]) <= 0 {
        forall j | 0 <= j < |rows| ensures RowCompare(orders, row, rows[j]) < 0 {
          RowCompareTransitive(orders, row, rows[0], rows[j]);
        }
      } else {
        InsertStrict(orders, row, rows[1..]);
        InsertedBehind(orders, row, rows, Insert(orders, row, rows[1..]));
      }
    }
  }

  lemma InsertedBehind(orders: seq<Order>, row: Row, rows: seq<Row>, rest: seq<Row>)
    requires |rows| > 0 && Strict(orders, rows) && RowCompare(orders, row, rows[0]) > 0
    requires Strict(orders, rest) && forall r :: r in rest <==> r == row || r in rows[1..]
    ensures Strict(orders, [rows[0]] + rest)
  {
    RowCompareFlips(orders, row, rows[0]);
    forall j | 0 <= j < |rest| ensures RowCompare(orders, rows[0], rest[j]) < 0 {
      assert rest[j] in rest;
    }
  }

  lemma SameEmptiness(s: seq<Row>, t: seq<Row>)
    requires forall r :: r in s <==> r in t
    ensures |s| == 0 <==> |t| == 0
  {
    if |s| > 0 {
      assert s[0] in t;
    }
    if |t| > 0 {
      assert t[0] in s;
    }
  }

  lemma {:induction false} StrictUnique(orders: seq<Order>, s: seq<Row>, t: seq<Row>)
    requires Strict(orders, s) && Strict(orders, t)
    requires forall r :: r in s <==> r in t
    ensures s == t
  {
    if |s| == 0 || |t| == 0 {
      SameEmptiness(s, t);
    } else {
      assert s[0] in t && t[0] in s;
      RowCompareFlips(orders, s[0], t[0]);
      assert s[0] == t[0];
      forall r ensures r in s[1..] <==> r in t[1..] {
        RowCompareFlips(orders, r, r);
        assert s == [s[0]] + s[1..] && t == [t[0]] + t[1..];
        assert r in s <==> r == s[0] || r in s[1..];
        assert r in t <==> r == t[0] || r in t[1..];
      }
      StrictUnique(orders, s[1..], t[1..]);
    }
  }

  function Flipped(orders: seq<Order>): (r: seq<Order>)
    ensures |r| == |orders|
  {
    seq(|orders|, i requires 0 <= i < |orders| =>
      Order(orders[i].attribute, if orders[i].direction == Asc then Desc else Asc))
  }

  function Reverse(rows: seq<Row>): seq<Row> {
    seq(|rows|, i requires 0 <= i < |rows| => rows[|rows| - 1 - i])
  }

  lemma {:induction false} FlippedCompare(orders: seq<Order>, l: Row, r: Row)
    ensures RowCompare(Flipped(orders), l, r) == -RowCompare(orders, l, r)
  {
    if |orders| > 0 {
      assert Flipped(orders)[1..] == Flipped(orders[1..]);
      FlippedCompare(orders[1..], l, r);
    }
  }

  /** Sorting distinguished rows by the flipped orders reverses them. */
  lemma SortFlipped(orders: seq<Order>, rows: seq<Row>)
    requires Distinguished(orders, rows)
    ensures Sort(Flipped(orders), rows) == Reverse(Sort(orders, rows))
  {
    var s, t := Sort(orders, rows), Sort(Flipped(orders), rows);
    FlippedDistinguished(orders, rows);
    SortStrict(orders, rows);
    SortStrict(Flipped(orders), rows);
    SortKeeps(orders, rows);
    SortKeeps(Flipped(orders), rows);
    ReverseStrict(orders, s);
    StrictUnique(Flipped(orders), t, Reverse(s));
  }

  lemma FlippedDistinguished(orders: seq<Order>, rows: seq<Row>)
    requires Distinguished(orders, rows)
    ensures Distinguished(Flipped(orders), rows)
  {
    forall i, j | 0 <= i < j < |rows| ensures RowCompare(Flipped(orders), rows[i], rows[j]) != 0 {
      FlippedCompare(orders, rows[i], rows[j]);
    }
  }

  lemma ReverseStrict(orders: seq<Order>, s: seq<Row>)
    requires Strict(orders, s)
    ensures Strict(Flipped(orders), Reverse(s)) && forall r :: r in Reverse(s) <==> r in s
  {
    var u := Reverse(s);
    forall i, j | 0 <= i < j < |u| ensures RowCompare(Flipped(orders), u[i], u[j]) < 0 {
      FlippedCompare(orders, u[i], u[j]);
      RowCompareFlips(orders, u[i], u[j]);
    }
    forall r ensures r in u <==> r in s {
      if r in s {
        var i :| 0 <= i < |s| && s[i] == r;
        assert u[|s| - 1 - i] == r;
      }
    }
  }

  function Past(orders: seq<Order>, values: seq<Value>, position: Position): Row -> bool
    requires |orders| == |values|
  {
    (r: Row) => Toward(position, CompareTo(orders, r, values)) > 0
  }

  lemma FilterSuffix(s: seq<Row>, k: nat, f: Row -> bool)
    requires k <= |s| && forall i :: 0 <= i < |s| ==> (f(s[i]) <==> k <= i)
    ensures Filter(s, f) == s[k..]
  {
    FilterHalves(s, k, f);
    forall r | r in s[..k] ensures !f(r) {
      var i :| 0 <= i < k && s[i] == r;
    }
    FilterNone(s[..k], f);
    forall r | r in s[k..] ensures f(r) {
      var i :| k <= i < |s| && s[i] == r;
    }
    FilterAll(s[k..], f);
  }

  lemma FilterPrefix(s: seq<Row>, k: nat, f: Row -> bool)
    requires k <= |s| && forall i :: 0 <= i < |s| ==> (f(s[i]) <==> i < k)
    ensures Filter(s, f) == s[..k]
  {
    FilterHalves(s, k, f);
    forall r | r in s[..k] ensures f(r) {
      var i :| 0 <= i < k && s[i] == r;
    }
    FilterAll(s[..k], f);
    forall r | r in s[k..] ensures !f(r) {
      var i :| k <= i < |s| && s[i] == r;
    }
    FilterNone(s[k..], f);
  }

  lemma FilterHalves(s: seq<Row>, k: nat, f: Row -> bool)
    requires k <= |s|
    ensures Filter(s, f) == Filter(s[..k], f) + Filter(s[k..], f)
  {
    assert s == s[..k] + s[k..];
    FilterAppend(s[..k], s[k..], f);
  }

  /** The rows past position `k` of a strictly ordered sequence, found by their values alone. */
  lemma FilterPast(orders: seq<Order>, s: seq<Row>, k: nat, position: Position)
    requires Strict(orders, s) && k < |s|
    ensures Filter(s, Past(orders, OrderValues(s[k], orders), position)) ==
            if position == After then s[k + 1..] else s[..k]
  {
    var past := Past(orders, OrderValues(s[k], orders), position);
    forall i | 0 <= i < |s| ensures past(s[i]) <==> if position == After then k + 1 <= i else i < k {
      PastAt(orders, s, k, position, i);
    }
    if position == After {
      FilterSuffix(s, k + 1, past);
    } else {
      FilterPrefix(s, k, past);
    }
  }

  lemma PastAt(orders: seq<Order>, s: seq<Row>, k: nat, position: Position, i: nat)
    requires Strict(orders, s) && k < |s| && i < |s|
    ensures Past(orders, OrderValues(s[k], orders), position)(s[i]) <==> if position == After then k < i else i < k
  {
    CompareToRow(orders, s[i], s[k]);
    RowCompareFlips(orders, s[i], s[k]);
  }

  // ---------------------------------------------------------------- pages

  /** What a session's query returns; `tail` is what resolving the relationship constraints appended. */
  function Query(rows: seq<Row>, plan: Plan, tail: seq<Constraint>): seq<Row> {
    ApplyModelQueryPlan(rows, plan.(constraints := plan.constraints + tail))
  }

  /** The plan of one page: the position constraint added, orders flipped for `before`, limit and offset overridden. */
  function PagePlan(plan: Plan, orders: seq<Order>, values: Option<seq<Value>>, reverse: bool, limit: nat): Plan
    requires values.Some? ==> |values.value| == |orders|
  {
    var constraints :=
      if values.Some?
      then plan.constraints + [CursorConstraint(orders, values.value, if reverse then Before else After)]
      else plan.constraints;
    Plan(constraints, if reverse then Flipped(orders) else orders, plan.relationships, Some(limit), None)
  }

  /** `found` is cut to the page size; the row beyond it, if any, says that there is more. */
  function BuildPage(codec: CursorCodec, found: seq<Row>, first: nat, reverse: bool, after: bool): Page {
    var hasMore := |found| > first;
    var cut := if hasMore then found[..first] else found;
    var items := if reverse then Reverse(cut) else cut;
    Page(items,
         if |items| > 0 && ((!reverse && hasMore) || reverse)
         then Some(codec.encode(items[|items| - 1])) else None,
         if |items| > 0 && ((reverse && hasMore) || after)
         then Some(codec.encode(items[0])) else None)
  }

  type Fetch = (Option<seq<Value>>, bool, nat) -> Outcome<seq<Row>>

  /** Positions the plan at the cursor's values and queries one page of it. */
  function FetchPage(rows: seq<Row>, plan: Plan, tail: seq<Constraint>, values: Option<seq<Value>>, reverse: bool, limit: nat)
    : Outcome<seq<Row>>
  {
    var orders := DeterministicOrders(plan.orders);
    if values.Some? && |values.value| != |orders| then Err(InvalidCursor)
    else Ok(Query(rows, PagePlan(plan, orders, values, reverse, limit), tail))
  }

  function FetchFor(rows: seq<Row>, plan: Plan, tail: seq<Constraint>): Fetch {
    (values: Option<seq<Value>>, reverse: bool, limit: nat) => FetchPage(rows, plan, tail, values, reverse, limit)
  }

  function CursorPaginate(codec: CursorCodec, fetch: Fetch, input: Input): Outcome<Page> {
    if !(0 < input.first <= MAX_PAGE_SIZE) then Err(InvalidQuery)
    else if input.after.Some? && input.before.Some? then Err(InvalidCursor)
    else
      var cursor := if input.after.Some? then input.after else input.before;
      var reverse := input.before.Some?;
      var values := if cursor.Some? then codec.decode(cursor.value) else None;
      if cursor.Some? && values.None? then Err(InvalidCursor)
      else
        var found := fetch(values, reverse, input.first + 1);
        if found.Err? then Err(found.error)
        else Ok(BuildPage(codec, found.value, input.first, reverse, input.after.Some?))
  }

  /** A page size from 1 to 1,000 is accepted, one cursor at most, and only a cursor of this model and this ordering. */
  lemma AcceptedInputs(t: TimeText, model: string, orders: seq<Order>, fetch: Fetch, input: Input)
    ensures var page := CursorPaginate(CodecFor(t, model, orders), fetch, input);
            && (input.first < 1 || input.first > 1_000 ==> page == Err(InvalidQuery))
            && (1 <= input.first <= 1_000 && input.after.Some? && input.before.Some? ==> page == Err(InvalidCursor))
            && (1 <= input.first <= 1_000 && page.Ok? ==>
                  forall c :: input.after == Some(c) || input.before == Some(c) ==> c.version == 2 && c.model == model && c.ordering == orders)
  {
  }

  /** The whole answer: the filtered rows in the full deterministic order, whatever the plan's limit and offset. */
  function Answer(rows: seq<Row>, plan: Plan, tail: seq<Constraint>): seq<Row> {
    Sort(DeterministicOrders(plan.orders), Filter(rows, (r: Row) => MatchesConstraints(r, plan.constraints + tail)))
  }

  lemma AnswerStrict(rows: seq<Row>, plan: Plan, tail: seq<Constraint>)
    requires UniqueIds(rows)
    ensures var orders := DeterministicOrders(plan.orders);
            && Strict(orders, Answer(rows, plan, tail))
            && Distinguished(orders, Filter(rows, (r: Row) => MatchesConstraints(r, plan.constraints + tail)))
  {
    var orders := DeterministicOrders(plan.orders);
    var keep := (r: Row) => MatchesConstraints(r, plan.constraints + tail);
    forall i, j | 0 <= i < j < |rows| ensures RowCompare(orders, rows[i], rows[j]) != 0 {
      IdDistinguishes(orders, rows[i], rows[j]);
    }
    FilterDistinguished(orders, rows, keep);
    SortStrict(orders, Filter(rows, keep));
  }

  /** A positioned query keeps exactly the answer's rows past the cursor, in the answer's order or its reverse. */
  lemma PositionedQuery(rows: seq<Row>, plan: Plan, tail: seq<Constraint>, values: seq<Value>, reverse: bool, limit: nat)
    requires UniqueIds(rows) && Conjuncts(tail)
    requires |values| == |DeterministicOrders(plan.orders)| && Present(values)
    ensures var orders := DeterministicOrders(plan.orders);
            var past := Filter(Answer(rows, plan, tail), Past(orders, values, if reverse then Before else After));
            Query(rows, PagePlan(plan, orders, Some(values), reverse, limit), tail) ==
            Slice(if reverse then Reverse(past) else past, Some(limit), None)
  {
    var orders := DeterministicOrders(plan.orders);
    var at := CursorConstraint(orders, values, if reverse then Before else After);
    var keep := (r: Row) => MatchesConstraints(r, plan.constraints + tail);
    var beyond := Past(orders, values, if reverse then Before else After);
    var narrowed := (r: Row) => MatchesConstraints(r, (plan.constraints + [at]) + tail);
    forall r: Row ensures narrowed(r) == (keep(r) && beyond(r)) {
      AppendedConjuncts(r, plan.constraints, tail);
      AppendedConjuncts(r, plan.constraints, [at] + tail);
      assert plan.constraints + ([at] + tail) == (plan.constraints + [at]) + tail;
      assert forall c :: c in [at] + tail <==> c == at || c in tail;
      CursorConstraintMeaning(r, orders, values, if reverse then Before else After);
    }
    FilterFilter(rows, keep, beyond);
    FilterCongruent(rows, narrowed, (r: Row) => keep(r) && beyond(r));
    var kept := Filter(rows, keep);
    assert Filter(rows, narrowed) == Filter(kept, beyond);
    SortFilter(orders, kept, beyond);
    if reverse {
      AnswerStrict(rows, plan, tail);
      FilterDistinguished(orders, kept, beyond);
      SortFlipped(orders, Filter(kept, beyond));
    }
  }

  function Min(a: int, b: int): int {
    if a < b then a else b
  }

  function Max(a: int, b: int): int {
    if a < b then b else a
  }

  /** The first rows of `s` past the values, nearest first. */
  function Nearest(orders: seq<Order>, s: seq<Row>, values: seq<Value>, reverse: bool, limit: nat): seq<Row>
    requires |values| == |orders|
  {
    var past := Filter(s, Past(orders, values, if reverse then Before else After));
    Slice(if reverse then Reverse(past) else past, Some(limit), None)
  }

  lemma PositionedFetch(rows: seq<Row>, plan: Plan, tail: seq<Constraint>, orders: seq<Order>, values: seq<Value>, reverse: bool, limit: nat,
                        found: seq<Row>)
    requires UniqueIds(rows) && Conjuncts(tail) && orders == DeterministicOrders(plan.orders)
    requires |values| == |orders| && Present(values) && found == Nearest(orders, Answer(rows, plan, tail), values, reverse, limit)
    ensures FetchPage(rows, plan, tail, Some(values), reverse, limit) == Ok(found)
  {
    PositionedQuery(rows, plan, tail, values, reverse, limit);
  }

  lemma NearestAfter(orders: seq<Order>, s: seq<Row>, values: seq<Value>, k: nat, limit: nat)
    requires Strict(orders, s) && 0 < k <= |s| && values == OrderValues(s[k - 1], orders)
    ensures Nearest(orders, s, values, false, limit) == s[k..Min(k + limit, |s|)]
  {
    FilterPast(orders, s, k - 1, After);
    SliceOfRest(s, k, limit);
  }

  lemma SliceOfRest(s: seq<Row>, k: nat, limit: nat)
    requires k <= |s|
    ensures Slice(s[k..], Some(limit), None) == s[k..Min(k + limit, |s|)]
  {
    assert |s[k..]| == |s| - k;
  }

  lemma SliceOfReverse(s: seq<Row>, k: nat, limit: nat)
    requires k <= |s|
    ensures Slice(Reverse(s[..k]), Some(limit), None) == Reverse(s[Max(k - limit, 0)..k])
  {
    assert |Reverse(s[..k])| == k;
  }

  lemma NearestBefore(orders: seq<Order>, s: seq<Row>, k: nat, limit: nat)
    requires Strict(orders, s) && k < |s|
    ensures Nearest(orders, s, OrderValues(s[k], orders), true, limit) == Reverse(s[Max(k - limit, 0)..k])
  {
    FilterPast(orders, s, k, Before);
    SliceOfReverse(s, k, limit);
  }

  /** The fetch serves `s` at `k`: forwards it returns the rows from `k` on, backwards those up to `k`, nearest first. */
  ghost predicate ServesAfter(fetch: Fetch, orders: seq<Order>, s: seq<Row>, k: nat, limit: nat) {
    k <= |s| ==>
      fetch(if k == 0 then None else Some(OrderValues(s[k - 1], orders)), false, limit) == Ok(s[k..Min(k + limit, |s|)])
  }

  ghost predicate ServesBefore(fetch: Fetch, orders: seq<Order>, s: seq<Row>, k: nat, limit: nat) {
    k < |s| ==> fetch(Some(OrderValues(s[k], orders)), true, limit) == Ok(Reverse(s[Max(k - limit, 0)..k]))
  }

  ghost predicate Serves(fetch: Fetch, orders: seq<Order>, s: seq<Row>) {
    && (forall k: nat, limit: nat :: ServesAfter(fetch, orders, s, k, limit))
    && (forall k: nat, limit: nat :: ServesBefore(fetch, orders, s, k, limit))
  }

  lemma ServesForward(rows: seq<Row>, plan: Plan, tail: seq<Constraint>, orders: seq<Order>, s: seq<Row>, values: seq<Value>, k: nat, limit: nat)
    requires UniqueIds(rows) && Conjuncts(tail) && orders == DeterministicOrders(plan.orders)
    requires s == Answer(rows, plan, tail) && Strict(orders, s) && 0 < k <= |s| && values == OrderValues(s[k - 1], orders)
    ensures FetchPage(rows, plan, tail, Some(values), false, limit) == Ok(s[k..Min(k + limit, |s|)])
  {
    NearestAfter(orders, s, values, k, limit);
    PositionedFetch(rows, plan, tail, orders, values, false, limit, s[k..Min(k + limit, |s|)]);
  }

  lemma ServesBackward(rows: seq<Row>, plan: Plan, tail: seq<Constraint>, orders: seq<Order>, s: seq<Row>, values: seq<Value>, k: nat, limit: nat)
    requires UniqueIds(rows) && Conjuncts(tail) && orders == DeterministicOrders(plan.orders)
    requires s == Answer(rows, plan, tail) && Strict(orders, s) && k < |s| && values == OrderValues(s[k], orders)
    ensures FetchPage(rows, plan, tail, Some(values), true, limit) == Ok(Reverse(s[Max(k - limit, 0)..k]))
  {
    NearestBefore(orders, s, k, limit);
    PositionedFetch(rows, plan, tail, orders, values, true, limit, Reverse(s[Max(k - limit, 0)..k]));
  }

  lemma FirstQuery(rows: seq<Row>, plan: Plan, tail: seq<Constraint>, limit: nat)
    ensures var s := Answer(rows, plan, tail);
            FetchPage(rows, plan, tail, None, false, limit) == Ok(s[..Min(limit, |s|)])
  {
  }

  /** With unique ids the plan's query serves the whole answer, whatever the orders and null values. */
  lemma QueryServes(rows: seq<Row>, plan: Plan, tail: seq<Constraint>)
    requires UniqueIds(rows) && Conjuncts(tail)
    ensures Serves(FetchFor(rows, plan, tail), DeterministicOrders(plan.orders), Answer(rows, plan, tail))
  {
    var orders, s, fetch := DeterministicOrders(plan.orders), Answer(rows, plan, tail), FetchFor(rows, plan, tail);
    AnswerStrict(rows, plan, tail);
    forall k: nat, limit: nat ensures ServesAfter(fetch, orders, s, k, limit) {
      if k == 0 {
        FirstFetch(rows, plan, tail, s, limit);
      } else if k <= |s| {
        var values := OrderValues(s[k - 1], orders);
        ServesForward(rows, plan, tail, orders, s, values, k, limit);
        FetchIs(rows, plan, tail, Some(values), Ok(s[k..Min(k + limit, |s|)]), limit);
      }
    }
    forall k: nat, limit: nat ensures ServesBefore(fetch, orders, s, k, limit) {
      if k < |s| {
        ServesBackward(rows, plan, tail, orders, s, OrderValues(s[k], orders), k, limit);
      }
    }
  }

  lemma FirstFetch(rows: seq<Row>, plan: Plan, tail: seq<Constraint>, s: seq<Row>, limit: nat)
    requires s == Answer(rows, plan, tail)
    ensures FetchFor(rows, plan, tail)(None, false, limit) == Ok(s[0..Min(limit, |s|)])
  {
    FirstQuery(rows, plan, tail, limit);
    assert s[0..Min(limit, |s|)] == s[..Min(limit, |s|)];
  }

  lemma FetchIs(rows: seq<Row>, plan: Plan, tail: seq<Constraint>, values: Option<seq<Value>>, found: Outcome<seq<Row>>, limit: nat)
    requires found == FetchPage(rows, plan, tail, values, false, limit)
    ensures FetchFor(rows, plan, tail)(values, false, limit) == found
  {
  }

  /** The page that starts at position `k` of the answer. */
  function PageAt(codec: CursorCodec, s: seq<Row>, k: nat, first: nat): Page
    requires k <= |s| && 0 < first
  {
    var end := Min(k + first, |s|);
    Page(s[k..end],
         if end < |s| then Some(codec.encode(s[end - 1])) else None,
         if 0 < k < |s| then Some(codec.encode(s[k])) else None)
  }

  /** The first page, and the page after the row at `k - 1`, are the answer's rows from `k` on. */
  lemma ForwardPage(codec: CursorCodec, fetch: Fetch, orders: seq<Order>, s: seq<Row>, first: nat, k: nat)
    requires codec.Sound(orders) && Serves(fetch, orders, s) && 0 < first <= MAX_PAGE_SIZE && k <= |s|
    ensures var after := if k == 0 then None else Some(codec.encode(s[k - 1]));
            CursorPaginate(codec, fetch, Input(first, after, None)) == Ok(PageAt(codec, s, k, first))
  {
    assert ServesAfter(fetch, orders, s, k, first + 1);
    ForwardItems(codec, s, first, k);
  }

  lemma ForwardItems(codec: CursorCodec, s: seq<Row>, first: nat, k: nat)
    requires 0 < first && k <= |s|
    ensures BuildPage(codec, s[k..Min(k + first + 1, |s|)], first, false, k > 0) == PageAt(codec, s, k, first)
  {
    var found := s[k..Min(k + first + 1, |s|)];
    assert (if |found| > first then found[..first] else found) == s[k..Min(k + first, |s|)];
  }

  lemma ReverseCut(s: seq<Row>, k: nat, first: nat)
    requires k < |s|
    ensures var found := Reverse(s[Max(k - first - 1, 0)..k]);
            Reverse(if |found| > first then found[..first] else found) == s[Max(k - first, 0)..k]
  {
  }

  lemma BackwardItems(codec: CursorCodec, s: seq<Row>, first: nat, k: nat)
    requires 0 < first && k < |s|
    ensures var start := Max(k - first, 0);
            BuildPage(codec, Reverse(s[Max(k - first - 1, 0)..k]), first, true, false) ==
            Page(s[start..k],
                 if k > 0 then Some(codec.encode(s[k - 1])) else None,
                 if start > 0 then Some(codec.encode(s[start])) else None)
  {
    var found, items := Reverse(s[Max(k - first - 1, 0)..k]), s[Max(k - first, 0)..k];
    ReverseCut(s, k, first);
    assert |found| == k - Max(k - first - 1, 0) && |items| == k - Max(k - first, 0);
    BuildBackward(codec, found, items, first);
    BackwardEnds(s, first, k, items);
  }

  lemma BackwardEnds(s: seq<Row>, first: nat, k: nat, items: seq<Row>)
    requires 0 < first && k < |s| && items == s[Max(k - first, 0)..k]
    ensures |items| > 0 <==> k > 0
    ensures |items| > 0 ==> items[|items| - 1] == s[k - 1] && items[0] == s[Max(k - first, 0)]
  {
  }

  lemma BuildBackward(codec: CursorCodec, found: seq<Row>, items: seq<Row>, first: nat)
    requires items == Reverse(if |found| > first then found[..first] else found)
    ensures BuildPage(codec, found, first, true, false) ==
            Page(items,
                 if |items| > 0 then Some(codec.encode(items[|items| - 1])) else None,
                 if |items| > 0 && |found| > first then Some(codec.encode(items[0])) else None)
  {
  }

  /** The page before the row at `k` is the rows that end at `k`, in forward order. */
  lemma BackwardPage(codec: CursorCodec, fetch: Fetch, orders: seq<Order>, s: seq<Row>, first: nat, k: nat)
    requires codec.Sound(orders) && Serves(fetch, orders, s) && 0 < first <= MAX_PAGE_SIZE && k < |s|
    ensures var before := Some(codec.encode(s[k]));
            var start := Max(k - first, 0);
            CursorPaginate(codec, fetch, Input(first, None, before)) ==
            Ok(Page(s[start..k],
                    if k > 0 then Some(codec.encode(s[k - 1])) else None,
                    if start > 0 then Some(codec.encode(s[start])) else None))
  {
    assert ServesBefore(fetch, orders, s, k, first + 1);
    BackwardItems(codec, s, first, k);
  }

  /**
   * Backward paging inverts forward paging: from any page of a forward walk that has a next page, the next
   * page's previousCursor leads back to the same rows, and from there the nextCursor leads forward again.
   */
  lemma BackwardInvertsForward(codec: CursorCodec, fetch: Fetch, orders: seq<Order>, s: seq<Row>, first: nat, k: nat)
    requires codec.Sound(orders) && Serves(fetch, orders, s) && 0 < first <= MAX_PAGE_SIZE && k + first < |s|
    ensures var page := PageAt(codec, s, k, first);
            var following := CursorPaginate(codec, fetch, Input(first, page.next, None));
            following.Ok? && following.value.previous.Some? &&
            CursorPaginate(codec, fetch, Input(first, None, following.value.previous)) == Ok(page)
  {
    FullPage(codec, s, k, first);
    ForwardPage(codec, fetch, orders, s, first, k + first);
    BackwardToPage(codec, fetch, orders, s, first, k);
  }

  lemma BackwardToPage(codec: CursorCodec, fetch: Fetch, orders: seq<Order>, s: seq<Row>, first: nat, k: nat)
    requires codec.Sound(orders) && Serves(fetch, orders, s) && 0 < first <= MAX_PAGE_SIZE && k + first < |s|
    ensures CursorPaginate(codec, fetch, Input(first, None, Some(codec.encode(s[k + first])))) == Ok(PageAt(codec, s, k, first))
  {
    FullPage(codec, s, k, first);
    BackwardPage(codec, fetch, orders, s, first, k + first);
  }

  lemma FullPage(codec: CursorCodec, s: seq<Row>, k: nat, first: nat)
    requires 0 < first && k + first < |s|
    ensures PageAt(codec, s, k, first) ==
            Page(s[k..k + first], Some(codec.encode(s[k + first - 1])), if k > 0 then Some(codec.encode(s[k])) else None)
    ensures PageAt(codec, s, k + first, first).previous == Some(codec.encode(s[k + first]))
  {
  }
}
