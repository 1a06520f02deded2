/** Batched eager loading of relationships against one query per parent. */
module EagerLoading {
  import opened Options
  import opened ModelValues
  import opened ModelQuery
  import opened Relationships
  import DateTimeCodec

  /** One relationship to load: what its callback adds to the related query, and what to load on the related models. */
  datatype Load = Load(name: string, plan: Plan, nested: seq<Load>)

  datatype Loaded = Loaded(row: Row, relations: map<string, Relation>)

  datatype Relation = One(model: Option<Loaded>) | Many(models: seq<Loaded>)

  function WhereIn(plan: Plan, attribute: string, keys: seq<Value>): Plan {
    plan.(constraints := plan.constraints + [Member(attribute, keys, false)])
  }

  function Zip(rows: seq<Row>, relations: seq<map<string, Relation>>): (loaded: seq<Loaded>)
    requires |rows| == |relations|
    ensures |loaded| == |rows|
    ensures forall i :: 0 <= i < |rows| ==> loaded[i] == Loaded(rows[i], relations[i])
  {
    seq(|rows|, i requires 0 <= i < |rows| => Loaded(rows[i], relations[i]))
  }

  function FilterLoaded(loaded: seq<Loaded>, keep: Row -> bool): seq<Loaded> {
    if |loaded| == 0 then []
    else (if keep(loaded[0].row) then [loaded[0]] else []) + FilterLoaded(loaded[1..], keep)
  }

  function First(loaded: seq<Loaded>): Option<Loaded> {
    if |loaded| == 0 then None else Some(loaded[0])
  }

  function Last(loaded: seq<Loaded>): Option<Loaded> {
    if |loaded| == 0 then None else Some(loaded[|loaded| - 1])
  }

  function HasValue(attribute: string, wanted: seq<Value>): Row -> bool {
    (r: Row) => Get(r, attribute) in wanted
  }

  /** A JavaScript Map finds a primitive key by value; a datetime key held by another row is another object. */
  predicate Primitive(v: Value) {
    !DateTimeCodec.IsTime(v)
  }

  /** `new Map(models.map(m => [m.ownerKey, m])).get(key)`: the last model stored under the key. */
  function MapGet(loaded: seq<Loaded>, attribute: string, key: Value): Option<Loaded> {
    if Primitive(key) then Last(FilterLoaded(loaded, HasValue(attribute, [key]))) else None
  }

  function LoadKnown(db: Database, model: string, load: Load): bool {
    model in db.relationships && load.name in db.relationships[model]
  }

  // ---------------------------------------------------------------- one batch per relationship

  /** The related models of a query, with their own relationships loaded in a batch. */
  function QueryLoaded(db: Database, model: string, plan: Plan, nested: seq<Load>): Option<seq<Loaded>>
    decreases nested, 1
  {
    var rows := Run(db, model, plan);
    if rows.None? then None
    else
      var relations := Batch(db, model, rows.value, nested);
      if relations.None? then None else Some(Zip(rows.value, relations.value))
  }

  function ForEach(parents: seq<Row>, share: Row -> Relation): (r: seq<Relation>)
    ensures |r| == |parents| && forall i :: 0 <= i < |parents| ==> r[i] == share(parents[i])
  {
    seq(|parents|, i requires 0 <= i < |parents| => share(parents[i]))
  }

  /** Each parent's share of one batched relationship. */
  function BatchOne(db: Database, model: string, parents: seq<Row>, load: Load): (r: Option<seq<Relation>>)
    ensures r.Some? ==> |r.value| == |parents|
    decreases load
  {
    if !LoadKnown(db, model, load) then None
    else
      match db.relationships[model][load.name]
      case BelongsTo(related, foreignKey, ownerKey) =>
        var keys := UniqueValues(Pluck(parents, foreignKey));
        var loaded := QueryLoaded(db, related, WhereIn(load.plan, ownerKey, keys), load.nested);
        if loaded.None? then None
        else Some(ForEach(parents, (parent: Row) => One(MapGet(loaded.value, ownerKey, Get(parent, foreignKey)))))
      case BelongsToMany(related, through, foreignKey, relatedForeignKey, localKey, relatedKey) =>
        var pivots := Run(db, through, WhereIn(EMPTY_PLAN, foreignKey, UniqueValues(Pluck(parents, localKey))));
        if pivots.None? then None
        else
          var relatedKeys := UniqueValues(Pluck(pivots.value, relatedForeignKey));
          var loaded := QueryLoaded(db, related, WhereIn(load.plan, relatedKey, relatedKeys), load.nested);
          if loaded.None? then None
          else Some(ForEach(parents, (parent: Row) =>
                      var ids := Pluck(Filter(pivots.value, HasValue(foreignKey, [Get(parent, localKey)])), relatedForeignKey);
                      Many(FilterLoaded(loaded.value, HasValue(relatedKey, ids)))))
      case HasOne(related, foreignKey, localKey) =>
        var keys := UniqueValues(Pluck(parents, localKey));
        var loaded := QueryLoaded(db, related, WhereIn(load.plan, foreignKey, keys), load.nested);
        if loaded.None? then None
        else Some(ForEach(parents, (parent: Row) =>
                    One(First(FilterLoaded(loaded.value, HasValue(foreignKey, [Get(parent, localKey)]))))))
      case HasMany(related, foreignKey, localKey) =>
        var keys := UniqueValues(Pluck(parents, localKey));
        var loaded := QueryLoaded(db, related, WhereIn(load.plan, foreignKey, keys), load.nested);
        if loaded.None? then None
        else Some(ForEach(parents, (parent: Row) =>
                    Many(FilterLoaded(loaded.value, HasValue(foreignKey, [Get(parent, localKey)])))))
  }

  function Assign(relations: seq<map<string, Relation>>, name: string, values: seq<Relation>): (r: seq<map<string, Relation>>)
    requires |relations| == |values|
    ensures |r| == |relations|
    ensures forall i :: 0 <= i < |relations| ==> r[i] == relations[i][name := values[i]]
  {
    seq(|relations|, i requires 0 <= i < |relations| => relations[i][name := values[i]])
  }

  /** Every parent's loaded relationships; nothing is queried when there is no parent. */
  function Batch(db: Database, model: string, parents: seq<Row>, loads: seq<Load>): (r: Option<seq<map<string, Relation>>>)
    ensures r.Some? ==> |r.value| == |parents|
    decreases loads, 0
  {
    if |parents| == 0 then Some([])
    else if |loads| == 0 then Some(seq(|parents|, i => map[]))
    else
      var n := |loads| - 1;
      var earlier, last := Batch(db, model, parents, loads[..n]), BatchOne(db, model, parents, loads[n]);
      if earlier.None? || last.None? then None else Some(Assign(earlier.value, loads[n].name, last.value))
  }

  /** The loop of `eagerLoad`: one relationship after the other, set on every parent. */
  method EagerLoad(db: Database, model: string, parents: seq<Row>, loads: seq<Load>)
    returns (relations: Option<seq<map<string, Relation>>>)
    ensures relations == Batch(db, model, parents, loads)
  {
    if |parents| == 0 {
      return Some([]);
    }
    var current: seq<map<string, Relation>> := seq(|parents|, i => map[]);
    for i := 0 to |loads|
      invariant |current| == |parents|
      invariant Batch(db, model, parents, loads[..i]) == Some(current)
    {
      assert loads[..i + 1][..i] == loads[..i];
      var values := BatchOne(db, model, parents, loads[i]);
      if values.None? {
        BatchPrefix(db, model, parents, loads, i + 1);
        return None;
      }
      ghost var before := current;
      for k := 0 to |parents|
        invariant |current| == |parents|
        invariant forall j :: 0 <= j < |parents| ==>
                    current[j] == if j < k then before[j][loads[i].name := values.value[j]] else before[j]
      {
        current := current[k := current[k][loads[i].name := values.value[k]]];
      }
      assert current == Assign(before, loads[i].name, values.value);
    }
    assert loads[..|loads|] == loads;
    return Some(current);
  }

  lemma {:induction false} BatchPrefix(db: Database, model: string, parents: seq<Row>, loads: seq<Load>, i: nat)
    requires |parents| > 0 && i <= |loads| && Batch(db, model, parents, loads[..i]).None?
    ensures Batch(db, model, parents, loads).None?
  {
    if i == |loads| {
      assert loads[..i] == loads;
    } else {
      assert loads[..|loads| - 1][..i] == loads[..i];
      BatchPrefix(db, model, parents, loads[..|loads| - 1], i);
    }
  }

  // ---------------------------------------------------------------- one query per parent

  function NaiveAll(db: Database, model: string, rows: seq<Row>, nested: seq<Load>): (r: Option<seq<Loaded>>)
    decreases nested, |rows|, 1
  {
    if |rows| == 0 then Some([])
    else
      var first, rest := Naive(db, model, rows[0], nested), NaiveAll(db, model, rows[1..], nested);
      if first.None? || rest.None? then None else Some([Loaded(rows[0], first.value)] + rest.value)
  }

  function NaiveQuery(db: Database, model: string, plan: Plan, nested: seq<Load>): Option<seq<Loaded>>
    decreases nested
  {
    var rows := Run(db, model, plan);
    if rows.None? then None else NaiveAll(db, model, rows.value, nested)
  }

  /** The related models of one row, asked for with that row's key alone. */
  function NaiveOne(db: Database, model: string, row: Row, load: Load): Option<Relation>
    decreases load
  {
    if !LoadKnown(db, model, load) then None
    else
      match db.relationships[model][load.name]
      case BelongsTo(related, foreignKey, ownerKey) =>
        var loaded := NaiveQuery(db, related, WhereIn(load.plan, ownerKey, UniqueValues([Get(row, foreignKey)])), load.nested);
        if loaded.None? then None else Some(One(First(loaded.value)))
      case BelongsToMany(related, through, foreignKey, relatedForeignKey, localKey, relatedKey) =>
        var pivots := Run(db, through, WhereIn(EMPTY_PLAN, foreignKey, UniqueValues([Get(row, localKey)])));
        if pivots.None? then None
        else
          var ids := UniqueValues(Pluck(pivots.value, relatedForeignKey));
          var loaded := NaiveQuery(db, related, WhereIn(load.plan, relatedKey, ids), load.nested);
          if loaded.None? then None else Some(Many(loaded.value))
      case HasOne(related, foreignKey, localKey) =>
        var loaded := NaiveQuery(db, related, WhereIn(load.plan, foreignKey, UniqueValues([Get(row, localKey)])), load.nested);
        if loaded.None? then None else Some(One(First(loaded.value)))
      case HasMany(related, foreignKey, localKey) =>
        var loaded := NaiveQuery(db, related, WhereIn(load.plan, foreignKey, UniqueValues([Get(row, localKey)])), load.nested);
        if loaded.None? then None else Some(Many(loaded.value))
  }

  function Naive(db: Database, model: string, row: Row, loads: seq<Load>): Option<map<string, Relation>>
    decreases loads, 0
  {
    if |loads| == 0 then Some(map[])
    else
      var n := |loads| - 1;
      var earlier, last := Naive(db, model, row, loads[..n]), NaiveOne(db, model, row, loads[n]);
      if earlier.None? || last.None? then None else Some(earlier.value[loads[n].name := last.value])
  }

  // ---------------------------------------------------------------- when the two agree

  /** A stored key that compares equal to a wanted key is that very value, and is present. */
  ghost predicate Fits(stored: Value, key: Value) {
    Compare(stored, key) == 0 ==> stored == key && stored != Absent
  }

  ghost predicate KeysFit(stored: seq<Row>, attribute: string, keys: seq<Value>) {
    forall r, k :: r in stored && k in keys ==> Fits(Get(r, attribute), k)
  }

  ghost predicate UniqueKeys(stored: seq<Row>, attribute: string) {
    forall r, q :: r in stored && q in stored && Get(r, attribute) == Get(q, attribute) ==> r == q
  }

  ghost predicate RelationFits(db: Database, model: string, rel: Relationship) {
    match rel
    case BelongsTo(related, foreignKey, ownerKey) =>
      && KeysFit(Rows(db, related), ownerKey, Pluck(Rows(db, model), foreignKey))
      && UniqueKeys(Rows(db, related), ownerKey)
      && forall v :: v in Pluck(Rows(db, model), foreignKey) ==> Primitive(v)
    case BelongsToMany(related, through, foreignKey, relatedForeignKey, localKey, relatedKey) =>
      && KeysFit(Rows(db, through), foreignKey, Pluck(Rows(db, model), localKey))
      && KeysFit(Rows(db, related), relatedKey, Pluck(Rows(db, through), relatedForeignKey))
    case _ => KeysFit(Rows(db, rel.related), rel.foreignKey, Pluck(Rows(db, model), rel.localKey))
  }

  ghost predicate LoadFits(db: Database, model: string, load: Load)
    decreases load
  {
    LoadKnown(db, model, load) ==>
      var rel := db.relationships[model][load.name];
      Unlimited(load.plan) && RelationFits(db, model, rel) && LoadsFit(db, rel.related, load.nested)
  }

  ghost predicate LoadsFit(db: Database, model: string, loads: seq<Load>)
    decreases loads
  {
    forall i :: 0 <= i < |loads| ==> LoadFits(db, model, loads[i])
  }

  ghost predicate Stored(db: Database, model: string, rows: seq<Row>) {
    forall r :: r in rows ==> r in Rows(db, model)
  }

  lemma RunKeeps(db: Database, model: string, plan: Plan)
    requires Run(db, model, plan).Some?
    ensures Stored(db, model, Run(db, model, plan).value)
  {
    var tail := Resolve(db, model, plan.relationships).value;
    ArrangeKeeps(Filter(Rows(db, model), (r: Row) => MatchesConstraints(r, plan.constraints + tail)), plan);
  }

  /** The share of a batch that carries the wanted keys is what a query for the wanted keys alone returns. */
  lemma ShareOfBatch(db: Database, model: string, plan: Plan, attribute: string, keys: seq<Value>, wanted: seq<Value>)
    requires Unlimited(plan) && KeysFit(Rows(db, model), attribute, keys)
    requires forall w :: w in wanted ==> w in keys || w == Absent
    requires Run(db, model, WhereIn(plan, attribute, keys)).Some?
    ensures Run(db, model, WhereIn(plan, attribute, UniqueValues(wanted))) ==
            Some(Filter(Run(db, model, WhereIn(plan, attribute, keys)).value, HasValue(attribute, wanted)))
  {
    var tail := Resolve(db, model, plan.relationships).value;
    ResolveConjuncts(db, model, plan.relationships);
    var batch := (r: Row) => MatchesConstraints(r, (plan.constraints + [Member(attribute, keys, false)]) + tail);
    var alone := (r: Row) => MatchesConstraints(r, (plan.constraints + [Member(attribute, UniqueValues(wanted), false)]) + tail);
    var rows, has := Rows(db, model), HasValue(attribute, wanted);
    forall r | r in rows ensures (batch(r) && has(r)) == alone(r) {
      MemberAppended(r, plan.constraints, attribute, keys, tail);
      MemberAppended(r, plan.constraints, attribute, UniqueValues(wanted), tail);
      KeysShared(rows, r, attribute, keys, wanted);
    }
    FilterFilter(rows, batch, has);
    FilterCongruent(rows, (r: Row) => batch(r) && has(r), alone);
    ArrangeFilter(Filter(rows, batch), plan, has);
  }

  // ---------------------------------------------------------------- a callback with a limit

  /** The rows within the limit that are kept are the first kept rows iff no kept row is beyond it, or all within it are kept. */
  lemma LimitedFilter(rows: seq<Row>, limit: nat, keep: Row -> bool)
    ensures Filter(Slice(rows, Some(limit), None), keep) == Slice(Filter(rows, keep), Some(limit), None) <==>
            (forall i :: limit <= i < |rows| ==> !keep(rows[i])) || (forall i :: 0 <= i < limit && i < |rows| ==> keep(rows[i]))
  {
    var m := if limit < |rows| then limit else |rows|;
    var a, b := Filter(rows[..m], keep), Filter(rows[m..], keep);
    SplitFilter(rows, m, keep);
    assert Slice(rows, Some(limit), None) == rows[..m];
    NoneBeyond(rows, m, keep);
    AllWithin(rows, m, keep);
    CutSum(a, b, limit);
    LimitOrEnd(rows, limit, m, keep);
  }

  /** The limit counts in the rows there are. */
  lemma LimitOrEnd(rows: seq<Row>, limit: nat, m: nat, keep: Row -> bool)
    requires m == if limit < |rows| then limit else |rows|
    ensures (forall i :: limit <= i < |rows| ==> !keep(rows[i])) <==> (forall i :: m <= i < |rows| ==> !keep(rows[i]))
    ensures (forall i :: 0 <= i < limit && i < |rows| ==> keep(rows[i])) <==> (forall i :: 0 <= i < m ==> keep(rows[i]))
  {
  }

  lemma SplitFilter(rows: seq<Row>, m: nat, keep: Row -> bool)
    requires m <= |rows|
    ensures Filter(rows, keep) == Filter(rows[..m], keep) + Filter(rows[m..], keep)
    ensures m == |rows| ==> Filter(rows[m..], keep) == []
  {
    assert rows == rows[..m] + rows[m..];
    FilterAppend(rows[..m], rows[m..], keep);
  }

  lemma NoneBeyond(rows: seq<Row>, m: nat, keep: Row -> bool)
    requires m <= |rows|
    ensures Filter(rows[m..], keep) == [] <==> forall i :: m <= i < |rows| ==> !keep(rows[i])
  {
    FilterEmpty(rows[m..], keep);
    assert forall i :: m <= i < |rows| ==> rows[i] == rows[m..][i - m] && rows[i] in rows[m..];
  }

  lemma AllWithin(rows: seq<Row>, m: nat, keep: Row -> bool)
    requires m <= |rows|
    ensures |Filter(rows[..m], keep)| <= m
    ensures |Filter(rows[..m], keep)| == m <==> forall i :: 0 <= i < m ==> keep(rows[i])
  {
    FilterFull(rows[..m], keep);
  }

  lemma CutSum(a: seq<Row>, b: seq<Row>, limit: nat)
    requires |a| <= limit
    ensures Slice(a + b, Some(limit), None) == a <==> b == [] || |a| == limit
  {
    if |a| == limit || b == [] {
      assert (a + b)[..|a|] == a;
    } else {
      assert |Slice(a + b, Some(limit), None)| > |a|;
    }
  }

  lemma {:induction false} FilterFull(rows: seq<Row>, keep: Row -> bool)
    ensures |Filter(rows, keep)| <= |rows|
    ensures |Filter(rows, keep)| == |rows| <==> forall i :: 0 <= i < |rows| ==> keep(rows[i])
  {
    if |rows| > 0 {
      FilterFull(rows[1..], keep);
      assert forall i :: 1 <= i < |rows| ==> rows[i] == rows[1..][i - 1];
    }
  }

  lemma RunLimited(db: Database, model: string, plan: Plan, limit: nat)
    requires Unlimited(plan) && Run(db, model, plan).Some?
    ensures Run(db, model, plan.(limit := Some(limit))) == Some(Slice(Run(db, model, plan).value, Some(limit), None))
  {
    var tail := Resolve(db, model, plan.relationships).value;
    var rows := Filter(Rows(db, model), (r: Row) => MatchesConstraints(r, plan.constraints + tail));
    var arranged := if |plan.orders| > 0 then Sort(plan.orders, rows) else rows;
    assert Slice(arranged, None, None) == arranged;
  }

  /**
   * With a limit in the callback, a key's share of the batch is the query for that key alone iff, in the batch without
   * the limit, the limit cuts off none of the key's rows or lets through no other rows.
   */
  lemma LimitedShareExactly(db: Database, model: string, plan: Plan, attribute: string, keys: seq<Value>, wanted: seq<Value>, limit: nat)
    requires Unlimited(plan) && KeysFit(Rows(db, model), attribute, keys)
    requires forall w :: w in wanted ==> w in keys || w == Absent
    requires Run(db, model, WhereIn(plan, attribute, keys)).Some?
    ensures var limited, whole := plan.(limit := Some(limit)), Run(db, model, WhereIn(plan, attribute, keys)).value;
            var batch, alone := Run(db, model, WhereIn(limited, attribute, keys)), Run(db, model, WhereIn(limited, attribute, UniqueValues(wanted)));
            && batch.Some? && alone.Some?
            && (alone.value == Filter(batch.value, HasValue(attribute, wanted)) <==>
                || (forall i :: limit <= i < |whole| ==> Get(whole[i], attribute) !in wanted)
                || (forall i :: 0 <= i < limit && i < |whole| ==> Get(whole[i], attribute) in wanted))
  {
    ShareOfBatch(db, model, plan, attribute, keys, wanted);
    RunLimited(db, model, WhereIn(plan, attribute, keys), limit);
    RunLimited(db, model, WhereIn(plan, attribute, UniqueValues(wanted)), limit);
    LimitedFilter(Run(db, model, WhereIn(plan, attribute, keys)).value, limit, HasValue(attribute, wanted));
    assert WhereIn(plan, attribute, keys).(limit := Some(limit)) == WhereIn(plan.(limit := Some(limit)), attribute, keys);
    assert WhereIn(plan, attribute, UniqueValues(wanted)).(limit := Some(limit)) == WhereIn(plan.(limit := Some(limit)), attribute, UniqueValues(wanted));
  }

  /** Two parents with a child each, and a limit of one: the second parent's child is cut off its batch. */
  lemma LimitCutsTheBatch()
    ensures var first: Row, second: Row := map["id" := Text("a"), "of" := Text("p")], map["id" := Text("b"), "of" := Text("q")];
            var db := Database(map["children" := [first, second]], map[]);
            var plan := EMPTY_PLAN.(limit := Some(1));
            && Run(db, "children", WhereIn(plan, "of", [Text("p"), Text("q")])) == Some([first])
            && Run(db, "children", WhereIn(plan, "of", [Text("q")])) == Some([second])
  {
    var first: Row, second: Row := map["id" := Text("a"), "of" := Text("p")], map["id" := Text("b"), "of" := Text("q")];
    var db := Database(map["children" := [first, second]], map[]);
    RowsWith(db, first, second, [Text("p"), Text("q")]);
    RowsWith(db, first, second, [Text("q")]);
    assert Text("p") in [Text("p"), Text("q")] && Text("q") in [Text("p"), Text("q")] && Text("q") in [Text("q")];
    assert Text("p") !in [Text("q")];
    RunLimited(db, "children", WhereIn(EMPTY_PLAN, "of", [Text("p"), Text("q")]), 1);
    RunLimited(db, "children", WhereIn(EMPTY_PLAN, "of", [Text("q")]), 1);
    assert [first, second][..1] == [first];
  }

  lemma RowsWith(db: Database, first: Row, second: Row, keys: seq<Value>)
    requires Rows(db, "children") == [first, second] && forall k :: k in keys ==> k.Text?
    requires Get(first, "of").Text? && Get(second, "of").Text?
    ensures Run(db, "children", WhereIn(EMPTY_PLAN, "of", keys)) ==
            Some((if Get(first, "of") in keys then [first] else []) + (if Get(second, "of") in keys then [second] else []))
  {
    forall r | r in Rows(db, "children")
      ensures MatchesConstraints(r, WhereIn(EMPTY_PLAN, "of", keys).constraints) <==> HasValue("of", keys)(r)
    {
      assert [] + [Member("of", keys, false)] == ([] + [Member("of", keys, false)]) + [];
      MemberAppended(r, [], "of", keys, []);
      assert Get(r, "of") in keys ==> Compare(Get(r, "of"), Get(r, "of")) == 0;
    }
    PlainRun(db, "children", WhereIn(EMPTY_PLAN, "of", keys), HasValue("of", keys));
    FilterTwo(first, second, HasValue("of", keys));
  }

  /** A query without relationship constraints, order, limit and offset is a filter. */
  lemma PlainRun(db: Database, model: string, plan: Plan, keep: Row -> bool)
    requires Unlimited(plan) && plan.orders == [] && plan.relationships == []
    requires forall r :: r in Rows(db, model) ==> (MatchesConstraints(r, plan.constraints) <==> keep(r))
    ensures Run(db, model, plan) == Some(Filter(Rows(db, model), keep))
  {
    assert plan.constraints + [] == plan.constraints;
    FilterCongruent(Rows(db, model), (r: Row) => MatchesConstraints(r, plan.constraints), keep);
    assert Slice(Filter(Rows(db, model), keep), None, None) == Filter(Rows(db, model), keep);
  }

  lemma FilterTwo(first: Row, second: Row, keep: Row -> bool)
    ensures Filter([first, second], keep) == (if keep(first) then [first] else []) + (if keep(second) then [second] else [])
  {
    assert [first, second][1..] == [second] && [second][1..] == [];
    assert Filter([second], keep) == if keep(second) then [second] else [];
  }

  ghost predicate Among(row: Row, attribute: string, keys: seq<Value>) {
    exists k :: k in keys && Compare(Get(row, attribute), k) == 0
  }

  lemma MemberAppended(row: Row, earlier: seq<Constraint>, attribute: string, keys: seq<Value>, tail: seq<Constraint>)
    requires Conjuncts(tail)
    ensures MatchesConstraints(row, (earlier + [Member(attribute, keys, false)]) + tail) <==>
            MatchesConstraints(row, earlier) && (forall c :: c in tail ==> Holds(row, c)) && Among(row, attribute, keys)
  {
    var at := Member(attribute, keys, false);
    AppendedConjuncts(row, earlier + [at], tail);
    AppendedConjuncts(row, earlier, [at]);
    assert Holds(row, at) <==> Among(row, attribute, keys);
  }

  lemma KeysShared(rows: seq<Row>, row: Row, attribute: string, keys: seq<Value>, wanted: seq<Value>)
    requires row in rows && KeysFit(rows, attribute, keys)
    requires forall w :: w in wanted ==> w in keys || w == Absent
    ensures Among(row, attribute, keys) && Get(row, attribute) in wanted <==> Among(row, attribute, UniqueValues(wanted))
  {
    var v := Get(row, attribute);
    if k :| k in keys && Compare(v, k) == 0 && v in wanted {
      assert Fits(v, k);
      assert v in UniqueValues(wanted) && Compare(v, v) == 0;
    }
    if k :| k in UniqueValues(wanted) && Compare(v, k) == 0 {
      assert k in keys && Fits(v, k);
    }
  }

  // ---------------------------------------------------------------- the batch is the naive result

  lemma {:induction false} NaiveAllZip(db: Database, model: string, rows: seq<Row>, relations: seq<map<string, Relation>>, nested: seq<Load>)
    requires |rows| == |relations|
    requires forall i :: 0 <= i < |rows| ==> Naive(db, model, rows[i], nested) == Some(relations[i])
    ensures NaiveAll(db, model, rows, nested) == Some(Zip(rows, relations))
  {
    if |rows| > 0 {
      NaiveAllZip(db, model, rows[1..], relations[1..], nested);
      assert Zip(rows, relations) == [Loaded(rows[0], relations[0])] + Zip(rows[1..], relations[1..]);
    } else {
      assert Zip(rows, relations) == [];
    }
  }

  lemma {:induction false} NaiveAllFilter(db: Database, model: string, rows: seq<Row>, nested: seq<Load>, keep: Row -> bool)
    requires NaiveAll(db, model, rows, nested).Some?
    ensures NaiveAll(db, model, Filter(rows, keep), nested) ==
            Some(FilterLoaded(NaiveAll(db, model, rows, nested).value, keep))
  {
    if |rows| > 0 {
      NaiveAllFilter(db, model, rows[1..], nested, keep);
      var loaded := NaiveAll(db, model, rows, nested).value;
      var rest := Filter(rows[1..], keep);
      assert loaded == [loaded[0]] + NaiveAll(db, model, rows[1..], nested).value;
      assert loaded[1..] == NaiveAll(db, model, rows[1..], nested).value;
      if keep(rows[0]) {
        assert Filter(rows, keep) == [rows[0]] + rest && ([rows[0]] + rest)[1..] == rest;
        assert FilterLoaded(loaded, keep) == [loaded[0]] + FilterLoaded(loaded[1..], keep);
      } else {
        assert Filter(rows, keep) == rest;
        assert FilterLoaded(loaded, keep) == FilterLoaded(loaded[1..], keep);
      }
    }
  }

  /** Loading a query's rows in one batch, its own relationships included, is loading each of them alone. */
  lemma {:induction false} QueryLoadedIsNaive(db: Database, model: string, plan: Plan, nested: seq<Load>)
    requires LoadsFit(db, model, nested) && QueryLoaded(db, model, plan, nested).Some?
    ensures NaiveQuery(db, model, plan, nested) == QueryLoaded(db, model, plan, nested)
    decreases nested, 1
  {
    var rows := Run(db, model, plan).value;
    RunKeeps(db, model, plan);
    var relations := Batch(db, model, rows, nested).value;
    forall i | 0 <= i < |rows| ensures Naive(db, model, rows[i], nested) == Some(relations[i]) {
      BatchIsNaive(db, model, rows, nested, i);
    }
    NaiveAllZip(db, model, rows, relations, nested);
  }

  /** The share of a loaded batch that carries the wanted keys is the naive query for those keys. */
  lemma {:induction false} ShareIsNaive(db: Database, model: string, plan: Plan, attribute: string, keys: seq<Value>,
                                        wanted: seq<Value>, nested: seq<Load>)
    requires Unlimited(plan) && KeysFit(Rows(db, model), attribute, keys)
    requires forall w :: w in wanted ==> w in keys || w == Absent
    requires LoadsFit(db, model, nested) && QueryLoaded(db, model, WhereIn(plan, attribute, keys), nested).Some?
    ensures NaiveQuery(db, model, WhereIn(plan, attribute, UniqueValues(wanted)), nested) ==
            Some(FilterLoaded(QueryLoaded(db, model, WhereIn(plan, attribute, keys), nested).value, HasValue(attribute, wanted)))
    decreases nested, 2
  {
    QueryLoadedIsNaive(db, model, WhereIn(plan, attribute, keys), nested);
    ShareOfBatch(db, model, plan, attribute, keys, wanted);
    NaiveAllFilter(db, model, Run(db, model, WhereIn(plan, attribute, keys)).value, nested, HasValue(attribute, wanted));
  }

  /** One relationship of one parent: its share of the batch is what its own query returns. */
  lemma {:induction false} BatchOneIsNaive(db: Database, model: string, parents: seq<Row>, load: Load, i: nat)
    requires i < |parents| && Stored(db, model, parents) && LoadFits(db, model, load)
    requires BatchOne(db, model, parents, load).Some?
    ensures NaiveOne(db, model, parents[i], load) == Some(BatchOne(db, model, parents, load).value[i])
    decreases load
  {
    var rel := db.relationships[model][load.name];
    assert parents[i] in parents;
    match rel
    case BelongsTo(related, foreignKey, ownerKey) =>
      OwnerExactly(db, model, parents, load, i);
      assert Get(parents[i], foreignKey) in Pluck(Rows(db, model), foreignKey);
    case BelongsToMany(related, through, foreignKey, relatedForeignKey, localKey, relatedKey) =>
      PivotsAreNaive(db, model, parents, load, i);
    case _ =>
      var keys, key := UniqueValues(Pluck(parents, rel.localKey)), Get(parents[i], rel.localKey);
      ShareIsNaive(db, rel.related, load.plan, rel.foreignKey, keys, [key], load.nested);
  }

  lemma {:induction false} NaiveAllRows(db: Database, model: string, rows: seq<Row>, nested: seq<Load>)
    requires NaiveAll(db, model, rows, nested).Some?
    ensures var loaded := NaiveAll(db, model, rows, nested).value;
            |loaded| == |rows| && forall i :: 0 <= i < |rows| ==>
              loaded[i].row == rows[i] && Naive(db, model, rows[i], nested) == Some(loaded[i].relations)
  {
    if |rows| > 0 {
      NaiveAllRows(db, model, rows[1..], nested);
    }
  }

  /** A stored row carries the key, which is present, and satisfies the callback's constraints and its resolved relationship constraints. */
  ghost predicate HasOwner(db: Database, related: string, plan: Plan, ownerKey: string, key: Value)
    requires Resolve(db, related, plan.relationships).Some?
  {
    key != Absent &&
    exists r :: r in Rows(db, related) && Get(r, ownerKey) == key && MatchesConstraints(r, plan.constraints) &&
                forall c :: c in Resolve(db, related, plan.relationships).value ==> Holds(r, c)
  }

  /** The query for one owner finds nothing exactly if no stored row is the owner. */
  lemma OwnerRows(db: Database, related: string, plan: Plan, ownerKey: string, key: Value)
    requires Unlimited(plan) && KeysFit(Rows(db, related), ownerKey, [key]) && Resolve(db, related, plan.relationships).Some?
    ensures Run(db, related, WhereIn(plan, ownerKey, UniqueValues([key]))).Some?
    ensures Run(db, related, WhereIn(plan, ownerKey, UniqueValues([key]))).value == [] <==> !HasOwner(db, related, plan, ownerKey, key)
  {
    var tail, keys, rows := Resolve(db, related, plan.relationships).value, UniqueValues([key]), Rows(db, related);
    var alone := (r: Row) => MatchesConstraints(r, (plan.constraints + [Member(ownerKey, keys, false)]) + tail);
    ResolveConjuncts(db, related, plan.relationships);
    forall r | r in rows
      ensures alone(r) <==> key != Absent && Get(r, ownerKey) == key && MatchesConstraints(r, plan.constraints) && forall c :: c in tail ==> Holds(r, c)
    {
      MemberAppended(r, plan.constraints, ownerKey, keys, tail);
      assert key in [key] && Fits(Get(r, ownerKey), key);
      OwnerAmong(r, ownerKey, key);
    }
    ArrangedEmpty(Filter(rows, alone), WhereIn(plan, ownerKey, keys));
    FilterEmpty(rows, alone);
  }

  lemma OwnerAmong(r: Row, ownerKey: string, key: Value)
    requires Fits(Get(r, ownerKey), key)
    ensures Among(r, ownerKey, UniqueValues([key])) <==> key != Absent && Get(r, ownerKey) == key
  {
    if key != Absent && Get(r, ownerKey) == key {
      assert key in UniqueValues([key]) && Compare(key, key) == 0;
    }
  }

  lemma ArrangedEmpty(rows: seq<Row>, plan: Plan)
    requires Unlimited(plan)
    ensures Arrange(rows, plan) == [] <==> rows == []
  {
    SortKeeps(plan.orders, rows);
    var arranged := if |plan.orders| > 0 then Sort(plan.orders, rows) else rows;
    assert Arrange(rows, plan) == arranged;
    assert |rows| > 0 ==> rows[0] in arranged;
    assert |arranged| > 0 ==> arranged[0] in rows;
  }

  lemma {:induction false} FilterEmpty(rows: seq<Row>, keep: Row -> bool)
    ensures Filter(rows, keep) == [] <==> forall r :: r in rows ==> !keep(r)
  {
    if |rows| > 0 {
      FilterEmpty(rows[1..], keep);
      assert rows == [rows[0]] + rows[1..];
    }
  }

  /** The naive result of a belongsTo relationship is one model exactly if there is an owner. */
  lemma OwnerIsFound(db: Database, related: string, plan: Plan, ownerKey: string, key: Value, nested: seq<Load>)
    requires Unlimited(plan) && KeysFit(Rows(db, related), ownerKey, [key]) && Resolve(db, related, plan.relationships).Some?
    requires NaiveQuery(db, related, WhereIn(plan, ownerKey, UniqueValues([key])), nested).Some?
    ensures First(NaiveQuery(db, related, WhereIn(plan, ownerKey, UniqueValues([key])), nested).value).None? <==>
            !HasOwner(db, related, plan, ownerKey, key)
  {
    var query := WhereIn(plan, ownerKey, UniqueValues([key]));
    OwnerRows(db, related, plan, ownerKey, key);
    NaiveAllRows(db, related, Run(db, related, query).value, nested);
  }

  /**
   * With unique owner keys the last model stored under a key is the first one found, so a belongsTo batch is the
   * naive result exactly when the key is primitive or no stored row is the owner: a datetime key finds nothing.
   */
  lemma OwnerExactly(db: Database, model: string, parents: seq<Row>, load: Load, i: nat)
    requires i < |parents| && Stored(db, model, parents)
    requires BatchOne(db, model, parents, load).Some? && db.relationships[model][load.name].BelongsTo?
    requires var rel := db.relationships[model][load.name];
             Unlimited(load.plan) && LoadsFit(db, rel.related, load.nested) &&
             KeysFit(Rows(db, rel.related), rel.ownerKey, Pluck(Rows(db, model), rel.foreignKey)) &&
             UniqueKeys(Rows(db, rel.related), rel.ownerKey)
    ensures var rel := db.relationships[model][load.name];
            var key := Get(parents[i], rel.foreignKey);
            && NaiveOne(db, model, parents[i], load).Some? && Resolve(db, rel.related, load.plan.relationships).Some?
            && (NaiveOne(db, model, parents[i], load) == Some(BatchOne(db, model, parents, load).value[i]) <==>
                Primitive(key) || !HasOwner(db, rel.related, load.plan, rel.ownerKey, key))
    decreases load, 0
  {
    var rel := db.relationships[model][load.name];
    var keys, key := UniqueValues(Pluck(parents, rel.foreignKey)), Get(parents[i], rel.foreignKey);
    OwnerKeysFit(Rows(db, model), Rows(db, rel.related), parents, rel, i);
    OwnerInBatch(db, model, parents, load, i);
    OwnerShare(db, rel.related, load.plan, rel.ownerKey, keys, key, load.nested);
  }

  lemma OwnerKeysFit(stored: seq<Row>, owners: seq<Row>, parents: seq<Row>, rel: Relationship, i: nat)
    requires i < |parents| && rel.BelongsTo? && forall r :: r in parents ==> r in stored
    requires KeysFit(owners, rel.ownerKey, Pluck(stored, rel.foreignKey))
    ensures var keys, key := UniqueValues(Pluck(parents, rel.foreignKey)), Get(parents[i], rel.foreignKey);
            && KeysFit(owners, rel.ownerKey, keys) && KeysFit(owners, rel.ownerKey, [key]) && (key in keys || key == Absent)
  {
    assert parents[i] in parents;
    assert Get(parents[i], rel.foreignKey) in Pluck(stored, rel.foreignKey);
  }

  /** What the batch and the single query take from their results. */
  lemma OwnerInBatch(db: Database, model: string, parents: seq<Row>, load: Load, i: nat)
    requires i < |parents| && BatchOne(db, model, parents, load).Some? && db.relationships[model][load.name].BelongsTo?
    ensures var rel := db.relationships[model][load.name];
            var loaded := QueryLoaded(db, rel.related, WhereIn(load.plan, rel.ownerKey, UniqueValues(Pluck(parents, rel.foreignKey))), load.nested);
            var alone := NaiveQuery(db, rel.related, WhereIn(load.plan, rel.ownerKey, UniqueValues([Get(parents[i], rel.foreignKey)])), load.nested);
            && loaded.Some?
            && BatchOne(db, model, parents, load).value[i] == One(MapGet(loaded.value, rel.ownerKey, Get(parents[i], rel.foreignKey)))
            && NaiveOne(db, model, parents[i], load) == if alone.None? then None else Some(One(First(alone.value)))
  {
  }

  /** The first and the last owner in a batch's share of a key, against the query for the key alone. */
  lemma OwnerShare(db: Database, related: string, plan: Plan, ownerKey: string, keys: seq<Value>, key: Value, nested: seq<Load>)
    requires Unlimited(plan) && LoadsFit(db, related, nested) && UniqueKeys(Rows(db, related), ownerKey)
    requires KeysFit(Rows(db, related), ownerKey, keys) && KeysFit(Rows(db, related), ownerKey, [key]) && (key in keys || key == Absent)
    requires QueryLoaded(db, related, WhereIn(plan, ownerKey, keys), nested).Some?
    ensures var batch := QueryLoaded(db, related, WhereIn(plan, ownerKey, keys), nested).value;
            var alone := NaiveQuery(db, related, WhereIn(plan, ownerKey, UniqueValues([key])), nested);
            && alone.Some? && First(alone.value) == Last(FilterLoaded(batch, HasValue(ownerKey, [key])))
            && Resolve(db, related, plan.relationships).Some?
            && (First(alone.value).None? <==> !HasOwner(db, related, plan, ownerKey, key))
    decreases nested, 3
  {
    var batch := WhereIn(plan, ownerKey, keys);
    ShareIsNaive(db, related, plan, ownerKey, keys, [key], nested);
    ShareOfBatch(db, related, plan, ownerKey, keys, [key]);
    RunKeeps(db, related, batch);
    FirstIsLast(db, related, Filter(Run(db, related, batch).value, HasValue(ownerKey, [key])), ownerKey, key, nested);
    OwnerIsFound(db, related, plan, ownerKey, key, nested);
  }

  /** An owner whose key is a datetime is found by its own query and lost by the batch. */
  lemma DatetimeOwnerIsLost()
    ensures var key := Graphite(0);
            var owner: Row, child: Row := map["id" := Text("o"), "at" := key], map["id" := Text("c"), "ownerAt" := key];
            var db := Database(map["owners" := [owner], "children" := [child]],
                               map["children" := map["owner" := BelongsTo("owners", "ownerAt", "at")]]);
            var load := Load("owner", EMPTY_PLAN, []);
            BatchOne(db, "children", [child], load) == Some([One(None)]) &&
            NaiveOne(db, "children", child, load) == Some(One(Some(Loaded(owner, map[]))))
  {
    var key := Graphite(0);
    var owner: Row, child: Row := map["id" := Text("o"), "at" := key], map["id" := Text("c"), "ownerAt" := key];
    var db := Database(map["owners" := [owner], "children" := [child]],
                       map["children" := map["owner" := BelongsTo("owners", "ownerAt", "at")]]);
    LostInBatch(db, owner, child, key);
    FoundAlone(db, owner, child, key);
  }

  ghost predicate OneOwner(db: Database, owner: Row, child: Row, key: Value) {
    && Rows(db, "owners") == [owner] && Get(owner, "at") == key && Get(child, "ownerAt") == key && key != Absent
    && "children" in db.relationships && "owner" in db.relationships["children"]
    && db.relationships["children"]["owner"] == BelongsTo("owners", "ownerAt", "at")
  }

  lemma LostInBatch(db: Database, owner: Row, child: Row, key: Value)
    requires OneOwner(db, owner, child, key) && !Primitive(key)
    ensures BatchOne(db, "children", [child], Load("owner", EMPTY_PLAN, [])) == Some([One(None)])
  {
    assert Pluck([child], "ownerAt") == [key];
    OnlyKey(key);
    OwnerLoaded(db, owner, key);
    var batch := BatchOne(db, "children", [child], Load("owner", EMPTY_PLAN, []));
    OwnerInBatch(db, "children", [child], Load("owner", EMPTY_PLAN, []), 0);
    assert batch.value == [batch.value[0]];
  }

  lemma OwnerLoaded(db: Database, owner: Row, key: Value)
    requires Rows(db, "owners") == [owner] && Get(owner, "at") == key
    ensures QueryLoaded(db, "owners", WhereIn(EMPTY_PLAN, "at", [key]), []).Some?
  {
    OwnerFound(db, owner, key);
  }

  lemma FoundAlone(db: Database, owner: Row, child: Row, key: Value)
    requires OneOwner(db, owner, child, key)
    ensures NaiveOne(db, "children", child, Load("owner", EMPTY_PLAN, [])) == Some(One(Some(Loaded(owner, map[]))))
  {
    OnlyKey(key);
    OwnerFound(db, owner, key);
    NaiveAllZip(db, "owners", [owner], [map[]], []);
    assert Zip([owner], [map[]]) == [Loaded(owner, map[])];
  }

  lemma OnlyKey(key: Value)
    requires key != Absent
    ensures UniqueValues([key]) == [key]
  {
    assert [key][..0] == [];
  }

  lemma OwnerFound(db: Database, owner: Row, key: Value)
    requires Rows(db, "owners") == [owner] && Get(owner, "at") == key
    ensures Run(db, "owners", WhereIn(EMPTY_PLAN, "at", [key])) == Some([owner])
  {
    var at := Member("at", [key], false);
    assert [] + [at] == [at] && [at] + [] == [at];
    assert key in [key] && Holds(owner, at);
    assert MatchesConstraints(owner, [at]);
    assert [owner][1..] == [];
  }

  lemma FirstIsLast(db: Database, model: string, share: seq<Row>, ownerKey: string, key: Value, nested: seq<Load>)
    requires Stored(db, model, share) && UniqueKeys(Rows(db, model), ownerKey)
    requires forall r :: r in share ==> Get(r, ownerKey) == key
    requires NaiveAll(db, model, share, nested).Some?
    ensures First(NaiveAll(db, model, share, nested).value) == Last(NaiveAll(db, model, share, nested).value)
  {
    NaiveAllRows(db, model, share, nested);
    if |share| > 0 {
      assert share[0] in share && share[|share| - 1] in share;
      assert share[0] == share[|share| - 1];
    }
  }

  /** Through a join table: the parent's pivots, and the related models they lead to. */
  lemma PivotsAreNaive(db: Database, model: string, parents: seq<Row>, load: Load, i: nat)
    requires i < |parents| && Stored(db, model, parents) && LoadFits(db, model, load)
    requires BatchOne(db, model, parents, load).Some? && db.relationships[model][load.name].BelongsToMany?
    ensures NaiveOne(db, model, parents[i], load) == Some(BatchOne(db, model, parents, load).value[i])
    decreases load, 0
  {
    var rel := db.relationships[model][load.name];
    var key := Get(parents[i], rel.localKey);
    PivotShare(db, model, parents, rel, i);
    var pivots := Run(db, rel.through, WhereIn(EMPTY_PLAN, rel.foreignKey, UniqueValues(Pluck(parents, rel.localKey)))).value;
    var own := Filter(pivots, HasValue(rel.foreignKey, [key]));
    var relatedKeys := UniqueValues(Pluck(pivots, rel.relatedForeignKey));
    ShareIsNaive(db, rel.related, load.plan, rel.relatedKey, relatedKeys, Pluck(own, rel.relatedForeignKey), load.nested);
  }

  /** A parent's pivots among those of all parents, and the keys they lead to. */
  lemma PivotShare(db: Database, model: string, parents: seq<Row>, rel: Relationship, i: nat)
    requires i < |parents| && Stored(db, model, parents) && rel.BelongsToMany? && RelationFits(db, model, rel)
    requires Run(db, rel.through, WhereIn(EMPTY_PLAN, rel.foreignKey, UniqueValues(Pluck(parents, rel.localKey)))).Some?
    ensures var key := Get(parents[i], rel.localKey);
            var pivots := Run(db, rel.through, WhereIn(EMPTY_PLAN, rel.foreignKey, UniqueValues(Pluck(parents, rel.localKey)))).value;
            var own := Filter(pivots, HasValue(rel.foreignKey, [key]));
            var relatedKeys := UniqueValues(Pluck(pivots, rel.relatedForeignKey));
            && Run(db, rel.through, WhereIn(EMPTY_PLAN, rel.foreignKey, UniqueValues([key]))) == Some(own)
            && KeysFit(Rows(db, rel.related), rel.relatedKey, relatedKeys)
            && forall w :: w in Pluck(own, rel.relatedForeignKey) ==> w in relatedKeys || w == Absent
  {
    var keys, key := UniqueValues(Pluck(parents, rel.localKey)), Get(parents[i], rel.localKey);
    assert parents[i] in parents;
    ShareOfBatch(db, rel.through, EMPTY_PLAN, rel.foreignKey, keys, [key]);
    RunKeeps(db, rel.through, WhereIn(EMPTY_PLAN, rel.foreignKey, keys));
  }

  /**
   * Batched eager loading equals the naive per-parent query for all four kinds of relationship and through nested
   * loads: every relationship set on every parent is what that parent's own queries return.
   */
  lemma {:induction false} BatchIsNaive(db: Database, model: string, parents: seq<Row>, loads: seq<Load>, i: nat)
    requires i < |parents| && Stored(db, model, parents) && LoadsFit(db, model, loads)
    requires Batch(db, model, parents, loads).Some?
    ensures Naive(db, model, parents[i], loads) == Some(Batch(db, model, parents, loads).value[i])
    decreases loads, 0
  {
    if |loads| > 0 {
      var n := |loads| - 1;
      BatchIsNaive(db, model, parents, loads[..n], i);
      BatchOneIsNaive(db, model, parents, loads[n], i);
    }
  }
}
