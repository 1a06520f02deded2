/** What loading a relationship for one row returns, in terms of the related query of its callback. */
module LoadedRows {
  import opened Options
  import opened ModelValues
  import opened ModelQuery
  import opened Relationships
  import opened EagerLoading

  /** The row has one of the keys. */
  predicate HasKey(r: Row, attribute: string, keys: seq<Value>) {
    exists k :: k in keys && Compare(Get(r, attribute), k) == 0
  }

  /**
   * A query that is restricted to keys returns the rows of the unrestricted one that have such a key, in its order;
   * its limit and offset count in these rows.
   */
  lemma RestrictedQuery(db: Database, model: string, plan: Plan, attribute: string, keys: seq<Value>)
    requires Run(db, model, plan).Some?
    ensures var whole := Run(db, model, plan.(limit := None, offset := None));
            && whole.Some?
            && Run(db, model, WhereIn(plan, attribute, keys)) ==
               Some(Slice(Filter(whole.value, (r: Row) => HasKey(r, attribute, keys)), plan.limit, plan.offset))
  {
    var unlimited := plan.(limit := None, offset := None);
    var tail, rows := Resolve(db, model, plan.relationships).value, Rows(db, model);
    var plain := (r: Row) => MatchesConstraints(r, plan.constraints + tail);
    var both := (r: Row) => MatchesConstraints(r, (plan.constraints + [Member(attribute, keys, false)]) + tail);
    var has := (r: Row) => HasKey(r, attribute, keys);
    ResolveConjuncts(db, model, plan.relationships);
    forall r: Row ensures (plain(r) && has(r)) == both(r) {
      MemberAppended(r, plan.constraints, attribute, keys, tail);
      AppendedConjuncts(r, plan.constraints, tail);
    }
    FilterFilter(rows, plain, has);
    FilterCongruent(rows, (r: Row) => plain(r) && has(r), both);
    ArrangeFilter(Filter(rows, plain), unlimited, has);
    SlicedLater(Filter(rows, both), plan);
  }

  lemma SlicedLater(rows: seq<Row>, plan: Plan)
    ensures Arrange(rows, plan) == Slice(Arrange(rows, plan.(limit := None, offset := None)), plan.limit, plan.offset)
  {
    assert forall s: seq<Row> :: Slice(s, None, None) == s;
  }

  /** The related rows that belong to a row: they carry its key, or one of its stored pivots leads to them. */
  predicate Belongs(db: Database, rel: Relationship, row: Row, r: Row) {
    match rel
    case BelongsTo(_, foreignKey, ownerKey) => SameKey(r, ownerKey, Get(row, foreignKey))
    case BelongsToMany(_, through, foreignKey, relatedForeignKey, localKey, relatedKey) =>
      exists p :: p in Rows(db, through) && SameKey(p, foreignKey, Get(row, localKey)) && SameKey(r, relatedKey, Get(p, relatedForeignKey))
    case _ => SameKey(r, rel.foreignKey, Get(row, rel.localKey))
  }

  predicate SameKey(stored: Row, attribute: string, key: Value) {
    key != Absent && Compare(Get(stored, attribute), key) == 0
  }

  /** What the callback's query returns of the rows that belong to `row`. */
  function Own(db: Database, rel: Relationship, row: Row, plan: Plan): seq<Row> {
    Slice(Filter(Matching(db, rel.related, plan.(limit := None, offset := None)), (r: Row) => Belongs(db, rel, row, r)), plan.limit, plan.offset)
  }

  /** These rows, in their order, each with its own relationships. */
  ghost predicate LoadedAlone(db: Database, model: string, rows: seq<Row>, nested: seq<Load>, models: seq<Loaded>) {
    |models| == |rows| &&
    forall i :: 0 <= i < |rows| ==> models[i].row == rows[i] && Naive(db, model, rows[i], nested) == Some(models[i].relations)
  }

  /** The relation has the row's own related rows; a relationship to one model has the first of them, or none. */
  ghost predicate Describes(db: Database, rel: Relationship, row: Row, load: Load, relation: Relation) {
    var own := Own(db, rel, row, load.plan);
    match relation
    case Many(models) => (rel.HasMany? || rel.BelongsToMany?) && LoadedAlone(db, rel.related, own, load.nested, models)
    case One(model) =>
      (rel.HasOne? || rel.BelongsTo?) &&
      if own == [] then model.None? else model.Some? && LoadedAlone(db, rel.related, [own[0]], load.nested, [model.value])
  }

  /** The rows of the query for a list of keys. */
  lemma KeyedQuery(db: Database, rel: Relationship, row: Row, plan: Plan, attribute: string, keys: seq<Value>)
    requires Typed(db) && Run(db, rel.related, WhereIn(plan, attribute, keys)).Some?
    requires forall r :: r in Rows(db, rel.related) ==> (HasKey(r, attribute, keys) <==> Belongs(db, rel, row, r))
    ensures Run(db, rel.related, WhereIn(plan, attribute, keys)).value == Own(db, rel, row, plan)
  {
    var unlimited := plan.(limit := None, offset := None);
    RestrictedQuery(db, rel.related, plan, attribute, keys);
    RunIsMatching(db, rel.related, unlimited);
    RunKeeps(db, rel.related, unlimited);
    FilterCongruent(Matching(db, rel.related, unlimited), (r: Row) => HasKey(r, attribute, keys), (r: Row) => Belongs(db, rel, row, r));
  }

  lemma OneKey(r: Row, attribute: string, key: Value)
    ensures HasKey(r, attribute, UniqueValues([key])) <==> SameKey(r, attribute, key)
  {
    if key != Absent {
      assert key in UniqueValues([key]);
    }
  }

  /** The keys that the row's pivots lead to. */
  lemma PivotKeys(db: Database, rel: Relationship, row: Row, r: Row)
    requires rel.BelongsToMany? && Typed(db) && Run(db, rel.through, WhereIn(EMPTY_PLAN, rel.foreignKey, UniqueValues([Get(row, rel.localKey)]))).Some?
    ensures var pivots := Run(db, rel.through, WhereIn(EMPTY_PLAN, rel.foreignKey, UniqueValues([Get(row, rel.localKey)]))).value;
            HasKey(r, rel.relatedKey, UniqueValues(Pluck(pivots, rel.relatedForeignKey))) <==> Belongs(db, rel, row, r)
  {
    var keys := UniqueValues([Get(row, rel.localKey)]);
    var pivots := Run(db, rel.through, WhereIn(EMPTY_PLAN, rel.foreignKey, keys)).value;
    var ids := UniqueValues(Pluck(pivots, rel.relatedForeignKey));
    PivotsOfRow(db, rel, row);
    if k :| k in ids && Compare(Get(r, rel.relatedKey), k) == 0 {
      var p :| p in pivots && k == Get(p, rel.relatedForeignKey);
      assert SameKey(r, rel.relatedKey, Get(p, rel.relatedForeignKey));
    }
    if p :| p in Rows(db, rel.through) && SameKey(p, rel.foreignKey, Get(row, rel.localKey)) && SameKey(r, rel.relatedKey, Get(p, rel.relatedForeignKey)) {
      assert Get(p, rel.relatedForeignKey) in ids;
    }
  }

  lemma PivotsOfRow(db: Database, rel: Relationship, row: Row)
    requires rel.BelongsToMany? && Run(db, rel.through, WhereIn(EMPTY_PLAN, rel.foreignKey, UniqueValues([Get(row, rel.localKey)]))).Some?
    ensures forall p :: p in Run(db, rel.through, WhereIn(EMPTY_PLAN, rel.foreignKey, UniqueValues([Get(row, rel.localKey)]))).value <==>
                        p in Rows(db, rel.through) && SameKey(p, rel.foreignKey, Get(row, rel.localKey))
  {
    var keys := UniqueValues([Get(row, rel.localKey)]);
    forall p: Row
      ensures MatchesConstraints(p, WhereIn(EMPTY_PLAN, rel.foreignKey, keys).constraints) <==> SameKey(p, rel.foreignKey, Get(row, rel.localKey))
    {
      var at := Member(rel.foreignKey, keys, false);
      assert WhereIn(EMPTY_PLAN, rel.foreignKey, keys).constraints == [at];
      assert MatchesConstraints(p, [at]) <==> Holds(p, at);
      MemberHolds(p, rel.foreignKey, keys, false);
      OneKey(p, rel.foreignKey, Get(row, rel.localKey));
    }
    PlainRun(db, rel.through, WhereIn(EMPTY_PLAN, rel.foreignKey, keys), (p: Row) => SameKey(p, rel.foreignKey, Get(row, rel.localKey)));
  }

  lemma RowsThrough(db: Database, rel: Relationship, row: Row, load: Load)
    requires Typed(db) && rel.BelongsToMany?
    requires Run(db, rel.through, WhereIn(EMPTY_PLAN, rel.foreignKey, UniqueValues([Get(row, rel.localKey)]))).Some?
    requires var pivots := Run(db, rel.through, WhereIn(EMPTY_PLAN, rel.foreignKey, UniqueValues([Get(row, rel.localKey)]))).value;
             NaiveQuery(db, rel.related, WhereIn(load.plan, rel.relatedKey, UniqueValues(Pluck(pivots, rel.relatedForeignKey))), load.nested).Some?
    ensures var pivots := Run(db, rel.through, WhereIn(EMPTY_PLAN, rel.foreignKey, UniqueValues([Get(row, rel.localKey)]))).value;
            LoadedAlone(db, rel.related, Own(db, rel, row, load.plan), load.nested,
                        NaiveQuery(db, rel.related, WhereIn(load.plan, rel.relatedKey, UniqueValues(Pluck(pivots, rel.relatedForeignKey))), load.nested).value)
  {
    var pivots := Run(db, rel.through, WhereIn(EMPTY_PLAN, rel.foreignKey, UniqueValues([Get(row, rel.localKey)]))).value;
    var ids := UniqueValues(Pluck(pivots, rel.relatedForeignKey));
    forall r | r in Rows(db, rel.related) ensures HasKey(r, rel.relatedKey, ids) <==> Belongs(db, rel, row, r) {
      PivotKeys(db, rel, row, r);
    }
    KeyedQuery(db, rel, row, load.plan, rel.relatedKey, ids);
    NaiveAllRows(db, rel.related, Own(db, rel, row, load.plan), load.nested);
  }

  lemma DirectRows(db: Database, rel: Relationship, row: Row, load: Load, attribute: string, key: Value)
    requires Typed(db) && NaiveQuery(db, rel.related, WhereIn(load.plan, attribute, UniqueValues([key])), load.nested).Some?
    requires forall r :: Belongs(db, rel, row, r) <==> SameKey(r, attribute, key)
    ensures LoadedAlone(db, rel.related, Own(db, rel, row, load.plan), load.nested,
                        NaiveQuery(db, rel.related, WhereIn(load.plan, attribute, UniqueValues([key])), load.nested).value)
  {
    forall r | r in Rows(db, rel.related) ensures HasKey(r, attribute, UniqueValues([key])) <==> Belongs(db, rel, row, r) {
      OneKey(r, attribute, key);
    }
    KeyedQuery(db, rel, row, load.plan, attribute, UniqueValues([key]));
    NaiveAllRows(db, rel.related, Own(db, rel, row, load.plan), load.nested);
  }

  lemma LoadsOwner(db: Database, model: string, row: Row, load: Load)
    requires Typed(db) && NaiveOne(db, model, row, load).Some? && db.relationships[model][load.name].BelongsTo?
    ensures Describes(db, db.relationships[model][load.name], row, load, NaiveOne(db, model, row, load).value)
  {
    var rel := db.relationships[model][load.name];
    DirectRows(db, rel, row, load, rel.ownerKey, Get(row, rel.foreignKey));
  }

  lemma LoadsChildren(db: Database, model: string, row: Row, load: Load)
    requires Typed(db) && NaiveOne(db, model, row, load).Some?
    requires var rel := db.relationships[model][load.name]; rel.HasOne? || rel.HasMany?
    ensures Describes(db, db.relationships[model][load.name], row, load, NaiveOne(db, model, row, load).value)
  {
    var rel := db.relationships[model][load.name];
    DirectRows(db, rel, row, load, rel.foreignKey, Get(row, rel.localKey));
  }

  lemma LoadsThrough(db: Database, model: string, row: Row, load: Load)
    requires Typed(db) && NaiveOne(db, model, row, load).Some? && db.relationships[model][load.name].BelongsToMany?
    ensures Describes(db, db.relationships[model][load.name], row, load, NaiveOne(db, model, row, load).value)
  {
    RowsThrough(db, db.relationships[model][load.name], row, load);
  }

  /**
   * The related models of one row are what the callback's query, without the row, returns of the rows that belong
   * to it, in that query's order, under its limit and offset.
   */
  lemma LoadsOwnRows(db: Database, model: string, row: Row, load: Load)
    requires Typed(db) && NaiveOne(db, model, row, load).Some?
    ensures Describes(db, db.relationships[model][load.name], row, load, NaiveOne(db, model, row, load).value)
  {
    var rel := db.relationships[model][load.name];
    if rel.BelongsTo? {
      LoadsOwner(db, model, row, load);
    } else if rel.BelongsToMany? {
      LoadsThrough(db, model, row, load);
    } else {
      LoadsChildren(db, model, row, load);
    }
  }

  /** No two loads have one name. */
  ghost predicate Named(loads: seq<Load>) {
    forall i, j :: 0 <= i < j < |loads| ==> loads[i].name != loads[j].name
  }

  lemma {:induction false} NaiveDescribes(db: Database, model: string, row: Row, loads: seq<Load>, n: nat)
    requires Typed(db) && Named(loads) && n < |loads| && Naive(db, model, row, loads).Some?
    ensures var relations := Naive(db, model, row, loads).value;
            && LoadKnown(db, model, loads[n]) && loads[n].name in relations
            && Describes(db, db.relationships[model][loads[n].name], row, loads[n], relations[loads[n].name])
  {
    var last := |loads| - 1;
    if n == last {
      LoadsOwnRows(db, model, row, loads[n]);
    } else {
      NaiveDescribes(db, model, row, loads[..last], n);
      assert loads[..last][n] == loads[n] && loads[n].name != loads[last].name;
    }
  }

  /** Batched loading gives every parent, under every relationship's name, its own related rows. */
  lemma BatchDescribes(db: Database, model: string, parents: seq<Row>, loads: seq<Load>, i: nat, n: nat)
    requires Typed(db) && Named(loads) && i < |parents| && n < |loads|
    requires Stored(db, model, parents) && LoadsFit(db, model, loads) && Batch(db, model, parents, loads).Some?
    ensures var relations := Batch(db, model, parents, loads).value[i];
            && LoadKnown(db, model, loads[n]) && loads[n].name in relations
            && Describes(db, db.relationships[model][loads[n].name], parents[i], loads[n], relations[loads[n].name])
  {
    BatchIsNaive(db, model, parents, loads, i);
    NaiveDescribes(db, model, parents[i], loads, n);
  }

  // ---------------------------------------------------------------- when loading succeeds

  /** Every relationship to load is declared, and the relationship constraints of every callback can be resolved. */
  ghost predicate Loadable(db: Database, model: string, loads: seq<Load>)
    decreases loads
  {
    forall n :: 0 <= n < |loads| ==> LoadableOne(db, model, loads[n])
  }

  ghost predicate LoadableOne(db: Database, model: string, load: Load)
    decreases load
  {
    LoadKnown(db, model, load) &&
    var related := db.relationships[model][load.name].related;
    Resolve(db, related, load.plan.relationships).Some? && Loadable(db, related, load.nested)
  }

  /** What can be loaded is loaded, for every parent. */
  lemma {:induction false} LoadableIsLoaded(db: Database, model: string, parents: seq<Row>, loads: seq<Load>)
    requires Loadable(db, model, loads)
    ensures Batch(db, model, parents, loads).Some?
    decreases loads, 0
  {
    if |parents| > 0 && |loads| > 0 {
      var n := |loads| - 1;
      assert forall k :: 0 <= k < n ==> loads[..n][k] == loads[k];
      LoadableIsLoaded(db, model, parents, loads[..n]);
      OneIsLoaded(db, model, parents, loads[n]);
    }
  }

  lemma {:induction false} OneIsLoaded(db: Database, model: string, parents: seq<Row>, load: Load)
    requires LoadableOne(db, model, load)
    ensures BatchOne(db, model, parents, load).Some?
    decreases load
  {
    match db.relationships[model][load.name]
    case BelongsTo(related, foreignKey, ownerKey) =>
      QueryIsLoaded(db, related, WhereIn(load.plan, ownerKey, UniqueValues(Pluck(parents, foreignKey))), load.nested);
    case BelongsToMany(related, through, foreignKey, relatedForeignKey, localKey, relatedKey) =>
      var pivots := Run(db, through, WhereIn(EMPTY_PLAN, foreignKey, UniqueValues(Pluck(parents, localKey))));
      assert Resolve(db, through, []) == Some([]);
      QueryIsLoaded(db, related, WhereIn(load.plan, relatedKey, UniqueValues(Pluck(pivots.value, relatedForeignKey))), load.nested);
    case HasOne(related, foreignKey, localKey) =>
      QueryIsLoaded(db, related, WhereIn(load.plan, foreignKey, UniqueValues(Pluck(parents, localKey))), load.nested);
    case HasMany(related, foreignKey, localKey) =>
      QueryIsLoaded(db, related, WhereIn(load.plan, foreignKey, UniqueValues(Pluck(parents, localKey))), load.nested);
  }

  lemma {:induction false} QueryIsLoaded(db: Database, model: string, plan: Plan, nested: seq<Load>)
    requires Resolve(db, model, plan.relationships).Some? && Loadable(db, model, nested)
    ensures QueryLoaded(db, model, plan, nested).Some?
    decreases nested, 1
  {
    LoadableIsLoaded(db, model, Run(db, model, plan).value, nested);
  }

  /** A relationship that is not declared, or a callback that cannot be resolved, rejects the load if there is a parent, and only then. */
  lemma {:induction false} UnloadableIsRejected(db: Database, model: string, parents: seq<Row>, loads: seq<Load>, n: nat)
    requires n < |loads|
    requires !LoadKnown(db, model, loads[n]) ||
             Resolve(db, db.relationships[model][loads[n].name].related, loads[n].plan.relationships).None?
    ensures Batch(db, model, parents, loads) == if parents == [] then Some([]) else None
  {
    if n < |loads| - 1 {
      assert loads[..|loads| - 1][n] == loads[n];
      UnloadableIsRejected(db, model, parents, loads[..|loads| - 1], n);
    } else {
      OneIsRejected(db, model, parents, loads[n]);
    }
  }

  lemma OneIsRejected(db: Database, model: string, parents: seq<Row>, load: Load)
    requires !LoadKnown(db, model, load) || Resolve(db, db.relationships[model][load.name].related, load.plan.relationships).None?
    ensures BatchOne(db, model, parents, load).None?
  {
    if LoadKnown(db, model, load) {
      var related := db.relationships[model][load.name].related;
      forall attribute: string, keys: seq<Value> ensures QueryLoaded(db, related, WhereIn(load.plan, attribute, keys), load.nested).None? {
        assert Run(db, related, WhereIn(load.plan, attribute, keys)).None?;
      }
    }
  }
}
