/** What a relationship constraint counts, in terms of the stored rows. */
module RelatedRows {
  import opened Options
  import opened ModelValues
  import opened ModelQuery
  import opened Relationships

  /** A stored related row counts if it passes the callback and has a row for the rest of the path. */
  predicate Counted(db: Database, related: string, rc: RelationshipConstraint, r: Row) {
    && (rc.constrain.Some? ==>
          MatchesConstraints(r, rc.constrain.value.constraints) && SatisfiesAll(db, related, r, rc.constrain.value.relationships))
    && (|rc.path| > 1 ==> SatisfiesOne(db, related, r, RelationshipConstraint(rc.path[1..], Ge, 1, None)))
  }

  /** A stored key that is present and equal to the row's key. */
  predicate Carries(stored: Row, attribute: string, key: Value) {
    Get(stored, attribute) != Absent && Compare(key, Get(stored, attribute)) == 0
  }

  predicate HasOwner(db: Database, rel: Relationship, row: Row, rc: RelationshipConstraint)
    requires rel.BelongsTo?
  {
    exists r :: r in Rows(db, rel.related) && Counted(db, rel.related, rc, r) && Compare(Get(row, rel.foreignKey), Get(r, rel.ownerKey)) == 0
  }

  predicate Leads(db: Database, rel: Relationship, rc: RelationshipConstraint, p: Row)
    requires rel.BelongsToMany?
  {
    exists r :: r in Rows(db, rel.related) && Counted(db, rel.related, rc, r) && Compare(Get(p, rel.relatedForeignKey), Get(r, rel.relatedKey)) == 0
  }

  /** The owner, if there is one; the stored pivots of the row that lead to a counted row; or the counted rows that carry its key. */
  function JoinedCount(db: Database, rel: Relationship, row: Row, rc: RelationshipConstraint): nat {
    match rel
    case BelongsTo(_, _, _) => if HasOwner(db, rel, row, rc) then 1 else 0
    case BelongsToMany(_, through, foreignKey, _, localKey, _) =>
      |Filter(Rows(db, through), (p: Row) => Carries(p, foreignKey, Get(row, localKey)) && Leads(db, rel, rc, p))|
    case _ =>
      |Filter(Rows(db, rel.related), (r: Row) => Carries(r, rel.foreignKey, Get(row, rel.localKey)) && Counted(db, rel.related, rc, r))|
  }

  lemma {:induction false} SatisfiesEach(db: Database, model: string, row: Row, rcs: seq<RelationshipConstraint>)
    ensures SatisfiesAll(db, model, row, rcs) <==> forall i :: 0 <= i < |rcs| ==> SatisfiesOne(db, model, row, rcs[i])
  {
    if |rcs| > 0 {
      SatisfiesEach(db, model, row, rcs[..|rcs| - 1]);
      assert forall i :: 0 <= i < |rcs| - 1 ==> rcs[..|rcs| - 1][i] == rcs[i];
    }
  }

  /** The query for the related rows, the rest of the path and the callback's relationships included. */
  lemma RelatedAreCounted(db: Database, related: string, rc: RelationshipConstraint)
    ensures Matching(db, related, RelatedPlan(rc)) ==
            Arrange(Filter(Rows(db, related), (r: Row) => Counted(db, related, rc, r)),
                    if rc.constrain.Some? then rc.constrain.value else EMPTY_PLAN)
  {
    var plan := RelatedPlan(rc);
    var matches := (r: Row) => MatchesConstraints(r, plan.constraints) && SatisfiesAll(db, related, r, plan.relationships);
    forall r: Row ensures matches(r) == Counted(db, related, rc, r) {
      CountedAll(db, related, rc, r);
    }
    FilterCongruent(Rows(db, related), matches, (r: Row) => Counted(db, related, rc, r));
  }

  lemma CountedAll(db: Database, related: string, rc: RelationshipConstraint, r: Row)
    ensures Counted(db, related, rc, r) <==>
            MatchesConstraints(r, RelatedPlan(rc).constraints) && SatisfiesAll(db, related, r, RelatedPlan(rc).relationships)
  {
    var all := RelatedPlan(rc).relationships;
    var added := if rc.constrain.Some? then rc.constrain.value.relationships else [];
    if |rc.path| > 1 {
      FirstAndOthers(db, related, r, RelationshipConstraint(rc.path[1..], Ge, 1, None), added);
    } else {
      assert all == added;
    }
  }

  lemma {:induction false} FirstAndOthers(db: Database, model: string, row: Row, first: RelationshipConstraint, others: seq<RelationshipConstraint>)
    ensures SatisfiesAll(db, model, row, [first] + others) <==> SatisfiesOne(db, model, row, first) && SatisfiesAll(db, model, row, others)
    decreases |others|
  {
    var all := [first] + others;
    if |others| == 0 {
      assert all[..0] == [];
    } else {
      FirstAndOthers(db, model, row, first, others[..|others| - 1]);
      assert all[..|all| - 1] == [first] + others[..|others| - 1];
    }
  }

  /** Arranging rows without a limit loses none of them. */
  lemma ArrangeCounts(rows: seq<Row>, plan: Plan)
    requires Unlimited(plan)
    ensures |Arrange(rows, plan)| == |rows|
    ensures forall r :: r in Arrange(rows, plan) <==> r in rows
  {
    SortKeeps(plan.orders, rows);
    var arranged := if |plan.orders| > 0 then Sort(plan.orders, rows) else rows;
    assert |multiset(arranged)| == |multiset(rows)|;
    assert Slice(arranged, None, None) == arranged;
  }

  lemma RelatedCountIsJoined(db: Database, rel: Relationship, row: Row, rc: RelationshipConstraint)
    requires rc.constrain.Some? ==> Unlimited(rc.constrain.value)
    ensures RelatedCount(db, rel, row, Matching(db, rel.related, RelatedPlan(rc))) == JoinedCount(db, rel, row, rc)
  {
    var rows := Filter(Rows(db, rel.related), (r: Row) => Counted(db, rel.related, rc, r));
    var related := Arrange(rows, if rc.constrain.Some? then rc.constrain.value else EMPTY_PLAN);
    RelatedAreCounted(db, rel.related, rc);
    if rel.BelongsTo? || rel.BelongsToMany? {
      ArrangeCounts(rows, if rc.constrain.Some? then rc.constrain.value else EMPTY_PLAN);
      if rel.BelongsToMany? {
        PivotsAreJoined(db, rel, row, rc, related);
      }
    } else {
      ChildrenAreJoined(db, rel, row, rc, if rc.constrain.Some? then rc.constrain.value else EMPTY_PLAN);
    }
  }

  lemma PivotsAreJoined(db: Database, rel: Relationship, row: Row, rc: RelationshipConstraint, related: seq<Row>)
    requires rel.BelongsToMany? && forall r :: r in related <==> r in Rows(db, rel.related) && Counted(db, rel.related, rc, r)
    ensures RelatedCount(db, rel, row, related) == JoinedCount(db, rel, row, rc)
  {
    FilterCongruent(Rows(db, rel.through), PivotOf(rel, row, related),
                    (p: Row) => Carries(p, rel.foreignKey, Get(row, rel.localKey)) && Leads(db, rel, rc, p));
  }

  lemma ChildrenAreJoined(db: Database, rel: Relationship, row: Row, rc: RelationshipConstraint, plan: Plan)
    requires (rel.HasOne? || rel.HasMany?) && Unlimited(plan)
    ensures RelatedCount(db, rel, row, Arrange(Filter(Rows(db, rel.related), (r: Row) => Counted(db, rel.related, rc, r)), plan)) ==
            JoinedCount(db, rel, row, rc)
  {
    var counted := (r: Row) => Counted(db, rel.related, rc, r);
    var joins := (r: Row) => Joins(Get(r, rel.foreignKey), Get(row, rel.localKey));
    var rows := Filter(Rows(db, rel.related), counted);
    ArrangeFilter(rows, plan, joins);
    ArrangeCounts(Filter(rows, joins), plan);
    FilterFilter(Rows(db, rel.related), counted, joins);
    FilterCongruent(Rows(db, rel.related), (r: Row) => counted(r) && joins(r),
                    (r: Row) => Carries(r, rel.foreignKey, Get(row, rel.localKey)) && Counted(db, rel.related, rc, r));
  }

  /**
   * A row satisfies a relationship constraint iff the number of stored rows that join it, pass the callback and have
   * a row for the rest of the path is as the operator demands.
   */
  lemma SatisfiedByCounting(db: Database, model: string, row: Row, rc: RelationshipConstraint)
    requires Known(db, model, rc) && (rc.constrain.Some? ==> Unlimited(rc.constrain.value))
    ensures var n := JoinedCount(db, db.relationships[model][rc.path[0]], row, rc);
            SatisfiesOne(db, model, row, rc) <==>
            match rc.operator
            case Eq => n == rc.count
            case Ne => n != rc.count
            case Lt => n < rc.count
            case Le => n <= rc.count
            case Gt => n > rc.count
            case Ge => n >= rc.count
  {
    RelatedCountIsJoined(db, db.relationships[model][rc.path[0]], row, rc);
  }

  /** A query without a limit returns exactly the stored rows that match and satisfy each relationship constraint. */
  lemma QueryReturns(db: Database, model: string, plan: Plan, r: Row)
    requires Typed(db) && Run(db, model, plan).Some? && Unlimited(plan)
    ensures r in Run(db, model, plan).value <==>
            r in Rows(db, model) && MatchesConstraints(r, plan.constraints) &&
            forall i :: 0 <= i < |plan.relationships| ==> SatisfiesOne(db, model, r, plan.relationships[i])
  {
    RunIsMatching(db, model, plan);
    SatisfiesEach(db, model, r, plan.relationships);
    ArrangeCounts(Filter(Rows(db, model), (q: Row) =>
              MatchesConstraints(q, plan.constraints) && SatisfiesAll(db, model, q, plan.relationships)), plan);
  }

  // ---------------------------------------------------------------- when a query is resolved

  /** The stored rows have the key that the relationship is resolved by. */
  ghost predicate KeysPresent(db: Database, rel: Relationship) {
    match rel
    case BelongsTo(related, _, ownerKey) => forall r :: r in Rows(db, related) ==> Get(r, ownerKey) != Absent
    case BelongsToMany(related, _, _, _, _, relatedKey) => forall r :: r in Rows(db, related) ==> Get(r, relatedKey) != Absent
    case _ => true
  }

  /** The path is not empty and its first segment is a relationship of the model. */
  predicate Declared(db: Database, model: string, rc: RelationshipConstraint) {
    rc.path != [] && model in db.relationships && rc.path[0] in db.relationships[model]
  }

  /** Every segment of the path is declared, and so is every constraint of the callback, with their keys there. */
  ghost predicate ResolvableOne(db: Database, model: string, rc: RelationshipConstraint)
    decreases RelationshipSize(rc), 0
  {
    Declared(db, model, rc) &&
    var rel := db.relationships[model][rc.path[0]];
    && KeysPresent(db, rel)
    && (|rc.path| > 1 ==> ResolvableOne(db, rel.related, RelationshipConstraint(rc.path[1..], Ge, 1, None)))
    && (rc.constrain.Some? ==>
          assert PlanSize(rc.constrain.value) == 1 + RelationshipsSize(rc.constrain.value.relationships);
          Resolvable(db, rel.related, rc.constrain.value.relationships))
  }

  ghost predicate Resolvable(db: Database, model: string, rcs: seq<RelationshipConstraint>)
    decreases RelationshipsSize(rcs), 1
  {
    |rcs| > 0 ==> Resolvable(db, model, rcs[..|rcs| - 1]) && ResolvableOne(db, model, rcs[|rcs| - 1])
  }

  /** A query whose relationship constraints are declared, with their keys there, is not rejected. */
  lemma {:induction false} ResolvableIsResolved(db: Database, model: string, rcs: seq<RelationshipConstraint>)
    requires Resolvable(db, model, rcs)
    ensures Resolve(db, model, rcs).Some?
    decreases RelationshipsSize(rcs), 1
  {
    if |rcs| > 0 {
      ResolvableIsResolved(db, model, rcs[..|rcs| - 1]);
      OneIsResolved(db, model, rcs[|rcs| - 1]);
    }
  }

  lemma {:induction false} OneIsResolved(db: Database, model: string, rc: RelationshipConstraint)
    requires ResolvableOne(db, model, rc)
    ensures ResolveOne(db, model, rc).Some?
    decreases RelationshipSize(rc), 0
  {
    var rel, plan := db.relationships[model][rc.path[0]], RelatedPlan(rc);
    RelatedPlanSmaller(rc);
    RelatedResolvable(db, rel.related, rc);
    ResolvableIsResolved(db, rel.related, plan.relationships);
    var tail := Resolve(db, rel.related, plan.relationships).value;
    ArrangeKeeps(Filter(Rows(db, rel.related), (r: Row) => MatchesConstraints(r, plan.constraints + tail)), plan);
    KeysAreRewritten(db, rel, rc, Run(db, rel.related, plan).value);
  }

  lemma KeysAreRewritten(db: Database, rel: Relationship, rc: RelationshipConstraint, related: seq<Row>)
    requires KeysPresent(db, rel) && forall r :: r in related ==> r in Rows(db, rel.related)
    ensures Rewrite(db, rel, rc, related).Some?
  {
  }

  lemma RelatedResolvable(db: Database, related: string, rc: RelationshipConstraint)
    requires |rc.path| > 1 ==> ResolvableOne(db, related, RelationshipConstraint(rc.path[1..], Ge, 1, None))
    requires rc.constrain.Some? ==> Resolvable(db, related, rc.constrain.value.relationships)
    ensures Resolvable(db, related, RelatedPlan(rc).relationships)
  {
    var added := if rc.constrain.Some? then rc.constrain.value.relationships else [];
    if |rc.path| > 1 {
      FirstResolvable(db, related, RelationshipConstraint(rc.path[1..], Ge, 1, None), added);
    } else {
      assert RelatedPlan(rc).relationships == added;
    }
  }

  lemma {:induction false} FirstResolvable(db: Database, model: string, first: RelationshipConstraint, others: seq<RelationshipConstraint>)
    requires ResolvableOne(db, model, first) && Resolvable(db, model, others)
    ensures Resolvable(db, model, [first] + others)
    decreases |others|
  {
    var all := [first] + others;
    if |others| == 0 {
      assert all[..0] == [];
    } else {
      FirstResolvable(db, model, first, others[..|others| - 1]);
      assert all[..|all| - 1] == [first] + others[..|others| - 1];
    }
  }

  /** A relationship that is not declared rejects the query. */
  lemma {:induction false} UnknownIsRejected(db: Database, model: string, rcs: seq<RelationshipConstraint>, i: nat)
    requires i < |rcs| && !Declared(db, model, rcs[i])
    ensures Resolve(db, model, rcs).None?
  {
    if i < |rcs| - 1 {
      assert rcs[..|rcs| - 1][i] == rcs[i];
      UnknownIsRejected(db, model, rcs[..|rcs| - 1], i);
    }
  }

  /** So does a related row without the key, unless the owner's presence cannot matter. */
  lemma MissingKeyIsRejected(db: Database, model: string, rc: RelationshipConstraint, r: Row)
    requires Typed(db) && Declared(db, model, rc)
    requires var rel := db.relationships[model][rc.path[0]];
             && (rel.BelongsTo? || rel.BelongsToMany?) && r in Matching(db, rel.related, RelatedPlan(rc))
             && Get(r, if rel.BelongsTo? then rel.ownerKey else rel.relatedKey) == Absent
             && (rel.BelongsTo? ==> CountComparison(0, rc.operator, rc.count) != CountComparison(1, rc.operator, rc.count))
    ensures ResolveOne(db, model, rc).None?
  {
    var rel := db.relationships[model][rc.path[0]];
    if Run(db, rel.related, RelatedPlan(rc)).Some? {
      RunIsMatching(db, rel.related, RelatedPlan(rc));
    }
  }
}
