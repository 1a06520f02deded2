/** Relationship-count constraints and their rewriting into membership predicates. */
module Relationships {
  import opened Options
  import opened ModelValues
  import opened ModelQuery

  datatype Relationship =
    | BelongsTo(related: string, foreignKey: string, ownerKey: string)
    | HasOne(related: string, foreignKey: string, localKey: string)
    | HasMany(related: string, foreignKey: string, localKey: string)
    | BelongsToMany(related: string, through: string, foreignKey: string, relatedForeignKey: string,
                    localKey: string, relatedKey: string)

  /** The stored rows and the declared relationships of every model. */
  datatype Database = Database(tables: map<string, seq<Row>>, relationships: map<string, map<string, Relationship>>)

  function Rows(db: Database, model: string): seq<Row> {
    if model in db.tables then db.tables[model] else []
  }

  const EMPTY_PLAN := Plan([], [], [], None, None)

  predicate CountComparison(actual: nat, operator: Operator, expected: nat) {
    match operator
    case Eq => actual == expected
    case Ne => actual != expected
    case Lt => actual < expected
    case Le => actual <= expected
    case Gt => actual > expected
    case Ge => actual >= expected
  }

  /** The related query: the rest of a dotted path must exist, and the callback's additions apply. */
  function RelatedPlan(rc: RelationshipConstraint): Plan {
    var added := if rc.constrain.Some? then rc.constrain.value else EMPTY_PLAN;
    var nested := if |rc.path| > 1 then [RelationshipConstraint(rc.path[1..], Ge, 1, None)] else [];
    added.(relationships := nested + added.relationships)
  }

  // ---------------------------------------------------------------- sizes, for termination

  function PlanSize(plan: Plan): nat
    decreases plan
  {
    1 + RelationshipsSize(plan.relationships)
  }

  function RelationshipSize(rc: RelationshipConstraint): (size: nat)
    ensures size > 0
    decreases rc
  {
    1 + 3 * |rc.path| + if rc.constrain.Some? then PlanSize(rc.constrain.value) else 0
  }

  function RelationshipsSize(rcs: seq<RelationshipConstraint>): nat
    decreases rcs
  {
    if |rcs| == 0 then 0 else RelationshipsSize(rcs[..|rcs| - 1]) + RelationshipSize(rcs[|rcs| - 1])
  }

  lemma {:induction false} SizeAppend(a: seq<RelationshipConstraint>, b: seq<RelationshipConstraint>)
    ensures RelationshipsSize(a + b) == RelationshipsSize(a) + RelationshipsSize(b)
  {
    if |b| == 0 {
      assert a + b == a;
    } else {
      assert (a + b)[..|a + b| - 1] == a + b[..|b| - 1];
      SizeAppend(a, b[..|b| - 1]);
    }
  }

  lemma RelatedPlanSmaller(rc: RelationshipConstraint)
    ensures PlanSize(RelatedPlan(rc)) < RelationshipSize(rc) || |rc.path| == 0
  {
    var added := if rc.constrain.Some? then rc.constrain.value else EMPTY_PLAN;
    var nested := if |rc.path| > 1 then [RelationshipConstraint(rc.path[1..], Ge, 1, None)] else [];
    SizeAppend(nested, added.relationships);
    if |nested| == 1 {
      assert nested[..0] == [];
      assert RelationshipsSize(nested) == RelationshipSize(nested[0]);
    }
  }

  // ---------------------------------------------------------------- counting keys

  function Pluck(rows: seq<Row>, attribute: string): (values: seq<Value>)
    ensures |values| == |rows|
    ensures forall v :: v in values ==> exists r :: r in rows && v == Get(r, attribute)
    ensures forall r :: r in rows ==> Get(r, attribute) in values
  {
    if |rows| == 0 then [] else [Get(rows[0], attribute)] + Pluck(rows[1..], attribute)
  }

  function Occurrences(values: seq<Value>, v: Value): nat {
    if |values| == 0 then 0
    else Occurrences(values[..|values| - 1], v) + if values[|values| - 1] == v then 1 else 0
  }

  /** The distinct values that are present, in order of first occurrence. */
  function UniqueValues(values: seq<Value>): (unique: seq<Value>)
    ensures forall v :: v in unique <==> v in values && v != Absent
    ensures forall i, j :: 0 <= i < j < |unique| ==> unique[i] != unique[j]
  {
    if |values| == 0 then []
    else
      var last := values[|values| - 1];
      var earlier := UniqueValues(values[..|values| - 1]);
      assert values == values[..|values| - 1] + [last];
      if last == Absent || last in earlier then earlier else earlier + [last]
  }

  /** `countValues`: an insertion-ordered map from each present value to the number of times it occurs. */
  method CountValues(values: seq<Value>) returns (keys: seq<Value>, counts: map<Value, nat>)
    ensures keys == UniqueValues(values)
    ensures forall v :: v in counts <==> v in keys
    ensures forall v :: v in keys ==> counts[v] == Occurrences(values, v)
  {
    keys, counts := [], map[];
    for i := 0 to |values|
      invariant keys == UniqueValues(values[..i])
      invariant forall v :: v in counts <==> v in keys
      invariant forall v :: v in keys ==> counts[v] == Occurrences(values[..i], v)
    {
      var value := values[i];
      assert values[..i + 1][..i] == values[..i];
      if value != Absent {
        var existing := value in counts;
        if !existing {
          keys := keys + [value];
          NoOccurrence(values[..i], value);
        }
        counts := counts[value := (if existing then counts[value] else 0) + 1];
      }
    }
    assert values[..|values|] == values;
  }

  lemma {:induction false} NoOccurrence(values: seq<Value>, v: Value)
    requires v !in values
    ensures Occurrences(values, v) == 0
  {
    if |values| > 0 {
      NoOccurrence(values[..|values| - 1], v);
    }
  }

  function Select(values: seq<Value>, keep: Value -> bool): (kept: seq<Value>)
    ensures forall v :: v in kept <==> v in values && keep(v)
  {
    if |values| == 0 then []
    else
      assert values == [values[0]] + values[1..];
      (if keep(values[0]) then [values[0]] else []) + Select(values[1..], keep)
  }

  /** The counted keys whose count does, or does not, meet the comparison. */
  function KeysWhere(values: seq<Value>, operator: Operator, count: nat, meets: bool): seq<Value> {
    Select(UniqueValues(values), (v: Value) => CountComparison(Occurrences(values, v), operator, count) == meets)
  }

  // ---------------------------------------------------------------- resolution

  function Known(db: Database, model: string, rc: RelationshipConstraint): bool {
    |rc.path| > 0 && model in db.relationships && rc.path[0] in db.relationships[model]
  }

  function Member(attribute: string, values: seq<Value>, negate: bool): Constraint {
    Constraint(And, Membership(attribute, values, negate))
  }

  /** The pivots of the related rows. */
  function Pivots(db: Database, rel: Relationship, relatedKeys: seq<Value>): seq<Row>
    requires rel.BelongsToMany?
  {
    ApplyModelQueryPlan(Rows(db, rel.through), EMPTY_PLAN.(constraints := [Member(rel.relatedForeignKey, relatedKeys, false)]))
  }

  /** The membership constraint for keys observed with these counts. */
  function CountConstraint(attribute: string, keys: seq<Value>, rc: RelationshipConstraint): Constraint {
    var zero := CountComparison(0, rc.operator, rc.count);
    Member(attribute, KeysWhere(keys, rc.operator, rc.count, !zero), zero)
  }

  /** What one relationship constraint appends, given the related rows; None when the query is rejected. */
  function Rewrite(db: Database, rel: Relationship, rc: RelationshipConstraint, related: seq<Row>): Option<seq<Constraint>> {
    match rel
    case BelongsTo(_, foreignKey, ownerKey) =>
      var zero, one := CountComparison(0, rc.operator, rc.count), CountComparison(1, rc.operator, rc.count);
      var values := Pluck(related, ownerKey);
      if zero == one then Some(if zero then [] else [Member(foreignKey, [], false)])
      else if Absent in values then None
      else Some([Member(foreignKey, values, zero && !one)])
    case BelongsToMany(_, _, foreignKey, _, localKey, relatedKey) =>
      var relatedKeys := Pluck(related, relatedKey);
      if Absent in relatedKeys then None
      else Some([CountConstraint(localKey, Pluck(Pivots(db, rel, relatedKeys), foreignKey), rc)])
    case _ =>
      Some([CountConstraint(rel.localKey, Pluck(related, rel.foreignKey), rc)])
  }

  function ResolveOne(db: Database, model: string, rc: RelationshipConstraint): Option<seq<Constraint>>
    decreases RelationshipSize(rc), 0
  {
    if !Known(db, model, rc) then None
    else
      var rel := db.relationships[model][rc.path[0]];
      RelatedPlanSmaller(rc);
      var related := Run(db, rel.related, RelatedPlan(rc));
      if related.None? then None else Rewrite(db, rel, rc, related.value)
  }

  /** The constraints that resolving a list of relationship constraints appends, in order. */
  function Resolve(db: Database, model: string, rcs: seq<RelationshipConstraint>): Option<seq<Constraint>>
    decreases RelationshipsSize(rcs), 1
  {
    if |rcs| == 0 then Some([])
    else
      var earlier, last := Resolve(db, model, rcs[..|rcs| - 1]), ResolveOne(db, model, rcs[|rcs| - 1]);
      if earlier.None? || last.None? then None else Some(earlier.value + last.value)
  }

  lemma {:induction false} ResolveConjuncts(db: Database, model: string, rcs: seq<RelationshipConstraint>)
    requires Resolve(db, model, rcs).Some?
    ensures Conjuncts(Resolve(db, model, rcs).value)
  {
    if |rcs| > 0 {
      ResolveConjuncts(db, model, rcs[..|rcs| - 1]);
    }
  }

  /** The rows a query returns: its relationship constraints resolved, then the plan applied. */
  function Run(db: Database, model: string, plan: Plan): Option<seq<Row>>
    decreases PlanSize(plan), 0
  {
    var tail := Resolve(db, model, plan.relationships);
    if tail.None? then None
    else Some(ApplyModelQueryPlan(Rows(db, model), plan.(constraints := plan.constraints + tail.value)))
  }

  // ---------------------------------------------------------------- what a relationship constraint means

  /** A stored key joins a row's key; two nulls are equal to the comparator, an absent stored key joins nothing. */
  predicate Joins(stored: Value, key: Value) {
    stored != Absent && Compare(key, stored) == 0
  }

  /** A pivot row of `row` that leads to one of the related rows. */
  function PivotOf(rel: Relationship, row: Row, related: seq<Row>): Row -> bool
    requires rel.BelongsToMany?
  {
    (p: Row) => Joins(Get(p, rel.foreignKey), Get(row, rel.localKey)) &&
                exists r :: r in related && Compare(Get(p, rel.relatedForeignKey), Get(r, rel.relatedKey)) == 0
  }

  /** The number of related rows (pivot rows through a join table, at most one owner) of one row. */
  function RelatedCount(db: Database, rel: Relationship, row: Row, related: seq<Row>): nat {
    match rel
    case BelongsTo(_, foreignKey, ownerKey) =>
      if exists r :: r in related && Compare(Get(row, foreignKey), Get(r, ownerKey)) == 0 then 1 else 0
    case BelongsToMany(_, through, _, _, _, _) => |Filter(Rows(db, through), PivotOf(rel, row, related))|
    case _ =>
      |Filter(related, (r: Row) => Joins(Get(r, rel.foreignKey), Get(row, rel.localKey)))|
  }

  predicate SatisfiesOne(db: Database, model: string, row: Row, rc: RelationshipConstraint)
    decreases RelationshipSize(rc), 0
  {
    Known(db, model, rc) &&
    var rel := db.relationships[model][rc.path[0]];
    RelatedPlanSmaller(rc);
    CountComparison(RelatedCount(db, rel, row, Matching(db, rel.related, RelatedPlan(rc))), rc.operator, rc.count)
  }

  predicate SatisfiesAll(db: Database, model: string, row: Row, rcs: seq<RelationshipConstraint>)
    decreases RelationshipsSize(rcs), 1
  {
    |rcs| > 0 ==>
      SatisfiesAll(db, model, row, rcs[..|rcs| - 1]) && SatisfiesOne(db, model, row, rcs[|rcs| - 1])
  }

  /** The rows that match the plan when every relationship constraint is read as a count per row. */
  function Matching(db: Database, model: string, plan: Plan): seq<Row>
    decreases PlanSize(plan), 0
  {
    Arrange(Filter(Rows(db, model), (r: Row) =>
              MatchesConstraints(r, plan.constraints) && SatisfiesAll(db, model, r, plan.relationships)), plan)
  }

  // ---------------------------------------------------------------- the rewriting preserves the meaning

  /** Values that compare equal are the same value. */
  ghost predicate OneKind(values: seq<Value>) {
    forall a, b :: a in values && b in values && a != Absent && b != Absent && Compare(a, b) == 0 ==> a == b
  }

  /** Every stored column holds values of one type. */
  ghost predicate Typed(db: Database) {
    forall model: string, attribute: string :: OneKind(Pluck(Rows(db, model), attribute))
  }

  function CountJoining(values: seq<Value>, key: Value): nat {
    if |values| == 0 then 0
    else CountJoining(values[..|values| - 1], key) + if Joins(values[|values| - 1], key) then 1 else 0
  }

  lemma {:induction false} CountOfOneKey(values: seq<Value>, key: Value, v: Value)
    requires OneKind(values) && Joins(v, key) && (v in values || forall w :: w in values ==> !Joins(w, key))
    ensures CountJoining(values, key) == if v in values then Occurrences(values, v) else 0
  {
    forall w | w in values && Joins(w, key) ensures w == v {
      CompareFlips(key, v);
      CompareTransitive(v, key, w);
    }
    CountOfEquals(values, key, v);
    if v !in values {
      NoOccurrence(values, v);
    }
  }

  lemma {:induction false} CountOfEquals(values: seq<Value>, key: Value, v: Value)
    requires forall w :: w in values ==> (Joins(w, key) <==> w == v)
    ensures CountJoining(values, key) == Occurrences(values, v)
  {
    if |values| > 0 {
      CountOfEquals(values[..|values| - 1], key, v);
    }
  }

  lemma {:induction false} CountOfNone(values: seq<Value>, key: Value)
    requires forall w :: w in values ==> !Joins(w, key)
    ensures CountJoining(values, key) == 0
  {
    if |values| > 0 {
      CountOfNone(values[..|values| - 1], key);
    }
  }

  /** Membership in the keys that pass, or non-membership in those that fail, is the comparison of the row's own count. */
  lemma CountConstraintMeaning(row: Row, attribute: string, keys: seq<Value>, rc: RelationshipConstraint)
    requires OneKind(keys)
    ensures Holds(row, CountConstraint(attribute, keys, rc)) <==>
            CountComparison(CountJoining(keys, Get(row, attribute)), rc.operator, rc.count)
  {
    var key := Get(row, attribute);
    if v :| v in keys && Joins(v, key) {
      CountOfOneKey(keys, key, v);
      forall w | w in keys && w != Absent && Compare(key, w) == 0 ensures w == v {
        CompareFlips(key, v);
        CompareTransitive(v, key, w);
      }
    } else {
      CountOfNone(keys, key);
    }
  }

  lemma {:induction false} CountOfRows(rows: seq<Row>, attribute: string, key: Value)
    ensures CountJoining(Pluck(rows, attribute), key) == |Filter(rows, (r: Row) => Joins(Get(r, attribute), key))|
  {
    var joins := (r: Row) => Joins(Get(r, attribute), key);
    if |rows| > 0 {
      var n := |rows| - 1;
      assert rows == rows[..n] + [rows[n]];
      PluckAppend(rows[..n], [rows[n]], attribute);
      CountOfRows(rows[..n], attribute, key);
      FilterAppend(rows[..n], [rows[n]], joins);
      assert Pluck([rows[n]], attribute) == [Get(rows[n], attribute)];
      var plucked := Pluck(rows, attribute);
      assert plucked[..n] == Pluck(rows[..n], attribute) && plucked[n] == Get(rows[n], attribute);
    }
  }

  lemma {:induction false} PluckAppend(a: seq<Row>, b: seq<Row>, attribute: string)
    ensures Pluck(a + b, attribute) == Pluck(a, attribute) + Pluck(b, attribute)
  {
    if |a| == 0 {
      assert a + b == b;
    } else {
      assert (a + b)[1..] == a[1..] + b;
      PluckAppend(a[1..], b, attribute);
    }
  }

  lemma PluckOneKind(db: Database, model: string, rows: seq<Row>, attribute: string)
    requires Typed(db) && forall r :: r in rows ==> r in Rows(db, model)
    ensures OneKind(Pluck(rows, attribute))
  {
    assert OneKind(Pluck(Rows(db, model), attribute));
    forall v | v in Pluck(rows, attribute) ensures v in Pluck(Rows(db, model), attribute) {
      var r :| r in rows && v == Get(r, attribute);
    }
  }

  /** The constraint appended for one relationship holds of exactly the rows whose related count meets it. */
  lemma RewriteMeaning(db: Database, rel: Relationship, rc: RelationshipConstraint, related: seq<Row>, row: Row)
    requires Typed(db) && forall r :: r in related ==> r in Rows(db, rel.related)
    requires Rewrite(db, rel, rc, related).Some?
    ensures var added := Rewrite(db, rel, rc, related).value;
            Conjuncts(added) &&
            ((forall c :: c in added ==> Holds(row, c)) <==>
             CountComparison(RelatedCount(db, rel, row, related), rc.operator, rc.count))
  {
    var added := Rewrite(db, rel, rc, related).value;
    if rel.BelongsTo? {
      OwnerCountMeaning(db, rel, rc, related, row);
    } else if rel.BelongsToMany? {
      PivotCountMeaning(db, rel, rc, related, row);
    } else {
      ForeignCountMeaning(db, rel, rc, related, row);
    }
    assert added != [] ==> forall c :: c in added <==> c == added[0];
  }

  lemma OwnerCountMeaning(db: Database, rel: Relationship, rc: RelationshipConstraint, related: seq<Row>, row: Row)
    requires rel.BelongsTo? && Rewrite(db, rel, rc, related).Some?
    ensures var added := Rewrite(db, rel, rc, related).value;
            var meets := CountComparison(RelatedCount(db, rel, row, related), rc.operator, rc.count);
            |added| <= 1 && Conjuncts(added) && (if added == [] then meets else Holds(row, added[0]) == meets)
  {
    var values := Pluck(related, rel.ownerKey);
    var zero, one := CountComparison(0, rc.operator, rc.count), CountComparison(1, rc.operator, rc.count);
    MemberHolds(row, rel.foreignKey, [], false);
    MemberHolds(row, rel.foreignKey, values, zero && !one);
  }

  lemma MemberHolds(row: Row, attribute: string, values: seq<Value>, negate: bool)
    ensures Holds(row, Member(attribute, values, negate)) <==>
            (negate != exists v :: v in values && Compare(Get(row, attribute), v) == 0)
  {
  }

  lemma ForeignCountMeaning(db: Database, rel: Relationship, rc: RelationshipConstraint, related: seq<Row>, row: Row)
    requires Typed(db) && forall r :: r in related ==> r in Rows(db, rel.related)
    requires rel.HasOne? || rel.HasMany?
    ensures Holds(row, CountConstraint(rel.localKey, Pluck(related, rel.foreignKey), rc)) <==>
            CountComparison(RelatedCount(db, rel, row, related), rc.operator, rc.count)
  {
    PluckOneKind(db, rel.related, related, rel.foreignKey);
    CountOfRows(related, rel.foreignKey, Get(row, rel.localKey));
    CountConstraintMeaning(row, rel.localKey, Pluck(related, rel.foreignKey), rc);
  }

  lemma PivotCountMeaning(db: Database, rel: Relationship, rc: RelationshipConstraint, related: seq<Row>, row: Row)
    requires Typed(db) && rel.BelongsToMany?
    ensures var pivots := Pivots(db, rel, Pluck(related, rel.relatedKey));
            Holds(row, CountConstraint(rel.localKey, Pluck(pivots, rel.foreignKey), rc)) <==>
            CountComparison(RelatedCount(db, rel, row, related), rc.operator, rc.count)
  {
    var pivots := Pivots(db, rel, Pluck(related, rel.relatedKey));
    PivotRows(db, rel, related, row);
    PluckOneKind(db, rel.through, pivots, rel.foreignKey);
    CountOfRows(pivots, rel.foreignKey, Get(row, rel.localKey));
    CountConstraintMeaning(row, rel.localKey, Pluck(pivots, rel.foreignKey), rc);
  }

  lemma PivotRows(db: Database, rel: Relationship, related: seq<Row>, row: Row)
    requires rel.BelongsToMany?
    ensures var pivots := Pivots(db, rel, Pluck(related, rel.relatedKey));
            && (forall p :: p in pivots ==> p in Rows(db, rel.through))
            && |Filter(pivots, (p: Row) => Joins(Get(p, rel.foreignKey), Get(row, rel.localKey)))| ==
               RelatedCount(db, rel, row, related)
  {
    var relatedKeys := Pluck(related, rel.relatedKey);
    var at := Member(rel.relatedForeignKey, relatedKeys, false);
    var linked := (p: Row) => MatchesConstraints(p, [at]);
    var joins := (p: Row) => Joins(Get(p, rel.foreignKey), Get(row, rel.localKey));
    var both := PivotOf(rel, row, related);
    assert Pivots(db, rel, relatedKeys) == Filter(Rows(db, rel.through), linked);
    FilterFilter(Rows(db, rel.through), linked, joins);
    forall p: Row ensures (linked(p) && joins(p)) == both(p) {
      assert linked(p) == Holds(p, at);
      MemberHolds(p, rel.relatedForeignKey, relatedKeys, false);
    }
    FilterCongruent(Rows(db, rel.through), (p: Row) => linked(p) && joins(p), both);
  }

  /**
   * Rewriting relationship counts into membership predicates preserves the meaning of the query, through nested
   * paths and nested constraints: a row passes the appended constraints iff each of its own related counts does.
   */
  lemma {:induction false} ResolutionPreservesMeaning(db: Database, model: string, rcs: seq<RelationshipConstraint>, row: Row)
    requires Typed(db) && Resolve(db, model, rcs).Some?
    ensures var tail := Resolve(db, model, rcs).value;
            Conjuncts(tail) && ((forall c :: c in tail ==> Holds(row, c)) <==> SatisfiesAll(db, model, row, rcs))
    decreases RelationshipsSize(rcs), 1
  {
    if |rcs| > 0 {
      var n := |rcs| - 1;
      var rc := rcs[n];
      ResolutionPreservesMeaning(db, model, rcs[..n], row);
      var rel := db.relationships[model][rc.path[0]];
      RelatedPlanSmaller(rc);
      RunIsMatching(db, rel.related, RelatedPlan(rc));
      ArrangeKeeps(Filter(Rows(db, rel.related), (r: Row) =>
              MatchesConstraints(r, RelatedPlan(rc).constraints) && SatisfiesAll(db, rel.related, r, RelatedPlan(rc).relationships)), RelatedPlan(rc));
      RewriteMeaning(db, rel, rc, Matching(db, rel.related, RelatedPlan(rc)), row);
    }
  }

  /** A query returns exactly the rows that match it by their counts, in the plan's order, limit and offset included. */
  lemma {:induction false} RunIsMatching(db: Database, model: string, plan: Plan)
    requires Typed(db) && Run(db, model, plan).Some?
    ensures Run(db, model, plan).value == Matching(db, model, plan)
    decreases PlanSize(plan), 0
  {
    var tail := Resolve(db, model, plan.relationships).value;
    var resolved := (r: Row) => MatchesConstraints(r, plan.constraints + tail);
    var counted := (r: Row) => MatchesConstraints(r, plan.constraints) && SatisfiesAll(db, model, r, plan.relationships);
    forall r: Row ensures resolved(r) == counted(r) {
      ResolutionPreservesMeaning(db, model, plan.relationships, r);
      AppendedConjuncts(r, plan.constraints, tail);
    }
    FilterCongruent(Rows(db, model), resolved, counted);
  }

  // ---------------------------------------------------------------- the session's loop

  lemma {:induction false} ResolvePrefix(db: Database, model: string, rcs: seq<RelationshipConstraint>, i: nat)
    requires i <= |rcs| && Resolve(db, model, rcs[..i]).None?
    ensures Resolve(db, model, rcs).None?
  {
    if i == |rcs| {
      assert rcs[..i] == rcs;
    } else {
      assert rcs[..|rcs| - 1][..i] == rcs[..i];
      ResolvePrefix(db, model, rcs[..|rcs| - 1], i);
    }
  }

  lemma {:induction false} SizeOfMember(rcs: seq<RelationshipConstraint>, i: nat)
    requires i < |rcs|
    ensures RelationshipSize(rcs[i]) <= RelationshipsSize(rcs)
  {
    if i < |rcs| - 1 {
      SizeOfMember(rcs[..|rcs| - 1], i);
    }
  }

  lemma ResolveNext(db: Database, model: string, rcs: seq<RelationshipConstraint>, i: nat)
    requires i < |rcs| && Resolve(db, model, rcs[..i]).Some?
    ensures Resolve(db, model, rcs[..i + 1]) ==
            var last := ResolveOne(db, model, rcs[i]);
            if last.None? then None else Some(Resolve(db, model, rcs[..i]).value + last.value)
  {
    assert rcs[..i + 1][..i] == rcs[..i];
  }

  /** The plan with each relationship constraint replaced by what resolving it appends; None when it is rejected. */
  method ResolveRelationshipConstraints(db: Database, model: string, plan: Plan) returns (resolved: Option<Plan>)
    ensures var tail := Resolve(db, model, plan.relationships);
            resolved == if tail.None? then None
                        else Some(plan.(constraints := plan.constraints + tail.value, relationships := []))
    decreases PlanSize(plan), 0
  {
    var constraints := plan.constraints;
    var rcs := plan.relationships;
    assert constraints + [] == constraints;
    for i := 0 to |rcs|
      invariant Resolve(db, model, rcs[..i]).Some?
      invariant constraints == plan.constraints + Resolve(db, model, rcs[..i]).value
    {
      SizeOfMember(rcs, i);
      ResolveNext(db, model, rcs, i);
      var added := ResolveRelationship(db, model, rcs[i]);
      if added.None? {
        ResolvePrefix(db, model, rcs, i + 1);
        return None;
      }
      constraints := constraints + added.value;
    }
    assert rcs[..|rcs|] == rcs;
    return Some(plan.(constraints := constraints, relationships := []));
  }

  /** One round of the loop: counts the plucked keys and chooses the values and the sign of the membership. */
  method ResolveRelationship(db: Database, model: string, rc: RelationshipConstraint)
    returns (added: Option<seq<Constraint>>)
    ensures added == ResolveOne(db, model, rc)
    decreases RelationshipSize(rc), 1
  {
    if !Known(db, model, rc) {
      return None;
    }
    var rel := db.relationships[model][rc.path[0]];
    RelatedPlanSmaller(rc);
    var related := RunQuery(db, rel.related, RelatedPlan(rc));
    if related.None? {
      return None;
    }
    added := Constrain(db, rel, rc, related.value);
  }

  /** Chooses the values and the sign of the membership from the related rows. */
  method Constrain(db: Database, rel: Relationship, rc: RelationshipConstraint, related: seq<Row>) returns (added: Option<seq<Constraint>>)
    ensures added == Rewrite(db, rel, rc, related)
  {
    var zero, one := CountComparison(0, rc.operator, rc.count), CountComparison(1, rc.operator, rc.count);
    if rel.BelongsTo? {
      var values := Pluck(related, rel.ownerKey);
      if zero == one {
        return Some(if zero then [] else [Member(rel.foreignKey, [], false)]);
      }
      return if Absent in values then None else Some([Member(rel.foreignKey, values, zero && !one)]);
    }
    var observed: seq<Value>;
    if rel.BelongsToMany? {
      var relatedKeys := Pluck(related, rel.relatedKey);
      if Absent in relatedKeys {
        return None;
      }
      observed := Pluck(Pivots(db, rel, relatedKeys), rel.foreignKey);
    } else {
      observed := Pluck(related, rel.foreignKey);
    }
    var counted := ConstrainCount(rel.localKey, observed, rc);
    return Some([counted]);
  }

  /** Counts the observed keys, and chooses those that meet the comparison or those that do not. */
  method ConstrainCount(attribute: string, observed: seq<Value>, rc: RelationshipConstraint) returns (c: Constraint)
    ensures c == CountConstraint(attribute, observed, rc)
  {
    var zero := CountComparison(0, rc.operator, rc.count);
    var keys, counts := CountValues(observed);
    var chosen := Select(keys, (v: Value) => v in counts && CountComparison(counts[v], rc.operator, rc.count) == !zero);
    SelectCongruent(keys, (v: Value) => v in counts && CountComparison(counts[v], rc.operator, rc.count) == !zero,
                    (v: Value) => CountComparison(Occurrences(observed, v), rc.operator, rc.count) == !zero);
    return Member(attribute, chosen, zero);
  }

  lemma {:induction false} SelectCongruent(values: seq<Value>, f: Value -> bool, g: Value -> bool)
    requires forall v :: v in values ==> f(v) == g(v)
    ensures Select(values, f) == Select(values, g)
  {
    if |values| > 0 {
      SelectCongruent(values[1..], f, g);
    }
  }

  method RunQuery(db: Database, model: string, plan: Plan) returns (rows: Option<seq<Row>>)
    ensures rows == Run(db, model, plan)
    decreases PlanSize(plan), 1
  {
    var resolved := ResolveRelationshipConstraints(db, model, plan);
    if resolved.None? {
      return None;
    }
    return Some(ApplyModelQueryPlan(Rows(db, model), resolved.value));
  }
}
