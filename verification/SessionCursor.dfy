/** The session's cursor over a model: relationship constraints resolved, then followed page by page. */
module SessionCursor {
  import opened Options
  import opened ModelQuery
  import opened DateTimeCodec
  import opened CursorPaging
  import opened CursorWalk
  import opened Relationships

  /** The rows a cursor is for: those that match by their related counts, in the full deterministic order. */
  function MatchingInOrder(db: Database, model: string, plan: Plan): seq<Row> {
    Sort(DeterministicOrders(plan.orders), Filter(Rows(db, model), (r: Row) =>
      MatchesConstraints(r, plan.constraints) && SatisfiesAll(db, model, r, plan.relationships)))
  }

  /**
   * Paging through the rewritten plan yields every row that matches by its counts, once, in order, if the instance
   * that the session holds of each page's last row leads on to the next page.
   */
  method Iterate(t: TimeText, db: Database, model: string, plan: Plan, held: Row -> Row, batchSize: int)
    returns (yielded: Outcome<seq<Row>>)
    requires t.Sound() && Typed(db) && UniqueIds(Rows(db, model))
    requires 0 < batchSize ==> LeadsOn(DeterministicOrders(plan.orders), MatchingInOrder(db, model, plan), held, batchSize, 0)
    ensures yielded == if 0 < batchSize <= MAX_PAGE_SIZE && Resolve(db, model, plan.relationships).Some?
                       then Ok(MatchingInOrder(db, model, plan)) else Err(InvalidQuery)
  {
    var resolved := ResolveRelationshipConstraints(db, model, plan);
    if resolved.None? {
      return Err(InvalidQuery);
    }
    ghost var tail := Resolve(db, model, plan.relationships).value;
    AnswerIsMatching(db, model, plan);
    var added := resolved.value.constraints[|plan.constraints|..];
    assert added == tail;
    ResolveConjuncts(db, model, plan.relationships);
    yielded := IterateCursor(t, model, Rows(db, model), plan, added, held, batchSize);
  }

  lemma AnswerIsMatching(db: Database, model: string, plan: Plan)
    requires Typed(db) && Resolve(db, model, plan.relationships).Some?
    ensures Answer(Rows(db, model), plan, Resolve(db, model, plan.relationships).value) == MatchingInOrder(db, model, plan)
  {
    var tail := Resolve(db, model, plan.relationships).value;
    var resolved := (r: Row) => MatchesConstraints(r, plan.constraints + tail);
    var counted := (r: Row) => MatchesConstraints(r, plan.constraints) && SatisfiesAll(db, model, r, plan.relationships);
    forall r: Row ensures resolved(r) == counted(r) {
      ResolutionPreservesMeaning(db, model, plan.relationships, r);
      AppendedConjuncts(r, plan.constraints, tail);
    }
    FilterCongruent(Rows(db, model), resolved, counted);
  }
}
