# Doxa: verified model of the model session, the Keryx hub, the compiler's graph checks and the authentication rows

This project models the parts of Doxa whose correctness depends on several functions or on whole
runs, and proves what they promise. `dafny verify dfyconfig.toml` checks all of it.

| module | what it models |
|---|---|
| `Options`, `Maps`, `ModelValues`, `ModelQuery` | two small helpers, and the in-memory meaning of a query plan: left-folded and/or, nulls lowest, a stable sort, a slice |
| `QueryMeaning` | what predicates, order and slice mean in terms of the values, without the comparator |
| `DateTimeCodec` | the escaping codec for values with datetimes in them |
| `CursorPaging`, `PageOrder`, `CursorWalk`, `SessionCursor` | keyset cursors, pages in both directions, the async iterator that follows `nextCursor` |
| `Relationships`, `RelatedRows` | relationship-count constraints, their rewriting into membership predicates, and what they count in terms of the stored rows |
| `EagerLoading`, `LoadedRows` | batched eager loading of all four relationship kinds, nested loads included, and which rows it gives to whom |
| `DirtyTracking`, `SavedAttributes` | changes, the delta that `save` writes, versioned rows, runs of many sessions; what a save leaves in each attribute and when it goes through |
| `IdentityMap`, `FindOutcomes` | the session's identity map under every interleaving of its asynchronous operations, and what becomes of every find |
| `RedisPresence` | the join, leave, renew and cleanup scripts and the cleanup loop over channels |
| `CommandThrottle` | the sliding-window throttle in its three implementations |
| `PublishedMessages`, `SingleUse` | bounded message deduplication, admission tickets, publish nonces |
| `ManifestGraph` | the compiler's depth-first searches over provider graphs |
| `AuthSessions`, `RateLimiter` | session rows changed by conditional updates, and the SQL limiter |
| `RedactUri` | the index-based scanner that redacts URI passwords |

Objects whose methods update fields are classes here, and loops are loops. Each such method is
proved equal to a function on values, or to a rule written without the data structure, and the
properties are proved of that function over all runs. A Lua script, a single SQL statement and a
synchronous block between two `await`s are each one step. Clock readings, random tokens, generated
ids, database answers and observers are parameters.

## Where the code and what is said about it differ

- The callback of `whereHas('a.b', callback)` is typed for the last related model of the path. The
  code hands it the query of the first one (packages/core/src/model.ts:1211-1223). The model
  follows the code.
- Eager loading of `belongsTo` keeps its related models in a JavaScript `Map`. Datetime keys are
  objects, so a parent never finds its owner there although the query returned it.
  `EagerLoading.OwnerExactly` says exactly when batch and single query agree, and
  `EagerLoading.DatetimeOwnerIsLost` is a concrete database on which they do not. A limit in an
  eager-load callback cuts the batch, not each parent's share: `EagerLoading.LimitedShareExactly`
  says exactly when that makes no difference.
- A cursor is encoded from the instance that the session holds of a row, which hydration does not
  refresh. `CursorWalk.WalkExactly` says exactly when paging is still right, and
  `CursorWalk.StuckForever` shows a walk that does not end.
- The identity map keeps its keys right at all times exactly if every answered save meets the guard
  of `IdentityMap.SavedKeepsKeys` (`IdentityMap.KeysMatchExactly`). Saves of one new model whose
  writes overlap can miss it (`IdentityMap.OverlappingSavesLeaveAStaleKey`).
- Row versions start again at 1 when an identity is inserted a second time. Every model's base is
  what its row held at its version, so that no write is lost, exactly while each insertion finds no
  model of its identity that the new versions can reach unseen (`DirtyTracking.RunExactly`).
  `DirtyTracking.ReusedIdentityLosesAWrite` is a run that breaks this and loses a write.
- Finds made by the observers of a hydration do not wait for the instance being hydrated, but two
  hydrations whose observers look for each other's instance wait for each other
  (`FindOutcomes.CrossedObserversWait`).
- A dependent attribute is cleared when its attribute differed before normalizing, even if the
  normalizer undoes the difference (`DirtyTracking.DependentsAreCleared`).
- An admission ticket is single-use if it is opened and consumed at one reading of the clock. The
  code reads the clock twice. `SingleUse.ConsumedTickets.Consume` says exactly when a used ticket
  passes again, and `SingleUse.ReadingsAcrossTheExpiry` shows one that does.
- Tickets are issued with texts of any length and with any authentication, but open only up to 8,192
  characters and with a known one (`SingleUse.IssueThenOpen`).
- The SQL limiter lets through at most `2 * limit - 1` in any interval shorter than the window, one
  fewer than twice the limit. `RateLimiter.BoundIsReached` shows for every policy with a window of
  two milliseconds or more that no smaller bound holds.

## Model

| member | source | states |
|---|---|---|
| `ModelValues.CompareFlips` | packages/core/src/model-query.ts:959-966 | exchanging the operands of the comparator negates its result |
| `ModelValues.CompareTransitive` | packages/core/src/model-query.ts:959-966 | the comparator is transitive with nulls below everything, so rows can be sorted by it |
| `ModelQuery.LeftFoldMeaning` | packages/core/src/model-query.ts:896-909 | a constraint list without precedence holds iff some constraint decides it: it holds and is the first or joined by `or`, and every later one is an `or` or holds |
| `ModelQuery.AppendedConjuncts` | packages/core/src/model-query.ts:896-909 | appending and-constraints to any list gives the conjunction of the whole earlier formula with each of them |
| `ModelQuery.EvaluateConstraint` | packages/core/src/model-query.ts:911-931 | the evaluator of one predicate, groups included, decides the predicate's meaning |
| `ModelQuery.EvaluateConstraints` | packages/core/src/model-query.ts:896-909 | the loop over a mutable result decides the meaning of the whole list |
| `ModelQuery.RowCompareTransitive` | packages/core/src/model-query.ts:805-811 | the sort's comparator over several mixed orders is transitive |
| `ModelQuery.SortKeeps` | packages/core/src/model-query.ts:804-812 | sorting yields an ordered permutation of the rows, repetitions included |
| `ModelQuery.SortFilter` | packages/core/src/model-query.ts:799-816 | the stable sort commutes with filtering |
| `ModelQuery.SortIsTheStableSort` | packages/core/src/model-query.ts:804-812 | any ordered arrangement that keeps the order of tied rows is the sort's result: stability determines it |
| `ModelQuery.ArrangeKeeps` | packages/core/src/model-query.ts:799-816 | the rows of a result are rows of the table |
| `QueryMeaning.PredicateMeaning` | packages/core/src/model-query.ts:911-966 | each predicate holds of exactly the rows whose own values it speaks of: false below true, numbers and microseconds by `<`, texts by their first differing character or as prefixes, null below nothing, `between` with its ends and null lowest |
| `QueryMeaning.SliceMeaning` | packages/core/src/model-query.ts:813-815 | the slice is the rows from the offset on, in their order, as many as the limit allows |
| `QueryMeaning.ResultInOrder` | packages/core/src/model-query.ts:804-815 | in a result, of two rows that the earlier orders do not tell apart, the first one's value is not after the second one's if the order ascends and not before it if it descends; rows without a value come first, or last |
| `DateTimeCodec.RoundTrip` | packages/core/src/datetime-codec.ts:25-92 | encoding succeeds exactly on JSON values and datetimes, and decoding its output gives the value back, `$doxa` keys at any depth included |
| `DateTimeCodec.WireFormat` | packages/core/src/datetime-codec.ts:13-57 | the JSON of each kind of datetime, and of an object with a `$doxa` key of its own |
| `DateTimeCodec.EncodingIsInjective` | packages/core/src/datetime-codec.ts:25-92 | values with one encoding are one value |
| `DateTimeCodec.CanonicalIsTheImage` | packages/core/src/datetime-codec.ts:55-92 | a JSON value is the encoding of what it decodes to iff it is canonical: escaped objects are exactly those with a `$doxa` key, and datetime texts are printed ones |
| `CursorPaging.DeterministicOrders` | packages/core/src/model.ts:1476-1480 | the plan's orders are a prefix of the full orders, and the id is among them |
| `CursorPaging.CursorRoundTrip` | packages/core/src/model.ts:1492-1535 | decoding a row's cursor yields the row's ordering values |
| `CursorPaging.CodecIsSound` | packages/core/src/model.ts:1492-1535 | that holds of the cursor functions of every model and ordering |
| `CursorPaging.PositionMeaning` | packages/core/src/model.ts:1597-1632 | the generated predicate for one order holds iff the row's value is strictly past the cursor's, null on either side and both directions included |
| `CursorPaging.CursorConstraintMeaning` | packages/core/src/model.ts:1553-1595 | the or of prefix equalities holds of exactly the rows strictly past the cursor |
| `CursorPaging.CompareToRow` | packages/core/src/model.ts:1492-1506 | comparing with a row's cursor values is comparing with the row by the sort's comparator |
| `CursorPaging.SortFlipped` | packages/core/src/model.ts:956-961 | with unique ids, sorting by the flipped orders reverses the rows |
| `CursorPaging.PositionedQuery` | packages/core/src/model.ts:946-967 | a positioned query returns the slice of the answer's rows past the cursor, in the answer's order or its reverse |
| `CursorPaging.QueryServes` | packages/core/src/model.ts:927-967 | with unique ids every page query, first, forward or backward, at every position and limit, returns the expected stretch of the full order |
| `PageOrder.AnswerInOrder` | packages/core/src/model.ts:956-967 | the order that the pages are cut from, in terms of the values: by the plan's orders, then by ascending id unless the plan orders by the id |
| `CursorPaging.AcceptedInputs` | packages/core/src/model.ts:935-952 | page sizes from 1 to 1,000, one cursor at most, and only one of this version, model and ordering |
| `CursorPaging.ForwardPage` | packages/core/src/model.ts:968-981 | the first page, and the page after any row, are the answer's next rows with the right cursors on both ends |
| `CursorPaging.BackwardPage` | packages/core/src/model.ts:968-981 | the page before any row is the rows that end there, in forward order, with the right cursors |
| `CursorPaging.BackwardInvertsForward` | packages/core/src/model.ts:945-981 | `before` with a page's `previousCursor` returns exactly the preceding page of the walk, `nextCursor` included |
| `CursorWalk.HeldCodecReads` | packages/core/src/model.ts:1492-1535 | a cursor of a row decodes to the ordering values of the instance that the session holds of it |
| `CursorWalk.QueryAnswers` | packages/core/src/model.ts:927-967 | whatever values a cursor has, the page query returns the first rows of the answer past them |
| `CursorWalk.WalkExactly` | packages/core/src/model.ts:968-981 | following `nextCursor` yields exactly the answer, page by page, iff the held instance of every page's last row stands at its row or before the next one |
| `CursorWalk.RightYieldsAll` | packages/core/src/model-query.ts:646-659 | right pages are together the whole answer, after finitely many of them |
| `CursorWalk.FreshLeadsOn` | packages/core/src/model.ts:1492-1506 | instances with their rows' ordering values always do |
| `CursorWalk.StuckForever` | packages/core/src/model-query.ts:646-659 | with pages of one row, an instance held from just below its row yields that row for ever |
| `CursorWalk.Follow` | packages/core/src/model-query.ts:646-659 | under that condition following `nextCursor` ends, and yields each row once, in order |
| `CursorWalk.IterateCursor` | packages/core/src/model-query.ts:640-660 | the iterator yields the filtered rows in full deterministic order for every batch size that is accepted, and rejects the others |
| `SessionCursor.Iterate` | packages/core/src/model.ts:927-982 | over a plan with relationship constraints, the iterator yields the rows that match by their true related counts, once, in order, under the same condition on held instances |
| `SessionCursor.AnswerIsMatching` | packages/core/src/model.ts:1189-1280 | filtering by the rewritten constraints is filtering by the counts |
| `Relationships.UniqueValues` | packages/core/src/model.ts:1399-1404 | the de-duplicated list has exactly the present values, each once |
| `Relationships.CountValues` | packages/core/src/model.ts:1422-1430 | the counting loop finds each present value, in order of first occurrence, with its number of occurrences |
| `Relationships.CountConstraintMeaning` | packages/core/src/model.ts:1246-1275 | membership in the keys whose count passes, or non-membership in those whose count fails, holds iff the row's own count passes, zero included |
| `Relationships.RewriteMeaning` | packages/core/src/model.ts:1225-1276 | what is appended for a relationship of any kind holds iff the row's related count meets the operator and bound |
| `Relationships.ResolutionPreservesMeaning` | packages/core/src/model.ts:1189-1280 | all constraints appended, through nested paths and callbacks, hold iff every relationship constraint is satisfied by counting |
| `Relationships.RunIsMatching` | packages/core/src/model.ts:1189-1280 | a query's result is the reference result that counts related rows per row, in order, limit and offset included |
| `RelatedRows.RelatedAreCounted` | packages/core/src/model.ts:1210-1223 | the related query of a constraint returns, in the callback's order and under its limit and offset, the stored rows that pass the callback and have a row for the rest of the path |
| `RelatedRows.SatisfiedByCounting` | packages/core/src/model.ts:1202-1276 | a row satisfies a relationship constraint iff the number of stored related rows, or pivots, that join it, pass the callback and have a row for the rest of the path is as the operator demands |
| `RelatedRows.QueryReturns` | packages/core/src/model.ts:1189-1280 | a query without a limit returns a stored row iff it matches the constraints and satisfies each relationship constraint in that sense |
| `RelatedRows.ResolvableIsResolved` | packages/core/src/model.ts:1202-1228 | a query whose relationship constraints are declared along every path and in every callback, with the keys they are resolved by, is not rejected |
| `RelatedRows.UnknownIsRejected` | packages/core/src/model.ts:1203-1208 | an empty path or an undeclared relationship rejects the query |
| `RelatedRows.MissingKeyIsRejected` | packages/core/src/model.ts:1277-1279 | so does a related row without its key, where that key goes into a membership |
| `Relationships.ResolveRelationshipConstraints` | packages/core/src/model.ts:1189-1280 | the loop replaces the relationship constraints by what resolving them appends, or rejects the plan |
| `Relationships.ResolveRelationship` | packages/core/src/model.ts:1202-1275 | one round of the loop, from the counted keys, appends what the specification says |
| `Relationships.Constrain` | packages/core/src/model.ts:1225-1275 | from the related rows, each kind of relationship appends the specified constraint, or rejects |
| `Relationships.ConstrainCount` | packages/core/src/model.ts:1246-1258 | the counted keys are chosen, and the sign set, by whether a count of zero passes |
| `Relationships.RunQuery` | packages/core/src/model.ts:813-836 | a query resolves its plan and applies it |
| `EagerLoading.EagerLoad` | packages/core/src/model.ts:1106-1186 | the loop over relationships gives every parent its share of each batch |
| `EagerLoading.ShareOfBatch` | packages/core/src/model.ts:1144-1153 | the rows of a batched query that carry one key are, in order, the rows of the query for that key alone |
| `EagerLoading.BatchOneIsNaive` | packages/core/src/model.ts:1126-1185 | one relationship of one parent: its share of the batch is what its own query returns |
| `EagerLoading.PivotsAreNaive` | packages/core/src/model.ts:1161-1185 | the same through a join table |
| `EagerLoading.BatchIsNaive` | packages/core/src/model.ts:1085-1187 | every parent's loaded relationships, nested loads included, are those of loading it alone |
| `LoadedRows.RestrictedQuery` | packages/core/src/model.ts:1130-1148 | restricting any query to keys keeps its rows with such a key, in its order; its limit and offset count in these |
| `LoadedRows.LoadsOwnRows` | packages/core/src/model.ts:1106-1186 | what is loaded for one row is, for each kind of relationship, what the callback's query returns of the rows that carry its key or that its stored pivots lead to, in that query's order, or the first of them |
| `LoadedRows.BatchDescribes` | packages/core/src/model.ts:1085-1187 | so it is, under each relationship's name, for every parent of a batch |
| `LoadedRows.LoadableIsLoaded` | packages/core/src/model.ts:1106-1187 | declared relationships whose callbacks can be resolved, at every depth, are loaded for any parents |
| `LoadedRows.UnloadableIsRejected` | packages/core/src/model.ts:1092-1124 | an undeclared relationship, or a callback that cannot be resolved, rejects the load iff there is a parent |
| `EagerLoading.OwnerRows` | packages/core/src/model.ts:1130-1132 | the query for one owner finds nothing iff no stored row carries the key and satisfies the callback's constraints |
| `EagerLoading.OwnerExactly` | packages/core/src/model.ts:1126-1143 | for `belongsTo`, batch and single query agree iff the key is a primitive or no stored row is the owner |
| `EagerLoading.DatetimeOwnerIsLost` | packages/core/src/model.ts:1133-1140 | an owner with a datetime key is returned by the query and lost by the batch |
| `EagerLoading.LimitedShareExactly` | packages/core/src/model.ts:1144-1159 | with a limit in the callback, batch and single query agree on a key iff the limit cuts off none of the key's rows or lets through no other rows |
| `EagerLoading.LimitCutsTheBatch` | packages/core/src/model.ts:1144-1159 | two parents with a child each and a limit of one: the second child is cut off |
| `DirtyTracking.DeltaIsExact` | packages/core/src/model.ts:698-711 | applied to the original, or to any state that is the same up to `sameValue`, the patch and the removed attributes give the current attributes |
| `DirtyTracking.DeltaIsMinimal` | packages/core/src/model.ts:536-548 | the delta's keys are exactly the attributes that differ, patched or removed but not both, and every other delta with that effect has them all |
| `DirtyTracking.NoChanges` | packages/core/src/model.ts:536-548 | there are no changes iff the attributes are the same as the original |
| `DirtyTracking.FindChanges` | packages/core/src/model.ts:536-548 | the loop over both key sets finds the changes |
| `DirtyTracking.PatchIsFullWrite` | packages/testing/src/index.ts:886-894 | a mapped table, which gets only the delta, ends in the same state as a row that is replaced whole |
| `DirtyTracking.DependentsAreCleared` | packages/core/src/model.ts:688-695 | an attribute is cleared exactly if one it depends on differed before normalizing; untouched attributes stay |
| `SavedAttributes.OnlyNormalizer` | packages/core/src/model.ts:688-692 | an attribute with one normalizer gets its value |
| `SavedAttributes.SavedValue` | packages/core/src/model.ts:682-711 | after a save that went through, each attribute of the model, and of the row if one was written, is null if one it depends on changed, else its normalizers' value if it changed itself, else the observers' value |
| `SavedAttributes.SavesExactly` | packages/core/src/model.ts:671-726 | a save goes through iff model, attributes and columns are as they must be and the row is still at the model's version; it conflicts iff only that fails, does nothing iff there is nothing to save, and is refused for an attribute that authentication owns iff that was changed to something other than null at creation |
| `SavedAttributes.ChangedExactly` | packages/core/src/model.ts:1406-1420 | an attribute has changed iff its value is another one, a datetime with a zone only if its instant is |
| `SavedAttributes.SavedChanges` | packages/core/src/model.ts:508-522 | after a save the last changes are exactly the attributes that differ from the earlier base, and the model was recently created iff it was new |
| `SavedAttributes.FailedValue` | packages/core/src/model.ts:671-726 | a save with nothing to do leaves the attributes; one that is refused or conflicts leaves them as its observers, or its normalizers, left them |
| `SavedAttributes.StepsAct` | packages/core/src/model.ts:398-417 | what loading, making and assigning leave in a session |
| `SavedAttributes.DeletesExactly` | packages/core/src/model.ts:757-790 | a delete removes the row iff it is there at the model's version, and journals the pending facts then; otherwise nothing changes |
| `DirtyTracking.Prepare` | packages/core/src/model.ts:688-695 | the two loops normalize the changed attributes, then clear the dependent ones |
| `DirtyTracking.SaveWrites` | packages/core/src/model.ts:671-752 | a save that goes through journals each pending fact once and leaves the model at its row's version, based on what was written |
| `DirtyTracking.SavedIsClean` | packages/core/src/model.ts:515-521 | after a save nothing is dirty, and a second save writes nothing |
| `DirtyTracking.FailedSaveWritesNothing` | packages/core/src/model.ts:671-726 | a save that fails or has nothing to do changes no row, and neither the model's base nor its version nor its pending facts |
| `DirtyTracking.WritesAreNotLost` | packages/testing/src/index.ts:883-901 | a write that reaches a row starts from the very state the model started from, raises its version by one, and leaves the model's attributes there and all other rows alone |
| `DirtyTracking.StepExactly` | packages/core/src/model.ts:671-790 | loading, making, assigning, saving or deleting by any session keeps every model's base equal to the row at its version, iff it is no insertion that finds a model of its identity with a version above 1, or with version 1 of another state |
| `DirtyTracking.RunExactly` | packages/core/src/model.ts:671-790 | in a run of any sessions the bases are right at all times iff every insertion is safe in that sense |
| `DirtyTracking.EveryRunIsConsistent` | packages/core/src/model.ts:671-790 | a run in which no deleted identity is inserted again is safe throughout |
| `DirtyTracking.ReusedIdentityLosesAWrite` | packages/testing/src/index.ts:883-901 | an insertion that is not safe, and the model of the deleted row that overwrites it |
| `DirtyTracking.Store.SaveEntity` | packages/testing/src/index.ts:862-901 | a read-only table, an undeclared column and a version that is not expected are refused without a change; anything else writes the specified row |
| `DirtyTracking.Model.SetAttribute` | packages/core/src/model.ts:398-408 | refuses undeclared attributes and the identity, deletes on undefined, and changes no other attribute |
| `DirtyTracking.Model.IsDirty` | packages/core/src/model.ts:419-422 | a model is dirty iff its attributes are not the same as the original |
| `DirtyTracking.Model.Save` | packages/core/src/model.ts:671-752 | model, rows, journal and outcome are those of the save that the lemmas above are about |
| `DirtyTracking.Model.PrepareSave` | packages/core/src/model.ts:671-697 | the part of a save before its write: how it ends early, or the attributes it goes on with |
| `DirtyTracking.Persist` | packages/core/src/model.ts:696-752 | the write of a save: rows, journal, outcome, and what the model becomes |
| `IdentityMap.SavedKeepsKeys` | packages/core/src/model.ts:727-732 | an answered save keeps every key its model's identity iff it brings no new identity, or the model is under no third key |
| `IdentityMap.StepKeepsKeys` | packages/core/src/model.ts:609-1054 | every synchronous block keeps each key the current identity of its model, answered saves under that guard, and only then |
| `IdentityMap.KeysMatchExactly` | packages/core/src/model.ts:609-1054 | in every interleaving each key is at all times its model's current identity iff every answered save meets the guard |
| `IdentityMap.EveryKeyIsItsModelsIdentity` | packages/core/src/model.ts:609-1054 | which they do when no two saves of one instance are being written at once |
| `IdentityMap.OverlappingSavesLeaveAStaleKey` | packages/core/src/model.ts:727-732 | two overlapping writes of a new model: the second answer misses the guard, and leaves a key whose model has another identity |
| `IdentityMap.HydrateAgrees` | packages/core/src/model.ts:1007-1054 | a row that arrives while its identity is known or being hydrated makes no second instance |
| `IdentityMap.StepAgrees` | packages/core/src/model.ts:609-1054 | every block that does not disturb an identity keeps all answers about it, and all pending ones, on one instance |
| `IdentityMap.RunAgrees` | packages/core/src/model.ts:609-1054 | the same over whole runs |
| `IdentityMap.FindsAgree` | packages/core/src/model.ts:609-632 | any two finds or query rows of one identity that complete, with no delete, close, failed hydration or id collision between, get the same instance |
| `IdentityMap.OneInstance` | packages/core/src/model.ts:609-1054 | in every session whose answered saves meet the guard, all finds and rows of an undisturbed identity get one instance, and it has that identity |
| `FindOutcomes.FindIsAnswered` | packages/core/src/model.ts:609-632 | in an open session a find of an undisturbed identity, once its row is found and the observers it waits for are through, is answered with the instance that the map has, and is never rejected |
| `FindOutcomes.WaitersShareOutcome` | packages/core/src/model.ts:1036-1054 | whoever waits for a hydration gets the instance it attached if its observers succeeded in an open session, and is rejected otherwise, and then the instance is not in the map |
| `FindOutcomes.NewRow` | packages/core/src/model.ts:1022-1048 | the row of an unknown identity gets an instance that is attached if the row is valid, and fails at once if not |
| `FindOutcomes.ObserversDoNotWait` | packages/core/src/model.ts:616-621 | observers that look for an instance being hydrated around them do not wait for it, and get their own at once |
| `FindOutcomes.OutsideObservers` | packages/core/src/model.ts:1030-1045 | a scope ends with its hydration |
| `FindOutcomes.CrossedObserversWait` | packages/core/src/model.ts:619-622 | two hydrations whose observers look for each other's instance wait for each other |
| `FindOutcomes.ClosedRefuses` | packages/core/src/model.ts:609-664 | a closed session rejects finds, makes no models and starts no saves |
| `FindOutcomes.MissingOrRead` | packages/core/src/model.ts:623-628 | an identity that is neither attached nor being hydrated is read, and a reader that finds nothing ends the find |
| `FindOutcomes.SettledAndForgotten` | packages/core/src/model.ts:1037-1053 | a settled hydration is forgotten and a failed one takes its own instance out of the map; no other hydration or instance is touched |
| `FindOutcomes.DeletedIsFree` | packages/core/src/model.ts:786-789 | a delete frees the model's current identity and no other one |
| `FindOutcomes.WrittenOnce` | packages/core/src/model.ts:696-752 | a save is written once |
| `FindOutcomes.ClosedForEver` | packages/core/src/model.ts:984-988 | closing forgets everything, and no step opens the session again |
| `IdentityMap.ModelSession.LookUp` | packages/core/src/model.ts:615-624 | the checks made before anything is awaited, in their order |
| `IdentityMap.ModelSession.FindModel` | packages/core/src/model.ts:609-627 | `find` answers, waits for a pending hydration, or asks the reader |
| `IdentityMap.ModelSession.HydrateRow` | packages/core/src/model.ts:1015-1048 | `hydrate` looks again, and otherwise attaches a new instance and registers its hydration |
| `IdentityMap.ModelSession.Reply` | packages/core/src/model.ts:625-631 | the reader's answer to a find |
| `IdentityMap.ModelSession.QueryRow` | packages/core/src/model.ts:829-831 | each row of a query is hydrated |
| `IdentityMap.ModelSession.ObserversDone` | packages/core/src/model.ts:1037-1046 | failed observers, or a closed session, take the instance out of the map if it is still there |
| `IdentityMap.ModelSession.Forget` | packages/core/src/model.ts:1049-1053 | a settled hydration is forgotten unless a later one took its place |
| `IdentityMap.ModelSession.Resume` | packages/core/src/model.ts:622-622 | a waiting call gets the hydration's instance or its error |
| `IdentityMap.ModelSession.MakeModel` | packages/core/src/model.ts:643-660 | an attached identity cannot be made again |
| `IdentityMap.ModelSession.StartSave` | packages/core/src/model.ts:662-669 | a closed session refuses a save at once |
| `IdentityMap.ModelSession.StartWrite` | packages/core/src/model.ts:681-714 | after its observers a save writes under the identity its model has by then, even if the session was closed meanwhile |
| `IdentityMap.ModelSession.FinishSave` | packages/core/src/model.ts:727-732 | a generated identity moves the model to its new key |
| `IdentityMap.ModelSession.FinishDelete` | packages/core/src/model.ts:786-789 | a deleted model's current identity is freed |
| `IdentityMap.ModelSession.Close` | packages/core/src/model.ts:984-988 | closing forgets everything |
| `RedisPresence.JoinCoherent` | packages/keryx/src/redis-backplane.ts:42-47 | a join keeps counts equal to connections per actor, lease keys to connection keys, members to live actors; it is `first` iff the actor was away |
| `RedisPresence.DropCoherent` | packages/keryx/src/redis-backplane.ts:54-61 | removing a connection keeps the same, and the actor is gone iff the count reaches zero |
| `RedisPresence.AnnouncementsAlternate` | packages/keryx/src/redis-backplane.ts:36-101 | in every history each actor's `first` joins and departures strictly alternate, beginning with a join |
| `RedisPresence.LastAnnouncement` | packages/keryx/src/redis-backplane.ts:36-101 | the last announcement about an actor says whether it is live |
| `RedisPresence.Channel.Join` | packages/keryx/src/redis-backplane.ts:36-48 | the script's new state and answer: a known connection is only renewed, the member list is the live actors |
| `RedisPresence.Channel.Add` | packages/keryx/src/redis-backplane.ts:42-47 | the half of the join script for a new connection |
| `RedisPresence.Channel.Leave` | packages/keryx/src/redis-backplane.ts:50-67 | the script's new state and answer; an empty channel is unregistered |
| `RedisPresence.Channel.Renew` | packages/keryx/src/redis-backplane.ts:69-75 | only a lease of a known connection is extended |
| `RedisPresence.Channel.Cleanup` | packages/keryx/src/redis-backplane.ts:77-101 | the oldest due leases, as many as the limit allows, go with their connections, and exactly the actors that have left are listed, each once |
| `RedisPresence.RangeByScore` | packages/keryx/src/redis-backplane.ts:78-78 | the range query returns due leases only, none left behind is older |
| `RedisPresence.SweptByTheClock` | packages/keryx/src/redis-backplane.ts:77-101 | a sweep removes no lease of the future, at most the limit of the others, and leaves one of those only if it removed as many as the limit, none of them newer |
| `RedisPresence.CleanupExpired` | packages/keryx/src/redis-backplane.ts:315-348 | every channel that was registered at the start is swept once, whatever scripts others run in between; every channel stays coherent and no announcement is taken back |
| `CommandThrottle.DecideKeepsSpaced` | packages/keryx/src/index.ts:335-351 | every decision keeps any `limit + 1` admissions at least a window apart |
| `CommandThrottle.AtMostLimitPerWindow` | packages/keryx/src/index.ts:335-351 | spaced admissions put at most `limit` into any interval of one window |
| `CommandThrottle.DelayIsExact` | packages/keryx/src/index.ts:339-347 | while nothing else is admitted, a denied request is denied until its `retryAfterMs` are over and allowed from then on |
| `CommandThrottle.RunIsSafe` | packages/keryx/src/index.ts:312-352 | over every run at most `limit` requests of one actor and command are allowed in any interval of one window |
| `CommandThrottle.AdmissionsAreAllowed` | packages/keryx/src/index.ts:335-351 | the admissions that the rule looks at are exactly the earlier requests of the key that it allowed |
| `CommandThrottle.BoundedAdmissionsAreAllowed` | packages/keryx/src/index.ts:320-351 | so they are under the cap: a request that is refused for want of room counts for nothing |
| `CommandThrottle.TableIsSafe` | packages/keryx/src/index.ts:312-352 | so it is of every table that the three implementations keep, whatever a full one refuses |
| `CommandThrottle.PruneExpired` | packages/keryx/src/index.ts:329-330 | pruning removes exactly the expired buckets |
| `CommandThrottle.PruningKeeps` | packages/keryx/src/index.ts:322-330 | pruning discards no live attempt |
| `CommandThrottle.FullIsNoRoom` | packages/keryx/src/index.ts:320-334 | the table is full for a request exactly if its key has no live admission and as many other keys as the table can hold have one: expired buckets never take the place of live ones |
| `CommandThrottle.RoomForAll` | packages/keryx/src/index.ts:325-334 | a table with room for every key always has room |
| `CommandThrottle.Admit` | packages/keryx/src/index.ts:319-351 | one request on values: refused with the whole window iff there is no room for its key, otherwise decided by the rule; the table stays within its cap |
| `CommandThrottle.InProcessThrottle.Consume` | packages/keryx/src/index.ts:312-352 | the bounded table decides by the rule while there is room for the key, and refuses for the whole window exactly if there is none |
| `CommandThrottle.FakeThrottle.Consume` | packages/core/src/broadcasting.ts:144-168 | the fake transport decides by the rule |
| `CommandThrottle.RedisThrottle.Consume` | packages/keryx/src/redis-backplane.ts:110-125 | the script decides by the rule, key expiry included |
| `CommandThrottle.RunInProcess` | packages/keryx/src/index.ts:312-352 | over a run the in-process decisions are the rule's under the cap |
| `CommandThrottle.BoundedExactly` | packages/keryx/src/index.ts:325-334 | under the cap the decisions of a run are the unbounded rule's iff every request finds room for its key |
| `CommandThrottle.RunFake` | packages/core/src/broadcasting.ts:144-168 | over a run the fake's decisions are the rule's |
| `CommandThrottle.RunRedis` | packages/keryx/src/redis-backplane.ts:110-125 | over a run the script's decisions are the rule's |
| `CommandThrottle.DecideThrice` | packages/keryx/src/index.ts:312-352 | the fake and the script decide every request of every run identically, with the same `retryAfterMs`, and so does the in-process table iff it has room throughout, which it has when it can hold every key |
| `PublishedMessages.Deduplicator.AcceptPublished` | packages/keryx/src/index.ts:763-783 | a message is delivered iff its id is not remembered from within the period; in every run an id is delivered again only after the period or after the cap's number of distinct other ids, the table is the latest deliveries in delivery order, within its cap |
| `PublishedMessages.AcceptKeeps` | packages/keryx/src/index.ts:772-782 | one message: pruning and what follows decide by what was delivered recently, and keep the guarantee |
| `PublishedMessages.CrowdedMeaning` | packages/keryx/src/index.ts:776-780 | an id that was crowded out was followed by at least the cap's number of distinct other ids |
| `PublishedMessages.DeliverKeeps` | packages/keryx/src/index.ts:776-782 | dropping the oldest entry of a full table keeps the guarantee |
| `SingleUse.Issue` | packages/keryx/src/security.ts:188-231 | a ticket is issued iff origin, claims and delegation are well-formed and no hop has expired, and its expiry is the earliest of its lifetime and every hop's |
| `SingleUse.IssueThenOpen` | packages/keryx/src/security.ts:188-304 | an issued ticket opens, with the fields it was issued with, exactly for its application and origin, before its expiry, by a clock at most five seconds behind and a lifetime that is not shorter, if its text is at most 8,192 characters and its authentication is a known one; its expiry passes no hop's |
| `SingleUse.OpenedIsWellFormed` | packages/keryx/src/security.ts:235-304 | whatever a ticket's text holds, what it is opened to is well-formed and not expired |
| `SingleUse.ConsumedTickets.Consume` | packages/keryx/src/index.ts:528-546 | a fresh ticket is consumed iff there is room; a consumed one again exactly if its rounded-up expiry passed between its two clock readings |
| `SingleUse.ReadingsAcrossTheExpiry` | packages/keryx/src/index.ts:528-546 | two readings on different sides of the expiry consume one ticket twice |
| `SingleUse.PublishAuthenticator.Verify` | packages/keryx/src/security.ts:113-168 | over every run a nonce and timestamp are accepted once; a well-signed fresh request is refused only as a replay |
| `ManifestGraph.AssertUnique` | packages/compiler/src/manifest-validation.ts:28-39 | reports the first id that occurs twice, iff there is one |
| `ManifestGraph.AcyclicSearch.Visit` | packages/compiler/src/manifest-validation.ts:46-61 | ends on every graph; without a report, everything visited is listed after its dependencies |
| `ManifestGraph.ListedGraphIsAcyclic` | packages/compiler/src/manifest-validation.ts:41-64 | a graph that can be listed with dependencies first has no cycle |
| `ManifestGraph.AssertAcyclicProviderGraph` | packages/compiler/src/manifest-validation.ts:41-64 | throws iff the graph has a cycle, and then reports a walk whose last id already occurs in it |
| `ManifestGraph.ScopeSearch.ReachesExecutionScope` | packages/compiler/src/manifest-validation.ts:69-78 | the pruned search finds only what is reachable and closes what it visits |
| `ManifestGraph.ReachesExecutionFrom` | packages/compiler/src/manifest-validation.ts:69-83 | from an empty visited set the search succeeds iff an execution-scoped provider is reachable, on cyclic graphs too |
| `ManifestGraph.AssertScopeSafety` | packages/compiler/src/manifest-validation.ts:66-90 | reports a singleton's dependency that reaches an execution-scoped provider iff there is one |
| `ManifestGraph.UnsafeIffSingletonReaches` | packages/compiler/src/manifest-validation.ts:66-90 | with unique ids that is the case iff some singleton reaches an execution-scoped provider |
| `ManifestGraph.CheckRoot` | packages/compiler/src/manifest-validation.ts:115-143 | one root is reported iff it reaches something prohibited, with a walk to it |
| `ManifestGraph.AssertNoNestedActionBusReachability` | packages/compiler/src/manifest-validation.ts:92-145 | throws iff some root reaches the action bus, or a query or realtime command reaches a forbidden capability |
| `AuthSessions.SessionRow.RotateToken` | packages/auth-postgres/src/postgres-auth.ts:1432-1450 | the compare-and-set renewal as one step |
| `AuthSessions.SessionRow.StartImpersonation` | packages/auth-postgres/src/postgres-auth.ts:943-968 | the conditional update that starts an impersonation as one step |
| `AuthSessions.SessionRow.StopImpersonation` | packages/auth-postgres/src/postgres-auth.ts:1005-1043 | the locked read and update that stops it as one step |
| `AuthSessions.SessionRow.EndImpersonationOf` | packages/auth-postgres/src/postgres-auth.ts:1378-1396 | a request clears an impersonation that is over only if it is still the same one |
| `AuthSessions.SessionRow.RevokeSession` | packages/auth-postgres/src/postgres-auth.ts:1136-1147 | revocation is set once |
| `AuthSessions.RetiredStaysRetired` | packages/auth-postgres/src/postgres-auth.ts:942-1043 | a token out of both slots stays out of them in every continuation |
| `AuthSessions.NeverAcceptedAgain` | packages/auth-postgres/src/postgres-auth.ts:1338-1355 | such a token, and any token of a revoked session, is never accepted again |
| `AuthSessions.RevokedStaysRevoked` | packages/auth-postgres/src/postgres-auth.ts:1136-1147 | no step undoes or moves a revocation |
| `AuthSessions.GraceIsNotExtended` | packages/auth-postgres/src/postgres-auth.ts:1346-1347 | a predecessor whose grace is over is not accepted at any later time |
| `AuthSessions.AtMostOneWinner` | packages/auth-postgres/src/postgres-auth.ts:1430-1450 | in every interleaving no two renewals of one token win |
| `AuthSessions.ExactlyOneWinner` | packages/auth-postgres/src/postgres-auth.ts:1430-1450 | of concurrent renewals of the current token the first to execute wins, alone |
| `AuthSessions.PreviousIsPredecessor` | packages/auth-postgres/src/postgres-auth.ts:1432-1450 | the previous token is the one the latest rotation replaced by the current one |
| `AuthSessions.AcceptedTokens` | packages/auth-postgres/src/postgres-auth.ts:1338-1355 | a token is accepted iff the session is live and it is the current token, or its immediate predecessor within the rotation's grace |
| `AuthSessions.ImpersonationIsWhole` | packages/auth-postgres/src/postgres-auth.ts:950-954 | in every run the five impersonation columns are all set or all null, and the impersonation ends no later than the session |
| `AuthSessions.ImpersonationReplacesTokens` | packages/auth-postgres/src/postgres-auth.ts:944-949 | starting or stopping an impersonation retires every token the session had |
| `AuthSessions.StartsExactly` | packages/auth-postgres/src/postgres-auth.ts:941-967 | an impersonation starts exactly in a live session of the identity that has none, less than 15 minutes after it was authenticated |
| `AuthSessions.ImpersonationIsItsStart` | packages/auth-postgres/src/postgres-auth.ts:943-955 | in every run an impersonation's grant, target, reason and times are those of the statement that started it, and it ends after its duration or with the session |
| `AuthSessions.StartThenStop` | packages/auth-postgres/src/postgres-auth.ts:1016-1040 | starting and stopping leaves the session as it was but for a new token and the time of use |
| `AuthSessions.StartThenEnd` | packages/auth-postgres/src/postgres-auth.ts:1378-1396 | a request that ends an impersonation leaves the session as it was but for the token that its start brought |
| `AuthSessions.OthersChangeNothing` | packages/auth-postgres/src/postgres-auth.ts:956-1040 | statements for another identity or grant, and all but the touch on a revoked session, change nothing |
| `AuthSessions.IdleFromLatestUse` | packages/auth-postgres/src/postgres-auth.ts:1418-1460 | the idle period ends a full period after the latest touch or renewal that was won, or with the session if that is earlier |
| `AuthSessions.AuthenticatedByLatest` | packages/auth-postgres/src/postgres-auth.ts:858-871 | the time of authentication, which impersonation asks for, is that of the latest reauthentication |
| `AuthSessions.SeenByLatest` | packages/auth-postgres/src/postgres-auth.ts:1432-1460 | the session was last seen at the latest statement of its user |
| `AuthSessions.RevokedByFirst` | packages/auth-postgres/src/postgres-auth.ts:1136-1147 | the first revocation of a session is the one it keeps |
| `RateLimiter.Bucket.Attempt` | packages/auth-postgres/src/postgres-auth.ts:1612-1645 | the row after the upsert, the decision, and the retry delay rounded up to seconds |
| `RateLimiter.AdmissionRule` | packages/auth-postgres/src/postgres-auth.ts:1626-1644 | an attempt is admitted iff no block is active and its window has room |
| `RateLimiter.AtMostLimitPerWindow` | packages/auth-postgres/src/postgres-auth.ts:1626-1634 | at most `limit` attempts are admitted per window instance |
| `RateLimiter.FewerThanTwiceTheLimit` | packages/auth-postgres/src/postgres-auth.ts:1626-1634 | fewer than twice the limit are admitted in any interval shorter than the window |
| `RateLimiter.BoundIsReached` | packages/auth-postgres/src/postgres-auth.ts:1626-1634 | for every policy with a window of at least two ticks that bound is reached |
| `RateLimiter.BlockIsFixed` | packages/auth-postgres/src/postgres-auth.ts:1629-1633 | an active block denies every attempt until it ends, and no attempt moves its end, window resets included |
| `RateLimiter.BlockLasts` | packages/auth-postgres/src/postgres-auth.ts:1629-1633 | a denial that no active block explains blocks for exactly the policy's block length, and the first attempt after it is decided by its window alone |
| `RateLimiter.FreshBucketAdmits` | packages/auth-postgres/src/postgres-auth.ts:1624-1628 | an empty bucket admits the first `limit` attempts of its window |
| `RedactUri.SegmentsAreTheText` | packages/introspection/src/index.ts:833-865 | the stretches the text is cut into make up the whole text, so every character outside the passwords stays |
| `RedactUri.EverySegmentIsExact` | packages/introspection/src/index.ts:841-864 | a password is exactly the stretch between the first colon and the last at-sign of an authority whose scheme starts with a letter; no such authority is left in the rest |
| `RedactUri.ProtocolAndScheme` | packages/introspection/src/index.ts:838-847 | a protocol is `://`, and has a scheme iff the longest run of scheme characters before it begins with a letter |
| `RedactUri.CharactersByCode` | packages/introspection/src/index.ts:867-877 | letters, scheme characters and the characters that end an authority, by their code points |
| `RedactUri.RedactedSegments` | packages/introspection/src/index.ts:833-865 | the redacted text is cut at the same places, with every password replaced |
| `RedactUri.RedactedTwice` | packages/introspection/src/index.ts:833-865 | redaction is idempotent |
| `RedactUri.RoundOfRest` | packages/introspection/src/index.ts:837-863 | from where a round goes on, the scan of the rest does not depend on what came before |
| `RedactUri.ReadAuthority` | packages/introspection/src/index.ts:840-861 | the two inner loops and the comparisons of a round find the authority's end and its password |
| `RedactUri.RedactUriCredentials` | packages/introspection/src/index.ts:833-865 | the scanner stops on every text, and its result is the redacted text |

## Left out

- EagerLoading.BatchIsNaive: is stated for related queries without limit or offset, keys that are present and of one type, and unique primitive owner keys; offsets in callbacks are not modelled further.
- LoadedRows.BatchDescribes: holds under the same conditions, for relationships loaded under distinct names; `LoadedRows.LoadsOwnRows` holds of the single query without them.
- QueryMeaning.PredicateMeaning: compares values of one kind, or null; so does `QueryMeaning.ResultInOrder`.
- RelatedRows.SatisfiedByCounting: is stated for callbacks without limit or offset; `RelatedRows.RelatedAreCounted` says what is counted with them.
- FindOutcomes.FindIsAnswered: an identity that is deleted, re-keyed or fails to hydrate in between is covered by `FindOutcomes.WaitersShareOutcome` only; that observers end is a condition, not a result.
- Relationships.ResolutionPreservesMeaning: is stated for columns of one type; two nulls join each other here, as they do in the in-memory comparator, which SQL does not do.
- CursorWalk.IterateCursor: the rows, and what the session holds of them, do not change while it runs; concurrent writes between pages are not modelled.
- PublishedMessages.Deduplicator.AcceptPublished: takes a non-empty id, which is what packages/keryx/src/protocol.ts:154 lets through.
- CommandThrottle.RedisThrottle.Consume: its clock is the server's; that clocks of different nodes agree is not claimed.
- IdentityMap.FindsAgree: an identity is a pair of entity type and id; that the joined text `type/id` is unambiguous needs type names without a slash.
- DirtyTracking.Model.Save: observers that run before the write may set any attribute; those that run after it, and database-generated identities (see `IdentityMap`), are not part of it.
- DirtyTracking.Store.SaveEntity: follows the in-memory store of the testing package, with each write as its own transaction; a transaction's copy of the rows and the comparison of versions at its commit are left out. PostgreSQL's mapped tables write null for a removed attribute and skip a write without columns.
- RateLimiter.Bucket.Attempt: the database's clock and the process's clock are one reading.
- RedisPresence.Channel.Drop: writes the decremented count or drops the field in one assignment, where the script decrements first.
- Nested attribute values are not modelled in dirty tracking; the comparison of datetimes inside arrays and objects depends on the datetime library.
- `like` and `ilike`, locale case folding, NaN, negative zero, UTF-16 order of characters outside the basic plane, and comparisons between values of different kinds (ranked by kind here, not reached on typed columns).
- JSON text, base64url, encryption, signatures and digests: cursors and tickets are records, the length of a ticket's text a function of its payload, datetime texts an abstract print and parse pair whose round trip is required.
- Plan validation of attribute names and types, query diagnostics, telemetry and operation observers; offset pages, aggregates and `refresh`.
- Eager loading groups dotted paths before it loads; the model starts from the grouped loads, and returns relations instead of setting them on shared instances.
- The shared hash of presence channels is modelled as one field per channel, and destinations as their encoded text.
- The Redis forms of admission and deduplication (`SET` with `NX` and `PX`), sockets, frames, publishing and single-node presence.
- Resolving an HTTP request beyond its statements: whether a renewal is due, origin checks, and eligibility of identities are free choices of the run. One session row is modelled; the others are independent of it.
- The text replaced beside URI passwords by the other redaction patterns, and the length limit of redacted text.
- TypeScript reading, source generation, the rest of the manifest, challenges, access tokens, caches, option parsing and documentation search, which would add only easy members.
