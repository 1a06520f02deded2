/** What a save leaves in each attribute, and exactly when it goes through. */
module SavedAttributes {
  import opened Options
  import opened ModelValues
  import opened DirtyTracking

  /** The value after the normalizers of `k`, one after the other. */
  function Normalized(normalizers: seq<Normalizer>, k: string, v: Attribute): Attribute {
    if |normalizers| == 0 then v
    else
      var earlier, last := Normalized(normalizers[..|normalizers| - 1], k, v), normalizers[|normalizers| - 1];
      if last.attribute == k then last.normalize(earlier) else earlier
  }

  lemma {:induction false} NoNormalizer(normalizers: seq<Normalizer>, k: string, v: Attribute)
    requires forall i :: 0 <= i < |normalizers| ==> normalizers[i].attribute != k
    ensures Normalized(normalizers, k, v) == v
  {
    if |normalizers| > 0 {
      NoNormalizer(normalizers[..|normalizers| - 1], k, v);
    }
  }

  /** An attribute has at most one normalizer in a definition that was compiled. */
  lemma {:induction false} OnlyNormalizer(normalizers: seq<Normalizer>, k: string, v: Attribute, i: nat)
    requires i < |normalizers| && forall j :: 0 <= j < |normalizers| ==> (normalizers[j].attribute == k <==> j == i)
    ensures Normalized(normalizers, k, v) == normalizers[i].normalize(v)
  {
    var n := |normalizers| - 1;
    if i == n {
      NoNormalizer(normalizers[..n], k, v);
    } else {
      OnlyNormalizer(normalizers[..n], k, v, i);
    }
  }

  lemma {:induction false} ChangedIsNormalized(attributes: State, changes: State, normalizers: seq<Normalizer>, k: string)
    requires k in changes
    ensures Get(NormalizeAll(attributes, changes, normalizers), k) == Normalized(normalizers, k, Get(attributes, k))
  {
    if |normalizers| > 0 {
      ChangedIsNormalized(attributes, changes, normalizers[..|normalizers| - 1], k);
    }
  }

  /** The observers' value, which they cannot give to the identity. */
  function AfterObservers(observer: State -> State, m: Snapshot, k: string): Attribute {
    Get(if k == "id" then m.attributes else observer(m.attributes), k)
  }

  predicate ChangedByThen(observer: State -> State, m: Snapshot, k: string) {
    !SameValue(AfterObservers(observer, m, k), Get(m.original, k))
  }

  lemma ObservedValue(observer: State -> State, m: Snapshot, k: string)
    ensures Get(Observed(m.attributes, observer), k) == AfterObservers(observer, m, k)
    ensures k in Changes(m.original, Observed(m.attributes, observer)) <==> ChangedByThen(observer, m, k)
  {
  }

  /** What is left in an attribute: null if one it depends on changed, the normalized value if it changed itself. */
  function ReadyValue(definition: Definition, observer: State -> State, m: Snapshot, k: string): Attribute {
    if exists i :: 0 <= i < |definition.clearings| && definition.clearings[i].cleared == k &&
                   ChangedByThen(observer, m, definition.clearings[i].changed)
    then Plain(Null)
    else if ChangedByThen(observer, m, k) then Normalized(definition.normalizers, k, AfterObservers(observer, m, k))
    else AfterObservers(observer, m, k)
  }

  lemma PreparedValue(definition: Definition, observer: State -> State, m: Snapshot, k: string)
    ensures Get(Ready(definition, observer, m).attributes, k) == ReadyValue(definition, observer, m, k)
  {
    var observed := Observed(m.attributes, observer);
    var changes := Changes(m.original, observed);
    ObservedValue(observer, m, k);
    forall i | 0 <= i < |definition.clearings|
      ensures definition.clearings[i].changed in changes <==> ChangedByThen(observer, m, definition.clearings[i].changed)
    {
      ObservedValue(observer, m, definition.clearings[i].changed);
    }
    ClearedExactly(NormalizeAll(observed, changes, definition.normalizers), changes, definition.clearings, k);
    if k in changes {
      ChangedIsNormalized(observed, changes, definition.normalizers, k);
    } else {
      NormalizedOnly(observed, changes, definition.normalizers, k);
    }
  }

  /** An attribute has changed iff its value is another one; a datetime with a zone only if its instant is. */
  lemma ChangedExactly(original: State, attributes: State, k: string)
    ensures var now, was := Get(attributes, k), Get(original, k);
            Changed(original, attributes, k) <==> if now.Zoned? && was.Zoned? then now.micros != was.micros else now != was
  {
  }

  /**
   * After a save that went through, every attribute of the model has its cleared, normalized or observed value, and so
   * does the row, if one was written.
   */
  lemma SavedValue(definition: Definition, observer: State -> State, m: Snapshot, t: Tables, k: string)
    requires definition.Sound() && Based(m, t.rows) && SaveOf(definition, observer, m, t).2 == Wrote
    ensures var (saved, after, _) := SaveOf(definition, observer, m, t);
            && Get(saved.attributes, k) == ReadyValue(definition, observer, m, k)
            && (saved.version != m.version ==>
                  m.Id() in after.rows && SameValue(Get(after.rows[m.Id()].state, k), ReadyValue(definition, observer, m, k)))
  {
    SavedAsReady(definition, observer, m, t);
    PreparedValue(definition, observer, m, k);
    if SaveOf(definition, observer, m, t).0.version != m.version {
      WritesAreNotLost(definition, observer, m, t);
    }
  }

  /** What a model says of its last save: the attributes that it changed, and whether it created the row. */
  lemma SavedChanges(definition: Definition, observer: State -> State, m: Snapshot, t: Tables, k: string)
    requires SaveOf(definition, observer, m, t).2 == Wrote
    ensures var saved := SaveOf(definition, observer, m, t).0;
            && (k in saved.lastChanges <==> !SameValue(ReadyValue(definition, observer, m, k), Get(m.original, k)))
            && (k in saved.lastChanges ==> saved.lastChanges[k] == ReadyValue(definition, observer, m, k))
            && saved.recentlyCreated == !m.persisted && saved.persisted
  {
    var ready := Ready(definition, observer, m);
    SaveCommits(definition, observer, m, t);
    PreparedValue(definition, observer, m, k);
    CommitChanges(definition, ready, t);
  }

  lemma CommitChanges(definition: Definition, m: Snapshot, t: Tables)
    requires Commit(definition, m, t).2 == Wrote
    ensures var saved := Commit(definition, m, t).0;
            saved.lastChanges == Changes(m.original, m.attributes) && saved.recentlyCreated == !m.persisted && saved.persisted
  {
  }

  /** A save with nothing to do leaves the model; one that fails later leaves it as its observers, or the normalizers, left it. */
  lemma FailedValue(definition: Definition, observer: State -> State, m: Snapshot, t: Tables, k: string)
    requires definition.Sound()
    ensures var (left, _, outcome) := SaveOf(definition, observer, m, t);
            && (outcome == NothingToDo || outcome == Failed(ReadOnlyModel) ==> left == m)
            && (outcome == Failed(AuthOwnedAttribute) ==> Get(left.attributes, k) == AfterObservers(observer, m, k))
            && (outcome == Failed(Conflict) ==> Get(left.attributes, k) == ReadyValue(definition, observer, m, k))
  {
    ObservedValue(observer, m, k);
    PreparedValue(definition, observer, m, k);
    if Stopped(definition, observer, m).None? {
      FailedCommit(definition, Ready(definition, observer, m), t);
    } else {
      StoppedWith(definition, observer, m, t);
    }
  }

  lemma StoppedWith(definition: Definition, observer: State -> State, m: Snapshot, t: Tables)
    requires Stopped(definition, observer, m).Some?
    ensures var (left, _, outcome) := SaveOf(definition, observer, m, t);
            && outcome != Failed(Conflict)
            && (outcome != Failed(AuthOwnedAttribute) ==> left == m)
            && (outcome == Failed(AuthOwnedAttribute) ==> left.attributes == Observed(m.attributes, observer))
  {
  }

  lemma FailedCommit(definition: Definition, m: Snapshot, t: Tables)
    ensures var (left, _, outcome) := Commit(definition, m, t);
            left.attributes == m.attributes && outcome != NothingToDo && outcome != Failed(AuthOwnedAttribute)
    ensures !definition.ReadOnly() ==> Commit(definition, m, t).2 != Failed(ReadOnlyModel)
  {
  }

  // ---------------------------------------------------------------- when a save goes through

  /** Every attribute is declared, and every declared one is there unless it is optional. */
  ghost predicate WellFormed(definition: Definition, attributes: State) {
    && (forall k :: k in attributes ==> k in definition.declared)
    && (forall k :: k in definition.declared && k !in definition.optional ==> k in attributes)
  }

  /** An attribute that authentication owns is only ever null, and only in a model that is created. */
  ghost predicate LeavesAuthOwned(definition: Definition, observer: State -> State, m: Snapshot) {
    forall k :: k in definition.authOwned && ChangedByThen(observer, m, k) ==> !m.persisted && AfterObservers(observer, m, k) == Plain(Null)
  }

  /** There is something to save: a pending fact, or an attribute that differs. */
  ghost predicate HasWork(m: Snapshot) {
    m.facts != [] || exists k :: !SameValue(Get(m.attributes, k), Get(m.original, k))
  }

  /** The save gets as far as its write. */
  ghost predicate Proceeds(definition: Definition, observer: State -> State, m: Snapshot) {
    && !definition.ReadOnly() && WellFormed(definition, m.attributes) && HasWork(m) && LeavesAuthOwned(definition, observer, m)
    && WellFormed(definition, Ready(definition, observer, m).attributes)
  }

  /** Every attribute that is written is a column: of a new row all of them, of a row that is there those that differ. */
  ghost predicate HasColumns(storage: Storage, m: Snapshot) {
    storage.Table? ==>
      !storage.readOnly && forall k :: (k in m.attributes && m.version.None?) || Changed(m.original, m.attributes, k) ==> k in storage.columns
  }

  /** The row is there at the version that the model was read or saved at, or not at all for a model without a version. */
  ghost predicate AsRead(m: Snapshot, rows: map<string, Row>) {
    if m.version.None? then m.Id() !in rows else m.Id() in rows && rows[m.Id()].version == m.version.value
  }

  lemma InvalidExactly(definition: Definition, attributes: State)
    ensures Invalid(definition, attributes).None? <==> WellFormed(definition, attributes)
  {
  }

  lemma WorkExactly(m: Snapshot)
    ensures HasWork(m) <==> |Changes(m.original, m.attributes)| > 0 || |m.facts| > 0
  {
    NoChanges(m.original, m.attributes);
  }

  lemma AuthOwnedExactly(definition: Definition, observer: State -> State, m: Snapshot)
    ensures var observed := Observed(m.attributes, observer);
            AuthOwned(definition, Changes(m.original, observed), observed, !m.persisted) <==> !LeavesAuthOwned(definition, observer, m)
  {
    forall k ensures Get(Observed(m.attributes, observer), k) == AfterObservers(observer, m, k) &&
                     (k in Changes(m.original, Observed(m.attributes, observer)) <==> ChangedByThen(observer, m, k)) {
      ObservedValue(observer, m, k);
    }
  }

  lemma ProceedsExactly(definition: Definition, observer: State -> State, m: Snapshot)
    ensures Stopped(definition, observer, m).None? && Invalid(definition, Ready(definition, observer, m).attributes).None? <==>
            Proceeds(definition, observer, m)
    ensures Stopped(definition, observer, m).Some? && Stopped(definition, observer, m).value.1 == NothingToDo <==>
            !definition.ReadOnly() && WellFormed(definition, m.attributes) && !HasWork(m)
    ensures Stopped(definition, observer, m).Some? && Stopped(definition, observer, m).value.1 == Failed(AuthOwnedAttribute) <==>
            !definition.ReadOnly() && WellFormed(definition, m.attributes) && HasWork(m) && !LeavesAuthOwned(definition, observer, m)
  {
    InvalidExactly(definition, m.attributes);
    InvalidExactly(definition, Ready(definition, observer, m).attributes);
    WorkExactly(m);
    AuthOwnedExactly(definition, observer, m);
  }

  lemma RefusalExactly(storage: Storage, m: Snapshot)
    ensures Refusal(storage, m.version, m.attributes, DeltaOf(m.original, m.attributes)).None? <==> HasColumns(storage, m)
  {
    var delta := DeltaOf(m.original, m.attributes);
    forall k ensures k in delta.patch.Keys + delta.removed <==> Changed(m.original, m.attributes, k) {
      assert k !in m.original && k !in m.attributes ==> !Changed(m.original, m.attributes, k);
    }
  }

  lemma CommitsExactly(definition: Definition, m: Snapshot, t: Tables)
    requires WellFormed(definition, m.attributes)
    ensures var outcome := Commit(definition, m, t).2;
            && (outcome == Wrote <==>
                  (m.persisted && SameState(m.attributes, m.original)) || (HasColumns(definition.storage, m) && AsRead(m, t.rows)))
            && (outcome == Failed(Conflict) <==>
                  !(m.persisted && SameState(m.attributes, m.original)) && HasColumns(definition.storage, m) && !AsRead(m, t.rows))
  {
    InvalidExactly(definition, m.attributes);
    NoChanges(m.original, m.attributes);
    RefusalExactly(definition.storage, m);
  }

  lemma StopsEarly(definition: Definition, observer: State -> State, m: Snapshot, t: Tables)
    requires Stopped(definition, observer, m).Some?
    ensures var outcome := SaveOf(definition, observer, m, t).2;
            outcome == Stopped(definition, observer, m).value.1 && outcome != Wrote && outcome != Failed(Conflict)
  {
  }

  lemma GoesOn(definition: Definition, observer: State -> State, m: Snapshot, t: Tables)
    requires definition.Sound() && Stopped(definition, observer, m).None?
    ensures SaveOf(definition, observer, m, t).2 == Commit(definition, Ready(definition, observer, m), t).2
    ensures AsRead(Ready(definition, observer, m), t.rows) <==> AsRead(m, t.rows)
    ensures Ready(definition, observer, m).persisted == m.persisted && Ready(definition, observer, m).original == m.original
  {
    SameId(definition, m, observer);
  }

  lemma CommitEnds(definition: Definition, m: Snapshot, t: Tables)
    ensures var outcome := Commit(definition, m, t).2;
            outcome != NothingToDo && outcome != Failed(AuthOwnedAttribute) &&
            (!WellFormed(definition, m.attributes) ==> outcome != Wrote && outcome != Failed(Conflict))
    ensures Invalid(definition, m.attributes).None? <==> WellFormed(definition, m.attributes)
  {
    InvalidExactly(definition, m.attributes);
  }

  /**
   * Exactly when a save goes through: the model is writable and well-formed before and after its observers,
   * has something to save, leaves what authentication owns, and its row is there as the model read it. It conflicts
   * exactly if only the last of these fails, and does nothing exactly if there is nothing to save.
   */
  lemma SavesExactly(definition: Definition, observer: State -> State, m: Snapshot, t: Tables)
    requires definition.Sound()
    ensures var outcome, ready := SaveOf(definition, observer, m, t).2, Ready(definition, observer, m);
            var same := m.persisted && SameState(ready.attributes, m.original);
            && (outcome == Wrote <==>
                  Proceeds(definition, observer, m) && (same || (HasColumns(definition.storage, ready) && AsRead(m, t.rows))))
            && (outcome == Failed(Conflict) <==>
                  Proceeds(definition, observer, m) && !same && HasColumns(definition.storage, ready) && !AsRead(m, t.rows))
            && (outcome == NothingToDo <==> !definition.ReadOnly() && WellFormed(definition, m.attributes) && !HasWork(m))
            && (outcome == Failed(AuthOwnedAttribute) <==>
                  !definition.ReadOnly() && WellFormed(definition, m.attributes) && HasWork(m) && !LeavesAuthOwned(definition, observer, m))
  {
    var ready := Ready(definition, observer, m);
    ProceedsExactly(definition, observer, m);
    if Stopped(definition, observer, m).Some? {
      StopsEarly(definition, observer, m, t);
    } else {
      GoesOn(definition, observer, m, t);
      CommitEnds(definition, ready, t);
      if WellFormed(definition, ready.attributes) {
        CommitsExactly(definition, ready, t);
      }
    }
  }

  // ---------------------------------------------------------------- loading, making, assigning and deleting

  /** A model that is loaded or made, and one that is assigned to: the identity stays. */
  lemma StepsAct(definition: Definition, w: World, id: string, attributes: State, i: nat, facts: seq<string>)
    ensures var after := Next(definition, w, Load(id));
            if id in w.tables.rows then
              && after.tables == w.tables && |after.models| == |w.models| + 1 && after.models[..|w.models|] == w.models
              && var m := after.models[|w.models|];
                 m.attributes == w.tables.rows[id].state && m.original == m.attributes && m.persisted && m.facts == [] &&
                 m.version == Some(w.tables.rows[id].version)
            else after == w
    ensures var after := Next(definition, w, Make(attributes));
            && after.tables == w.tables && |after.models| == |w.models| + 1 && after.models[..|w.models|] == w.models
            && var m := after.models[|w.models|];
               m.attributes == attributes && m.original == map[] && !m.persisted && m.version.None? && m.facts == []
    ensures i < |w.models| ==>
              var after := Next(definition, w, Assign(i, attributes, facts));
              && after.tables == w.tables && |after.models| == |w.models| && after.models == w.models[i := after.models[i]]
              && SameBase(w.models[i], after.models[i].(facts := w.models[i].facts)) && after.models[i].facts == facts
              && forall k :: k != "id" ==> Get(after.models[i].attributes, k) == Get(attributes, k)
  {
  }

  /** A delete takes away the model's row iff it is there at the model's version, and the model's facts go to the journal then. */
  lemma DeletesExactly(definition: Definition, w: World, i: nat)
    requires i < |w.models|
    ensures var m, after := w.models[i], Next(definition, w, Delete(i));
            if !definition.ReadOnly() && m.persisted && m.version.Some? && m.Id() in w.tables.rows &&
               w.tables.rows[m.Id()].version == m.version.value
            then
              && after.tables == Tables(w.tables.rows - {m.Id()}, w.tables.journal + m.facts)
              && after.models == w.models[i := after.models[i]] && !after.models[i].persisted && !after.models[i].recentlyCreated
              && after.models[i].facts == [] && after.models[i].attributes == m.attributes
            else after == w
  {
  }
}
