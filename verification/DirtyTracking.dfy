/** Dirty tracking of a model, the delta its `save` writes, and the versioned rows that the delta goes to. */
module DirtyTracking {
  import opened Options
  import opened ModelValues

  /** An attribute's value; a Graphite carries its zone, and two of them are the same value at the same instant. */
  datatype Attribute = Plain(v: Value) | Zoned(micros: int, zone: string)

  type State = map<string, Attribute>

  function Get(s: State, k: string): Attribute {
    if k in s then s[k] else Plain(Absent)
  }

  predicate SameValue(a: Attribute, b: Attribute) {
    if a.Zoned? && b.Zoned? then a.micros == b.micros else a == b
  }

  ghost predicate SameState(a: State, b: State) {
    forall k :: SameValue(Get(a, k), Get(b, k))
  }

  predicate Changed(original: State, attributes: State, k: string) {
    !SameValue(Get(attributes, k), Get(original, k))
  }

  function Changes(original: State, attributes: State): State {
    map k | k in original.Keys + attributes.Keys && Changed(original, attributes, k) :: Get(attributes, k)
  }

  // ---------------------------------------------------------------- the delta

  /** What `save` hands to the writer beside the whole state. */
  datatype Delta = Delta(patch: State, removed: set<string>)

  function DeltaOf(original: State, attributes: State): Delta {
    var changes := Changes(original, attributes);
    Delta(map k | k in changes && k in attributes :: attributes[k], set k | k in changes && k !in attributes)
  }

  function Apply(state: State, delta: Delta): State {
    (state + delta.patch) - delta.removed
  }

  /** On the original, or on anything that is the same state, the delta gives the current attributes. */
  lemma DeltaIsExact(original: State, attributes: State, base: State)
    requires SameState(base, original)
    ensures SameState(Apply(base, DeltaOf(original, attributes)), attributes)
  {
    var delta := DeltaOf(original, attributes);
    forall k ensures SameValue(Get(Apply(base, delta), k), Get(attributes, k)) {
      assert SameValue(Get(base, k), Get(original, k));
      if !Changed(original, attributes, k) {
        assert k !in delta.patch && k !in delta.removed;
      }
    }
  }

  /** Each key of the delta really differs, no key is both patched and removed, and no delta for the same end does with fewer keys. */
  lemma DeltaIsMinimal(original: State, attributes: State, other: Delta)
    requires SameState(Apply(original, other), attributes)
    ensures var delta := DeltaOf(original, attributes);
            && (forall k :: k in delta.patch.Keys + delta.removed <==> Changed(original, attributes, k))
            && delta.patch.Keys !! delta.removed
            && delta.patch.Keys + delta.removed <= other.patch.Keys + other.removed
  {
    var delta := DeltaOf(original, attributes);
    forall k | k in delta.patch.Keys + delta.removed ensures k in other.patch.Keys + other.removed {
      assert SameValue(Get(Apply(original, other), k), Get(attributes, k));
    }
  }

  lemma NoChanges(original: State, attributes: State)
    ensures |Changes(original, attributes)| == 0 <==> SameState(attributes, original)
  {
    var changes := Changes(original, attributes);
    if |changes| == 0 {
      forall k ensures SameValue(Get(attributes, k), Get(original, k)) {
        assert k !in changes;
      }
    } else {
      var k :| k in changes;
      assert Changed(original, attributes, k);
    }
  }

  // ---------------------------------------------------------------- the rows

  datatype Row = Row(state: State, version: nat)

  datatype Tables = Tables(rows: map<string, Row>, journal: seq<string>)

  datatype Error =
    | ReadOnlyModel | UnknownAttribute | MissingAttribute | AuthOwnedAttribute | IdentityMutation | UndeclaredColumn | Conflict

  datatype WriteResult = Stored(row: Row) | Refused(error: Error)

  /** The entity state is replaced whole; a table has columns, and its row is patched. */
  datatype Storage = EntityState | Table(columns: set<string>, readOnly: bool)

  /** What a store refuses whatever its rows: a read-only table, or an attribute that is no column. */
  function Refusal(storage: Storage, expected: Option<nat>, state: State, delta: Delta): Option<Error> {
    if storage.EntityState? then None
    else if storage.readOnly then Some(ReadOnlyModel)
    else if !((if expected.None? then state else delta.patch).Keys + delta.removed <= storage.columns) then Some(UndeclaredColumn)
    else None
  }

  /** A versioned write: it goes through only on the expected version, none meaning no row. */
  function Write(rows: map<string, Row>, id: string, expected: Option<nat>, state: State, delta: Delta, storage: Storage): WriteResult {
    var refusal := Refusal(storage, expected, state, delta);
    var current := if id in rows then Some(rows[id].version) else None;
    if refusal.Some? then Refused(refusal.value)
    else if current != expected then Refused(Conflict)
    else
      var base := if id in rows && storage.Table? then rows[id].state + delta.patch else state;
      Stored(Row(base - delta.removed, if current.Some? then current.value + 1 else 1))
  }

  /** A mapped table, which gets only the delta, ends in the same state as a row that is replaced whole. */
  lemma PatchIsFullWrite(rows: map<string, Row>, id: string, expected: Option<nat>, original: State, attributes: State, storage: Storage)
    requires id in rows && storage.Table? ==> SameState(rows[id].state, original)
    ensures var written := Write(rows, id, expected, attributes, DeltaOf(original, attributes), storage);
            written.Stored? ==> SameState(written.row.state, attributes)
  {
    var delta := DeltaOf(original, attributes);
    if id in rows && storage.Table? {
      DeltaIsExact(original, attributes, rows[id].state);
    } else {
      assert attributes - delta.removed == attributes;
    }
  }

  // ---------------------------------------------------------------- saving

  datatype Normalizer = Normalizer(attribute: string, normalize: Attribute -> Attribute)

  datatype Clearing = Clearing(changed: string, cleared: string)

  datatype Definition = Definition(
    storage: Storage, declared: set<string>, optional: set<string>,
    normalizers: seq<Normalizer>, authOwned: set<string>, clearings: seq<Clearing>)
  {
    predicate ReadOnly() {
      storage.Table? && storage.readOnly
    }

    /** The identity is not normalized or cleared: it is a read-only property. */
    ghost predicate Sound() {
      && (forall i :: 0 <= i < |normalizers| ==> normalizers[i].attribute != "id")
      && (forall i :: 0 <= i < |clearings| ==> clearings[i].cleared != "id")
    }
  }

  datatype Outcome = Wrote | NothingToDo | Failed(error: Error)

  datatype Snapshot = Snapshot(
    attributes: State, original: State, lastChanges: State, version: Option<nat>,
    persisted: bool, recentlyCreated: bool, facts: seq<string>)
  {
    function Identity(): Attribute {
      Get(attributes, "id")
    }

    function Id(): string {
      if Identity().Plain? && Identity().v.Text? then Identity().v.s else ""
    }
  }

  function Invalid(definition: Definition, attributes: State): Option<Error> {
    if !(attributes.Keys <= definition.declared) then Some(UnknownAttribute)
    else if !(definition.declared <= attributes.Keys + definition.optional) then Some(MissingAttribute)
    else None
  }

  predicate AuthOwned(definition: Definition, changes: State, attributes: State, created: bool) {
    exists k :: k in definition.authOwned && k in changes && (!created || Get(attributes, k) != Plain(Null))
  }

  function Normalize(attributes: State, changes: State, n: Normalizer): State {
    var value := Get(attributes, n.attribute);
    if n.attribute in changes && n.normalize(value) != value then attributes[n.attribute := n.normalize(value)] else attributes
  }

  function NormalizeAll(attributes: State, changes: State, normalizers: seq<Normalizer>): State {
    if |normalizers| == 0 then attributes
    else Normalize(NormalizeAll(attributes, changes, normalizers[..|normalizers| - 1]), changes, normalizers[|normalizers| - 1])
  }

  function Clear(attributes: State, changes: State, c: Clearing): State {
    if c.changed in changes then attributes[c.cleared := Plain(Null)] else attributes
  }

  function ClearAll(attributes: State, changes: State, clearings: seq<Clearing>): State {
    if |clearings| == 0 then attributes
    else Clear(ClearAll(attributes, changes, clearings[..|clearings| - 1]), changes, clearings[|clearings| - 1])
  }

  /** The observers of `saving` may set any attribute but the identity. */
  function Observed(attributes: State, observer: State -> State): State {
    observer(attributes)["id" := Get(attributes, "id")]
  }

  function Prepared(definition: Definition, attributes: State, changes: State): State {
    ClearAll(NormalizeAll(attributes, changes, definition.normalizers), changes, definition.clearings)
  }

  /** The model as its observers, the normalizers and the clearing leave it. */
  function Ready(definition: Definition, observer: State -> State, m: Snapshot): Snapshot {
    var observed := Observed(m.attributes, observer);
    m.(attributes := Prepared(definition, observed, Changes(m.original, observed)))
  }

  /** How a save ends before its write, and with which attributes; none if it goes on to write. */
  function Stopped(definition: Definition, observer: State -> State, m: Snapshot): Option<(State, Outcome)> {
    if definition.ReadOnly() then Some((m.attributes, Failed(ReadOnlyModel)))
    else if Invalid(definition, m.attributes).Some? then Some((m.attributes, Failed(Invalid(definition, m.attributes).value)))
    else if |Changes(m.original, m.attributes)| == 0 && |m.facts| == 0 then Some((m.attributes, NothingToDo))
    else
      var observed := Observed(m.attributes, observer);
      if AuthOwned(definition, Changes(m.original, observed), observed, !m.persisted)
      then Some((observed, Failed(AuthOwnedAttribute)))
      else None
  }

  /** The model, the tables and the outcome after a save. */
  function SaveOf(definition: Definition, observer: State -> State, m: Snapshot, t: Tables): (Snapshot, Tables, Outcome) {
    match Stopped(definition, observer, m)
    case Some((attributes, outcome)) => (m.(attributes := attributes), t, outcome)
    case None => Commit(definition, Ready(definition, observer, m), t)
  }

  /** The write of a save whose attributes are ready. */
  function Commit(definition: Definition, m: Snapshot, t: Tables): (Snapshot, Tables, Outcome) {
    var changes := Changes(m.original, m.attributes);
    if Invalid(definition, m.attributes).Some? then (m, t, Failed(Invalid(definition, m.attributes).value))
    else if m.persisted && |changes| == 0 then Settled(m, changes, m.version, t.(journal := t.journal + m.facts))
    else
      var written := Write(t.rows, m.Id(), m.version, m.attributes, DeltaOf(m.original, m.attributes), definition.storage);
      if written.Refused? then (m, t, Failed(written.error))
      else Settled(m, changes, Some(written.row.version), Tables(t.rows[m.Id() := written.row], t.journal + m.facts))
  }

  function Settled(m: Snapshot, changes: State, version: Option<nat>, t: Tables): (Snapshot, Tables, Outcome) {
    (Snapshot(m.attributes, m.attributes, changes, version, true, !m.persisted, []), t, Wrote)
  }

  lemma {:induction false} NormalizedOnly(attributes: State, changes: State, normalizers: seq<Normalizer>, k: string)
    requires k !in changes || forall i :: 0 <= i < |normalizers| ==> normalizers[i].attribute != k
    ensures Get(NormalizeAll(attributes, changes, normalizers), k) == Get(attributes, k)
  {
    if |normalizers| > 0 {
      NormalizedOnly(attributes, changes, normalizers[..|normalizers| - 1], k);
    }
  }

  lemma {:induction false} ClearedExactly(attributes: State, changes: State, clearings: seq<Clearing>, k: string)
    ensures Get(ClearAll(attributes, changes, clearings), k) ==
            if exists i :: 0 <= i < |clearings| && clearings[i].cleared == k && clearings[i].changed in changes then Plain(Null)
            else Get(attributes, k)
  {
    if |clearings| > 0 {
      var n := |clearings| - 1;
      ClearedExactly(attributes, changes, clearings[..n], k);
      if clearings[n].cleared == k && clearings[n].changed in changes {
        assert Get(ClearAll(attributes, changes, clearings), k) == Plain(Null);
      } else {
        assert forall i :: 0 <= i < n ==> clearings[..n][i] == clearings[i];
      }
    }
  }

  /** A dependent attribute is cleared exactly if its attribute was changed before normalizing, even if normalizing undoes the change. */
  lemma DependentsAreCleared(definition: Definition, attributes: State, changes: State, k: string)
    ensures (exists i :: 0 <= i < |definition.clearings| && definition.clearings[i].cleared == k && definition.clearings[i].changed in changes)
            ==> Get(Prepared(definition, attributes, changes), k) == Plain(Null)
    ensures k !in changes && !(exists i :: 0 <= i < |definition.clearings| && definition.clearings[i].cleared == k && definition.clearings[i].changed in changes)
            ==> Get(Prepared(definition, attributes, changes), k) == Get(attributes, k)
  {
    ClearedExactly(NormalizeAll(attributes, changes, definition.normalizers), changes, definition.clearings, k);
    if k !in changes {
      NormalizedOnly(attributes, changes, definition.normalizers, k);
    }
  }

  lemma SameId(definition: Definition, m: Snapshot, observer: State -> State)
    requires definition.Sound()
    ensures var observed := Observed(m.attributes, observer);
            && m.(attributes := observed).Identity() == m.Identity()
            && Ready(definition, observer, m).Identity() == m.Identity()
  {
    var observed := Observed(m.attributes, observer);
    var changes := Changes(m.original, observed);
    NormalizedOnly(observed, changes, definition.normalizers, "id");
    ClearedExactly(NormalizeAll(observed, changes, definition.normalizers), changes, definition.clearings, "id");
  }

  /** What a write leaves: a clean model, its facts in the journal, and the row of its version. */
  ghost predicate Written(storage: Storage, m: Snapshot, t: Tables, saved: Snapshot, after: Tables) {
    && saved.original == saved.attributes && saved.persisted && saved.facts == [] && saved.Identity() == m.Identity()
    && after.journal == t.journal + m.facts
    && if saved.version == m.version then after.rows == t.rows && m.persisted && SameState(saved.attributes, m.original)
       else
         var written := Write(t.rows, m.Id(), m.version, saved.attributes, DeltaOf(m.original, saved.attributes), storage);
         written.Stored? && saved.version == Some(written.row.version) && after.rows == t.rows[m.Id() := written.row]
  }

  lemma CommitWrites(definition: Definition, m: Snapshot, t: Tables)
    requires Commit(definition, m, t).2 == Wrote
    ensures var (saved, after, _) := Commit(definition, m, t);
            && Written(definition.storage, m, t, saved, after) && saved.attributes == m.attributes
            && Invalid(definition, saved.attributes).None?
  {
    NoChanges(m.original, m.attributes);
  }

  lemma SaveCommits(definition: Definition, observer: State -> State, m: Snapshot, t: Tables)
    requires SaveOf(definition, observer, m, t).2 == Wrote
    ensures !definition.ReadOnly() && SaveOf(definition, observer, m, t) == Commit(definition, Ready(definition, observer, m), t)
  {
  }

  /** A save that goes through writes what `Written` says, for the model as the observers and the normalizers leave it. */
  lemma SaveWrites(definition: Definition, observer: State -> State, m: Snapshot, t: Tables)
    requires definition.Sound() && SaveOf(definition, observer, m, t).2 == Wrote
    ensures var (saved, after, _) := SaveOf(definition, observer, m, t);
            Written(definition.storage, m, t, saved, after) && Invalid(definition, saved.attributes).None?
  {
    SameId(definition, m, observer);
    SaveCommits(definition, observer, m, t);
    CommitWrites(definition, Ready(definition, observer, m), t);
  }

  lemma CleanSave(definition: Definition, observer: State -> State, m: Snapshot, t: Tables)
    requires !definition.ReadOnly() && Invalid(definition, m.attributes).None? && m.original == m.attributes && m.facts == []
    ensures SaveOf(definition, observer, m, t) == (m, t, NothingToDo)
  {
    NoChanges(m.original, m.attributes);
  }

  /** After a save the model is clean, and the next save does nothing, whatever its observers would do. */
  lemma SavedIsClean(definition: Definition, observer: State -> State, again: State -> State, m: Snapshot, t: Tables)
    requires definition.Sound() && SaveOf(definition, observer, m, t).2 == Wrote
    ensures var (saved, after, _) := SaveOf(definition, observer, m, t);
            && (forall k :: !Changed(saved.original, saved.attributes, k))
            && SaveOf(definition, again, saved, after) == (saved, after, NothingToDo)
  {
    var (saved, after, _) := SaveOf(definition, observer, m, t);
    SaveWrites(definition, observer, m, t);
    SaveCommits(definition, observer, m, t);
    CleanSave(definition, again, saved, after);
  }

  /** The same model but for attributes other than the identity. */
  ghost predicate SameBase(m: Snapshot, after: Snapshot) {
    && after.original == m.original && after.lastChanges == m.lastChanges && after.version == m.version
    && after.persisted == m.persisted && after.recentlyCreated == m.recentlyCreated && after.facts == m.facts
    && after.Identity() == m.Identity()
  }

  lemma SaveEnds(definition: Definition, observer: State -> State, m: Snapshot, t: Tables)
    requires SaveOf(definition, observer, m, t).2 != Wrote
    ensures SaveOf(definition, observer, m, t).1 == t
    ensures var after := SaveOf(definition, observer, m, t).0;
            after == m || after == m.(attributes := Observed(m.attributes, observer)) || after == Ready(definition, observer, m)
  {
  }

  /** A save that fails or has nothing to do changes no row, and the model's base and version stay. */
  lemma FailedSaveWritesNothing(definition: Definition, observer: State -> State, m: Snapshot, t: Tables)
    requires definition.Sound() && SaveOf(definition, observer, m, t).2 != Wrote
    ensures SaveOf(definition, observer, m, t).1 == t && SameBase(m, SaveOf(definition, observer, m, t).0)
  {
    SameId(definition, m, observer);
    SaveEnds(definition, observer, m, t);
  }

  // ---------------------------------------------------------------- runs of loads, changes, saves and deletions

  /** The rows, every model any session has, and the identities whose rows were deleted. */
  datatype World = World(tables: Tables, models: seq<Snapshot>, deleted: set<string>)

  datatype Step =
    | Load(id: string)
    | Make(attributes: State)
    | Assign(i: nat, attributes: State, facts: seq<string>)
    | Save(i: nat, observer: State -> State)
    | Delete(i: nat)

  function Loaded(row: Row): Snapshot {
    Snapshot(row.state, row.state, map[], Some(row.version), true, false, [])
  }

  function Made(attributes: State): Snapshot {
    Snapshot(attributes, map[], map[], None, false, false, [])
  }

  function Assigned(m: Snapshot, attributes: State, facts: seq<string>): Snapshot {
    m.(attributes := attributes["id" := m.Identity()], facts := facts)
  }

  /** Whether a delete of the model finds its row at the expected version. */
  predicate Deletable(m: Snapshot, t: Tables) {
    m.persisted && m.version.Some? && m.Id() in t.rows && t.rows[m.Id()].version == m.version.value
  }

  function Next(definition: Definition, w: World, step: Step): World {
    match step
    case Load(id) => if id in w.tables.rows then w.(models := w.models + [Loaded(w.tables.rows[id])]) else w
    case Make(attributes) => w.(models := w.models + [Made(attributes)])
    case Assign(i, attributes, facts) =>
      if i < |w.models| then w.(models := w.models[i := Assigned(w.models[i], attributes, facts)]) else w
    case Save(i, observer) =>
      if i >= |w.models| then w
      else
        var (saved, after, _) := SaveOf(definition, observer, w.models[i], w.tables);
        World(after, w.models[i := saved], w.deleted)
    case Delete(i) =>
      if i >= |w.models| || definition.ReadOnly() || !Deletable(w.models[i], w.tables) then w
      else
        var m := w.models[i];
        World(
          Tables(w.tables.rows - {m.Id()}, w.tables.journal + m.facts),
          w.models[i := m.(persisted := false, recentlyCreated := false, facts := [])],
          w.deleted + {m.Id()})
  }

  ghost predicate HasId(state: State, id: string) {
    Get(state, "id") == Plain(Text(id))
  }

  /** A made model has a text for its identity. */
  predicate WellMade(step: Step) {
    step.Make? ==> Get(step.attributes, "id").Plain? && Get(step.attributes, "id").v.Text?
  }

  ghost predicate Formed(w: World) {
    && (forall i :: 0 <= i < |w.models| ==> FormedModel(w.models[i]))
    && (forall id :: id in w.tables.rows ==> HasId(w.tables.rows[id].state, id))
  }

  ghost predicate FormedModel(m: Snapshot) {
    HasId(m.attributes, m.Id()) && (m.persisted ==> m.version.Some?)
  }

  /** What a model has as its base is what the row held at the model's version. */
  ghost predicate Based(m: Snapshot, rows: map<string, Row>) {
    m.version.Some? && m.Id() in rows ==>
      && m.version.value <= rows[m.Id()].version
      && (m.version.value == rows[m.Id()].version ==> SameState(rows[m.Id()].state, m.original))
  }

  ghost predicate BasedOn(models: seq<Snapshot>, rows: map<string, Row>) {
    forall i :: 0 <= i < |models| ==> Based(models[i], rows)
  }

  ghost predicate AllBases(w: World) {
    BasedOn(w.models, w.tables.rows)
  }

  // ---------------------------------------------------------------- a write starts from what its model read

  /** A write that reaches the row of a model starts from the very state the model started from, and no other row changes. */
  lemma WritesAreNotLost(definition: Definition, observer: State -> State, m: Snapshot, t: Tables)
    requires definition.Sound() && Based(m, t.rows)
    requires SaveOf(definition, observer, m, t).2 == Wrote && SaveOf(definition, observer, m, t).0.version != m.version
    ensures var (saved, after, _) := SaveOf(definition, observer, m, t); Replaces(m, t.rows, saved, after.rows)
  {
    var (saved, after, _) := SaveOf(definition, observer, m, t);
    SaveWrites(definition, observer, m, t);
    WrittenRow(definition.storage, m, t, saved, after);
  }

  /** The model's row was what the model read, and is now what it saved, one version later; the other rows are untouched. */
  ghost predicate Replaces(m: Snapshot, rows: map<string, Row>, saved: Snapshot, after: map<string, Row>) {
    var id := m.Id();
    && (if m.version.None? then id !in rows
        else id in rows && rows[id].version == m.version.value && SameState(rows[id].state, m.original))
    && id in after && saved.version == Some(after[id].version) && SameState(after[id].state, saved.attributes)
    && after[id].version == (if id in rows then rows[id].version + 1 else 1)
    && after == rows[id := after[id]]
  }

  lemma WrittenRow(storage: Storage, m: Snapshot, t: Tables, saved: Snapshot, after: Tables)
    requires Based(m, t.rows) && Written(storage, m, t, saved, after) && saved.version != m.version
    ensures Replaces(m, t.rows, saved, after.rows)
  {
    PatchIsFullWrite(t.rows, m.Id(), m.version, m.original, saved.attributes, storage);
  }

  // ---------------------------------------------------------------- exactly when every base stays right

  /** A model of an identity that is inserted anew with this state: its version is not reached again unseen. */
  ghost predicate Outlived(m: Snapshot, state: State) {
    m.version.Some? ==> m.version.value <= 1 && (m.version.value == 1 ==> SameState(state, m.original))
  }

  /** An insertion finds no model of its identity with a version above 1, or with version 1 of another state. */
  ghost predicate Safe(definition: Definition, w: World, step: Step) {
    match step
    case Save(i, observer) =>
      i < |w.models| && w.models[i].version.None? && SaveOf(definition, observer, w.models[i], w.tables).2 == Wrote ==>
        forall j :: 0 <= j < |w.models| && j != i && w.models[j].Id() == w.models[i].Id() ==>
          Outlived(w.models[j], Ready(definition, observer, w.models[i]).attributes)
    case _ => true
  }

  lemma SameStateMoves(a: State, b: State, c: State)
    requires SameState(a, b)
    ensures SameState(a, c) <==> SameState(b, c)
  {
    if SameState(a, c) {
      forall k ensures SameValue(Get(b, k), Get(c, k)) {
        assert SameValue(Get(a, k), Get(b, k)) && SameValue(Get(a, k), Get(c, k));
      }
    }
    if SameState(b, c) {
      forall k ensures SameValue(Get(a, k), Get(c, k)) {
        assert SameValue(Get(a, k), Get(b, k)) && SameValue(Get(b, k), Get(c, k));
      }
    }
  }

  /** An update leaves every other model its base, or leaves it behind. */
  lemma UpdateKeepsBase(other: Snapshot, rows: map<string, Row>, id: string, row: Row)
    requires Based(other, rows) && id in rows && rows[id].version < row.version
    ensures Based(other, rows[id := row])
  {
  }

  lemma InsertKeepsBase(other: Snapshot, rows: map<string, Row>, id: string, row: Row, state: State)
    requires Based(other, rows) && id !in rows && row.version == 1 && SameState(row.state, state)
    ensures Based(other, rows[id := row]) <==> (other.Id() == id ==> Outlived(other, state))
  {
    SameStateMoves(row.state, state, other.original);
  }

  lemma SettledIsBased(m: Snapshot, saved: Snapshot, rows: map<string, Row>)
    requires Based(m, rows) && saved.version == m.version && saved.Identity() == m.Identity()
    requires saved.original == saved.attributes && SameState(saved.attributes, m.original)
    ensures Based(saved, rows)
  {
    if m.version.Some? && m.Id() in rows && SameState(rows[m.Id()].state, m.original) {
      assert forall k :: SameValue(Get(saved.attributes, k), Get(m.original, k)) && SameValue(Get(rows[m.Id()].state, k), Get(m.original, k));
    }
  }

  /** A write by model `i` keeps every base iff it is an update, or an insertion that the other models are outlived by. */
  lemma ReplaceExactly(w: World, i: nat, saved: Snapshot, rows: map<string, Row>)
    requires AllBases(w) && i < |w.models| && Replaces(w.models[i], w.tables.rows, saved, rows)
    requires saved.Identity() == w.models[i].Identity() && saved.original == saved.attributes
    ensures BasedOn(w.models[i := saved], rows) <==>
            (w.models[i].version.None? ==>
               forall j :: 0 <= j < |w.models| && j != i && w.models[j].Id() == w.models[i].Id() ==> Outlived(w.models[j], saved.attributes))
  {
    var id := w.models[i].Id();
    forall j | 0 <= j < |w.models| && j != i
      ensures Based(w.models[j], rows) <==> (w.models[i].version.None? && w.models[j].Id() == id ==> Outlived(w.models[j], saved.attributes))
    {
      assert Based(w.models[j], w.tables.rows);
      if id in w.tables.rows {
        UpdateKeepsBase(w.models[j], w.tables.rows, id, rows[id]);
      } else {
        InsertKeepsBase(w.models[j], w.tables.rows, id, rows[id], saved.attributes);
      }
    }
    assert forall j :: 0 <= j < |w.models| && j != i ==> w.models[i := saved][j] == w.models[j];
  }

  /** A save that goes through ends with the attributes it was ready with. */
  lemma SavedAsReady(definition: Definition, observer: State -> State, m: Snapshot, t: Tables)
    requires SaveOf(definition, observer, m, t).2 == Wrote
    ensures SaveOf(definition, observer, m, t).0.attributes == Ready(definition, observer, m).attributes
  {
    SaveCommits(definition, observer, m, t);
    CommitWrites(definition, Ready(definition, observer, m), t);
  }

  lemma SaveExactly(definition: Definition, w: World, i: nat, observer: State -> State)
    requires definition.Sound() && Formed(w) && AllBases(w) && i < |w.models|
    ensures AllBases(Next(definition, w, Save(i, observer))) <==> Safe(definition, w, Save(i, observer))
  {
    var m := w.models[i];
    var (saved, after, outcome) := SaveOf(definition, observer, m, w.tables);
    assert FormedModel(m) && Based(m, w.tables.rows);
    if outcome != Wrote {
      FailedSaveWritesNothing(definition, observer, m, w.tables);
      assert Based(saved, w.tables.rows);
    } else {
      SaveWrites(definition, observer, m, w.tables);
      if saved.version == m.version {
        SettledIsBased(m, saved, w.tables.rows);
      } else {
        WrittenRow(definition.storage, m, w.tables, saved, after);
        ReplaceExactly(w, i, saved, after.rows);
        SavedAsReady(definition, observer, m, w.tables);
      }
    }
  }

  lemma SaveKeepsForm(definition: Definition, w: World, i: nat, observer: State -> State)
    requires definition.Sound() && Formed(w) && AllBases(w) && i < |w.models|
    ensures Formed(Next(definition, w, Save(i, observer)))
  {
    var m := w.models[i];
    var (saved, after, outcome) := SaveOf(definition, observer, m, w.tables);
    assert FormedModel(m) && Based(m, w.tables.rows);
    if outcome != Wrote {
      FailedSaveWritesNothing(definition, observer, m, w.tables);
    } else {
      SaveWrites(definition, observer, m, w.tables);
      if saved.version != m.version {
        WrittenRow(definition.storage, m, w.tables, saved, after);
        assert SameValue(Get(after.rows[m.Id()].state, "id"), Get(saved.attributes, "id"));
      }
    }
  }

  lemma DeleteKeepsBases(definition: Definition, w: World, i: nat)
    requires Formed(w) && AllBases(w) && i < |w.models| && Deletable(w.models[i], w.tables)
    ensures Formed(Next(definition, w, Delete(i))) && AllBases(Next(definition, w, Delete(i)))
  {
    assert FormedModel(w.models[i]) && Based(w.models[i], w.tables.rows);
    assert forall j :: 0 <= j < |w.models| ==> Based(w.models[j], w.tables.rows - {w.models[i].Id()});
  }

  lemma AssignKeepsBases(w: World, i: nat, attributes: State, facts: seq<string>)
    requires Formed(w) && AllBases(w) && i < |w.models|
    ensures var after := w.(models := w.models[i := Assigned(w.models[i], attributes, facts)]); Formed(after) && AllBases(after)
  {
    assert FormedModel(w.models[i]) && Based(w.models[i], w.tables.rows);
  }

  /** A step of any session keeps every base iff it is safe. */
  lemma StepExactly(definition: Definition, w: World, step: Step)
    requires definition.Sound() && Formed(w) && AllBases(w) && WellMade(step)
    ensures Formed(Next(definition, w, step))
    ensures AllBases(Next(definition, w, step)) <==> Safe(definition, w, step)
  {
    match step
    case Load(id) =>
    case Make(attributes) =>
    case Assign(i, attributes, facts) =>
      if i < |w.models| {
        AssignKeepsBases(w, i, attributes, facts);
      }
    case Save(i, observer) =>
      if i < |w.models| {
        SaveKeepsForm(definition, w, i, observer);
        SaveExactly(definition, w, i, observer);
      }
    case Delete(i) =>
      if i < |w.models| && Deletable(w.models[i], w.tables) {
        DeleteKeepsBases(definition, w, i);
      }
  }

  function Run(definition: Definition, steps: seq<Step>): World {
    if |steps| == 0 then World(Tables(map[], []), [], {})
    else Next(definition, Run(definition, steps[..|steps| - 1]), steps[|steps| - 1])
  }

  /** After every step of the run each model's base is the row at the model's version. */
  ghost predicate BasedThroughout(definition: Definition, steps: seq<Step>) {
    AllBases(Run(definition, steps)) && (|steps| > 0 ==> BasedThroughout(definition, steps[..|steps| - 1]))
  }

  ghost predicate SafeThroughout(definition: Definition, steps: seq<Step>) {
    |steps| > 0 ==>
      var before := steps[..|steps| - 1];
      SafeThroughout(definition, before) && Safe(definition, Run(definition, before), steps[|steps| - 1])
  }

  /** In a run of any sessions each model's base is the row at the model's version, at all times, iff every insertion is safe. */
  lemma {:induction false} RunExactly(definition: Definition, steps: seq<Step>)
    requires definition.Sound() && forall n :: 0 <= n < |steps| ==> WellMade(steps[n])
    ensures BasedThroughout(definition, steps) <==> SafeThroughout(definition, steps)
    ensures BasedThroughout(definition, steps) ==> Formed(Run(definition, steps))
  {
    if |steps| > 0 {
      var before := steps[..|steps| - 1];
      RunExactly(definition, before);
      if BasedThroughout(definition, before) {
        StepExactly(definition, Run(definition, before), steps[|steps| - 1]);
      }
    }
  }

  // ---------------------------------------------------------------- runs that insert no deleted identity again

  /** The identity of a deleted row is not inserted again. */
  predicate Allowed(w: World, step: Step) {
    step.Save? && step.i < |w.models| && w.models[step.i].version.None? ==> w.models[step.i].Id() !in w.deleted
  }

  /** A model whose row is gone has an identity that is known as deleted. */
  ghost predicate Remembered(w: World) {
    && (forall i :: 0 <= i < |w.models| && w.models[i].version.Some? && w.models[i].Id() !in w.tables.rows ==> w.models[i].Id() in w.deleted)
    && (forall id :: id in w.tables.rows ==> id !in w.deleted)
  }

  lemma AllowedIsSafe(definition: Definition, w: World, step: Step)
    requires definition.Sound() && Formed(w) && AllBases(w) && Remembered(w) && Allowed(w, step)
    ensures Safe(definition, w, step)
  {
    assert step.Save? && step.i < |w.models| ==> FormedModel(w.models[step.i]);
    if step.Save? && step.i < |w.models| && w.models[step.i].version.None? && SaveOf(definition, step.observer, w.models[step.i], w.tables).2 == Wrote {
      InsertedIsNew(definition, step.observer, w.models[step.i], w.tables);
    }
  }

  lemma InsertedIsNew(definition: Definition, observer: State -> State, m: Snapshot, t: Tables)
    requires definition.Sound() && m.version.None? && SaveOf(definition, observer, m, t).2 == Wrote
    ensures m.persisted || m.Id() !in t.rows
  {
    SaveWrites(definition, observer, m, t);
  }

  lemma SaveRemembers(definition: Definition, w: World, i: nat, observer: State -> State)
    requires definition.Sound() && Formed(w) && AllBases(w) && Remembered(w) && i < |w.models| && Allowed(w, Save(i, observer))
    ensures Remembered(Next(definition, w, Save(i, observer)))
  {
    var m := w.models[i];
    var (saved, after, outcome) := SaveOf(definition, observer, m, w.tables);
    assert FormedModel(m) && Based(m, w.tables.rows);
    if outcome != Wrote {
      FailedSaveWritesNothing(definition, observer, m, w.tables);
    } else {
      SaveWrites(definition, observer, m, w.tables);
      if saved.version == m.version {
      } else {
        WrittenRow(definition.storage, m, w.tables, saved, after);
      }
    }
  }

  lemma StepRemembers(definition: Definition, w: World, step: Step)
    requires definition.Sound() && Formed(w) && AllBases(w) && Remembered(w) && Allowed(w, step) && WellMade(step)
    ensures Remembered(Next(definition, w, step))
  {
    match step
    case Load(id) =>
      assert id in w.tables.rows ==> HasId(w.tables.rows[id].state, id);
    case Make(_) =>
    case Assign(_, _, _) =>
    case Save(i, observer) =>
      if i < |w.models| {
        SaveRemembers(definition, w, i, observer);
      }
    case Delete(_) =>
  }

  ghost predicate AllowedRun(definition: Definition, steps: seq<Step>) {
    |steps| > 0 ==>
      var before, last := steps[..|steps| - 1], steps[|steps| - 1];
      AllowedRun(definition, before) && WellMade(last) && Allowed(Run(definition, before), last)
  }

  /** A run in which no deleted identity is inserted again is safe throughout. */
  lemma {:induction false} EveryRunIsConsistent(definition: Definition, steps: seq<Step>)
    requires definition.Sound() && AllowedRun(definition, steps)
    ensures SafeThroughout(definition, steps) && BasedThroughout(definition, steps)
    ensures Formed(Run(definition, steps)) && Remembered(Run(definition, steps))
  {
    if |steps| > 0 {
      var before, last := steps[..|steps| - 1], steps[|steps| - 1];
      EveryRunIsConsistent(definition, before);
      AllowedIsSafe(definition, Run(definition, before), last);
      StepRemembers(definition, Run(definition, before), last);
      StepExactly(definition, Run(definition, before), last);
    }
  }

  // ---------------------------------------------------------------- a run that is not safe

  /** Two models have loaded a row; one deletes it, and a new model is made with its identity. */
  function Reused(definition: Definition, id: string, first: State, second: State, third: State): World {
    var row := Row(first, 1);
    var w := World(Tables(map[id := row], []), [Loaded(row), Loaded(row).(attributes := third)], {});
    Next(definition, Next(definition, w, Delete(0)), Make(second))
  }

  /**
   * Without safety a write is lost: versions start again at 1, so the model that is left of the deleted row
   * writes over the row that was inserted after it, which it never read.
   */
  lemma ReusedIdentityLosesAWrite(definition: Definition, observer: State -> State, id: string, first: State, second: State, third: State)
    requires Simple(definition) && observer(second) == second && observer(third) == third
    requires HasId(first, id) && HasId(second, id) && HasId(third, id)
    requires Invalid(definition, second).None? && Invalid(definition, third).None?
    requires Changed(map[], second, "n") && "n" in second && Changed(first, third, "n") && "n" in third && Changed(first, second, "n")
    ensures var w := Reused(definition, id, first, second, third);
            && |w.models| == 3 && w.tables.rows == map[] && w.models[2] == Made(second)
            && !Safe(definition, w, Save(2, observer))
    ensures var w := Next(definition, Reused(definition, id, first, second, third), Save(2, observer));
            && w.tables.rows == map[id := Row(second, 1)] && w.models[1].original == first
            && SaveOf(definition, observer, w.models[1], w.tables).2 == Wrote
            && SaveOf(definition, observer, w.models[1], w.tables).1.rows == map[id := Row(third, 2)]
  {
    var row, empty := Row(first, 1), Tables(map[], []);
    var stale := Loaded(row).(attributes := third);
    Deleted(definition, row, id, stale);
    FirstWrite(definition, observer, Made(second), empty, id);
    var t := SaveOf(definition, observer, Made(second), empty).1;
    assert t.rows == map[id := Row(second, 1)];
    FirstWrite(definition, observer, stale, t, id);
    assert t.rows[id := Row(third, 2)] == map[id := Row(third, 2)];
    StaleIsUnsafe(definition, observer, Reused(definition, id, first, second, third), stale, second, id);
  }

  lemma StaleIsUnsafe(definition: Definition, observer: State -> State, w: World, stale: Snapshot, second: State, id: string)
    requires |w.models| == 3 && w.models[1] == stale && w.models[2] == Made(second)
    requires SaveOf(definition, observer, Made(second), w.tables).2 == Wrote && Ready(definition, observer, Made(second)).attributes == second
    requires HasId(second, id) && HasId(stale.attributes, id) && stale.version == Some(1) && Changed(stale.original, second, "n")
    ensures !Safe(definition, w, Save(2, observer))
  {
    assert !SameValue(Get(second, "n"), Get(stale.original, "n"));
    assert !Outlived(w.models[1], second);
  }

  lemma Deleted(definition: Definition, row: Row, id: string, other: Snapshot)
    requires HasId(row.state, id) && !definition.ReadOnly()
    ensures var w := Next(definition, World(Tables(map[id := row], []), [Loaded(row), other], {}), Delete(0));
            w.tables == Tables(map[], []) && |w.models| == 2 && w.models[1] == other
  {
    assert map[id := row] - {id} == map[];
  }

  /** An entity-state model without normalizers, clearing or attributes that authentication owns. */
  ghost predicate Simple(definition: Definition) {
    && definition.storage.EntityState?
    && definition.normalizers == [] && definition.clearings == [] && definition.authOwned == {}
  }

  /** A save with nothing to prepare, of a model that differs from its base and has the row's version. */
  lemma FirstWrite(definition: Definition, observer: State -> State, m: Snapshot, t: Tables, id: string)
    requires Simple(definition)
    requires Invalid(definition, m.attributes).None? && observer(m.attributes) == m.attributes && HasId(m.attributes, id)
    requires Changed(m.original, m.attributes, "n") && "n" in m.attributes
    requires m.version == if id in t.rows then Some(t.rows[id].version) else None
    ensures var (saved, after, outcome) := SaveOf(definition, observer, m, t);
            && outcome == Wrote && Ready(definition, observer, m) == m
            && after.rows == t.rows[id := Row(m.attributes, if id in t.rows then t.rows[id].version + 1 else 1)]
  {
    assert "id" in m.attributes;
    assert Observed(m.attributes, observer) == m.attributes;
    assert Ready(definition, observer, m) == m;
    assert "n" in Changes(m.original, m.attributes);
    var delta := DeltaOf(m.original, m.attributes);
    assert m.attributes - delta.removed == m.attributes;
  }

  // ---------------------------------------------------------------- the model and the store as objects

  class Store {
    var rows: map<string, Row>
    var journal: seq<string>

    function Value(): Tables
      reads this
    {
      Tables(rows, journal)
    }

    method SaveEntity(id: string, expected: Option<nat>, state: State, delta: Delta, storage: Storage) returns (result: WriteResult)
      modifies this`rows
      ensures result == Write(old(rows), id, expected, state, delta, storage)
      ensures rows == if result.Stored? then old(rows)[id := result.row] else old(rows)
    {
      if storage.Table? {
        if storage.readOnly {
          return Refused(ReadOnlyModel);
        }
        var written := if expected.None? then state else delta.patch;
        if !(written.Keys <= storage.columns) || !(delta.removed <= storage.columns) {
          return Refused(UndeclaredColumn);
        }
      }
      var current := if id in rows then Some(rows[id].version) else None;
      if current != expected {
        return Refused(Conflict);
      }
      var next := state;
      if id in rows && storage.Table? {
        next := rows[id].state + delta.patch;
      }
      var row := Row(next - delta.removed, if current.Some? then current.value + 1 else 1);
      rows := rows[id := row];
      return Stored(row);
    }

    method Record(facts: seq<string>)
      modifies this`journal
      ensures journal == old(journal) + facts
    {
      var i := 0;
      while i < |facts|
        invariant 0 <= i <= |facts| && journal == old(journal) + facts[..i]
      {
        journal := journal + [facts[i]];
        i := i + 1;
      }
    }
  }

  method FindChanges(original: State, attributes: State) returns (changes: State)
    ensures changes == Changes(original, attributes)
  {
    changes := map[];
    var keys := original.Keys + attributes.Keys;
    while keys != {}
      invariant keys <= original.Keys + attributes.Keys
      invariant changes == map k | k in original.Keys + attributes.Keys - keys && Changed(original, attributes, k) :: Get(attributes, k)
    {
      var key :| key in keys;
      keys := keys - {key};
      if !SameValue(Get(attributes, key), Get(original, key)) {
        changes := changes[key := Get(attributes, key)];
      }
    }
  }

  method Prepare(definition: Definition, attributes: State, changes: State) returns (prepared: State)
    ensures prepared == Prepared(definition, attributes, changes)
  {
    prepared := attributes;
    var i := 0;
    while i < |definition.normalizers|
      invariant 0 <= i <= |definition.normalizers|
      invariant prepared == NormalizeAll(attributes, changes, definition.normalizers[..i])
    {
      assert definition.normalizers[..i + 1][..i] == definition.normalizers[..i];
      var (attribute, normalize) := (definition.normalizers[i].attribute, definition.normalizers[i].normalize);
      i := i + 1;
      if attribute !in changes {
        continue;
      }
      var normalized := normalize(Get(prepared, attribute));
      if normalized != Get(prepared, attribute) {
        prepared := prepared[attribute := normalized];
      }
    }
    assert definition.normalizers[..i] == definition.normalizers;
    ghost var normalized := prepared;
    i := 0;
    while i < |definition.clearings|
      invariant 0 <= i <= |definition.clearings|
      invariant prepared == ClearAll(normalized, changes, definition.clearings[..i])
    {
      assert definition.clearings[..i + 1][..i] == definition.clearings[..i];
      if definition.clearings[i].changed in changes {
        prepared := prepared[definition.clearings[i].cleared := Plain(Null)];
      }
      i := i + 1;
    }
    assert definition.clearings[..i] == definition.clearings;
  }

  class Model {
    var attributes: State
    var original: State
    var lastChanges: State
    var version: Option<nat>
    var persisted: bool
    var recentlyCreated: bool
    var facts: seq<string>

    function Value(): Snapshot
      reads this
    {
      Snapshot(attributes, original, lastChanges, version, persisted, recentlyCreated, facts)
    }

    method SetAttribute(declared: set<string>, key: string, value: Attribute) returns (error: Option<Error>)
      modifies this`attributes
      ensures error == if key !in declared then Some(UnknownAttribute) else if key == "id" then Some(IdentityMutation) else None
      ensures attributes.Keys ==
              if error.Some? then old(attributes.Keys) else if value == Plain(Absent) then old(attributes.Keys) - {key} else old(attributes.Keys) + {key}
      ensures forall k :: Get(attributes, k) == if k == key && error.None? then value else Get(old(attributes), k)
    {
      if key !in declared {
        return Some(UnknownAttribute);
      }
      if key == "id" {
        return Some(IdentityMutation);
      }
      if value == Plain(Absent) {
        attributes := attributes - {key};
      } else {
        attributes := attributes[key := value];
      }
      return None;
    }

    method IsDirty() returns (dirty: bool)
      ensures dirty <==> !SameState(attributes, original)
    {
      var changes := FindChanges(original, attributes);
      NoChanges(original, attributes);
      return |changes| > 0;
    }

    method Save(definition: Definition, observer: State -> State, store: Store) returns (outcome: Outcome)
      modifies this, store
      ensures (Value(), store.Value(), outcome) == SaveOf(definition, observer, old(Value()), old(store.Value()))
    {
      var stopped := PrepareSave(definition, observer);
      if stopped.Some? {
        return stopped.value;
      }
      var saved;
      saved, outcome := Persist(definition, Value(), store);
      Become(saved);
    }

    method Become(m: Snapshot)
      modifies this
      ensures Value() == m
    {
      attributes, original, lastChanges, version := m.attributes, m.original, m.lastChanges, m.version;
      persisted, recentlyCreated, facts := m.persisted, m.recentlyCreated, m.facts;
    }

    /** The part of a save before its write. */
    method PrepareSave(definition: Definition, observer: State -> State) returns (stopped: Option<Outcome>)
      modifies this`attributes
      ensures match Stopped(definition, observer, old(Value()))
              case Some((left, outcome)) => Value() == old(Value()).(attributes := left) && stopped == Some(outcome)
              case None => Value() == Ready(definition, observer, old(Value())) && stopped.None?
    {
      if definition.ReadOnly() {
        return Some(Failed(ReadOnlyModel));
      }
      var invalid := Invalid(definition, attributes);
      if invalid.Some? {
        return Some(Failed(invalid.value));
      }
      var changes := FindChanges(original, attributes);
      if |changes| == 0 && |facts| == 0 {
        return Some(NothingToDo);
      }
      attributes := Observed(attributes, observer);
      changes := FindChanges(original, attributes);
      if AuthOwned(definition, changes, attributes, !persisted) {
        return Some(Failed(AuthOwnedAttribute));
      }
      attributes := Prepare(definition, attributes, changes);
      return None;
    }
  }

  /** The write of a save, and what the model is after it. */
  method Persist(definition: Definition, m: Snapshot, store: Store) returns (saved: Snapshot, outcome: Outcome)
    modifies store
    ensures (saved, store.Value(), outcome) == Commit(definition, m, old(store.Value()))
  {
    var invalid := Invalid(definition, m.attributes);
    if invalid.Some? {
      return m, Failed(invalid.value);
    }
    var changes := FindChanges(m.original, m.attributes);
    var version := m.version;
    if !m.persisted || |changes| > 0 {
      var result := store.SaveEntity(m.Id(), m.version, m.attributes, DeltaOf(m.original, m.attributes), definition.storage);
      if result.Refused? {
        return m, Failed(result.error);
      }
      version := Some(result.row.version);
    }
    store.Record(m.facts);
    return Snapshot(m.attributes, m.attributes, changes, version, true, !m.persisted, []), Wrote;
  }
}
