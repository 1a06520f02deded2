/** The identity map of a model session under every interleaving of its asynchronous operations. */
module IdentityMap {
  import opened Options

  datatype Identity = Identity(entity: string, id: string)

  datatype Phase = Running | Done | Failed

  /** A hydration: the instance it attaches, and what its observers may find while they run. */
  datatype Hydration = Hydration(identity: Identity, model: nat, scope: map<Identity, nat>, phase: Phase)

  /** A find, or the hydration of one row of a query; `caller` is the hydration whose observers it runs in. */
  datatype Call =
    | Reading(identity: Identity, caller: Option<nat>)
    | Waiting(identity: Identity, hydration: nat)
    | Answered(identity: Identity, model: nat)
    | Missing
    | Rejected

  /** A save runs its observers, then writes under the identity that the model has by then. */
  datatype Stage = Observing | Writing(pending: Identity) | Ended

  datatype Save = Save(model: nat, stage: Stage)

  /**
   * The session's maps, and what they refer to: every instance by its current identity, every
   * hydration, call and save that was started. Instances and hydrations are named by their number.
   */
  datatype Session = Session(
    active: bool, identityMap: map<Identity, nat>, hydrations: map<Identity, nat>,
    models: seq<Identity>, started: seq<Hydration>, calls: seq<Call>, saves: seq<Save>)
  {
    /** The instance that the caller's own hydration, or one around it, is attaching. */
    function Hydrating(caller: Option<nat>, identity: Identity): Option<nat> {
      if caller.Some? && caller.value < |started| && started[caller.value].phase.Running? && identity in started[caller.value].scope
      then Some(started[caller.value].scope[identity])
      else None
    }

    function Scope(caller: Option<nat>): map<Identity, nat> {
      if caller.Some? && caller.value < |started| && started[caller.value].phase.Running? then started[caller.value].scope else map[]
    }

    predicate Maps(identity: Identity, model: nat) {
      identity in identityMap && identityMap[identity] == model
    }
  }

  const Initial: Session := Session(true, map[], map[], [], [], [], [])

  // ---------------------------------------------------------------- the synchronous blocks between awaits

  /** What is known of an identity without reading: an answer, a hydration to wait for, or nothing. */
  function Known(s: Session, identity: Identity, caller: Option<nat>): Option<Call> {
    var hydrating := s.Hydrating(caller, identity);
    if hydrating.Some? && s.Maps(identity, hydrating.value) then Some(Answered(identity, hydrating.value))
    else if identity in s.hydrations && hydrating.None? then Some(Waiting(identity, s.hydrations[identity]))
    else if identity in s.identityMap then Some(Answered(identity, s.identityMap[identity]))
    else None
  }

  function Find(s: Session, identity: Identity, caller: Option<nat>): Call {
    if !s.active then Rejected
    else
      var known := Known(s, identity, caller);
      if known.Some? then known.value else Reading(identity, caller)
  }

  /** Call `c` has its row: it becomes the first to attach an instance for it, unless one is known by now. */
  function Hydrate(s: Session, c: nat, identity: Identity, caller: Option<nat>, valid: bool): Session
    requires c < |s.calls|
  {
    var known, model, h := Known(s, identity, caller), |s.models|, |s.started|;
    if known.Some? then s.(calls := s.calls[c := known.value])
    else s.(
      identityMap := if valid then s.identityMap[identity := model] else s.identityMap,
      models := s.models + [identity],
      started := s.started + [Hydration(identity, model, s.Scope(caller)[identity := model], if valid then Running else Failed)],
      hydrations := s.hydrations[identity := h],
      calls := s.calls[c := Waiting(identity, h)])
  }

  /** The observers of hydration `h` are through, or failed; a closed session fails it as well. */
  function Settle(s: Session, h: nat, success: bool): Session
    requires h < |s.started|
  {
    var hydration := s.started[h];
    if success && s.active then s.(started := s.started[h := hydration.(phase := Done)])
    else s.(
      started := s.started[h := hydration.(phase := Failed)],
      identityMap := if s.Maps(hydration.identity, hydration.model) then s.identityMap - {hydration.identity} else s.identityMap)
  }

  predicate AwaitsWriter(s: Session, k: nat) {
    k < |s.saves| && s.saves[k].stage.Writing? && s.saves[k].model < |s.models|
  }

  /** The writer's answer to a save, which may carry the identity the database generated; a save that fails carries none. */
  function Saved(s: Session, k: nat, id: Identity): Session
    requires AwaitsWriter(s, k)
  {
    var model, pending := s.saves[k].model, s.saves[k].stage.pending;
    var saves := s.saves[k := Save(model, Ended)];
    if id == pending then s.(saves := saves)
    else s.(saves := saves, models := s.models[model := id], identityMap := (s.identityMap - {pending})[id := model])
  }

  datatype Event =
    | FindEvent(identity: Identity, caller: Option<nat>)
    | ReplyEvent(call: nat, found: bool, valid: bool)
    | QueryEvent(identity: Identity, caller: Option<nat>, valid: bool)
    | SettleEvent(hydration: nat, success: bool)
    | ForgetEvent(hydration: nat)
    | ResumeEvent(call: nat)
    | MakeEvent(identity: Identity)
    | SaveEvent(model: nat)
    | WriteEvent(save: nat)
    | SavedEvent(save: nat, id: Identity)
    | DeletedEvent(model: nat)
    | CloseEvent

  /** What an event does; one that refers to nothing there, or to nothing that waits for it, does nothing. */
  function Next(s: Session, e: Event): Session {
    match e
    case FindEvent(identity, caller) => s.(calls := s.calls + [Find(s, identity, caller)])
    case ReplyEvent(c, found, valid) =>
      if c >= |s.calls| || !s.calls[c].Reading? then s
      else if !found then s.(calls := s.calls[c := Missing])
      else Hydrate(s, c, s.calls[c].identity, s.calls[c].caller, valid)
    case QueryEvent(identity, caller, valid) =>
      Hydrate(s.(calls := s.calls + [Reading(identity, caller)]), |s.calls|, identity, caller, valid)
    case SettleEvent(h, success) =>
      if h < |s.started| && s.started[h].phase.Running? then Settle(s, h, success) else s
    case ForgetEvent(h) =>
      if h < |s.started| && !s.started[h].phase.Running? && s.started[h].identity in s.hydrations && s.hydrations[s.started[h].identity] == h
      then s.(hydrations := s.hydrations - {s.started[h].identity})
      else s
    case ResumeEvent(c) =>
      if c < |s.calls| && s.calls[c].Waiting? && s.calls[c].hydration < |s.started| && !s.started[s.calls[c].hydration].phase.Running?
      then s.(calls := s.calls[c := Outcome(s, s.calls[c])])
      else s
    case MakeEvent(identity) =>
      if !s.active || identity in s.identityMap then s
      else s.(identityMap := s.identityMap[identity := |s.models|], models := s.models + [identity])
    case SaveEvent(model) =>
      if s.active && model < |s.models| then s.(saves := s.saves + [Save(model, Observing)]) else s
    case WriteEvent(k) =>
      if k < |s.saves| && s.saves[k].stage.Observing? && s.saves[k].model < |s.models|
      then s.(saves := s.saves[k := Save(s.saves[k].model, Writing(s.models[s.saves[k].model]))])
      else s
    case SavedEvent(k, id) => if AwaitsWriter(s, k) then Saved(s, k, id) else s
    case DeletedEvent(model) =>
      if model < |s.models| then s.(identityMap := s.identityMap - {s.models[model]}) else s
    case CloseEvent => s.(active := false, identityMap := map[], hydrations := map[])
  }

  /** What a call gets from the hydration it waited for. */
  function Outcome(s: Session, call: Call): Call
    requires call.Waiting? && call.hydration < |s.started|
  {
    var hydration := s.started[call.hydration];
    if hydration.phase.Done? then Answered(call.identity, hydration.model) else Rejected
  }

  function Run(s: Session, events: seq<Event>): Session {
    if |events| == 0 then s else Next(Run(s, events[..|events| - 1]), events[|events| - 1])
  }

  // ---------------------------------------------------------------- each key is its model's identity

  ghost predicate KeysMatch(s: Session) {
    forall key :: key in s.identityMap ==> s.identityMap[key] < |s.models| && s.models[s.identityMap[key]] == key
  }

  /** The guard of an answered save: it brings no new identity, or takes the model's only key away. */
  predicate Fits(s: Session, e: Event) {
    e.SavedEvent? && AwaitsWriter(s, e.save) ==>
      var model, pending := s.saves[e.save].model, s.saves[e.save].stage.pending;
      e.id == pending || !s.Maps(s.models[model], model) || s.models[model] == pending || s.models[model] == e.id
  }

  lemma SavedKeepsKeys(s: Session, k: nat, id: Identity)
    requires AwaitsWriter(s, k) && KeysMatch(s)
    ensures KeysMatch(Saved(s, k, id)) <==> Fits(s, SavedEvent(k, id))
  {
    var after, model, pending := Saved(s, k, id), s.saves[k].model, s.saves[k].stage.pending;
    var was := s.models[model];
    if id != pending && s.Maps(was, model) && was != pending && was != id {
      assert was in after.identityMap && after.models[after.identityMap[was]] == id;
    }
  }

  lemma HydrateKeepsKeys(s: Session, c: nat, identity: Identity, caller: Option<nat>, valid: bool)
    requires KeysMatch(s) && c < |s.calls|
    ensures KeysMatch(Hydrate(s, c, identity, caller, valid))
  {
  }

  /** The session changes nothing but to take keys away. */
  lemma FewerKeysMatch(s: Session, after: Session)
    requires KeysMatch(s) && after.models == s.models
    requires forall key :: key in after.identityMap ==> s.Maps(key, after.identityMap[key])
    ensures KeysMatch(after)
  {
  }

  /** A synchronous block keeps each key the current identity of its model iff it is no answered save that does not fit. */
  lemma StepKeepsKeys(s: Session, e: Event)
    requires KeysMatch(s)
    ensures KeysMatch(Next(s, e)) <==> Fits(s, e)
  {
    match e
    case ReplyEvent(c, found, valid) =>
      if c < |s.calls| && s.calls[c].Reading? && found {
        HydrateKeepsKeys(s, c, s.calls[c].identity, s.calls[c].caller, valid);
      }
    case QueryEvent(identity, caller, valid) =>
      HydrateKeepsKeys(s.(calls := s.calls + [Reading(identity, caller)]), |s.calls|, identity, caller, valid);
    case SettleEvent(h, success) =>
    case MakeEvent(identity) =>
    case SavedEvent(k, id) =>
      if AwaitsWriter(s, k) {
        SavedKeepsKeys(s, k, id);
      }
    case FindEvent(_, _) => FewerKeysMatch(s, Next(s, e));
    case ForgetEvent(_) => FewerKeysMatch(s, Next(s, e));
    case ResumeEvent(_) => FewerKeysMatch(s, Next(s, e));
    case SaveEvent(_) => FewerKeysMatch(s, Next(s, e));
    case WriteEvent(_) => FewerKeysMatch(s, Next(s, e));
    case DeletedEvent(_) => FewerKeysMatch(s, Next(s, e));
    case CloseEvent => FewerKeysMatch(s, Next(s, e));
  }

  ghost predicate KeysMatchThroughout(events: seq<Event>) {
    KeysMatch(Run(Initial, events)) && (|events| > 0 ==> KeysMatchThroughout(events[..|events| - 1]))
  }

  ghost predicate FitsThroughout(events: seq<Event>) {
    |events| > 0 ==>
      FitsThroughout(events[..|events| - 1]) && Fits(Run(Initial, events[..|events| - 1]), events[|events| - 1])
  }

  /** In every interleaving, each key is at all times the current identity of its model iff every answered save fits. */
  lemma {:induction false} KeysMatchExactly(events: seq<Event>)
    ensures KeysMatchThroughout(events) <==> FitsThroughout(events)
  {
    if |events| > 0 {
      var before := events[..|events| - 1];
      KeysMatchExactly(before);
      if KeysMatchThroughout(before) {
        assert KeysMatch(Run(Initial, before));
        StepKeepsKeys(Run(Initial, before), events[|events| - 1]);
      }
    }
  }

  // ---------------------------------------------------------------- writes of one instance that do not overlap

  /** A save writes under the identity its model has, and no instance is written by two saves at once. */
  ghost predicate Exclusive(s: Session) {
    && (forall k :: 0 <= k < |s.saves| && s.saves[k].stage.Writing? ==>
          s.saves[k].model < |s.models| && s.models[s.saves[k].model] == s.saves[k].stage.pending)
    && (forall k, l :: 0 <= k < l < |s.saves| && s.saves[k].stage.Writing? && s.saves[l].stage.Writing? ==>
          s.saves[k].model != s.saves[l].model)
  }

  /** A save writes only when no other save of the instance is still being written. */
  predicate Allowed(s: Session, e: Event) {
    e.WriteEvent? && e.save < |s.saves| ==>
      forall k :: 0 <= k < |s.saves| && s.saves[k].stage.Writing? ==> s.saves[k].model != s.saves[e.save].model
  }

  lemma ExclusiveFits(s: Session, e: Event)
    requires Exclusive(s)
    ensures Fits(s, e)
  {
  }

  lemma SavedStaysExclusive(s: Session, k: nat, id: Identity)
    requires Exclusive(s) && AwaitsWriter(s, k)
    ensures Exclusive(Saved(s, k, id))
  {
  }

  lemma WriteStaysExclusive(s: Session, k: nat)
    requires Exclusive(s) && Allowed(s, WriteEvent(k))
    ensures Exclusive(Next(s, WriteEvent(k)))
  {
  }

  /** A block that starts no write and answers none. */
  lemma OthersStayExclusive(s: Session, e: Event)
    requires Exclusive(s) && !e.WriteEvent? && !e.SavedEvent?
    ensures Exclusive(Next(s, e))
  {
    OthersOnlyAdd(s, e);
    ExclusiveGrows(s, Next(s, e));
  }

  lemma OthersOnlyAdd(s: Session, e: Event)
    requires !e.WriteEvent? && !e.SavedEvent?
    ensures s.models <= Next(s, e).models
    ensures Next(s, e).saves == if e.SaveEvent? && s.active && e.model < |s.models| then s.saves + [Save(e.model, Observing)] else s.saves
  {
  }

  lemma ExclusiveGrows(s: Session, after: Session)
    requires Exclusive(s) && s.models <= after.models
    requires after.saves == s.saves || exists model :: after.saves == s.saves + [Save(model, Observing)]
    ensures Exclusive(after)
  {
  }

  ghost predicate AllowedRun(events: seq<Event>) {
    |events| > 0 ==>
      AllowedRun(events[..|events| - 1]) && Allowed(Run(Initial, events[..|events| - 1]), events[|events| - 1])
  }

  /** Without overlapping writes of one instance every answered save fits, so each key is its model's identity. */
  lemma {:induction false} EveryKeyIsItsModelsIdentity(events: seq<Event>)
    requires AllowedRun(events)
    ensures FitsThroughout(events) && KeysMatchThroughout(events) && Exclusive(Run(Initial, events))
  {
    if |events| > 0 {
      var before, last := events[..|events| - 1], events[|events| - 1];
      EveryKeyIsItsModelsIdentity(before);
      var s := Run(Initial, before);
      ExclusiveFits(s, last);
      if last.WriteEvent? {
        WriteStaysExclusive(s, last.save);
      } else if last.SavedEvent? {
        if AwaitsWriter(s, last.save) {
          SavedStaysExclusive(s, last.save, last.id);
        }
      } else {
        OthersStayExclusive(s, last);
      }
    }
    KeysMatchExactly(events);
  }

  /** Two saves of one new model whose writes overlap, each answered with an identity of its own, leave a key whose model has another one. */
  lemma OverlappingSavesLeaveAStaleKey(pending: Identity, first: Identity, second: Identity)
    requires pending != first && first != second && second != pending
    ensures var saving := Session(true, map[pending := 0], map[], [pending], [], [], [Save(0, Writing(pending)), Save(0, Writing(pending))]);
            var one := Next(saving, SavedEvent(0, first));
            var end := Next(one, SavedEvent(1, second));
            && saving == Next(Next(Next(Next(Next(Initial, MakeEvent(pending)), SaveEvent(0)), SaveEvent(0)), WriteEvent(0)), WriteEvent(1))
            && end.identityMap == map[first := 0, second := 0] && end.models == [second]
            && !Fits(one, SavedEvent(1, second)) && !KeysMatch(end)
  {
    Twice(pending);
    var saving := Session(true, map[pending := 0], map[], [pending], [], [], [Save(0, Writing(pending)), Save(0, Writing(pending))]);
    var one := Next(saving, SavedEvent(0, first));
    assert one.identityMap == map[first := 0] && one.models == [first];
    var end := Next(one, SavedEvent(1, second));
    assert end.identityMap == map[first := 0, second := 0] && end.models == [second];
    assert first in end.identityMap && end.models[end.identityMap[first]] != first;
  }

  /** A model that was made, and two saves of it that have come to their writes. */
  lemma Twice(pending: Identity)
    ensures Next(Next(Next(Next(Next(Initial, MakeEvent(pending)), SaveEvent(0)), SaveEvent(0)), WriteEvent(0)), WriteEvent(1)) ==
            Session(true, map[pending := 0], map[], [pending], [], [], [Save(0, Writing(pending)), Save(0, Writing(pending))])
  {
    var made := Session(true, map[pending := 0], map[], [pending], [], [], []);
    assert Next(Initial, MakeEvent(pending)) == made;
    var once := Next(made, SaveEvent(0));
    assert once.saves == [Save(0, Observing)];
    var two := Next(once, SaveEvent(0));
    assert two.saves == [Save(0, Observing), Save(0, Observing)];
    BothWrite(two, pending);
  }

  lemma BothWrite(s: Session, pending: Identity)
    requires s.models == [pending] && s.saves == [Save(0, Observing), Save(0, Observing)]
    ensures Next(Next(s, WriteEvent(0)), WriteEvent(1)) == s.(saves := [Save(0, Writing(pending)), Save(0, Writing(pending))])
  {
    assert Next(s, WriteEvent(0)).saves == [Save(0, Writing(pending)), Save(0, Observing)];
  }

  // ---------------------------------------------------------------- one instance for each identity

  /** The hydration has not failed, and attaches what the map has for its identity. */
  ghost predicate Live(s: Session, h: nat, identity: Identity) {
    h < |s.started| && s.started[h].identity == identity && !s.started[h].phase.Failed? && s.Maps(identity, s.started[h].model)
  }

  /** No call waits for an instance of the identity other than the one in the map. */
  ghost predicate Settled(s: Session, identity: Identity) {
    && (forall c :: 0 <= c < |s.calls| && s.calls[c].Waiting? && s.calls[c].identity == identity ==> Live(s, s.calls[c].hydration, identity))
    && (identity in s.hydrations ==> Live(s, s.hydrations[identity], identity))
  }

  /** A delete, a close, a failed hydration, or a generated identity that takes the key from an instance. */
  predicate Disturbs(s: Session, e: Event, identity: Identity) {
    match e
    case ReplyEvent(c, found, valid) =>
      c < |s.calls| && s.calls[c].Reading? && s.calls[c].identity == identity && Known(s, identity, s.calls[c].caller).None? && found && !valid
    case QueryEvent(i, caller, valid) => i == identity && Known(s, identity, caller).None? && !valid
    case SettleEvent(h, success) => h < |s.started| && s.started[h].identity == identity && !(success && s.active)
    case SavedEvent(k, id) =>
      AwaitsWriter(s, k) && identity in s.identityMap && id != s.saves[k].stage.pending && (id == identity || s.saves[k].stage.pending == identity)
    case DeletedEvent(model) => model < |s.models| && s.models[model] == identity
    case CloseEvent => true
    case _ => false
  }

  predicate AnsweredSince(before: Session, s: Session, identity: Identity, c: nat)
    requires c < |s.calls|
  {
    s.calls[c].Answered? && s.calls[c].identity == identity && !(c < |before.calls| && before.calls[c].Answered?)
  }

  /** A call that was answered with an instance of the identity since `before` got the one in the map. */
  ghost predicate Agreed(before: Session, s: Session, identity: Identity) {
    && |before.calls| <= |s.calls|
    && (forall c :: 0 <= c < |s.calls| && AnsweredSince(before, s, identity, c) ==> s.Maps(identity, s.calls[c].model))
  }

  /** A session of the same run, in which no instance of the identity was replaced. */
  ghost predicate Undisturbed(before: Session, s: Session, identity: Identity) {
    Settled(s, identity) && Agreed(before, s, identity)
  }

  lemma LiveAfterHydrate(s: Session, identity: Identity, c: nat, of: Identity, caller: Option<nat>, valid: bool)
    requires c < |s.calls|
    ensures forall h: nat :: Live(s, h, identity) ==> Live(Hydrate(s, c, of, caller, valid), h, identity)
  {
  }

  lemma KnownAgrees(before: Session, s: Session, identity: Identity, c: nat, of: Identity, caller: Option<nat>)
    requires Undisturbed(before, s, identity) && c < |s.calls| && Known(s, of, caller).Some?
    ensures Undisturbed(before, s.(calls := s.calls[c := Known(s, of, caller).value]), identity)
  {
    var after := s.(calls := s.calls[c := Known(s, of, caller).value]);
    assert forall h: nat :: Live(s, h, identity) ==> Live(after, h, identity);
  }

  lemma HydrateAgrees(before: Session, s: Session, identity: Identity, c: nat, of: Identity, caller: Option<nat>, valid: bool)
    requires Undisturbed(before, s, identity) && c < |s.calls| && s.calls[c].Reading?
    requires of == identity && Known(s, identity, caller).None? ==> valid
    ensures Undisturbed(before, Hydrate(s, c, of, caller, valid), identity)
  {
    LiveAfterHydrate(s, identity, c, of, caller, valid);
    if Known(s, of, caller).Some? {
      KnownAgrees(before, s, identity, c, of, caller);
    } else {
      var after := Hydrate(s, c, of, caller, valid);
      assert forall h: nat :: Live(s, h, identity) ==> Live(after, h, identity);
    }
  }

  lemma SettleAgrees(before: Session, s: Session, identity: Identity, h: nat, success: bool)
    requires Undisturbed(before, s, identity) && h < |s.started|
    requires s.started[h].identity == identity ==> success && s.active
    ensures Undisturbed(before, Settle(s, h, success), identity)
  {
    var after := Settle(s, h, success);
    assert forall k: nat :: Live(s, k, identity) ==> Live(after, k, identity);
  }

  lemma SavedAgrees(before: Session, s: Session, identity: Identity, k: nat, id: Identity)
    requires Undisturbed(before, s, identity) && AwaitsWriter(s, k)
    requires identity in s.identityMap && id != s.saves[k].stage.pending ==> id != identity && s.saves[k].stage.pending != identity
    ensures Undisturbed(before, Saved(s, k, id), identity)
  {
    var after := Saved(s, k, id);
    assert forall h: nat :: Live(s, h, identity) ==> Live(after, h, identity);
  }

  lemma ResumeAgrees(before: Session, s: Session, identity: Identity, c: nat)
    requires Undisturbed(before, s, identity) && c < |s.calls| && s.calls[c].Waiting? && s.calls[c].hydration < |s.started|
    ensures Undisturbed(before, s.(calls := s.calls[c := Outcome(s, s.calls[c])]), identity)
  {
    var after := s.(calls := s.calls[c := Outcome(s, s.calls[c])]);
    assert forall h: nat :: Live(s, h, identity) ==> Live(after, h, identity);
  }

  lemma AddCallAgrees(before: Session, s: Session, identity: Identity, call: Call)
    requires Undisturbed(before, s, identity)
    requires call.Answered? && call.identity == identity ==> s.Maps(identity, call.model)
    requires call.Waiting? && call.identity == identity ==> Live(s, call.hydration, identity)
    ensures Undisturbed(before, s.(calls := s.calls + [call]), identity)
  {
    var after := s.(calls := s.calls + [call]);
    assert forall h: nat :: Live(s, h, identity) ==> Live(after, h, identity);
  }

  /** The session changes nothing but keys of other identities. */
  lemma OtherKeysAgree(before: Session, s: Session, after: Session, identity: Identity)
    requires Undisturbed(before, s, identity)
    requires after.started == s.started && after.calls == s.calls
    requires forall model :: s.Maps(identity, model) ==> after.Maps(identity, model)
    requires identity in after.hydrations ==> identity in s.hydrations && after.hydrations[identity] == s.hydrations[identity]
    ensures Undisturbed(before, after, identity)
  {
    assert forall h: nat :: Live(s, h, identity) ==> Live(after, h, identity);
  }

  lemma ReplyAgrees(before: Session, s: Session, identity: Identity, c: nat, found: bool, valid: bool)
    requires Undisturbed(before, s, identity) && !Disturbs(s, ReplyEvent(c, found, valid), identity)
    ensures Undisturbed(before, Next(s, ReplyEvent(c, found, valid)), identity)
  {
    if c < |s.calls| && s.calls[c].Reading? {
      if found {
        HydrateAgrees(before, s, identity, c, s.calls[c].identity, s.calls[c].caller, valid);
      } else {
        MissingAgrees(before, s, identity, c);
      }
    }
  }

  lemma QueryAgrees(before: Session, s: Session, identity: Identity, of: Identity, caller: Option<nat>, valid: bool)
    requires Undisturbed(before, s, identity) && !Disturbs(s, QueryEvent(of, caller, valid), identity)
    ensures Undisturbed(before, Next(s, QueryEvent(of, caller, valid)), identity)
  {
    AddCallAgrees(before, s, identity, Reading(of, caller));
    HydrateAgrees(before, s.(calls := s.calls + [Reading(of, caller)]), identity, |s.calls|, of, caller, valid);
  }

  lemma StepAgrees(before: Session, s: Session, e: Event, identity: Identity)
    requires Undisturbed(before, s, identity) && !Disturbs(s, e, identity)
    ensures Undisturbed(before, Next(s, e), identity)
  {
    match e
    case FindEvent(of, caller) =>
      AddCallAgrees(before, s, identity, Find(s, of, caller));
    case ReplyEvent(c, found, valid) =>
      ReplyAgrees(before, s, identity, c, found, valid);
    case QueryEvent(of, caller, valid) =>
      QueryAgrees(before, s, identity, of, caller, valid);
    case SettleEvent(h, success) =>
      if h < |s.started| && s.started[h].phase.Running? {
        SettleAgrees(before, s, identity, h, success);
      }
    case ResumeEvent(c) =>
      if c < |s.calls| && s.calls[c].Waiting? && s.calls[c].hydration < |s.started| && !s.started[s.calls[c].hydration].phase.Running? {
        ResumeAgrees(before, s, identity, c);
      }
    case SavedEvent(k, id) =>
      if AwaitsWriter(s, k) {
        SavedAgrees(before, s, identity, k, id);
      }
    case CloseEvent =>
    case _ => QuietAgrees(before, s, e, identity);
  }

  /** A block that answers no call and settles no hydration. */
  lemma QuietAgrees(before: Session, s: Session, e: Event, identity: Identity)
    requires Undisturbed(before, s, identity) && !Disturbs(s, e, identity)
    requires e.ForgetEvent? || e.MakeEvent? || e.SaveEvent? || e.WriteEvent? || e.DeletedEvent?
    ensures Undisturbed(before, Next(s, e), identity)
  {
    OtherKeysAgree(before, s, Next(s, e), identity);
  }

  lemma MissingAgrees(before: Session, s: Session, identity: Identity, c: nat)
    requires Undisturbed(before, s, identity) && c < |s.calls|
    ensures Undisturbed(before, s.(calls := s.calls[c := Missing]), identity)
  {
    var after := s.(calls := s.calls[c := Missing]);
    assert forall h: nat :: Live(s, h, identity) ==> Live(after, h, identity);
  }

  ghost predicate NeverDisturbed(s: Session, events: seq<Event>, identity: Identity) {
    forall i :: 0 <= i < |events| ==> !Disturbs(Run(s, events[..i]), events[i], identity)
  }

  lemma {:induction false} RunAgrees(s: Session, events: seq<Event>, identity: Identity)
    requires Settled(s, identity) && NeverDisturbed(s, events, identity)
    ensures Undisturbed(s, Run(s, events), identity)
  {
    if |events| > 0 {
      var before := events[..|events| - 1];
      assert forall i :: 0 <= i < |before| ==> before[..i] == events[..i];
      RunAgrees(s, before, identity);
      StepAgrees(s, Run(s, before), events[|events| - 1], identity);
    }
  }

  /**
   * While nothing disturbs an identity, any two finds and query rows of it that complete get the same
   * instance, whichever of them read, waited or hydrated, and in whatever order.
   */
  lemma FindsAgree(s: Session, events: seq<Event>, identity: Identity, c: nat, d: nat)
    requires Settled(s, identity) && NeverDisturbed(s, events, identity)
    requires var after := Run(s, events);
             c < |after.calls| && d < |after.calls| && AnsweredSince(s, after, identity, c) && AnsweredSince(s, after, identity, d)
    ensures var after := Run(s, events);
            && after.calls[c].model == after.calls[d].model
            && (KeysMatch(after) ==> after.calls[c].model < |after.models| && after.models[after.calls[c].model] == identity)
  {
    RunAgrees(s, events, identity);
  }

  /** From the start of a session: one instance for each undisturbed identity, and it still has that identity. */
  lemma OneInstance(events: seq<Event>, identity: Identity, c: nat, d: nat)
    requires FitsThroughout(events) && NeverDisturbed(Initial, events, identity)
    requires var calls := Run(Initial, events).calls;
             && c < |calls| && calls[c].Answered? && calls[c].identity == identity
             && d < |calls| && calls[d].Answered? && calls[d].identity == identity
    ensures var after := Run(Initial, events);
            && after.calls[c].model == after.calls[d].model
            && after.calls[c].model < |after.models| && after.models[after.calls[c].model] == identity
  {
    FindsAgree(Initial, events, identity, c, d);
    KeysMatchExactly(events);
  }

  // ---------------------------------------------------------------- the session as an object

  class ModelSession {
    var active: bool
    var identityMap: map<Identity, nat>
    var hydrations: map<Identity, nat>
    var models: seq<Identity>
    var started: seq<Hydration>
    var calls: seq<Call>
    var saves: seq<Save>

    function Value(): Session
      reads this
    {
      Session(active, identityMap, hydrations, models, started, calls, saves)
    }

    constructor ()
      ensures Value() == Initial
    {
      active, identityMap, hydrations, models, started, calls, saves := true, map[], map[], [], [], [], [];
    }

    /** The part of `find` and of `hydrate` before anything is awaited. */
    method LookUp(identity: Identity, caller: Option<nat>) returns (known: Option<Call>)
      ensures known == Known(Value(), identity, caller)
    {
      var hydrating := Value().Hydrating(caller, identity);
      if hydrating.Some? && identity in identityMap && identityMap[identity] == hydrating.value {
        return Some(Answered(identity, hydrating.value));
      }
      if identity in hydrations && hydrating.None? {
        return Some(Waiting(identity, hydrations[identity]));
      }
      if identity in identityMap {
        return Some(Answered(identity, identityMap[identity]));
      }
      return None;
    }

    method FindModel(identity: Identity, caller: Option<nat>)
      modifies this`calls
      ensures Value() == Next(old(Value()), FindEvent(identity, caller))
    {
      if !active {
        calls := calls + [Rejected];
        return;
      }
      var known := LookUp(identity, caller);
      calls := calls + [if known.Some? then known.value else Reading(identity, caller)];
    }

    method HydrateRow(c: nat, identity: Identity, caller: Option<nat>, valid: bool)
      requires c < |calls|
      modifies this
      ensures Value() == Hydrate(old(Value()), c, identity, caller, valid)
    {
      var known := LookUp(identity, caller);
      if known.Some? {
        calls := calls[c := known.value];
        return;
      }
      var model, h, scope := |models|, |started|, Value().Scope(caller);
      models := models + [identity];
      if valid {
        identityMap := identityMap[identity := model];
      }
      started := started + [Hydration(identity, model, scope[identity := model], if valid then Running else Failed)];
      hydrations := hydrations[identity := h];
      calls := calls[c := Waiting(identity, h)];
    }

    method Reply(c: nat, found: bool, valid: bool)
      requires c < |calls| && calls[c].Reading?
      modifies this
      ensures Value() == Next(old(Value()), ReplyEvent(c, found, valid))
    {
      if found {
        HydrateRow(c, calls[c].identity, calls[c].caller, valid);
      } else {
        calls := calls[c := Missing];
      }
    }

    method QueryRow(identity: Identity, caller: Option<nat>, valid: bool)
      modifies this
      ensures Value() == Next(old(Value()), QueryEvent(identity, caller, valid))
    {
      calls := calls + [Reading(identity, caller)];
      HydrateRow(|calls| - 1, identity, caller, valid);
    }

    method ObserversDone(h: nat, success: bool)
      requires h < |started| && started[h].phase.Running?
      modifies this`started, this`identityMap
      ensures Value() == Next(old(Value()), SettleEvent(h, success))
    {
      var hydration := started[h];
      if success && active {
        started := started[h := hydration.(phase := Done)];
        return;
      }
      if hydration.identity in identityMap && identityMap[hydration.identity] == hydration.model {
        identityMap := identityMap - {hydration.identity};
      }
      started := started[h := hydration.(phase := Failed)];
    }

    method Forget(h: nat)
      requires h < |started| && !started[h].phase.Running?
      modifies this`hydrations
      ensures Value() == Next(old(Value()), ForgetEvent(h))
    {
      var identity := started[h].identity;
      if identity in hydrations && hydrations[identity] == h {
        hydrations := hydrations - {identity};
      }
    }

    method Resume(c: nat)
      requires c < |calls| && calls[c].Waiting? && calls[c].hydration < |started| && !started[calls[c].hydration].phase.Running?
      modifies this`calls
      ensures Value() == Next(old(Value()), ResumeEvent(c))
    {
      var hydration := started[calls[c].hydration];
      calls := calls[c := if hydration.phase.Done? then Answered(calls[c].identity, hydration.model) else Rejected];
    }

    method MakeModel(identity: Identity) returns (made: bool)
      modifies this`identityMap, this`models
      ensures made == (old(active) && identity !in old(identityMap))
      ensures Value() == Next(old(Value()), MakeEvent(identity))
    {
      if !active || identity in identityMap {
        return false;
      }
      identityMap := identityMap[identity := |models|];
      models := models + [identity];
      return true;
    }

    /** A save is refused at once by a closed session; later its observers are awaited. */
    method StartSave(model: nat) returns (started: bool)
      requires model < |models|
      modifies this`saves
      ensures started == old(active)
      ensures Value() == Next(old(Value()), SaveEvent(model))
    {
      if !active {
        return false;
      }
      saves := saves + [Save(model, Observing)];
      return true;
    }

    /** The observers are through, whether the session is still open or not. */
    method StartWrite(k: nat)
      requires k < |saves| && saves[k].stage.Observing? && saves[k].model < |models|
      modifies this`saves
      ensures Value() == Next(old(Value()), WriteEvent(k))
    {
      saves := saves[k := Save(saves[k].model, Writing(models[saves[k].model]))];
    }

    method FinishSave(k: nat, id: Identity)
      requires AwaitsWriter(Value(), k)
      modifies this
      ensures Value() == Next(old(Value()), SavedEvent(k, id))
    {
      var model, pending := saves[k].model, saves[k].stage.pending;
      saves := saves[k := Save(model, Ended)];
      if id != pending {
        models := models[model := id];
        identityMap := identityMap - {pending};
        identityMap := identityMap[id := model];
      }
    }

    method FinishDelete(model: nat)
      requires model < |models|
      modifies this`identityMap
      ensures Value() == Next(old(Value()), DeletedEvent(model))
    {
      identityMap := identityMap - {models[model]};
    }

    method Close()
      modifies this
      ensures Value() == Next(old(Value()), CloseEvent)
    {
      active, identityMap, hydrations := false, map[], map[];
    }
  }
}
