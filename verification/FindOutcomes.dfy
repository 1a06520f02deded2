/** What becomes of every find and of every call that waits for a hydration. */
module FindOutcomes {
  import opened Options
  import opened IdentityMap

  // ---------------------------------------------------------------- those who wait for one hydration share its outcome

  /** Hydrations are kept, and one that is settled stays as it is. */
  ghost predicate Keeps(before: Session, after: Session) {
    && |before.started| <= |after.started|
    && forall h :: 0 <= h < |before.started| ==>
         var was, now := before.started[h], after.started[h];
         now.identity == was.identity && now.model == was.model && (!was.phase.Running? ==> now.phase == was.phase)
  }

  lemma HydrateKeeps(s: Session, c: nat, identity: Identity, caller: Option<nat>, valid: bool)
    requires c < |s.calls|
    ensures Keeps(s, Hydrate(s, c, identity, caller, valid))
  {
  }

  lemma StepKeeps(s: Session, e: Event)
    ensures Keeps(s, Next(s, e))
  {
    match e
    case ReplyEvent(c, found, valid) =>
      if c < |s.calls| && s.calls[c].Reading? && found {
        HydrateKeeps(s, c, s.calls[c].identity, s.calls[c].caller, valid);
      }
    case QueryEvent(identity, caller, valid) =>
      HydrateKeeps(s.(calls := s.calls + [Reading(identity, caller)]), |s.calls|, identity, caller, valid);
    case SettleEvent(_, _) =>
    case _ => assert Next(s, e).started == s.started;
  }

  lemma {:induction false} RunKeeps(s: Session, events: seq<Event>, i: nat)
    requires i <= |events|
    ensures Keeps(Run(s, events[..i]), Run(s, events))
    decreases |events|
  {
    if i == |events| {
      assert events[..i] == events;
    } else {
      var before := events[..|events| - 1];
      assert before[..i] == events[..i];
      RunKeeps(s, before, i);
      StepKeeps(Run(s, before), events[|events| - 1]);
    }
  }

  /** Event `i` ends the observers of hydration `h`. */
  ghost predicate Settles(s: Session, events: seq<Event>, i: nat, h: nat) {
    i < |events| && events[i].SettleEvent? && events[i].hydration == h &&
    h < |Run(s, events[..i]).started| && Run(s, events[..i]).started[h].phase.Running?
  }

  /** At event `w` call `c` goes on, which waits for hydration `h`. */
  ghost predicate Resumes(s: Session, events: seq<Event>, w: nat, c: nat, h: nat) {
    w < |events| && events[w] == ResumeEvent(c) &&
    var seen := Run(s, events[..w]);
    c < |seen.calls| && seen.calls[c].Waiting? && seen.calls[c].hydration == h
  }

  lemma RunNext(s: Session, events: seq<Event>, i: nat)
    requires i < |events|
    ensures Run(s, events[..i + 1]) == Next(Run(s, events[..i]), events[i])
  {
    assert events[..i + 1][..i] == events[..i];
  }

  lemma SettledOutcome(s: Session, events: seq<Event>, i: nat, h: nat)
    requires Settles(s, events, i, h)
    ensures var at, after := Run(s, events[..i]), Run(s, events[..i + 1]);
            && h < |after.started|
            && after.started[h] == at.started[h].(phase := if events[i].success && at.active then Done else Failed)
            && (!(events[i].success && at.active) ==> !after.Maps(at.started[h].identity, at.started[h].model))
  {
    RunNext(s, events, i);
  }

  /** A call that waits for observers that are through is answered if they succeeded, and rejected otherwise. */
  lemma ResumedOutcome(s: Session, events: seq<Event>, w: nat, c: nat)
    requires w < |events| && events[w] == ResumeEvent(c) && c < |Run(s, events[..w]).calls|
    ensures var seen, end := Run(s, events[..w]), Run(s, events[..w + 1]);
            var call := seen.calls[c];
            && c < |end.calls|
            && (call.Waiting? && call.hydration < |seen.started| ==>
                  end.calls[c] == match seen.started[call.hydration].phase
                                  case Running => call
                                  case Done => Answered(call.identity, seen.started[call.hydration].model)
                                  case Failed => Rejected)
            && (!call.Waiting? ==> end.calls[c] == call)
  {
    RunNext(s, events, w);
  }

  /**
   * Whoever waits for a hydration and goes on once its observers are through gets the instance it attached if they
   * succeeded in an open session, and is rejected otherwise; the instance is then not in the map.
   */
  lemma WaitersShareOutcome(s: Session, events: seq<Event>, i: nat, h: nat, w: nat, c: nat)
    requires Settles(s, events, i, h) && i < w && Resumes(s, events, w, c, h)
    ensures var at, call := Run(s, events[..i]), Run(s, events[..w]).calls[c];
            var end := Run(s, events[..w + 1]);
            && c < |end.calls|
            && if events[i].success && at.active then end.calls[c] == Answered(call.identity, at.started[h].model)
               else end.calls[c] == Rejected && !Run(s, events[..i + 1]).Maps(at.started[h].identity, at.started[h].model)
  {
    SettledOutcome(s, events, i, h);
    ResumedOutcome(s, events, w, c);
    assert events[..w][..i + 1] == events[..i + 1];
    RunKeeps(s, events[..w], i + 1);
  }

  // ---------------------------------------------------------------- an undisturbed find is answered

  /** The call is still about the identity: it reads, waits, or is answered. */
  ghost predicate Pursued(s: Session, identity: Identity, c: nat) {
    c < |s.calls| && (s.calls[c].Reading? || s.calls[c].Waiting? || s.calls[c].Answered?) && s.calls[c].identity == identity
  }

  predicate FoundNothing(e: Event, c: nat) {
    e.ReplyEvent? && e.call == c && !e.found
  }

  /** A call that has started to wait, or is answered, does not read again; an answer stays. */
  ghost predicate Advances(before: Session, after: Session, c: nat)
    requires c < |before.calls| && c < |after.calls|
  {
    && (!before.calls[c].Reading? ==> !after.calls[c].Reading?)
    && (before.calls[c].Answered? ==> after.calls[c] == before.calls[c])
  }

  /** What an event does to the calls there are: only a reply and a resumption touch one, and only the one they name. */
  lemma CallsStay(s: Session, e: Event, c: nat)
    requires c < |s.calls| && !((e.ReplyEvent? || e.ResumeEvent?) && e.call == c)
    ensures c < |Next(s, e).calls| && Next(s, e).calls[c] == s.calls[c]
  {
    if e.QueryEvent? {
      var asked := s.(calls := s.calls + [Reading(e.identity, e.caller)]);
      assert asked.calls[c] == s.calls[c];
    }
  }

  lemma StepPursues(s: Session, e: Event, identity: Identity, c: nat)
    requires Settled(s, identity) && Pursued(s, identity, c) && !FoundNothing(e, c)
    ensures Pursued(Next(s, e), identity, c) && Advances(s, Next(s, e), c)
    ensures e.ReplyEvent? && e.call == c ==> !Next(s, e).calls[c].Reading?
  {
    if e.ResumeEvent? && e.call == c && s.calls[c].Waiting? {
      assert Live(s, s.calls[c].hydration, identity);
    } else if !((e.ReplyEvent? || e.ResumeEvent?) && e.call == c) {
      CallsStay(s, e, c);
    }
  }

  /** A find in an open session is about its identity from the start. */
  lemma FindBegins(s: Session, identity: Identity, caller: Option<nat>)
    requires s.active
    ensures Pursued(Next(s, FindEvent(identity, caller)), identity, |s.calls|)
  {
  }

  lemma RunBegins(s: Session, events: seq<Event>, identity: Identity, caller: Option<nat>)
    requires s.active && |events| > 0 && events[0] == FindEvent(identity, caller)
    ensures Pursued(Run(s, events[..1]), identity, |s.calls|)
  {
    RunNext(s, events, 0);
    RunNothing(s, events);
    FindBegins(s, identity, caller);
  }

  lemma RunPursues(s: Session, events: seq<Event>, identity: Identity, c: nat, n: nat)
    requires n < |events| && !FoundNothing(events[n], c)
    requires Settled(Run(s, events[..n]), identity) && Pursued(Run(s, events[..n]), identity, c)
    ensures Pursued(Run(s, events[..n + 1]), identity, c) && Advances(Run(s, events[..n]), Run(s, events[..n + 1]), c)
    ensures events[n].ReplyEvent? && events[n].call == c ==> !Run(s, events[..n + 1]).calls[c].Reading?
  {
    RunNext(s, events, n);
    StepPursues(Run(s, events[..n]), events[n], identity, c);
  }

  /** From the find on, the call is about its identity, unless the reader finds nothing. */
  lemma {:induction false} FindIsPursued(s: Session, events: seq<Event>, identity: Identity, caller: Option<nat>, n: nat)
    requires s.active && Settled(s, identity) && NeverDisturbed(s, events, identity)
    requires 0 < n <= |events| && events[0] == FindEvent(identity, caller)
    requires forall i :: 0 <= i < n ==> !FoundNothing(events[i], |s.calls|)
    ensures Pursued(Run(s, events[..n]), identity, |s.calls|)
    ensures Replied(events, n, |s.calls|) ==> !Run(s, events[..n]).calls[|s.calls|].Reading?
    decreases n
  {
    if n == 1 {
      RunBegins(s, events, identity, caller);
    } else {
      SettledSoFar(s, events, identity, n - 1);
      FindIsPursued(s, events, identity, caller, n - 1);
      RunPursues(s, events, identity, |s.calls|, n - 1);
    }
  }

  lemma RunNothing(s: Session, events: seq<Event>)
    ensures Run(s, events[..0]) == s
  {
  }

  /** The reader has answered call `c` since its find. */
  ghost predicate Replied(events: seq<Event>, n: nat, c: nat)
    requires n <= |events|
  {
    exists r :: 0 < r < n && events[r].ReplyEvent? && events[r].call == c
  }

  lemma SettledSoFar(s: Session, events: seq<Event>, identity: Identity, n: nat)
    requires Settled(s, identity) && NeverDisturbed(s, events, identity) && n <= |events|
    ensures Undisturbed(s, Run(s, events[..n]), identity)
  {
    assert forall i :: 0 <= i < n ==> events[..n][..i] == events[..i];
    RunAgrees(s, events[..n], identity);
  }

  lemma AnswerIsMapped(s: Session, seen: Session, end: Session, identity: Identity, c: nat)
    requires Settled(seen, identity) && Agreed(s, end, identity) && |s.calls| <= c < |end.calls|
    requires Pursued(seen, identity, c) && !seen.calls[c].Reading?
    requires seen.calls[c].Waiting? ==>
               seen.calls[c].hydration < |seen.started| &&
               (seen.started[seen.calls[c].hydration].phase.Done? ==>
                  end.calls[c] == Answered(identity, seen.started[seen.calls[c].hydration].model)) &&
               !seen.started[seen.calls[c].hydration].phase.Running?
    requires !seen.calls[c].Waiting? ==> end.calls[c] == seen.calls[c]
    ensures end.calls[c].Answered? && end.calls[c].identity == identity && end.Maps(identity, end.calls[c].model)
  {
    if seen.calls[c].Waiting? {
      assert Live(seen, seen.calls[c].hydration, identity);
    }
    assert AnsweredSince(s, end, identity, c);
  }

  /**
   * In an open session a find of an undisturbed identity is never rejected. Once its reader has found the row, whether
   * it hydrates the row or joins who does, and the observers it waits for are through, it is answered with the
   * instance that the map has.
   */
  lemma FindIsAnswered(s: Session, events: seq<Event>, identity: Identity, caller: Option<nat>, r: nat, w: nat)
    requires s.active && Settled(s, identity) && NeverDisturbed(s, events, identity)
    requires 0 < r < w < |events| && events[0] == FindEvent(identity, caller)
    requires forall i :: 0 <= i <= w ==> !FoundNothing(events[i], |s.calls|)
    requires events[r].ReplyEvent? && events[r].call == |s.calls| && events[w] == ResumeEvent(|s.calls|)
    requires var seen, c := Run(s, events[..w]), |s.calls|;
             c < |seen.calls| && seen.calls[c].Waiting? ==>
               seen.calls[c].hydration < |seen.started| && !seen.started[seen.calls[c].hydration].phase.Running?
    ensures var end, c := Run(s, events[..w + 1]), |s.calls|;
            c < |end.calls| && end.calls[c].Answered? && end.calls[c].identity == identity && end.Maps(identity, end.calls[c].model)
  {
    FindIsPursued(s, events, identity, caller, w);
    assert Replied(events, w, |s.calls|);
    SettledSoFar(s, events, identity, w);
    SettledSoFar(s, events, identity, w + 1);
    ResumedOutcome(s, events, w, |s.calls|);
    AnswerIsMapped(s, Run(s, events[..w]), Run(s, events[..w + 1]), identity, |s.calls|);
  }

  // ---------------------------------------------------------------- observers do not wait for what they run in

  /** The observers of a hydration find its own instance in their scope. */
  ghost predicate OwnScopes(s: Session) {
    forall h :: 0 <= h < |s.started| ==>
      s.started[h].identity in s.started[h].scope && s.started[h].scope[s.started[h].identity] == s.started[h].model
  }

  lemma StepKeepsScopes(s: Session, e: Event)
    requires OwnScopes(s)
    ensures OwnScopes(Next(s, e))
  {
    match e
    case ReplyEvent(c, found, valid) =>
      if c < |s.calls| && s.calls[c].Reading? && found {
        HydrateKeepsScopes(s, c, s.calls[c].identity, s.calls[c].caller, valid);
      }
    case QueryEvent(identity, caller, valid) =>
      HydrateKeepsScopes(s.(calls := s.calls + [Reading(identity, caller)]), |s.calls|, identity, caller, valid);
    case SettleEvent(_, _) =>
    case _ => assert Next(s, e).started == s.started;
  }

  lemma HydrateKeepsScopes(s: Session, c: nat, identity: Identity, caller: Option<nat>, valid: bool)
    requires OwnScopes(s) && c < |s.calls|
    ensures OwnScopes(Hydrate(s, c, identity, caller, valid))
  {
  }

  /** A hydration that is started in the observers of another one has the scope of that one, and itself. */
  lemma NestedScope(s: Session, c: nat, identity: Identity, p: nat, valid: bool)
    requires c < |s.calls| && p < |s.started| && s.started[p].phase.Running? && Known(s, identity, Some(p)).None?
    ensures var after := Hydrate(s, c, identity, Some(p), valid);
            && |after.started| == |s.started| + 1
            && after.started[|s.started|].scope.Keys == s.started[p].scope.Keys + {identity}
            && forall i :: i in s.started[p].scope && i != identity ==> after.started[|s.started|].scope[i] == s.started[p].scope[i]
  {
  }

  lemma {:induction false} RunKeepsScopes(events: seq<Event>)
    ensures OwnScopes(Run(Initial, events))
  {
    if |events| > 0 {
      RunKeepsScopes(events[..|events| - 1]);
      StepKeepsScopes(Run(Initial, events[..|events| - 1]), events[|events| - 1]);
    }
  }

  /**
   * In every run, a find that observers make of an instance being hydrated around them does not wait for it; of their
   * own, while it is attached, they get it at once.
   */
  lemma ObserversDoNotWait(events: seq<Event>, h: nat, identity: Identity)
    requires var s := Run(Initial, events);
             s.active && h < |s.started| && s.started[h].phase.Running? && identity in s.started[h].scope
    ensures var s := Run(Initial, events);
            && !Find(s, identity, Some(h)).Waiting?
            && (identity == s.started[h].identity && s.Maps(identity, s.started[h].model) ==>
                  Find(s, identity, Some(h)) == Answered(identity, s.started[h].model))
  {
    RunKeepsScopes(events);
  }

  /** A scope ends with its hydration: a find or a row from there is then like one from outside. */
  lemma OutsideObservers(s: Session, c: nat, identity: Identity, caller: Option<nat>, valid: bool)
    requires c < |s.calls| && (caller.Some? && caller.value < |s.started| ==> !s.started[caller.value].phase.Running?)
    ensures Known(s, identity, caller) == Known(s, identity, None)
    ensures Known(s, identity, caller).None? ==> Hydrate(s, c, identity, caller, valid).started[|s.started|].scope == map[identity := |s.models|]
  {
  }

  // ---------------------------------------------------------------- what is attached, and what is refused

  /** The row of an unknown identity gets a new instance, which is attached if the row is valid and fails at once if not. */
  lemma NewRow(s: Session, c: nat, identity: Identity, caller: Option<nat>, valid: bool)
    requires c < |s.calls| && Known(s, identity, caller).None?
    ensures var after := Hydrate(s, c, identity, caller, valid);
            && after.calls[c].Waiting? && after.calls[c].identity == identity && after.calls[c].hydration == |s.started| < |after.started|
            && after.started[|s.started|].identity == identity && after.started[|s.started|].model == |s.models|
            && after.models == s.models + [identity]
            && (if valid then after.started[|s.started|].phase.Running? && after.identityMap == s.identityMap[identity := |s.models|]
                else after.started[|s.started|].phase.Failed? && after.identityMap == s.identityMap)
            && identity in after.hydrations && after.hydrations[identity] == |s.started|
  {
  }

  /** A reader that finds nothing ends the find; an identity that is neither attached nor being hydrated is read. */
  lemma MissingOrRead(s: Session, identity: Identity, caller: Option<nat>, c: nat, valid: bool)
    requires s.active && identity !in s.identityMap && identity !in s.hydrations
    ensures Find(s, identity, caller) == Reading(identity, caller)
    ensures c < |s.calls| && s.calls[c].Reading? ==> Next(s, ReplyEvent(c, false, valid)) == s.(calls := s.calls[c := Missing])
  {
  }

  /** Hydrations are registered under the identity they attach. */
  ghost predicate Registered(s: Session) {
    forall i :: i in s.hydrations ==> s.hydrations[i] < |s.started| && s.started[s.hydrations[i]].identity == i
  }

  /** A settled hydration is forgotten, and no other one; a failed one takes its own instance out of the map, and no other one. */
  lemma SettledAndForgotten(s: Session, h: nat, success: bool)
    requires Registered(s) && h < |s.started|
    ensures !s.started[h].phase.Running? ==>
              forall i :: i in Next(s, ForgetEvent(h)).hydrations <==> i in s.hydrations && s.hydrations[i] != h
    ensures var after := Settle(s, h, success);
            && (forall i :: i in after.identityMap <==>
                  i in s.identityMap && ((success && s.active) || i != s.started[h].identity || s.identityMap[i] != s.started[h].model))
            && (forall i :: i in after.identityMap ==> after.identityMap[i] == s.identityMap[i])
  {
  }

  lemma StepKeepsRegistered(s: Session, e: Event)
    requires Registered(s)
    ensures Registered(Next(s, e))
  {
    StepKeeps(s, e);
    match e
    case ReplyEvent(c, found, valid) =>
      if c < |s.calls| && s.calls[c].Reading? && found {
        HydrateKeepsRegistered(s, c, s.calls[c].identity, s.calls[c].caller, valid);
      }
    case QueryEvent(identity, caller, valid) =>
      HydrateKeepsRegistered(s.(calls := s.calls + [Reading(identity, caller)]), |s.calls|, identity, caller, valid);
    case _ => FewerRegistered(s, Next(s, e));
  }

  lemma FewerRegistered(s: Session, after: Session)
    requires Registered(s) && Keeps(s, after)
    requires after.hydrations.Items <= s.hydrations.Items
    ensures Registered(after)
  {
    forall i | i in after.hydrations ensures i in s.hydrations && s.hydrations[i] == after.hydrations[i] {
      assert (i, after.hydrations[i]) in after.hydrations.Items;
    }
  }

  lemma HydrateKeepsRegistered(s: Session, c: nat, identity: Identity, caller: Option<nat>, valid: bool)
    requires Registered(s) && c < |s.calls|
    ensures Registered(Hydrate(s, c, identity, caller, valid))
  {
  }

  lemma {:induction false} RunKeepsRegistered(events: seq<Event>)
    ensures Registered(Run(Initial, events))
  {
    if |events| > 0 {
      RunKeepsRegistered(events[..|events| - 1]);
      StepKeepsRegistered(Run(Initial, events[..|events| - 1]), events[|events| - 1]);
    }
  }

  /** A deleted model's current identity is free again, and no other one. */
  lemma DeletedIsFree(s: Session, model: nat)
    requires model < |s.models|
    ensures var after := Next(s, DeletedEvent(model));
            && (forall i :: i in after.identityMap <==> i in s.identityMap && i != s.models[model])
            && (forall i :: i in after.identityMap ==> after.identityMap[i] == s.identityMap[i])
  {
  }

  /** A save is written once: one whose write was answered has ended, and stays ended. */
  lemma WrittenOnce(s: Session, k: nat, id: Identity, e: Event)
    ensures AwaitsWriter(s, k) ==> Saved(s, k, id).saves[k].stage.Ended?
    ensures k < |s.saves| && s.saves[k].stage.Ended? ==> k < |Next(s, e).saves| && Next(s, e).saves[k] == s.saves[k]
  {
  }

  /** A session that is closed has forgotten everything, and no step opens it again. */
  lemma ClosedForEver(s: Session, e: Event)
    ensures var closed := Next(s, CloseEvent); !closed.active && closed.identityMap == map[] && closed.hydrations == map[]
    ensures !s.active ==> !Next(s, e).active
  {
  }

  /** A closed session rejects finds, makes no models and starts no saves. */
  lemma ClosedRefuses(s: Session, identity: Identity, caller: Option<nat>, model: nat)
    requires !s.active
    ensures Next(s, FindEvent(identity, caller)).calls == s.calls + [Rejected]
    ensures Next(s, MakeEvent(identity)) == s && Next(s, SaveEvent(model)) == s
  {
  }

  /** Two hydrations whose observers each find the other's instance wait for each other. */
  lemma CrossedObserversWait(a: Identity, b: Identity)
    requires a != b
    ensures var first := Next(Next(Initial, QueryEvent(a, None, true)), QueryEvent(b, None, true));
            var s := Next(Next(first, FindEvent(b, Some(0))), FindEvent(a, Some(1)));
            && |s.started| == 2 && s.started[0].identity == a && s.started[0].phase.Running? && s.started[1].identity == b && s.started[1].phase.Running?
            && |s.calls| == 4 && s.calls[2] == Waiting(b, 1) && s.calls[3] == Waiting(a, 0)
  {
    var one := Next(Initial, QueryEvent(a, None, true));
    assert one.started == [Hydration(a, 0, map[a := 0], Running)] && one.hydrations == map[a := 0] && one.calls == [Waiting(a, 0)];
    var two := Next(one, QueryEvent(b, None, true));
    assert two.started == one.started + [Hydration(b, 1, map[b := 1], Running)] && two.hydrations == map[a := 0, b := 1];
    assert two.calls == [Waiting(a, 0), Waiting(b, 1)];
    var three := Next(two, FindEvent(b, Some(0)));
    assert three.calls == two.calls + [Waiting(b, 1)] && three.started == two.started;
  }
}
