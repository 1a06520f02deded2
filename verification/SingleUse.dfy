/** Single-use credentials: admission tickets and signed publish requests. */
module SingleUse {
  import opened Options
  import opened Maps

  datatype Result<+T> = Success(value: T) | Failure

  // ---------------------------------------------------------------- issuing and opening a ticket

  datatype Actor = Actor(kind: string, id: Option<string>)
  {
    predicate Known() {
      kind in {"anonymous", "user", "service", "system"}
    }
  }

  predicate NonEmptyString(s: string) {
    0 < |s| <= 512
  }

  /** A delegation hop; its expiry, if it has one, is in microseconds. */
  datatype Hop = Hop(from: Actor, to: Actor, grantId: string, reason: string, expiresAt: Option<int>)
  {
    predicate Valid() {
      from.Known() && to.Known() && NonEmptyString(grantId) && NonEmptyString(reason)
    }
  }

  /** `details` are the optional ids and the method; an empty one is not serialized. */
  datatype Authentication = Authentication(state: string, assurance: Option<string>, authenticatedAt: Option<int>,
                                           details: map<string, string>, constraints: Option<seq<string>>)
  {
    predicate Valid() {
      && state in {"anonymous", "authenticated"}
      && (assurance.Some? ==> assurance.value in {"single-factor", "multi-factor", "phishing-resistant"})
    }

    function Serialized(): Authentication {
      this.(assurance := if assurance == Some("") then None else assurance,
            details := map key | key in details && details[key] != "" :: details[key])
    }
  }

  datatype Claims = Claims(actor: Actor, initiator: Option<Actor>, authentication: Authentication, tenant: Option<string>,
                           correlationId: string)
  {
    /** What both sides ask of the claims, the authentication apart. */
    predicate Valid() {
      && actor.Known() && (initiator.Some? ==> initiator.value.Known()) && (tenant.Some? ==> NonEmptyString(tenant.value))
      && NonEmptyString(correlationId)
    }
  }

  datatype Payload = Payload(version: int, applicationId: string, ticketId: string, issuedAt: int, expiresAt: int,
                             origin: string, delegation: seq<Hop>, claims: Claims)

  datatype Admission = Admission(ticketId: string, delegation: seq<Hop>, claims: Claims, expiresAt: int)

  /** The text of a ticket stands for its payload; encryption is not modelled, but for the length of the text. */
  datatype Ticket = Ticket(length: nat, payload: Payload)

  const TICKET_VERSION := 1
  const MAX_HOPS := 16
  const MAX_TICKET_LENGTH := 8_192

  /** The earliest of the ticket's own end and every hop's. */
  ghost predicate Earliest(expiresAt: int, own: int, delegation: seq<Hop>) {
    && expiresAt <= own
    && (forall h :: h in delegation && h.expiresAt.Some? ==> expiresAt <= h.expiresAt.value)
    && (expiresAt == own || exists h :: h in delegation && h.expiresAt == Some(expiresAt))
  }

  predicate ValidHops(delegation: seq<Hop>) {
    |delegation| <= MAX_HOPS && forall h :: h in delegation ==> h.Valid()
  }

  function Serialized(claims: Claims): Claims {
    claims.(authentication := claims.authentication.Serialized())
  }

  /** `exact` tells the exact browser origins from all other texts, `sealed` how long the text of a payload becomes. */
  method Issue(applicationId: string, ticketId: string, origin: string, delegation: seq<Hop>, claims: Claims,
               now: int, lifetime: int, exact: string -> bool, sealed: Payload -> nat) returns (ticket: Result<Ticket>)
    requires lifetime > 0 && NonEmptyString(ticketId)
    ensures ticket.Success? ==>
              var p := ticket.value.payload;
              && ticket.value.length == sealed(p)
              && p == Payload(TICKET_VERSION, applicationId, ticketId, now, p.expiresAt, origin, delegation, Serialized(claims))
              && Earliest(p.expiresAt, (now + lifetime) * 1_000, delegation) && p.expiresAt > now * 1_000
    ensures ticket.Success? <==>
              && exact(origin) && claims.Valid() && ValidHops(delegation)
              && forall h :: h in delegation && h.expiresAt.Some? ==> h.expiresAt.value > now * 1_000
  {
    var expiresAt := (now + lifetime) * 1_000;
    for i := 0 to |delegation|
      invariant Earliest(expiresAt, (now + lifetime) * 1_000, delegation[..i])
    {
      var hop := delegation[i];
      assert delegation[..i + 1] == delegation[..i] + [hop];
      if hop.expiresAt.Some? && hop.expiresAt.value < expiresAt {
        expiresAt := hop.expiresAt.value;
      }
    }
    assert delegation[..|delegation|] == delegation;
    if expiresAt <= now * 1_000 || !exact(origin) || !claims.Valid() || !ValidHops(delegation) {
      return Failure;
    }
    var payload := Payload(TICKET_VERSION, applicationId, ticketId, now, expiresAt, origin, delegation, Serialized(claims));
    return Success(Ticket(sealed(payload), payload));
  }

  function Open(t: Ticket, applicationId: string, origin: string, now: int, lifetime: int, exact: string -> bool): Result<Admission> {
    var p := t.payload;
    if t.length == 0 || t.length > MAX_TICKET_LENGTH then Failure
    else if p.version != TICKET_VERSION || p.applicationId != applicationId || p.issuedAt > now + 5_000 || !exact(origin) || p.origin != origin
    then Failure
    else if p.expiresAt <= now * 1_000 || p.expiresAt <= p.issuedAt * 1_000 ||
            p.expiresAt - p.issuedAt * 1_000 > lifetime * 1_000
    then Failure
    else if !NonEmptyString(p.ticketId) || !p.claims.Valid() || !p.claims.authentication.Valid() || !ValidHops(p.delegation) then Failure
    else Success(Admission(p.ticketId, p.delegation, p.claims, p.expiresAt))
  }

  /**
   * An issued ticket opens, with the fields it was issued with, exactly for its own application and origin, before its
   * expiry, by a clock that is at most five seconds behind, under a lifetime that is not shorter, and if its text is not
   * too long and its authentication is a known one, which issuing does not ask.
   */
  method IssueThenOpen(applicationId: string, ticketId: string, origin: string, delegation: seq<Hop>, claims: Claims,
                       issuedAt: int, lifetime: int, exact: string -> bool, sealed: Payload -> nat,
                       openerId: string, presentedFrom: string, openedAt: int, openerLifetime: int)
    returns (ticket: Result<Ticket>, admission: Result<Admission>)
    requires lifetime > 0 && NonEmptyString(ticketId)
    ensures ticket.Failure? ==> admission.Failure?
    ensures ticket.Success? ==>
              var expiresAt := ticket.value.payload.expiresAt;
              admission ==
              if openerId == applicationId && presentedFrom == origin &&
                 issuedAt - 5_000 <= openedAt && openedAt * 1_000 < expiresAt && expiresAt <= (issuedAt + openerLifetime) * 1_000 &&
                 1 <= ticket.value.length <= 8_192 && claims.authentication.Serialized().Valid()
              then Success(Admission(ticketId, delegation, Serialized(claims), expiresAt)) else Failure
    ensures admission.Success? ==>
              forall h :: h in delegation && h.expiresAt.Some? ==> admission.value.expiresAt <= h.expiresAt.value
  {
    ticket := Issue(applicationId, ticketId, origin, delegation, claims, issuedAt, lifetime, exact, sealed);
    if ticket.Failure? {
      return ticket, Failure;
    }
    admission := Open(ticket.value, openerId, presentedFrom, openedAt, openerLifetime, exact);
  }

  /** Whatever a ticket's text holds, what it is opened to is well-formed, and not expired. */
  lemma OpenedIsWellFormed(t: Ticket, applicationId: string, origin: string, now: int, lifetime: int, exact: string -> bool)
    requires Open(t, applicationId, origin, now, lifetime, exact).Success?
    ensures var a := Open(t, applicationId, origin, now, lifetime, exact).value;
            && exact(origin) && a.expiresAt > now * 1_000 && 1 <= |a.ticketId| <= 512 && 1 <= |a.claims.correlationId| <= 512
            && |a.delegation| <= 16 && (forall h :: h in a.delegation ==> 1 <= |h.grantId| <= 512 && 1 <= |h.reason| <= 512)
            && (a.claims.authentication.state == "anonymous" || a.claims.authentication.state == "authenticated")
            && (a.claims.tenant.Some? ==> 1 <= |a.claims.tenant.value| <= 512)
            && a.claims.actor.kind in {"anonymous", "user", "service", "system"}
  {
  }

  // ---------------------------------------------------------------- consuming a ticket

  /** Microseconds to milliseconds, rounded up. */
  function CeilMillis(micros: int): (millis: int)
    ensures (millis - 1) * 1_000 < micros <= millis * 1_000
  {
    (micros + 999) / 1_000
  }

  /** One presentation: opened at one clock reading, consumed at another, not earlier one. */
  datatype Presentation = Presentation(ticketId: string, expiresAt: int, openedAt: int, consumedAt: int)

  /** The ticket passed `open`: it had not expired then. */
  predicate Opened(p: Presentation) {
    p.openedAt * 1_000 < p.expiresAt && p.openedAt <= p.consumedAt
  }

  function Pruned(consumed: map<string, int>, now: int): map<string, int> {
    map id | id in consumed && consumed[id] > now :: consumed[id]
  }

  /** A consumed ticket is still listed, unless its expiry has passed. */
  ghost predicate Listed(consumed: map<string, int>, accepted: map<string, int>, clock: int) {
    && (forall id :: id in consumed ==> id in accepted && consumed[id] == accepted[id])
    && forall id :: id in accepted ==> id in consumed || accepted[id] <= clock
  }

  class ConsumedTickets {
    const capacity: nat
    var consumed: map<string, int>
    /** Every ticket ever consumed, with its expiry rounded up to milliseconds. */
    ghost var accepted: map<string, int>
    ghost var clock: int

    ghost predicate Valid()
      reads this
    {
      Listed(consumed, accepted, clock) && |consumed| <= capacity
    }

    constructor (capacity: nat, ghost start: int)
      ensures Valid() && accepted == map[] && consumed == map[] && clock == start && this.capacity == capacity
    {
      this.capacity := capacity;
      consumed, accepted, clock := map[], map[], start;
    }

    /**
     * A ticket that was consumed before is refused if the clock has not reached its expiry since it was opened,
     * and accepted again exactly if it has and there is room: both readings on one side of the expiry are needed.
     */
    method Consume(p: Presentation) returns (ok: bool)
      requires Valid() && Opened(p) && clock <= p.consumedAt
      requires p.ticketId in accepted ==> accepted[p.ticketId] == CeilMillis(p.expiresAt)
      modifies this
      ensures Valid() && clock == p.consumedAt
      ensures accepted == if ok then old(accepted)[p.ticketId := CeilMillis(p.expiresAt)] else old(accepted)
      ensures p.ticketId !in old(accepted) ==> (ok <==> |Pruned(old(consumed), p.consumedAt)| < capacity)
      ensures p.ticketId in old(accepted) ==>
                (ok <==> CeilMillis(p.expiresAt) <= p.consumedAt && |Pruned(old(consumed), p.consumedAt)| < capacity)
      ensures p.openedAt == p.consumedAt && p.ticketId in old(accepted) ==> !ok
    {
      var expiresAt, now := CeilMillis(p.expiresAt), p.consumedAt;
      var table := Prune(consumed, now);
      FewerKeys(table, consumed);
      consumed, clock := table, now;
      if p.ticketId in table && table[p.ticketId] > now {
        return false;
      }
      if |table| >= capacity {
        return false;
      }
      consumed := table[p.ticketId := expiresAt];
      accepted := accepted[p.ticketId := expiresAt];
      return true;
    }
  }

  method Prune(consumed: map<string, int>, now: int) returns (table: map<string, int>)
    ensures table == Pruned(consumed, now)
  {
    table := consumed;
    var todo := consumed.Keys;
    while todo != {}
      invariant todo <= consumed.Keys
      invariant table == map id | id in consumed && (id in todo || consumed[id] > now) :: consumed[id]
      decreases todo
    {
      var id :| id in todo;
      if table[id] <= now {
        table := table - {id};
      }
      todo := todo - {id};
    }
  }

  /** Why one reading matters: opened at 1 ms, before the expiry, and consumed at 2 ms, after it, a used ticket passes. */
  method ReadingsAcrossTheExpiry() returns (first: bool, second: bool)
    ensures first && second
  {
    var tickets := new ConsumedTickets(10, 0);
    assert CeilMillis(2_000) == 2;
    assert Pruned(tickets.consumed, 1) == map[];
    first := tickets.Consume(Presentation("t", 2_000, 1, 1));
    FewerKeys(tickets.consumed, map["t" := 2]);
    FewerKeys(Pruned(tickets.consumed, 2), tickets.consumed);
    second := tickets.Consume(Presentation("t", 2_000, 1, 2));
  }

  // ---------------------------------------------------------------- signed publish requests

  /** `keyMatches` and `signatureMatches` are the two constant-time comparisons; headers may be missing or not a number. */
  datatype Publish = Publish(complete: bool, keyMatches: bool, timestamp: Option<int>, nonce: string, signatureMatches: bool)

  datatype Verdict = Accepted | AuthenticationRequired | KeyInvalid | TimestampInvalid | ReplayDetected | SignatureInvalid

  predicate Fresh(timestamp: Option<int>, nowSeconds: int, skew: nat) {
    timestamp.Some? && nowSeconds - timestamp.value <= skew && timestamp.value - nowSeconds <= skew
  }

  /** A signed request is remembered by its nonce until its timestamp is out of the accepted range for good. */
  ghost predicate Remembered(nonces: map<string, int>, accepted: set<(string, int)>, skew: nat, clock: int) {
    forall a :: a in accepted ==> (a.0 in nonces && nonces[a.0] >= a.1 + skew) || a.1 + skew < clock
  }

  class PublishAuthenticator {
    const skew: nat
    var nonces: map<string, int>
    /** Every nonce and timestamp accepted so far, and the last clock reading in seconds. */
    ghost var accepted: set<(string, int)>
    ghost var clock: int

    ghost predicate Valid()
      reads this
    {
      Remembered(nonces, accepted, skew, clock)
    }

    constructor (skew: nat, ghost start: int)
      ensures Valid() && accepted == {} && clock == start && this.skew == skew
    {
      this.skew := skew;
      nonces, accepted, clock := map[], {}, start;
    }

    /** A nonce and timestamp pass once; a nonce passes again only with a later timestamp. */
    method Verify(r: Publish, nowMillis: int) returns (verdict: Verdict)
      requires Valid() && clock <= nowMillis / 1_000
      modifies this
      ensures Valid() && clock == nowMillis / 1_000
      ensures verdict.Accepted? ==>
                r.complete && r.keyMatches && r.signatureMatches && Fresh(r.timestamp, clock, skew) &&
                accepted == old(accepted) + {(r.nonce, r.timestamp.value)}
      ensures !verdict.Accepted? ==> accepted == old(accepted)
      ensures verdict.Accepted? ==> forall a :: a in old(accepted) && a.0 == r.nonce ==> a.1 < r.timestamp.value
      ensures verdict.ReplayDetected? ==> r.nonce in old(nonces) && old(nonces)[r.nonce] >= clock
      ensures r.complete && r.keyMatches && r.signatureMatches && Fresh(r.timestamp, clock, skew) ==>
                verdict.Accepted? || verdict.ReplayDetected?
    {
      var nowSeconds := nowMillis / 1_000;
      clock := nowSeconds;
      if !r.complete {
        return AuthenticationRequired;
      }
      if !r.keyMatches {
        return KeyInvalid;
      }
      if !Fresh(r.timestamp, nowSeconds, skew) {
        return TimestampInvalid;
      }
      nonces := PruneNonces(nonces, nowSeconds);
      if r.nonce in nonces {
        return ReplayDetected;
      }
      if !r.signatureMatches {
        return SignatureInvalid;
      }
      nonces := nonces[r.nonce := r.timestamp.value + skew];
      accepted := accepted + {(r.nonce, r.timestamp.value)};
      return Accepted;
    }
  }

  /** A nonce is pruned once its expiry is in the past; one that expires now is kept. */
  method PruneNonces(nonces: map<string, int>, now: int) returns (table: map<string, int>)
    ensures table == map n | n in nonces && nonces[n] >= now :: nonces[n]
  {
    table := nonces;
    var todo := nonces.Keys;
    while todo != {}
      invariant todo <= nonces.Keys
      invariant table == map n | n in nonces && (n in todo || nonces[n] >= now) :: nonces[n]
      decreases todo
    {
      var nonce :| nonce in todo;
      if table[nonce] < now {
        table := table - {nonce};
      }
      todo := todo - {nonce};
    }
  }
}
