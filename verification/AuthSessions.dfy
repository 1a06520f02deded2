/** One session row under interleaved requests: every SQL statement on it is one atomic step. */
module AuthSessions {
  import opened Options

  /** Tokens are compared by digest only; a token stands for its digest. */
  type Token = string

  datatype Session = Session(
    identityId: string,
    tokenDigest: Token,
    previousTokenDigest: Option<Token>,
    previousTokenExpiresAt: Option<int>,
    authenticatedAt: int,
    lastSeenAt: int,
    idleExpiresAt: int,
    expiresAt: int,
    revokedAt: Option<int>,
    impersonationGrantId: Option<string>,
    impersonatedIdentityId: Option<string>,
    impersonationReason: Option<string>,
    impersonationStartedAt: Option<int>,
    impersonationExpiresAt: Option<int>)

  /** The statements, with the values each was prepared with; `expected` is the digest an earlier read returned. */
  datatype Step =
    | Rotate(expected: Token, replacement: Token, now: int, idle: int, grace: int)
    | Touch(now: int, idle: int)
    | Start(identityId: string, grantId: string, target: string, reason: string, token: Token, now: int, duration: int)
    | Stop(identityId: string, grantId: string, token: Token, now: int)
    | EndImpersonation(grantId: string, target: string)
    | Reauthenticate(identityId: string, now: int)
    | Revoke(now: int)

  const RECENT := 15 * 60 * 1_000

  function Min(a: int, b: int): int {
    if a < b then a else b
  }

  /** The `where` clause of the statement. */
  predicate Applies(s: Session, step: Step) {
    match step
    case Rotate(expected, _, _, _, _) => s.tokenDigest == expected && s.revokedAt.None?
    case Touch(_, _) => true
    case Start(identityId, _, _, _, _, now, _) =>
      s.identityId == identityId && s.revokedAt.None? && s.impersonatedIdentityId.None? &&
      s.authenticatedAt > now - RECENT && s.expiresAt > now && s.idleExpiresAt > now
    case Stop(identityId, grantId, _, now) =>
      s.identityId == identityId && s.impersonationGrantId == Some(grantId) && s.revokedAt.None? &&
      s.impersonationExpiresAt.Some? && s.impersonationExpiresAt.value > now
    case EndImpersonation(grantId, target) =>
      s.impersonationGrantId == Some(grantId) && s.impersonatedIdentityId == Some(target) && s.revokedAt.None?
    case Reauthenticate(identityId, now) =>
      s.identityId == identityId && s.revokedAt.None? && s.expiresAt > now && s.idleExpiresAt > now
    case Revoke(_) => s.revokedAt.None?
  }

  /** The row after the statement. */
  function Apply(s: Session, step: Step): Session {
    if !Applies(s, step) then s
    else
      match step
      case Rotate(expected, replacement, now, idle, grace) =>
        s.(tokenDigest := replacement, previousTokenDigest := Some(expected), previousTokenExpiresAt := Some(now + grace),
           lastSeenAt := now, idleExpiresAt := Min(s.expiresAt, now + idle))
      case Touch(now, idle) => s.(lastSeenAt := now, idleExpiresAt := Min(s.expiresAt, now + idle))
      case Start(_, grantId, target, reason, token, now, duration) =>
        s.(tokenDigest := token, previousTokenDigest := None, previousTokenExpiresAt := None, lastSeenAt := now,
           impersonationGrantId := Some(grantId), impersonatedIdentityId := Some(target),
           impersonationReason := Some(reason), impersonationStartedAt := Some(now),
           impersonationExpiresAt := Some(Min(s.expiresAt, now + duration)))
      case Stop(_, _, token, now) =>
        NoImpersonation(s.(tokenDigest := token, previousTokenDigest := None, previousTokenExpiresAt := None,
                           lastSeenAt := now))
      case EndImpersonation(_, _) => NoImpersonation(s)
      case Reauthenticate(_, now) => s.(authenticatedAt := now, lastSeenAt := now)
      case Revoke(now) => s.(revokedAt := Some(now))
  }

  function NoImpersonation(s: Session): Session {
    s.(impersonationGrantId := None, impersonatedIdentityId := None, impersonationReason := None,
       impersonationStartedAt := None, impersonationExpiresAt := None)
  }

  /** The `where` clause of the read that resolves a cookie. */
  predicate Accepts(s: Session, token: Token, now: int) {
    && (s.tokenDigest == token ||
        (s.previousTokenDigest == Some(token) && s.previousTokenExpiresAt.Some? && s.previousTokenExpiresAt.value > now))
    && s.revokedAt.None? && s.expiresAt > now && s.idleExpiresAt > now
  }

  // ---------------------------------------------------------------- the row, updated in place

  class SessionRow {
    const identityId: string
    const expiresAt: int
    var tokenDigest: Token
    var previousTokenDigest: Option<Token>
    var previousTokenExpiresAt: Option<int>
    var authenticatedAt: int
    var lastSeenAt: int
    var idleExpiresAt: int
    var revokedAt: Option<int>
    var impersonationGrantId: Option<string>
    var impersonatedIdentityId: Option<string>
    var impersonationReason: Option<string>
    var impersonationStartedAt: Option<int>
    var impersonationExpiresAt: Option<int>

    function View(): Session
      reads this
    {
      Session(identityId, tokenDigest, previousTokenDigest, previousTokenExpiresAt, authenticatedAt, lastSeenAt,
              idleExpiresAt, expiresAt, revokedAt, impersonationGrantId, impersonatedIdentityId, impersonationReason,
              impersonationStartedAt, impersonationExpiresAt)
    }

    constructor (identityId: string, token: Token, now: int, idle: int, lifetime: int)
      ensures View().tokenDigest == token && Inserted(View())
    {
      this.identityId, this.expiresAt := identityId, now + lifetime;
      tokenDigest, previousTokenDigest, previousTokenExpiresAt := token, None, None;
      authenticatedAt, lastSeenAt, idleExpiresAt, revokedAt := now, now, now + idle, None;
      impersonationGrantId, impersonatedIdentityId, impersonationReason := None, None, None;
      impersonationStartedAt, impersonationExpiresAt := None, None;
    }

    /** The compare-and-set of a renewal, on the digest that was read. */
    method RotateToken(expected: Token, replacement: Token, now: int, idle: int, grace: int) returns (rotated: bool)
      modifies this
      ensures View() == Apply(old(View()), Rotate(expected, replacement, now, idle, grace))
      ensures rotated == Applies(old(View()), Rotate(expected, replacement, now, idle, grace))
    {
      rotated := tokenDigest == expected && revokedAt.None?;
      if rotated {
        tokenDigest := replacement;
        previousTokenDigest := Some(expected);
        previousTokenExpiresAt := Some(now + grace);
        lastSeenAt := now;
        idleExpiresAt := Min(expiresAt, now + idle);
      }
    }

    method TouchRow(now: int, idle: int)
      modifies this
      ensures View() == Apply(old(View()), Touch(now, idle))
    {
      lastSeenAt := now;
      idleExpiresAt := Min(expiresAt, now + idle);
    }

    method StartImpersonation(identity: string, grantId: string, target: string, reason: string, token: Token, now: int, duration: int)
      returns (started: bool)
      modifies this
      ensures View() == Apply(old(View()), Start(identity, grantId, target, reason, token, now, duration))
      ensures started == Applies(old(View()), Start(identity, grantId, target, reason, token, now, duration))
    {
      started := identityId == identity && revokedAt.None? && impersonatedIdentityId.None? &&
                 authenticatedAt > now - RECENT && expiresAt > now && idleExpiresAt > now;
      if started {
        ReplaceToken(token, now);
        BeginImpersonation(grantId, target, reason, now, Min(expiresAt, now + duration));
      }
    }

    /** The columns that a new token without a predecessor sets. */
    method ReplaceToken(token: Token, now: int)
      modifies this`tokenDigest, this`previousTokenDigest, this`previousTokenExpiresAt, this`lastSeenAt
      ensures View() == old(View()).(tokenDigest := token, previousTokenDigest := None, previousTokenExpiresAt := None, lastSeenAt := now)
    {
      tokenDigest, previousTokenDigest, previousTokenExpiresAt, lastSeenAt := token, None, None, now;
    }

    method BeginImpersonation(grantId: string, target: string, reason: string, now: int, until: int)
      modifies this`impersonationGrantId, this`impersonatedIdentityId, this`impersonationReason,
               this`impersonationStartedAt, this`impersonationExpiresAt
      ensures View() == old(View()).(impersonationGrantId := Some(grantId), impersonatedIdentityId := Some(target),
                                     impersonationReason := Some(reason), impersonationStartedAt := Some(now),
                                     impersonationExpiresAt := Some(until))
    {
      impersonationGrantId, impersonatedIdentityId, impersonationReason := Some(grantId), Some(target), Some(reason);
      impersonationStartedAt, impersonationExpiresAt := Some(now), Some(until);
    }

    method StopImpersonation(identity: string, grantId: string, token: Token, now: int) returns (stopped: bool)
      modifies this
      ensures View() == Apply(old(View()), Stop(identity, grantId, token, now))
      ensures stopped == Applies(old(View()), Stop(identity, grantId, token, now))
    {
      stopped := identityId == identity && impersonationGrantId == Some(grantId) && revokedAt.None? &&
                 impersonationExpiresAt.Some? && impersonationExpiresAt.value > now;
      if stopped {
        ReplaceToken(token, now);
        ClearImpersonation();
      }
    }

    method ClearImpersonation()
      modifies this`impersonationGrantId, this`impersonatedIdentityId, this`impersonationReason,
               this`impersonationStartedAt, this`impersonationExpiresAt
      ensures View() == NoImpersonation(old(View()))
    {
      impersonationGrantId := None;
      impersonatedIdentityId := None;
      impersonationReason := None;
      impersonationStartedAt := None;
      impersonationExpiresAt := None;
    }

    /** A request that finds the impersonation over, or its target ineligible, clears it if it is still the same one. */
    method EndImpersonationOf(grantId: string, target: string) returns (ended: bool)
      modifies this
      ensures View() == Apply(old(View()), EndImpersonation(grantId, target))
      ensures ended == Applies(old(View()), EndImpersonation(grantId, target))
    {
      ended := impersonationGrantId == Some(grantId) && impersonatedIdentityId == Some(target) && revokedAt.None?;
      if ended {
        ClearImpersonation();
      }
    }

    method RefreshAuthentication(identity: string, now: int) returns (refreshed: bool)
      modifies this
      ensures View() == Apply(old(View()), Reauthenticate(identity, now))
      ensures refreshed == Applies(old(View()), Reauthenticate(identity, now))
    {
      refreshed := identityId == identity && revokedAt.None? && expiresAt > now && idleExpiresAt > now;
      if refreshed {
        authenticatedAt := now;
        lastSeenAt := now;
      }
    }

    method RevokeSession(now: int)
      modifies this
      ensures View() == Apply(old(View()), Revoke(now))
    {
      if revokedAt.None? {
        revokedAt := Some(now);
      }
    }
  }

  // ---------------------------------------------------------------- runs

  /** The row after a run of statements, in the order in which the database executed them. */
  function After(s: Session, steps: seq<Step>): Session {
    if |steps| == 0 then s else Apply(After(s, steps[..|steps| - 1]), steps[|steps| - 1])
  }

  function Minted(step: Step): set<Token> {
    match step
    case Rotate(_, replacement, _, _, _) => {replacement}
    case Start(_, _, _, _, token, _, _) => {token}
    case Stop(_, _, token, _) => {token}
    case _ => {}
  }

  function Slots(s: Session): set<Token> {
    {s.tokenDigest} + if s.previousTokenDigest.Some? then {s.previousTokenDigest.value} else {}
  }

  /** Every token that exists after a run: the row's first ones and those the statements were prepared with. */
  function Known(s: Session, steps: seq<Step>): set<Token> {
    if |steps| == 0 then Slots(s) else Known(s, steps[..|steps| - 1]) + Minted(steps[|steps| - 1])
  }

  /** A run whose statements carry random tokens: none of them existed before. */
  ghost predicate Random(s: Session, steps: seq<Step>) {
    |steps| > 0 ==> Random(s, steps[..|steps| - 1]) && Minted(steps[|steps| - 1]) !! Known(s, steps[..|steps| - 1])
  }

  ghost predicate Inserted(s: Session) {
    s.previousTokenDigest.None? && s.previousTokenExpiresAt.None? && s.revokedAt.None? && s == NoImpersonation(s)
  }

  lemma {:induction false} AfterAppend(s: Session, a: seq<Step>, b: seq<Step>)
    ensures After(s, a + b) == After(After(s, a), b)
  {
    if |b| == 0 {
      assert a + b == a;
    } else {
      assert (a + b)[..|a + b| - 1] == a + b[..|b| - 1];
      AfterAppend(s, a, b[..|b| - 1]);
    }
  }

  lemma {:induction false} RandomPrefix(s: Session, steps: seq<Step>, i: nat)
    requires Random(s, steps) && i <= |steps|
    ensures Random(s, steps[..i]) && Known(s, steps[..i]) <= Known(s, steps)
  {
    if i == |steps| {
      assert steps[..i] == steps;
    } else {
      assert steps[..|steps| - 1][..i] == steps[..i];
      RandomPrefix(s, steps[..|steps| - 1], i);
    }
  }

  lemma {:induction false} SlotsKnown(s: Session, steps: seq<Step>)
    ensures Slots(After(s, steps)) <= Known(s, steps)
  {
    if |steps| > 0 {
      SlotsKnown(s, steps[..|steps| - 1]);
    }
  }

  lemma StepOf(s: Session, steps: seq<Step>, i: nat)
    requires i < |steps|
    ensures steps[..i + 1][..i] == steps[..i]
    ensures After(s, steps[..i + 1]) == Apply(After(s, steps[..i]), steps[i])
  {
    assert steps[..i + 1][..i] == steps[..i];
  }

  /** A token that is out of both slots stays out of them for the rest of the run. */
  lemma {:induction false} RetiredStaysRetired(s: Session, steps: seq<Step>, i: nat, j: nat, token: Token)
    requires Random(s, steps) && i <= j <= |steps|
    requires token in Known(s, steps[..i]) && token !in Slots(After(s, steps[..i]))
    ensures token in Known(s, steps[..j]) && token !in Slots(After(s, steps[..j]))
  {
    if i < j {
      RetiredStaysRetired(s, steps, i, j - 1, token);
      RandomPrefix(s, steps, j);
      StepOf(s, steps, j - 1);
    }
  }

  /** A retired token, and any token of a revoked session, is never accepted again. */
  lemma NeverAcceptedAgain(s: Session, steps: seq<Step>, i: nat, j: nat, token: Token, now: int)
    requires Random(s, steps) && i <= j <= |steps| && token in Known(s, steps[..i])
    requires token !in Slots(After(s, steps[..i])) || After(s, steps[..i]).revokedAt.Some?
    ensures !Accepts(After(s, steps[..j]), token, now)
  {
    if token !in Slots(After(s, steps[..i])) {
      RetiredStaysRetired(s, steps, i, j, token);
    } else {
      RevokedStaysRevoked(s, steps, i, j);
    }
  }

  lemma {:induction false} RevokedStaysRevoked(s: Session, steps: seq<Step>, i: nat, j: nat)
    requires i <= j <= |steps| && After(s, steps[..i]).revokedAt.Some?
    ensures After(s, steps[..j]).revokedAt == After(s, steps[..i]).revokedAt
  {
    if i < j {
      RevokedStaysRevoked(s, steps, i, j - 1);
      StepOf(s, steps, j - 1);
    }
  }

  /** The token is not current, and any grace it has as predecessor is over. */
  ghost predicate GraceOver(s: Session, token: Token, now: int) {
    && s.tokenDigest != token
    && (s.previousTokenDigest == Some(token) && s.previousTokenExpiresAt.Some? ==> s.previousTokenExpiresAt.value <= now)
  }

  /** A predecessor whose grace is over is not accepted at any later time either. */
  lemma GraceIsNotExtended(s: Session, steps: seq<Step>, i: nat, j: nat, token: Token, now: int, later: int)
    requires Random(s, steps) && i <= j <= |steps| && token in Known(s, steps[..i])
    requires GraceOver(After(s, steps[..i]), token, now) && now <= later
    ensures !Accepts(After(s, steps[..j]), token, later)
  {
    GraceStaysOver(s, steps, i, j, token, now);
  }

  lemma {:induction false} GraceStaysOver(s: Session, steps: seq<Step>, i: nat, j: nat, token: Token, now: int)
    requires Random(s, steps) && i <= j <= |steps| && token in Known(s, steps[..i])
    requires GraceOver(After(s, steps[..i]), token, now)
    ensures token in Known(s, steps[..j]) && GraceOver(After(s, steps[..j]), token, now)
  {
    if i < j {
      GraceStaysOver(s, steps, i, j - 1, token, now);
      RandomPrefix(s, steps, j);
      StepOf(s, steps, j - 1);
    }
  }

  // ---------------------------------------------------------------- renewals

  ghost predicate Wins(s: Session, steps: seq<Step>, i: nat, token: Token)
    requires i < |steps|
  {
    steps[i].Rotate? && steps[i].expected == token && Applies(After(s, steps[..i]), steps[i])
  }

  /** However renewals of one token interleave with everything else, no two of them win. */
  lemma AtMostOneWinner(s: Session, steps: seq<Step>, i: nat, j: nat, token: Token)
    requires Random(s, steps) && i < |steps| && j < |steps|
    requires Wins(s, steps, i, token) && Wins(s, steps, j, token)
    ensures i == j
  {
    if i < j {
      SecondCannotWin(s, steps, i, j, token);
    } else if j < i {
      SecondCannotWin(s, steps, j, i, token);
    }
  }

  lemma SecondCannotWin(s: Session, steps: seq<Step>, i: nat, j: nat, token: Token)
    requires Random(s, steps) && i < j < |steps| && Wins(s, steps, i, token)
    ensures !Wins(s, steps, j, token)
  {
    RandomPrefix(s, steps, i + 1);
    StepOf(s, steps, i);
    SlotsKnown(s, steps[..i]);
    NotCurrentAgain(s, steps, i + 1, j, token);
  }

  lemma {:induction false} NotCurrentAgain(s: Session, steps: seq<Step>, i: nat, j: nat, token: Token)
    requires Random(s, steps) && i <= j <= |steps|
    requires token in Known(s, steps[..i]) && After(s, steps[..i]).tokenDigest != token
    ensures token in Known(s, steps[..j]) && After(s, steps[..j]).tokenDigest != token
  {
    if i < j {
      NotCurrentAgain(s, steps, i, j - 1, token);
      RandomPrefix(s, steps, j);
      StepOf(s, steps, j - 1);
    }
  }

  /** The step is neither a renewal of the token, nor an impersonation's start or stop, nor a revocation. */
  predicate LeavesToken(step: Step, token: Token) {
    !step.Start? && !step.Stop? && !step.Revoke? && (step.Rotate? ==> step.expected != token)
  }

  /** Concurrent renewals of the current token, among other requests of it: the first to execute wins, alone. */
  lemma ExactlyOneWinner(s: Session, steps: seq<Step>, first: nat)
    requires Random(s, steps) && s.revokedAt.None? && first < |steps|
    requires steps[first].Rotate? && steps[first].expected == s.tokenDigest
    requires forall k :: 0 <= k < first ==> LeavesToken(steps[k], s.tokenDigest)
    ensures forall i :: 0 <= i < |steps| ==> (Wins(s, steps, i, s.tokenDigest) <==> i == first)
  {
    TokenKept(s, steps, first);
    forall i | 0 <= i < |steps| ensures Wins(s, steps, i, s.tokenDigest) <==> i == first {
      if Wins(s, steps, i, s.tokenDigest) {
        AtMostOneWinner(s, steps, i, first, s.tokenDigest);
      }
    }
  }

  lemma {:induction false} TokenKept(s: Session, steps: seq<Step>, n: nat)
    requires n <= |steps|
    requires forall k :: 0 <= k < n ==> LeavesToken(steps[k], s.tokenDigest)
    ensures After(s, steps[..n]).tokenDigest == s.tokenDigest && After(s, steps[..n]).revokedAt == s.revokedAt
  {
    if n > 0 {
      TokenKept(s, steps, n - 1);
      StepOf(s, steps, n - 1);
    }
  }

  /** The previous token is the one that the latest rotation replaced by the current token, with that rotation's grace. */
  ghost predicate RotatedLast(s: Session, steps: seq<Step>, i: nat)
    requires i < |steps|
  {
    var row := After(s, steps);
    && steps[i].Rotate? && Wins(s, steps, i, steps[i].expected) && row.previousTokenDigest == Some(steps[i].expected)
    && row.tokenDigest == steps[i].replacement && row.previousTokenExpiresAt == Some(steps[i].now + steps[i].grace)
  }

  lemma {:induction false} PreviousIsPredecessor(s: Session, steps: seq<Step>)
    requires Inserted(s)
    ensures var row := After(s, steps);
            if row.previousTokenDigest.None? then row.previousTokenExpiresAt.None?
            else exists i :: 0 <= i < |steps| && RotatedLast(s, steps, i)
  {
    if |steps| > 0 {
      var n := |steps| - 1;
      var before, row := After(s, steps[..n]), After(s, steps);
      PreviousIsPredecessor(s, steps[..n]);
      if row.previousTokenDigest.Some? {
        if steps[n].Rotate? && Applies(before, steps[n]) {
          assert RotatedLast(s, steps, n);
        } else {
          var i :| 0 <= i < n && RotatedLast(s, steps[..n], i);
          assert steps[..n][..i] == steps[..i];
          assert RotatedLast(s, steps, i);
        }
      }
    }
  }

  /** Only the current token, or its immediate predecessor within the grace of the rotation between them, is accepted. */
  lemma AcceptedTokens(s: Session, steps: seq<Step>, token: Token, now: int)
    requires Inserted(s)
    ensures var row := After(s, steps);
            Accepts(row, token, now) <==>
            row.revokedAt.None? && row.expiresAt > now && row.idleExpiresAt > now &&
            (token == row.tokenDigest ||
             exists i :: 0 <= i < |steps| && RotatedLast(s, steps, i) && steps[i].expected == token &&
                         now < steps[i].now + steps[i].grace)
  {
    PreviousIsPredecessor(s, steps);
  }

  // ---------------------------------------------------------------- impersonation columns

  ghost predicate Whole(s: Session) {
    && (s.impersonationGrantId.Some? <==> s.impersonatedIdentityId.Some?)
    && (s.impersonationGrantId.Some? <==> s.impersonationReason.Some?)
    && (s.impersonationGrantId.Some? <==> s.impersonationStartedAt.Some?)
    && (s.impersonationGrantId.Some? <==> s.impersonationExpiresAt.Some?)
    && (s.impersonationExpiresAt.Some? ==> s.impersonationExpiresAt.value <= s.expiresAt)
  }

  /** In every run the five columns are all set or all null, and the impersonation ends no later than the session. */
  lemma {:induction false} ImpersonationIsWhole(s: Session, steps: seq<Step>)
    requires Whole(s)
    ensures Whole(After(s, steps)) && After(s, steps).expiresAt == s.expiresAt
    ensures After(s, steps).identityId == s.identityId
  {
    if |steps| > 0 {
      ImpersonationIsWhole(s, steps[..|steps| - 1]);
    }
  }

  /** Starting or stopping an impersonation retires every token the session had. */
  lemma ImpersonationReplacesTokens(s: Session, steps: seq<Step>, i: nat, j: nat, token: Token, now: int)
    requires Random(s, steps) && i < j <= |steps| && (steps[i].Start? || steps[i].Stop?)
    requires Applies(After(s, steps[..i]), steps[i]) && token in Known(s, steps[..i])
    ensures !Accepts(After(s, steps[..j]), token, now)
  {
    StepOf(s, steps, i);
    RandomPrefix(s, steps, i + 1);
    NeverAcceptedAgain(s, steps, i + 1, j, token, now);
  }

  // ---------------------------------------------------------------- where each column comes from

  /** The latest impersonation that started: its columns are the row's. */
  ghost predicate StartedBy(s: Session, steps: seq<Step>, i: nat)
    requires i < |steps|
  {
    var row, step := After(s, steps), steps[i];
    && step.Start? && Applies(After(s, steps[..i]), step)
    && row.impersonationGrantId == Some(step.grantId) && row.impersonatedIdentityId == Some(step.target)
    && row.impersonationReason == Some(step.reason) && row.impersonationStartedAt == Some(step.now)
    && row.impersonationExpiresAt == Some(if s.expiresAt < step.now + step.duration then s.expiresAt else step.now + step.duration)
    && step.identityId == s.identityId
  }

  /** What an impersonation in a row says is what its start said, and it ends with its duration or with the session. */
  lemma {:induction false} ImpersonationIsItsStart(s: Session, steps: seq<Step>)
    requires Inserted(s)
    ensures Whole(After(s, steps))
    ensures After(s, steps).impersonationGrantId.Some? ==> exists i :: 0 <= i < |steps| && StartedBy(s, steps, i)
  {
    ImpersonationIsWhole(s, steps);
    if |steps| > 0 {
      var n := |steps| - 1;
      ImpersonationIsWhole(s, steps[..n]);
      ImpersonationIsItsStart(s, steps[..n]);
      if After(s, steps).impersonationGrantId.Some? {
        if steps[n].Start? && Applies(After(s, steps[..n]), steps[n]) {
          assert StartedBy(s, steps, n);
        } else {
          var i :| 0 <= i < n && StartedBy(s, steps[..n], i);
          assert steps[..n][..i] == steps[..i];
          assert StartedBy(s, steps, i);
        }
      }
    }
  }

  /** An impersonation starts only on a live session of the identity, not more than 15 minutes after it was authenticated. */
  lemma StartsExactly(s: Session, step: Step)
    requires step.Start? && Whole(s)
    ensures var after := Apply(s, step);
            if step.identityId == s.identityId && s.revokedAt == None && s.impersonationGrantId == None &&
               step.now < s.expiresAt && step.now < s.idleExpiresAt && step.now < s.authenticatedAt + 900_000
            then after.impersonatedIdentityId == Some(step.target) && after.tokenDigest == step.token && after.previousTokenDigest == None
            else after == s
  {
  }

  /** Starting an impersonation and stopping it again leaves the session as it was, but for a new token and the time of use. */
  lemma StartThenStop(s: Session, start: Step, token: Token, later: int)
    requires start.Start? && Applies(s, start) && s == NoImpersonation(s)
    requires later < s.expiresAt && later < start.now + start.duration
    ensures Apply(Apply(s, start), Stop(s.identityId, start.grantId, token, later)) ==
            s.(tokenDigest := token, previousTokenDigest := None, previousTokenExpiresAt := None, lastSeenAt := later)
  {
  }

  /** Starting one and finding it over, or its target ineligible, leaves the session as it was but for the token. */
  lemma StartThenEnd(s: Session, start: Step)
    requires start.Start? && Applies(s, start) && s == NoImpersonation(s)
    ensures Apply(Apply(s, start), EndImpersonation(start.grantId, start.target)) ==
            s.(tokenDigest := start.token, previousTokenDigest := None, previousTokenExpiresAt := None, lastSeenAt := start.now)
  {
  }

  /** Statements for another identity, another grant, or a session that is revoked change nothing; the touch of a request does. */
  lemma OthersChangeNothing(s: Session, step: Step)
    requires || (s.revokedAt.Some? && !step.Touch?)
             || ((step.Start? || step.Stop? || step.Reauthenticate?) && step.identityId != s.identityId)
             || ((step.Stop? || step.EndImpersonation?) && s.impersonationGrantId != Some(step.grantId))
             || (step.EndImpersonation? && s.impersonatedIdentityId != Some(step.target))
             || (step.Stop? && s.impersonationExpiresAt.Some? && s.impersonationExpiresAt.value <= step.now)
             || (step.Reauthenticate? && (s.expiresAt <= step.now || s.idleExpiresAt <= step.now))
    ensures Apply(s, step) == s
  {
  }

  /** A request's touch, or the renewal it wins, which restarts the idle period. */
  predicate Uses(s: Session, step: Step) {
    step.Touch? || (step.Rotate? && step.expected == s.tokenDigest && s.revokedAt == None)
  }

  /** The idle period ends a full period after the latest use, or with the session if that is earlier. */
  lemma IdleFromLatestUse(s: Session, steps: seq<Step>, i: nat, j: nat)
    requires i < j <= |steps| && Uses(After(s, steps[..i]), steps[i])
    requires forall k :: i < k < j ==> !Uses(After(s, steps[..k]), steps[k])
    ensures var end := steps[i].now + steps[i].idle;
            After(s, steps[..j]).idleExpiresAt == if s.expiresAt < end then s.expiresAt else end
  {
    StepOf(s, steps, i);
    ExpiryIsFixed(s, steps[..i]);
    IdleUnused(s, steps, i + 1, j);
  }

  /** Without a use it stays as it was. */
  lemma {:induction false} IdleUnused(s: Session, steps: seq<Step>, i: nat, j: nat)
    requires i <= j <= |steps| && forall k :: i <= k < j ==> !Uses(After(s, steps[..k]), steps[k])
    ensures After(s, steps[..j]).idleExpiresAt == After(s, steps[..i]).idleExpiresAt
    decreases j
  {
    if i < j {
      IdleUnused(s, steps, i, j - 1);
      StepOf(s, steps, j - 1);
      UnusedStep(After(s, steps[..j - 1]), steps[j - 1]);
    }
  }

  lemma UnusedStep(s: Session, step: Step)
    requires !Uses(s, step)
    ensures Apply(s, step).idleExpiresAt == s.idleExpiresAt
  {
  }

  lemma {:induction false} ExpiryIsFixed(s: Session, steps: seq<Step>)
    ensures After(s, steps).expiresAt == s.expiresAt && After(s, steps).identityId == s.identityId
  {
    if |steps| > 0 {
      ExpiryIsFixed(s, steps[..|steps| - 1]);
    }
  }

  /** A reauthentication by the session's identity while the session is live. */
  predicate Reauthenticates(s: Session, step: Step) {
    step.Reauthenticate? && step.identityId == s.identityId && s.revokedAt == None && step.now < s.expiresAt && step.now < s.idleExpiresAt
  }

  /** The time of authentication is that of the latest reauthentication. */
  lemma AuthenticatedByLatest(s: Session, steps: seq<Step>, i: nat, j: nat)
    requires i < j <= |steps| && Reauthenticates(After(s, steps[..i]), steps[i])
    requires forall k :: i < k < j ==> !Reauthenticates(After(s, steps[..k]), steps[k])
    ensures After(s, steps[..j]).authenticatedAt == steps[i].now
  {
    StepOf(s, steps, i);
    AuthenticationStays(s, steps, i + 1, j);
  }

  /** Without one it stays as it was. */
  lemma {:induction false} AuthenticationStays(s: Session, steps: seq<Step>, i: nat, j: nat)
    requires i <= j <= |steps| && forall k :: i <= k < j ==> !Reauthenticates(After(s, steps[..k]), steps[k])
    ensures After(s, steps[..j]).authenticatedAt == After(s, steps[..i]).authenticatedAt
    decreases j
  {
    if i < j {
      AuthenticationStays(s, steps, i, j - 1);
      StepOf(s, steps, j - 1);
    }
  }

  /** A statement by which the session's user is seen: all that apply but the end of an impersonation and a revocation. */
  predicate Sees(s: Session, step: Step) {
    Uses(s, step) || Reauthenticates(s, step) || ((step.Start? || step.Stop?) && Applies(s, step))
  }

  /** The session was last seen at its latest such statement. */
  lemma SeenByLatest(s: Session, steps: seq<Step>, i: nat, j: nat)
    requires i < j <= |steps| && Sees(After(s, steps[..i]), steps[i])
    requires forall k :: i < k < j ==> !Sees(After(s, steps[..k]), steps[k])
    ensures After(s, steps[..j]).lastSeenAt == steps[i].now
  {
    StepOf(s, steps, i);
    Unseen(s, steps, i + 1, j);
  }

  lemma {:induction false} Unseen(s: Session, steps: seq<Step>, i: nat, j: nat)
    requires i <= j <= |steps| && forall k :: i <= k < j ==> !Sees(After(s, steps[..k]), steps[k])
    ensures After(s, steps[..j]).lastSeenAt == After(s, steps[..i]).lastSeenAt
    decreases j
  {
    if i < j {
      Unseen(s, steps, i, j - 1);
      StepOf(s, steps, j - 1);
      UnseenStep(After(s, steps[..j - 1]), steps[j - 1]);
    }
  }

  lemma UnseenStep(s: Session, step: Step)
    requires !Sees(s, step)
    ensures Apply(s, step).lastSeenAt == s.lastSeenAt
  {
  }

  /** The first revocation of a session is the one it has for ever. */
  lemma RevokedByFirst(s: Session, steps: seq<Step>, i: nat, j: nat)
    requires i < j <= |steps| && steps[i].Revoke? && After(s, steps[..i]).revokedAt == None
    ensures After(s, steps[..j]).revokedAt == Some(steps[i].now)
  {
    StepOf(s, steps, i);
    RevokedStaysRevoked(s, steps, i + 1, j);
  }
}
