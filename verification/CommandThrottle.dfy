/** The realtime command throttle: one sliding-window rule, implemented three times. */
module CommandThrottle {
  import opened Maps

  datatype Throttle = Throttle(limit: nat, windowMs: nat)
  {
    predicate Positive() {
      limit > 0 && windowMs > 0
    }
  }

  datatype Decision = Allowed | Denied(retryAfterMs: int)

  /** One request: its bucket is the actor and the command; `now` is the clock reading it is decided at. */
  datatype Request = Request(key: string, throttle: Throttle, now: int)

  function Max(a: int, b: int): int {
    if a < b then b else a
  }

  // ---------------------------------------------------------------- the rule, over every admission ever made

  /** The attempts later than the cutoff, in order. */
  function After(attempts: seq<int>, cutoff: int): (live: seq<int>)
    ensures |live| <= |attempts|
  {
    if |attempts| == 0 then []
    else (if attempts[0] > cutoff then [attempts[0]] else []) + After(attempts[1..], cutoff)
  }

  function Decide(history: seq<int>, now: int, t: Throttle): Decision
    requires t.Positive()
  {
    DecideLive(After(history, now - t.windowMs), now, t)
  }

  function Next(history: seq<int>, now: int, d: Decision): seq<int> {
    if d == Allowed then history + [now] else history
  }

  ghost predicate Ordered(history: seq<int>, clock: int) {
    && (forall i, j :: 0 <= i < j < |history| ==> history[i] <= history[j])
    && forall i :: 0 <= i < |history| ==> history[i] <= clock
  }

  /** Any `limit + 1` admissions in a row span at least a window. */
  ghost predicate Spaced(history: seq<int>, t: Throttle) {
    forall i, j :: 0 <= i && i + t.limit <= j < |history| ==> history[i] + t.windowMs <= history[j]
  }

  lemma {:induction false} AfterAfter(attempts: seq<int>, c: int, d: int)
    requires c <= d
    ensures After(After(attempts, c), d) == After(attempts, d)
  {
    if |attempts| > 0 {
      AfterAfter(attempts[1..], c, d);
      AfterAppend(if attempts[0] > c then [attempts[0]] else [], After(attempts[1..], c), d);
    }
  }

  lemma {:induction false} AfterAppend(a: seq<int>, b: seq<int>, c: int)
    ensures After(a + b, c) == After(a, c) + After(b, c)
  {
    if |a| == 0 {
      assert a + b == b;
    } else {
      assert (a + b)[1..] == a[1..] + b;
      AfterAppend(a[1..], b, c);
    }
  }

  /** The live part of an ordered history is its end. */
  lemma {:induction false} AfterIsSuffix(history: seq<int>, clock: int, c: int)
    requires Ordered(history, clock)
    ensures After(history, c) == history[|history| - |After(history, c)|..]
  {
    if |history| > 0 {
      AfterIsSuffix(history[1..], clock, c);
      if history[0] > c {
        AfterAll(history, c);
      }
    }
  }

  lemma {:induction false} AfterAll(history: seq<int>, c: int)
    requires forall i :: 0 <= i < |history| ==> history[i] > c
    ensures After(history, c) == history
  {
    if |history| > 0 {
      AfterAll(history[1..], c);
    }
  }

  lemma {:induction false} AfterNone(history: seq<int>, c: int)
    requires forall i :: 0 <= i < |history| ==> history[i] <= c
    ensures After(history, c) == []
  {
    if |history| > 0 {
      AfterNone(history[1..], c);
    }
  }

  /** With fewer than `limit` live admissions, the `limit`-th from the end has left the window. */
  lemma OldestHasLeft(history: seq<int>, clock: int, c: int, limit: nat)
    requires Ordered(history, clock) && |After(history, c)| < limit <= |history|
    ensures history[|history| - limit] <= c
  {
    var n := |history| - limit;
    if history[n] > c {
      LateStay(history, clock, c, n);
    }
  }

  lemma LateStay(history: seq<int>, clock: int, c: int, n: nat)
    requires Ordered(history, clock) && n < |history| && history[n] > c
    ensures |After(history, c)| >= |history| - n
  {
    assert history == history[..n] + history[n..];
    AfterAppend(history[..n], history[n..], c);
    AfterAll(history[n..], c);
  }

  /** Every decision keeps the admissions ordered and spaced. */
  lemma DecideKeepsSpaced(history: seq<int>, clock: int, now: int, t: Throttle)
    requires t.Positive() && Ordered(history, clock) && clock <= now && Spaced(history, t)
    ensures var next := Next(history, now, Decide(history, now, t)); Ordered(next, now) && Spaced(next, t)
  {
    if Decide(history, now, t) == Allowed {
      AllowedFindsRoom(history, clock, now, t);
      AllowedKeepsSpaced(history, clock, now, t);
    } else {
      LaterOrdered(history, clock, now);
    }
  }

  lemma AllowedFindsRoom(history: seq<int>, clock: int, now: int, t: Throttle)
    requires t.Positive() && Ordered(history, clock) && clock <= now && Decide(history, now, t) == Allowed
    ensures |history| >= t.limit ==> history[|history| - t.limit] <= now - t.windowMs
  {
    if |history| >= t.limit {
      OldestHasLeft(history, clock, now - t.windowMs, t.limit);
    }
  }

  lemma LaterOrdered(history: seq<int>, clock: int, now: int)
    requires Ordered(history, clock) && clock <= now
    ensures Ordered(history, now)
  {
  }

  lemma AllowedKeepsSpaced(history: seq<int>, clock: int, now: int, t: Throttle)
    requires t.Positive() && Ordered(history, clock) && clock <= now && Spaced(history, t)
    requires |history| >= t.limit ==> history[|history| - t.limit] <= now - t.windowMs
    ensures Ordered(history + [now], now) && Spaced(history + [now], t)
  {
  }

  lemma {:induction false} AfterIsLater(history: seq<int>, c: int)
    ensures forall i :: 0 <= i < |After(history, c)| ==> After(history, c)[i] > c
  {
    if |history| > 0 {
      AfterIsLater(history[1..], c);
    }
  }

  /** A denied request finds exactly `limit` live admissions. */
  lemma DeniedIsFull(history: seq<int>, clock: int, now: int, t: Throttle)
    requires t.Positive() && Ordered(history, clock) && clock <= now && Spaced(history, t)
    requires Decide(history, now, t).Denied?
    ensures |After(history, now - t.windowMs)| == t.limit
  {
    var live := After(history, now - t.windowMs);
    AfterIsSuffix(history, clock, now - t.windowMs);
    AfterIsLater(history, now - t.windowMs);
    if |live| > t.limit {
      Crowded(history, clock, now, t, |history| - |live|);
    }
  }

  /** More than `limit` admissions in less than a window are not spaced. */
  lemma Crowded(history: seq<int>, clock: int, now: int, t: Throttle, i: nat)
    requires Ordered(history, clock) && clock <= now && i + t.limit < |history| && history[i] > now - t.windowMs
    ensures !Spaced(history, t)
  {
    assert history[i] + t.windowMs > history[i + t.limit];
  }

  /** A full window has room again exactly when its oldest admission has left it. */
  lemma FullUntilOldestLeaves(live: seq<int>, cutoff: int)
    requires |live| > 0 && forall i :: 0 <= i < |live| ==> live[0] <= live[i]
    ensures |After(live, cutoff)| < |live| <==> live[0] <= cutoff
  {
    if live[0] > cutoff {
      AfterAll(live, cutoff);
    }
  }

  /**
   * The delay of a denial is exact: as long as nothing else is admitted, the same request is denied before it is over,
   * and allowed from then on.
   */
  lemma DelayIsExact(history: seq<int>, clock: int, now: int, t: Throttle, later: int)
    requires t.Positive() && Ordered(history, clock) && clock <= now <= later && Spaced(history, t)
    requires Decide(history, now, t).Denied?
    ensures Decide(history, now, t).retryAfterMs > 0
    ensures Decide(history, later, t) == Allowed <==> later >= now + Decide(history, now, t).retryAfterMs
  {
    var live := After(history, now - t.windowMs);
    DeniedIsFull(history, clock, now, t);
    OldestIsFirst(history, clock, now - t.windowMs);
    AfterAfter(history, now - t.windowMs, later - t.windowMs);
    FullUntilOldestLeaves(live, later - t.windowMs);
  }

  lemma OldestIsFirst(history: seq<int>, clock: int, cutoff: int)
    requires Ordered(history, clock)
    ensures var live := After(history, cutoff); forall i :: 0 <= i < |live| ==> live[0] <= live[i] && live[i] > cutoff
  {
    AfterIsLater(history, cutoff);
    AfterIsSuffix(history, clock, cutoff);
  }

  /** The positions of the admissions in the half-open interval of one window from `start`. */
  function Within(history: seq<int>, start: int, t: Throttle): set<nat> {
    set i: nat | i < |history| && start <= history[i] < start + t.windowMs
  }

  /** At most `limit` requests are admitted in any interval of one window. */
  lemma AtMostLimitPerWindow(history: seq<int>, clock: int, start: int, t: Throttle)
    requires t.Positive() && Ordered(history, clock) && Spaced(history, t)
    ensures |Within(history, start, t)| <= t.limit
  {
    var within := Within(history, start, t);
    if within != {} {
      var first := Least(within);
      assert forall i :: i in within ==> i < first + t.limit;
      SizeInRange(within, first, t.limit);
    }
  }

  lemma {:induction false} Least(s: set<nat>) returns (m: nat)
    requires s != {}
    ensures m in s && forall i :: i in s ==> m <= i
    decreases |s|
  {
    var any :| any in s;
    m := any;
    if s - {any} != {} {
      var n := Least(s - {any});
      m := if n < any then n else any;
    }
    assert forall i :: i in s ==> i == any || i in s - {any};
  }

  lemma {:induction false} SizeInRange(s: set<nat>, lo: nat, count: nat)
    requires forall i :: i in s ==> lo <= i < lo + count
    ensures |s| <= count
  {
    if count == 0 {
      assert s == {};
    } else {
      SizeInRange(s - {lo + count - 1}, lo, count - 1);
    }
  }

  // ---------------------------------------------------------------- one process, with a bounded table

  datatype Bucket = Bucket(attempts: seq<int>, expiresAt: int)

  function HistoryOf(history: map<string, seq<int>>, key: string): seq<int> {
    if key in history then history[key] else []
  }

  /** The bucket holds every admission that is still live, and does not expire before the last of them. */
  ghost predicate Holds(bucket: Bucket, history: seq<int>, clock: int, t: Throttle) {
    && After(bucket.attempts, clock - t.windowMs) == After(history, clock - t.windowMs)
    && forall i :: 0 <= i < |bucket.attempts| ==> bucket.attempts[i] + t.windowMs <= bucket.expiresAt
  }

  /** No bucket is needed while no admission is live. */
  ghost predicate Kept(buckets: map<string, Bucket>, key: string, history: seq<int>, clock: int, t: Throttle) {
    if key in buckets then Holds(buckets[key], history, clock, t) else After(history, clock - t.windowMs) == []
  }

  lemma HoldsLater(bucket: Bucket, history: seq<int>, clock: int, now: int, t: Throttle)
    requires Holds(bucket, history, clock, t) && clock <= now
    ensures Holds(bucket, history, now, t)
  {
    SameLater(bucket.attempts, history, clock - t.windowMs, now - t.windowMs);
  }

  lemma SameLater(a: seq<int>, b: seq<int>, c: int, d: int)
    requires c <= d && After(a, c) == After(b, c)
    ensures After(a, d) == After(b, d)
  {
    AfterAfter(a, c, d);
    AfterAfter(b, c, d);
  }

  /** Dropping a bucket that has expired discards no live admission. */
  lemma ExpiredHoldsNothing(bucket: Bucket, history: seq<int>, now: int, t: Throttle)
    requires Holds(bucket, history, now, t) && bucket.expiresAt <= now
    ensures After(history, now - t.windowMs) == []
  {
    AfterNone(bucket.attempts, now - t.windowMs);
  }

  lemma KeptLater(buckets: map<string, Bucket>, key: string, history: seq<int>, clock: int, now: int, t: Throttle)
    requires Kept(buckets, key, history, clock, t) && clock <= now
    ensures Kept(buckets, key, history, now, t)
    ensures key in buckets && buckets[key].expiresAt <= now ==> After(history, now - t.windowMs) == []
  {
    if key in buckets {
      HoldsLater(buckets[key], history, clock, now, t);
      if buckets[key].expiresAt <= now {
        ExpiredHoldsNothing(buckets[key], history, now, t);
      }
    } else {
      AfterAfter(history, clock - t.windowMs, now - t.windowMs);
    }
  }

  /** The throttle each bucket's command declares. */
  type Throttles = map<string, Throttle>

  ghost predicate Declares(throttles: Throttles, r: Request) {
    r.throttle.Positive() && (r.key in throttles ==> throttles[r.key] == r.throttle)
  }

  ghost predicate KeyOk(buckets: map<string, Bucket>, history: seq<int>, clock: int, t: Throttle, key: string) {
    t.Positive() && Ordered(history, clock) && Spaced(history, t) && Kept(buckets, key, history, clock, t)
  }

  ghost predicate TableOk(buckets: map<string, Bucket>, history: map<string, seq<int>>, clock: int, throttles: Throttles) {
    && buckets.Keys <= throttles.Keys && history.Keys <= throttles.Keys
    && forall key {:trigger KeyOk(buckets, HistoryOf(history, key), clock, throttles[key], key)} ::
         key in throttles ==> KeyOk(buckets, HistoryOf(history, key), clock, throttles[key], key)
  }

  /** In every state of a table, full or not, no interval of one window has admitted more than the limit. */
  lemma TableIsSafe(buckets: map<string, Bucket>, history: map<string, seq<int>>, clock: int, throttles: Throttles, key: string, from: int)
    requires TableOk(buckets, history, clock, throttles) && key in throttles
    ensures |Within(HistoryOf(history, key), from, throttles[key])| <= throttles[key].limit
  {
    assert KeyOk(buckets, HistoryOf(history, key), clock, throttles[key], key);
    AtMostLimitPerWindow(HistoryOf(history, key), clock, from, throttles[key]);
  }

  /** Whatever a pruning drops, it keeps the table if all it drops has expired. */
  lemma PruningKeeps(buckets: map<string, Bucket>, pruned: map<string, Bucket>, history: map<string, seq<int>>,
                     clock: int, now: int, throttles: Throttles)
    requires TableOk(buckets, history, clock, throttles) && clock <= now
    requires pruned.Keys <= buckets.Keys && forall k :: k in pruned ==> pruned[k] == buckets[k]
    requires forall k :: k in buckets && k !in pruned ==> buckets[k].expiresAt <= now
    ensures TableOk(pruned, history, now, throttles)
  {
    forall key | key in throttles ensures KeyOk(pruned, HistoryOf(history, key), now, throttles[key], key) {
      assert KeyOk(buckets, HistoryOf(history, key), clock, throttles[key], key);
      KeptLater(buckets, key, HistoryOf(history, key), clock, now, throttles[key]);
    }
  }

  /** The bucket written by one decision, given the live attempts of the old one. */
  function Written(live: seq<int>, now: int, t: Throttle): Bucket
    requires t.Positive()
  {
    if |live| >= t.limit then Bucket(live, live[|live| - 1] + t.windowMs) else Bucket(live + [now], now + t.windowMs)
  }

  function LiveAttempts(buckets: map<string, Bucket>, key: string, cutoff: int): seq<int> {
    After(if key in buckets then buckets[key].attempts else [], cutoff)
  }

  /** Deciding on the bucket is deciding on the whole history. */
  lemma BucketDecides(buckets: map<string, Bucket>, h: seq<int>, now: int, t: Throttle, key: string)
    requires Kept(buckets, key, h, now, t)
    ensures LiveAttempts(buckets, key, now - t.windowMs) == After(h, now - t.windowMs)
  {
  }

  /** The bucket holds what the decision leaves live, and lasts at least as long as that. */
  ghost predicate Records(written: Bucket, live: seq<int>, now: int, t: Throttle) {
    && t.Positive()
    && written.attempts == Written(live, now, t).attempts && written.expiresAt >= Written(live, now, t).expiresAt
  }

  lemma WrittenOk(buckets: map<string, Bucket>, h: seq<int>, now: int, t: Throttle, key: string, written: Bucket)
    requires KeyOk(buckets, h, now, t, key)
    requires Records(written, LiveAttempts(buckets, key, now - t.windowMs), now, t)
    ensures KeyOk(buckets[key := written], Next(h, now, Decide(h, now, t)), now, t, key)
  {
    BucketDecides(buckets, h, now, t, key);
    RecordHolds(h, now, t, written);
    DecideKeepsSpaced(h, now, now, t);
  }

  lemma RecordHolds(h: seq<int>, now: int, t: Throttle, written: Bucket)
    requires Ordered(h, now) && Records(written, After(h, now - t.windowMs), now, t)
    ensures Holds(written, Next(h, now, Decide(h, now, t)), now, t)
  {
    LiveOrdered(h, now, now - t.windowMs);
    WrittenHolds(h, now, t);
  }

  /** Writing the decided bucket keeps the whole table. */
  lemma DecisionKeeps(buckets: map<string, Bucket>, history: map<string, seq<int>>, now: int, throttles: Throttles, key: string,
                      written: Bucket)
    requires TableOk(buckets, history, now, throttles) && key in throttles
    requires Records(written, LiveAttempts(buckets, key, now - throttles[key].windowMs), now, throttles[key])
    ensures var t, h := throttles[key], HistoryOf(history, key);
            TableOk(buckets[key := written], history[key := Next(h, now, Decide(h, now, t))], now, throttles)
  {
    var t, h := throttles[key], HistoryOf(history, key);
    assert KeyOk(buckets, h, now, t, key);
    var next := Next(h, now, Decide(h, now, t));
    forall k | k in throttles
      ensures KeyOk(buckets[key := written], HistoryOf(history[key := next], k), now, throttles[k], k)
    {
      if k == key {
        WrittenOk(buckets, h, now, t, key, written);
      } else {
        OtherKeyOk(buckets, HistoryOf(history, k), now, throttles[k], k, key, written);
      }
    }
  }

  lemma OtherKeyOk(buckets: map<string, Bucket>, h: seq<int>, now: int, t: Throttle, k: string, key: string, written: Bucket)
    requires KeyOk(buckets, h, now, t, k) && k != key
    ensures KeyOk(buckets[key := written], h, now, t, k)
  {
  }

  lemma LiveOrdered(h: seq<int>, now: int, c: int)
    requires Ordered(h, now)
    ensures Ordered(After(h, c), now)
  {
    AfterIsSuffix(h, now, c);
  }

  lemma WrittenExpires(live: seq<int>, now: int, t: Throttle)
    requires t.Positive() && Ordered(live, now)
    ensures var b := Written(live, now, t);
            forall i :: 0 <= i < |b.attempts| ==> b.attempts[i] + t.windowMs <= b.expiresAt
  {
  }

  lemma LiveAgain(h: seq<int>, now: int, c: int)
    ensures After(After(h, c), c) == After(h, c)
    ensures After(After(h, c) + [now], c) == After(h + [now], c)
  {
    AfterAfter(h, c, c);
    AfterAppend(After(h, c), [now], c);
    AfterAppend(h, [now], c);
  }

  lemma WrittenHolds(h: seq<int>, now: int, t: Throttle)
    requires t.Positive()
    requires Ordered(After(h, now - t.windowMs), now)
    ensures Holds(Written(After(h, now - t.windowMs), now, t), Next(h, now, Decide(h, now, t)), now, t)
  {
    WrittenExpires(After(h, now - t.windowMs), now, t);
    LiveAgain(h, now, now - t.windowMs);
  }

  /** Pruning expired buckets and then deciding: the decision is the rule's, and the table stays right. */
  lemma ConsumeKeeps(buckets: map<string, Bucket>, table: map<string, Bucket>, history: map<string, seq<int>>,
                     clock: int, now: int, throttles: Throttles, key: string, written: Bucket)
    requires TableOk(buckets, history, clock, throttles) && clock <= now && key in throttles
    requires table.Keys <= buckets.Keys && forall k :: k in table ==> table[k] == buckets[k]
    requires forall k :: k in buckets && k !in table ==> buckets[k].expiresAt <= now
    requires Records(written, LiveAttempts(table, key, now - throttles[key].windowMs), now, throttles[key])
    ensures TableOk(table, history, now, throttles)
    ensures var t, h := throttles[key], HistoryOf(history, key);
            var live := LiveAttempts(table, key, now - t.windowMs);
            && TableOk(table[key := written], history[key := Next(h, now, Decide(h, now, t))], now, throttles)
            && Decide(h, now, t) == DecideLive(live, now, t)
  {
    PruningKeeps(buckets, table, history, clock, now, throttles);
    TableDecides(table, history, now, throttles, key);
    DecisionKeeps(table, history, now, throttles, key, written);
  }

  lemma TableDecides(table: map<string, Bucket>, history: map<string, seq<int>>, now: int, throttles: Throttles, key: string)
    requires TableOk(table, history, now, throttles) && key in throttles
    ensures throttles[key].Positive()
    ensures Decide(HistoryOf(history, key), now, throttles[key]) ==
            DecideLive(LiveAttempts(table, key, now - throttles[key].windowMs), now, throttles[key])
  {
    assert KeyOk(table, HistoryOf(history, key), now, throttles[key], key);
    BucketDecides(table, HistoryOf(history, key), now, throttles[key], key);
  }

  /** The decision as each implementation takes it, from the live attempts of its own bucket. */
  function DecideLive(live: seq<int>, now: int, t: Throttle): Decision
    requires t.Positive()
  {
    if |live| >= t.limit then Denied(Max(1, live[0] + t.windowMs - now)) else Allowed
  }

  /** A bucket that is asked for the first time has no admissions. */
  lemma FirstRequest(buckets: map<string, Bucket>, history: map<string, seq<int>>, clock: int, throttles: Throttles, r: Request)
    requires TableOk(buckets, history, clock, throttles) && Declares(throttles, r)
    ensures TableOk(buckets, history, clock, throttles[r.key := r.throttle])
  {
    var declared := throttles[r.key := r.throttle];
    forall key | key in declared ensures KeyOk(buckets, HistoryOf(history, key), clock, declared[key], key) {
      if key in throttles {
        assert KeyOk(buckets, HistoryOf(history, key), clock, throttles[key], key);
      }
    }
  }

  // ---------------------------------------------------------------- the bounded table of one process

  /** The keys with an admission that is still live. */
  function LiveKeys(history: map<string, seq<int>>, throttles: Throttles, now: int): set<string> {
    set k | k in throttles && After(HistoryOf(history, k), now - throttles[k].windowMs) != []
  }

  /** The request has no live admission, and as many other keys as the table can hold have one. */
  predicate NoRoom(history: map<string, seq<int>>, throttles: Throttles, r: Request, maxBuckets: nat) {
    r.key !in LiveKeys(history, throttles, r.now) && |LiveKeys(history, throttles, r.now)| >= maxBuckets
  }

  /** The bucket ends with the last admission and expires a window after it. */
  ghost predicate Tight(bucket: Bucket, h: seq<int>, t: Throttle) {
    |h| > 0 && h[|h| - 1] >= 0 && bucket.expiresAt == h[|h| - 1] + t.windowMs
  }

  ghost predicate TightTable(buckets: map<string, Bucket>, history: map<string, seq<int>>, throttles: Throttles) {
    forall k {:trigger buckets[k]} :: k in buckets ==> k in throttles && Tight(buckets[k], HistoryOf(history, k), throttles[k])
  }

  lemma TightIsLive(buckets: map<string, Bucket>, history: map<string, seq<int>>, throttles: Throttles, clock: int, now: int, k: string)
    requires TableOk(buckets, history, clock, throttles) && TightTable(buckets, history, throttles) && clock <= now && k in throttles
    ensures k in Unexpired(buckets, now) <==> After(HistoryOf(history, k), now - throttles[k].windowMs) != []
  {
    var h, t := HistoryOf(history, k), throttles[k];
    assert KeyOk(buckets, h, clock, t, k);
    KeptLater(buckets, k, h, clock, now, t);
    if k in buckets && buckets[k].expiresAt > now {
      LastIsLive(h, now - t.windowMs);
    }
  }

  lemma {:induction false} LastIsLive(h: seq<int>, c: int)
    requires |h| > 0 && h[|h| - 1] > c
    ensures After(h, c) != []
  {
    if |h| > 1 {
      LastIsLive(h[1..], c);
    }
  }

  /** A request finds the table full exactly if there is no room for its key among the live ones. */
  lemma FullIsNoRoom(buckets: map<string, Bucket>, history: map<string, seq<int>>, throttles: Throttles, clock: int, r: Request, maxBuckets: nat)
    requires TableOk(buckets, history, clock, throttles) && TightTable(buckets, history, throttles) && clock <= r.now
    ensures Full(buckets, r, maxBuckets) <==> NoRoom(history, throttles, r, maxBuckets)
  {
    var live, unexpired := LiveKeys(history, throttles, r.now), Unexpired(buckets, r.now);
    forall k ensures k in unexpired <==> k in live {
      if k in throttles {
        TightIsLive(buckets, history, throttles, clock, r.now, k);
      }
    }
    assert unexpired.Keys == live && |unexpired| == |unexpired.Keys|;
    assert r.key in buckets ==> Tight(buckets[r.key], HistoryOf(history, r.key), throttles[r.key]) && throttles[r.key].Positive() by {
      if r.key in buckets {
        assert KeyOk(buckets, HistoryOf(history, r.key), clock, throttles[r.key], r.key);
      }
    }
  }

  lemma WrittenTight(h: seq<int>, live: seq<int>, now: int, t: Throttle)
    requires t.Positive() && now >= 0 && Ordered(h, now) && live == After(h, now - t.windowMs)
    requires live != [] ==> |h| > 0 && h[|h| - 1] >= 0
    ensures Tight(Written(live, now, t), Next(h, now, DecideLive(live, now, t)), t)
  {
    LastOfAfter(h, now, now - t.windowMs);
    LastWritten(h, live, now, t);
  }

  lemma LastWritten(h: seq<int>, live: seq<int>, now: int, t: Throttle)
    requires t.Positive() && now >= 0 && (live != [] ==> |h| > 0 && h[|h| - 1] >= 0 && live[|live| - 1] == h[|h| - 1])
    ensures Tight(Written(live, now, t), Next(h, now, DecideLive(live, now, t)), t)
  {
  }

  lemma LastOfAfter(h: seq<int>, clock: int, c: int)
    requires Ordered(h, clock)
    ensures var live := After(h, c);
            |live| > 0 ==> |h| > 0 && live[|live| - 1] == h[|h| - 1]
  {
    AfterIsSuffix(h, clock, c);
  }

  lemma TightKey(table: map<string, Bucket>, h: seq<int>, now: int, t: Throttle, key: string, live: seq<int>)
    requires KeyOk(table, h, now, t, key) && (key in table ==> Tight(table[key], h, t)) && now >= 0
    requires live == LiveAttempts(table, key, now - t.windowMs)
    ensures Tight(Written(live, now, t), Next(h, now, DecideLive(live, now, t)), t)
  {
    BucketDecides(table, h, now, t, key);
    WrittenTight(h, live, now, t);
  }

  lemma TightAgain(table: map<string, Bucket>, history: map<string, seq<int>>, throttles: Throttles, now: int, key: string, live: seq<int>)
    requires TableOk(table, history, now, throttles) && TightTable(table, history, throttles) && key in throttles && now >= 0
    requires live == LiveAttempts(table, key, now - throttles[key].windowMs)
    ensures var t, h := throttles[key], HistoryOf(history, key);
            t.Positive() && Tight(Written(live, now, t), Next(h, now, DecideLive(live, now, t)), t)
  {
    assert KeyOk(table, HistoryOf(history, key), now, throttles[key], key);
    TightKey(table, HistoryOf(history, key), now, throttles[key], key, live);
  }

  lemma TightUpdate(table: map<string, Bucket>, history: map<string, seq<int>>, throttles: Throttles, key: string, written: Bucket, next: seq<int>)
    requires TightTable(table, history, throttles) && key in throttles && Tight(written, next, throttles[key])
    ensures TightTable(table[key := written], history[key := next], throttles)
  {
    forall k | k in table[key := written] ensures Tight(table[key := written][k], HistoryOf(history[key := next], k), throttles[k]) {
      if k != key {
        assert table[k] == table[key := written][k];
      }
    }
  }

  /** What a request leaves behind, with and without room for it. */
  lemma InProcessStep(buckets: map<string, Bucket>, table: map<string, Bucket>, history: map<string, seq<int>>, throttles: Throttles,
                      clock: int, r: Request)
    requires TableOk(buckets, history, clock, throttles) && TightTable(buckets, history, throttles)
    requires 0 <= clock <= r.now && Declares(throttles, r)
    requires table.Keys <= buckets.Keys && forall k :: k in table ==> table[k] == buckets[k]
    requires forall k :: k in buckets && k !in table ==> buckets[k].expiresAt <= r.now
    ensures var declared, t, h := throttles[r.key := r.throttle], r.throttle, HistoryOf(history, r.key);
            var live := LiveAttempts(table, r.key, r.now - t.windowMs);
            var next := history[r.key := Next(h, r.now, DecideLive(live, r.now, t))];
            && TableOk(table, history, r.now, declared) && TightTable(table, history, declared)
            && TableOk(table[r.key := Written(live, r.now, t)], next, r.now, declared)
            && TightTable(table[r.key := Written(live, r.now, t)], next, declared)
            && Decide(h, r.now, t) == DecideLive(live, r.now, t)
  {
    var t, h, declared := r.throttle, HistoryOf(history, r.key), throttles[r.key := r.throttle];
    var live := LiveAttempts(table, r.key, r.now - t.windowMs);
    FirstRequest(buckets, history, clock, throttles, r);
    ConsumeKeeps(buckets, table, history, clock, r.now, declared, r.key, Written(live, r.now, t));
    StillTight(buckets, table, history, throttles, r);
    TightAgain(table, history, declared, r.now, r.key, live);
    TightUpdate(table, history, declared, r.key, Written(live, r.now, t), Next(h, r.now, DecideLive(live, r.now, t)));
  }

  /** The table belongs to the admissions made so far. */
  ghost predicate InProcessOk(buckets: map<string, Bucket>, history: map<string, seq<int>>, throttles: Throttles, clock: int, maxBuckets: nat) {
    TableOk(buckets, history, clock, throttles) && TightTable(buckets, history, throttles) && clock >= 0 && |buckets| <= maxBuckets
  }

  class InProcessThrottle {
    const maxBuckets: nat
    var buckets: map<string, Bucket>
    /** Every admission ever made, the throttles seen, and the last clock reading. */
    ghost var history: map<string, seq<int>>
    ghost var throttles: Throttles
    ghost var clock: nat

    ghost predicate Valid()
      reads this
    {
      InProcessOk(buckets, history, throttles, clock, maxBuckets)
    }

    constructor (maxBuckets: nat, ghost start: nat)
      ensures Valid() && history == map[] && throttles == map[] && clock == start && buckets == map[]
      ensures this.maxBuckets == maxBuckets
    {
      this.maxBuckets := maxBuckets;
      buckets, history, throttles, clock := map[], map[], map[], start;
    }

    method Consume(r: Request) returns (decision: Decision)
      requires Valid() && clock <= r.now && Declares(throttles, r)
      modifies this
      ensures Valid() && clock == r.now && throttles == old(throttles)[r.key := r.throttle]
      ensures decision == DecideBounded(old(history), old(throttles), r, maxBuckets)
      ensures history == AdmitBounded(old(history), old(throttles), r, maxBuckets)
    {
      ghost var admitted := AdmitBounded(history, throttles, r, maxBuckets);
      buckets, decision := Admit(buckets, r, maxBuckets, history, throttles, clock);
      history, throttles, clock := admitted, throttles[r.key := r.throttle], r.now;
    }
  }

  /** The rule under a cap: a request without room is refused for the whole window. */
  function DecideBounded(history: map<string, seq<int>>, throttles: Throttles, r: Request, maxBuckets: nat): Decision
    requires r.throttle.Positive()
  {
    if NoRoom(history, throttles, r, maxBuckets) then Denied(r.throttle.windowMs)
    else Decide(HistoryOf(history, r.key), r.now, r.throttle)
  }

  function AdmitBounded(history: map<string, seq<int>>, throttles: Throttles, r: Request, maxBuckets: nat): map<string, seq<int>>
    requires r.throttle.Positive()
  {
    if NoRoom(history, throttles, r, maxBuckets) then history
    else history[r.key := Next(HistoryOf(history, r.key), r.now, Decide(HistoryOf(history, r.key), r.now, r.throttle))]
  }

  /** One request on the table: makes room, refuses without room, and otherwise decides on its own bucket. */
  method Admit(buckets: map<string, Bucket>, r: Request, maxBuckets: nat,
               ghost history: map<string, seq<int>>, ghost throttles: Throttles, ghost clock: int)
    returns (next: map<string, Bucket>, decision: Decision)
    requires InProcessOk(buckets, history, throttles, clock, maxBuckets) && clock <= r.now && Declares(throttles, r)
    ensures decision == DecideBounded(history, throttles, r, maxBuckets)
    ensures InProcessOk(next, AdmitBounded(history, throttles, r, maxBuckets), throttles[r.key := r.throttle], r.now, maxBuckets)
  {
    FullIsNoRoom(buckets, history, throttles, clock, r, maxBuckets);
    var table, full := MakeRoom(buckets, r, maxBuckets);
    var live := LiveAttempts(table, r.key, r.now - r.throttle.windowMs);
    InProcessStep(buckets, table, history, throttles, clock, r);
    FewerKeys(table, buckets);
    if full {
      return table, Denied(r.throttle.windowMs);
    }
    return table[r.key := Written(live, r.now, r.throttle)], DecideLive(live, r.now, r.throttle);
  }

  lemma StillTight(buckets: map<string, Bucket>, table: map<string, Bucket>, history: map<string, seq<int>>, throttles: Throttles, r: Request)
    requires TightTable(buckets, history, throttles) && Declares(throttles, r)
    requires table.Keys <= buckets.Keys && forall k :: k in table ==> table[k] == buckets[k]
    ensures TightTable(table, history, throttles[r.key := r.throttle])
  {
    forall k | k in table ensures Tight(table[k], HistoryOf(history, k), throttles[r.key := r.throttle][k]) {
      assert buckets[k] == table[k];
    }
  }

  predicate Expired(buckets: map<string, Bucket>, r: Request) {
    r.key in buckets && buckets[r.key].expiresAt != 0 && buckets[r.key].expiresAt <= r.now
  }

  /** The table is full of buckets that have not expired, and the request has none of them. */
  ghost predicate Full(buckets: map<string, Bucket>, r: Request, maxBuckets: nat) {
    (r.key !in buckets || Expired(buckets, r)) && |Unexpired(buckets, r.now)| >= maxBuckets
  }

  /** Deletes the request's expired bucket, and every expired bucket when a new one would not fit. */
  method MakeRoom(buckets: map<string, Bucket>, r: Request, maxBuckets: nat)
    returns (table: map<string, Bucket>, full: bool)
    ensures full <==> Full(buckets, r, maxBuckets)
    ensures table.Keys <= buckets.Keys && forall k :: k in table ==> table[k] == buckets[k]
    ensures forall k :: k in buckets && k !in table ==> buckets[k].expiresAt <= r.now
    ensures !full ==> r.key in table || |table| < maxBuckets
  {
    table, full := buckets, false;
    if Expired(buckets, r) {
      table := table - {r.key};
    }
    if r.key !in table {
      assert Unexpired(table, r.now) == Unexpired(buckets, r.now);
      FewerKeys(Unexpired(table, r.now), table);
      if |table| >= maxBuckets {
        table := PruneExpired(table, r.now);
        full := |table| >= maxBuckets;
      }
    }
  }

  function Unexpired(buckets: map<string, Bucket>, now: int): map<string, Bucket> {
    map k | k in buckets && buckets[k].expiresAt > now :: buckets[k]
  }

  /** The pruning loop. */
  method PruneExpired(buckets: map<string, Bucket>, now: int) returns (pruned: map<string, Bucket>)
    ensures pruned == Unexpired(buckets, now)
  {
    pruned := buckets;
    var todo := buckets.Keys;
    while todo != {}
      invariant todo <= buckets.Keys
      invariant pruned == map k | k in buckets && (k in todo || buckets[k].expiresAt > now) :: buckets[k]
      decreases todo
    {
      var key :| key in todo;
      if pruned[key].expiresAt <= now {
        pruned := pruned - {key};
      }
      todo := todo - {key};
    }
  }

  // ---------------------------------------------------------------- the fake transport and the Redis script

  /** The in-memory fake: prunes every expired bucket first, and has no cap. */
  class FakeThrottle {
    var buckets: map<string, Bucket>
    ghost var history: map<string, seq<int>>
    ghost var throttles: Throttles
    ghost var clock: int

    ghost predicate Valid()
      reads this
    {
      TableOk(buckets, history, clock, throttles)
    }

    constructor (ghost start: int)
      ensures Valid() && history == map[] && throttles == map[] && clock == start
    {
      buckets, history, throttles, clock := map[], map[], map[], start;
    }

    method Consume(r: Request) returns (decision: Decision)
      requires Valid() && clock <= r.now && Declares(throttles, r)
      modifies this
      ensures Valid() && clock == r.now && throttles == old(throttles)[r.key := r.throttle]
      ensures decision == Decide(HistoryOf(old(history), r.key), r.now, r.throttle)
      ensures history == old(history)[r.key := Next(HistoryOf(old(history), r.key), r.now, decision)]
    {
      var t := r.throttle;
      var table := PruneExpired(buckets, r.now);
      var live := LiveAttempts(table, r.key, r.now - t.windowMs);
      FirstRequest(buckets, history, clock, throttles, r);
      ConsumeKeeps(buckets, table, history, clock, r.now, throttles[r.key := t], r.key, Written(live, r.now, t));
      clock, throttles := r.now, throttles[r.key := t];
      decision := DecideLive(live, r.now, t);
      buckets := table[r.key := Written(live, r.now, t)];
      history := history[r.key := Next(HistoryOf(history, r.key), r.now, decision)];
    }
  }

  /** The Lua script on one sorted set per bucket; a set with no scores and a key past its PEXPIRE do not exist. */
  class RedisThrottle {
    var sets: map<string, Bucket>
    ghost var history: map<string, seq<int>>
    ghost var throttles: Throttles
    ghost var clock: int

    ghost predicate Valid()
      reads this
    {
      TableOk(sets, history, clock, throttles)
    }

    constructor (ghost start: int)
      ensures Valid() && history == map[] && throttles == map[] && clock == start
    {
      sets, history, throttles, clock := map[], map[], map[], start;
    }

    method Consume(r: Request) returns (decision: Decision)
      requires Valid() && clock <= r.now && Declares(throttles, r)
      modifies this
      ensures Valid() && clock == r.now && throttles == old(throttles)[r.key := r.throttle]
      ensures decision == Decide(HistoryOf(old(history), r.key), r.now, r.throttle)
      ensures history == old(history)[r.key := Next(HistoryOf(old(history), r.key), r.now, decision)]
    {
      var t := r.throttle;
      // Redis has dropped every key whose time to live is over.
      var existing := Unexpired(sets, r.now);
      // ZREMRANGEBYSCORE -inf (now - window), then ZCARD.
      var scores := LiveAttempts(existing, r.key, r.now - t.windowMs);
      var written: Bucket;
      if |scores| >= t.limit {
        decision := Denied(Max(1, scores[0] + t.windowMs - r.now));
        written := Bucket(scores, r.now + t.windowMs);
      } else {
        decision := Allowed;
        written := Bucket(scores + [r.now], r.now + t.windowMs);
      }
      RedisStep(sets, existing, history, clock, throttles, r, written);
      clock, throttles := r.now, throttles[r.key := t];
      sets := existing[r.key := written];
      history := history[r.key := Next(HistoryOf(history, r.key), r.now, decision)];
    }
  }

  /** What the script leaves behind: the key it writes lives a whole window from now. */
  lemma RedisStep(sets: map<string, Bucket>, existing: map<string, Bucket>, history: map<string, seq<int>>, clock: int,
                  throttles: Throttles, r: Request, written: Bucket)
    requires TableOk(sets, history, clock, throttles) && clock <= r.now && Declares(throttles, r)
    requires existing == Unexpired(sets, r.now) && written.expiresAt == r.now + r.throttle.windowMs
    requires written.attempts == Written(LiveAttempts(existing, r.key, r.now - r.throttle.windowMs), r.now, r.throttle).attempts
    ensures var t, h := r.throttle, HistoryOf(history, r.key);
            var live := LiveAttempts(existing, r.key, r.now - t.windowMs);
            && Decide(h, r.now, t) == DecideLive(live, r.now, t)
            && TableOk(existing[r.key := written], history[r.key := Next(h, r.now, DecideLive(live, r.now, t))], r.now, throttles[r.key := t])
  {
    var declared := throttles[r.key := r.throttle];
    FirstRequest(sets, history, clock, throttles, r);
    LastBeforeNow(sets, existing, history, clock, declared, r);
    ConsumeKeeps(sets, existing, history, clock, r.now, declared, r.key, written);
  }

  /** No recorded score is later than the clock. */
  lemma LastBeforeNow(sets: map<string, Bucket>, existing: map<string, Bucket>, history: map<string, seq<int>>,
                      clock: int, throttles: Throttles, r: Request)
    requires TableOk(sets, history, clock, throttles) && clock <= r.now && r.key in throttles
    requires existing == Unexpired(sets, r.now)
    ensures Ordered(LiveAttempts(existing, r.key, r.now - throttles[r.key].windowMs), r.now)
  {
    var t, h := throttles[r.key], HistoryOf(history, r.key);
    assert KeyOk(sets, h, clock, t, r.key);
    LiveBeforeNow(sets, existing, h, clock, r.now, t, r.key);
  }

  lemma LiveBeforeNow(sets: map<string, Bucket>, existing: map<string, Bucket>, h: seq<int>, clock: int, now: int, t: Throttle, key: string)
    requires KeyOk(sets, h, clock, t, key) && clock <= now && existing == Unexpired(sets, now)
    ensures Ordered(LiveAttempts(existing, key, now - t.windowMs), now)
  {
    KeptLater(sets, key, h, clock, now, t);
    if key in existing {
      assert existing[key] == sets[key];
      LiveOrdered(h, now, now - t.windowMs);
    }
  }

  // ---------------------------------------------------------------- all three decide alike

  function ThrottlesOf(requests: seq<Request>): Throttles {
    if |requests| == 0 then map[]
    else
      var last := requests[|requests| - 1];
      ThrottlesOf(requests[..|requests| - 1])[last.key := last.throttle]
  }

  function ClockOf(requests: seq<Request>, start: int): int {
    if |requests| == 0 then start else requests[|requests| - 1].now
  }

  /** A run from `start`: the clock does not go back, and each bucket keeps its positive throttle. */
  ghost predicate Run(requests: seq<Request>, start: int) {
    |requests| > 0 ==>
      var earlier, last := requests[..|requests| - 1], requests[|requests| - 1];
      Run(earlier, start) && ClockOf(earlier, start) <= last.now && Declares(ThrottlesOf(earlier), last)
  }

  lemma {:induction false} RunPrefix(requests: seq<Request>, start: int, i: nat)
    requires Run(requests, start) && i <= |requests|
    ensures Run(requests[..i], start)
  {
    if i == |requests| {
      assert requests[..i] == requests;
    } else {
      assert requests[..|requests| - 1][..i] == requests[..i];
      RunPrefix(requests[..|requests| - 1], start, i);
    }
  }

  lemma RunStep(requests: seq<Request>, start: int, i: nat)
    requires Run(requests, start) && i < |requests|
    ensures requests[..i + 1][..i] == requests[..i]
    ensures Run(requests[..i], start) && ClockOf(requests[..i], start) <= requests[i].now
    ensures Declares(ThrottlesOf(requests[..i]), requests[i])
  {
    RunPrefix(requests, start, i);
    RunPrefix(requests, start, i + 1);
    assert requests[..i + 1][..i] == requests[..i];
  }

  /** The admissions that the rule leaves after a run. */
  ghost function Admissions(requests: seq<Request>, start: int): map<string, seq<int>>
    requires Run(requests, start)
  {
    if |requests| == 0 then map[]
    else
      var earlier, r := Admissions(requests[..|requests| - 1], start), requests[|requests| - 1];
      earlier[r.key := Next(HistoryOf(earlier, r.key), r.now, Decide(HistoryOf(earlier, r.key), r.now, r.throttle))]
  }

  /** What the rule decides on each request of a run. */
  ghost function Decisions(requests: seq<Request>, start: int): (decisions: seq<Decision>)
    requires Run(requests, start)
    ensures |decisions| == |requests|
  {
    if |requests| == 0 then []
    else
      var earlier, r := requests[..|requests| - 1], requests[|requests| - 1];
      Decisions(earlier, start) + [Decide(HistoryOf(Admissions(earlier, start), r.key), r.now, r.throttle)]
  }

  function KeysOf(requests: seq<Request>): set<string> {
    set r | r in requests :: r.key
  }

  /** Every request of the run finds room for its key. */
  ghost predicate Room(requests: seq<Request>, start: int, maxBuckets: nat)
    requires Run(requests, start)
  {
    |requests| > 0 ==>
      var earlier, last := requests[..|requests| - 1], requests[|requests| - 1];
      Room(earlier, start, maxBuckets) && !NoRoom(Admissions(earlier, start), ThrottlesOf(earlier), last, maxBuckets)
  }

  /** The admissions and the decisions of a run under a cap. */
  ghost function BoundedAdmissions(requests: seq<Request>, start: int, maxBuckets: nat): map<string, seq<int>>
    requires Run(requests, start)
  {
    if |requests| == 0 then map[]
    else
      var earlier := requests[..|requests| - 1];
      AdmitBounded(BoundedAdmissions(earlier, start, maxBuckets), ThrottlesOf(earlier), requests[|requests| - 1], maxBuckets)
  }

  ghost function BoundedDecisions(requests: seq<Request>, start: int, maxBuckets: nat): (decisions: seq<Decision>)
    requires Run(requests, start)
    ensures |decisions| == |requests|
  {
    if |requests| == 0 then []
    else
      var earlier := requests[..|requests| - 1];
      BoundedDecisions(earlier, start, maxBuckets) +
      [DecideBounded(BoundedAdmissions(earlier, start, maxBuckets), ThrottlesOf(earlier), requests[|requests| - 1], maxBuckets)]
  }

  /** The times at which requests of the key were allowed. */
  function AllowedTimes(requests: seq<Request>, decisions: seq<Decision>, key: string): seq<int>
    requires |decisions| == |requests|
  {
    if |requests| == 0 then []
    else
      var n := |requests| - 1;
      AllowedTimes(requests[..n], decisions[..n], key) +
      if requests[n].key == key && decisions[n] == Allowed then [requests[n].now] else []
  }

  /** The admissions that a decision looks at are exactly the requests of its key that were allowed before. */
  lemma {:induction false} AdmissionsAreAllowed(requests: seq<Request>, start: int, key: string)
    requires Run(requests, start)
    ensures HistoryOf(Admissions(requests, start), key) == AllowedTimes(requests, Decisions(requests, start), key)
  {
    if |requests| > 0 {
      var n := |requests| - 1;
      AdmissionsAreAllowed(requests[..n], start, key);
      assert Decisions(requests, start)[..n] == Decisions(requests[..n], start);
    }
  }

  /** So they are with a cap. */
  lemma {:induction false} BoundedAdmissionsAreAllowed(requests: seq<Request>, start: int, maxBuckets: nat, key: string)
    requires Run(requests, start)
    ensures HistoryOf(BoundedAdmissions(requests, start, maxBuckets), key) ==
            AllowedTimes(requests, BoundedDecisions(requests, start, maxBuckets), key)
  {
    if |requests| > 0 {
      var n := |requests| - 1;
      BoundedAdmissionsAreAllowed(requests[..n], start, maxBuckets, key);
      assert BoundedDecisions(requests, start, maxBuckets)[..n] == BoundedDecisions(requests[..n], start, maxBuckets);
      AdmitBoundedAdds(BoundedAdmissions(requests[..n], start, maxBuckets), ThrottlesOf(requests[..n]), requests[n], maxBuckets, key);
    }
  }

  lemma AdmitBoundedAdds(history: map<string, seq<int>>, throttles: Throttles, r: Request, maxBuckets: nat, key: string)
    requires r.throttle.Positive()
    ensures HistoryOf(AdmitBounded(history, throttles, r, maxBuckets), key) ==
            HistoryOf(history, key) +
            if r.key == key && DecideBounded(history, throttles, r, maxBuckets) == Allowed then [r.now] else []
  {
  }

  lemma {:induction false} ThrottlesOfKeys(requests: seq<Request>)
    ensures ThrottlesOf(requests).Keys == KeysOf(requests)
  {
    if |requests| > 0 {
      var n := |requests| - 1;
      ThrottlesOfKeys(requests[..n]);
      assert requests == requests[..n] + [requests[n]];
    }
  }

  /** A table that can hold a bucket for every key always has room. */
  lemma {:induction false} RoomForAll(requests: seq<Request>, start: int, keys: set<string>, maxBuckets: nat)
    requires Run(requests, start) && KeysOf(requests) <= keys && |keys| <= maxBuckets
    ensures Room(requests, start, maxBuckets)
  {
    if |requests| > 0 {
      var n := |requests| - 1;
      var earlier, last := requests[..n], requests[n];
      var live := LiveKeys(Admissions(earlier, start), ThrottlesOf(earlier), last.now);
      assert requests == earlier + [last];
      assert forall r :: r in earlier ==> r in requests;
      RoomForAll(earlier, start, keys, maxBuckets);
      ThrottlesOfKeys(earlier);
      assert live <= KeysOf(earlier) <= keys && last in requests && last.key in keys;
      if last.key !in live {
        assert keys - {last.key} == live + (keys - {last.key} - live);
      }
    }
  }

  /** Without room for it the rule would have admitted the request: its key has no live admission. */
  lemma NoRoomIsAllowed(requests: seq<Request>, start: int, r: Request, maxBuckets: nat)
    requires Run(requests, start) && Declares(ThrottlesOf(requests), r)
    requires NoRoom(Admissions(requests, start), ThrottlesOf(requests), r, maxBuckets)
    ensures Decide(HistoryOf(Admissions(requests, start), r.key), r.now, r.throttle) == Allowed
  {
    AdmissionsSpaced(requests, start, r.key);
    NotLiveIsAllowed(Admissions(requests, start), ThrottlesOf(requests), r);
  }

  lemma NotLiveIsAllowed(history: map<string, seq<int>>, throttles: Throttles, r: Request)
    requires r.key !in LiveKeys(history, throttles, r.now) && Declares(throttles, r)
    requires r.key !in throttles ==> HistoryOf(history, r.key) == []
    ensures Decide(HistoryOf(history, r.key), r.now, r.throttle) == Allowed
  {
  }

  /** Under a cap the decisions are the rule's exactly when every request finds room. */
  lemma {:induction false} BoundedExactly(requests: seq<Request>, start: int, maxBuckets: nat)
    requires Run(requests, start)
    ensures BoundedDecisions(requests, start, maxBuckets) == Decisions(requests, start) <==> Room(requests, start, maxBuckets)
    ensures Room(requests, start, maxBuckets) ==> BoundedAdmissions(requests, start, maxBuckets) == Admissions(requests, start)
  {
    if |requests| > 0 {
      var earlier, last := requests[..|requests| - 1], requests[|requests| - 1];
      BoundedExactly(earlier, start, maxBuckets);
      SameEnd(BoundedDecisions(earlier, start, maxBuckets), Decisions(earlier, start),
              DecideBounded(BoundedAdmissions(earlier, start, maxBuckets), ThrottlesOf(earlier), last, maxBuckets),
              Decide(HistoryOf(Admissions(earlier, start), last.key), last.now, last.throttle));
      if NoRoom(Admissions(earlier, start), ThrottlesOf(earlier), last, maxBuckets) {
        NoRoomIsAllowed(earlier, start, last, maxBuckets);
      }
    }
  }

  lemma SameEnd(a: seq<Decision>, b: seq<Decision>, c: Decision, d: Decision)
    ensures a + [c] == b + [d] <==> a == b && c == d
  {
    if a + [c] == b + [d] {
      assert a == (a + [c])[..|a|] && b == (b + [d])[..|b|] && c == (a + [c])[|a|] && d == (b + [d])[|b|];
    }
  }

  method RunInProcess(requests: seq<Request>, maxBuckets: nat, start: nat) returns (decisions: seq<Decision>)
    requires Run(requests, start)
    ensures decisions == BoundedDecisions(requests, start, maxBuckets)
  {
    var throttle := new InProcessThrottle(maxBuckets, start);
    decisions := [];
    for i := 0 to |requests|
      invariant throttle.Valid() && throttle.maxBuckets == maxBuckets && Run(requests[..i], start)
      invariant throttle.clock == ClockOf(requests[..i], start) && throttle.throttles == ThrottlesOf(requests[..i])
      invariant throttle.history == BoundedAdmissions(requests[..i], start, maxBuckets)
      invariant decisions == BoundedDecisions(requests[..i], start, maxBuckets)
    {
      RunStep(requests, start, i);
      RunPrefix(requests, start, i + 1);
      var decision := throttle.Consume(requests[i]);
      decisions := decisions + [decision];
    }
    assert requests[..|requests|] == requests;
  }

  method RunFake(requests: seq<Request>, start: int) returns (decisions: seq<Decision>)
    requires Run(requests, start)
    ensures decisions == Decisions(requests, start)
  {
    var throttle := new FakeThrottle(start);
    decisions := [];
    for i := 0 to |requests|
      invariant throttle.Valid() && Run(requests[..i], start)
      invariant throttle.clock == ClockOf(requests[..i], start) && throttle.throttles == ThrottlesOf(requests[..i])
      invariant throttle.history == Admissions(requests[..i], start) && decisions == Decisions(requests[..i], start)
    {
      RunStep(requests, start, i);
      RunPrefix(requests, start, i + 1);
      var decision := throttle.Consume(requests[i]);
      decisions := decisions + [decision];
    }
    assert requests[..|requests|] == requests;
  }

  method RunRedis(requests: seq<Request>, start: int) returns (decisions: seq<Decision>)
    requires Run(requests, start)
    ensures decisions == Decisions(requests, start)
  {
    var throttle := new RedisThrottle(start);
    decisions := [];
    for i := 0 to |requests|
      invariant throttle.Valid() && Run(requests[..i], start)
      invariant throttle.clock == ClockOf(requests[..i], start) && throttle.throttles == ThrottlesOf(requests[..i])
      invariant throttle.history == Admissions(requests[..i], start) && decisions == Decisions(requests[..i], start)
    {
      RunStep(requests, start, i);
      RunPrefix(requests, start, i + 1);
      var decision := throttle.Consume(requests[i]);
      decisions := decisions + [decision];
    }
    assert requests[..|requests|] == requests;
  }

  /**
   * Over every run with a nondecreasing clock and one throttle per bucket, the fake and the script take the same
   * decision on every request, retry delay included, and so does the bounded table exactly when it has room throughout.
   */
  method DecideThrice(requests: seq<Request>, maxBuckets: nat, start: nat)
    returns (inProcess: seq<Decision>, fake: seq<Decision>, redis: seq<Decision>)
    requires Run(requests, start)
    ensures fake == redis == Decisions(requests, start)
    ensures inProcess == fake <==> Room(requests, start, maxBuckets)
    ensures |KeysOf(requests)| <= maxBuckets ==> inProcess == fake
  {
    inProcess := RunInProcess(requests, maxBuckets, start);
    fake := RunFake(requests, start);
    redis := RunRedis(requests, start);
    BoundedExactly(requests, start, maxBuckets);
    if |KeysOf(requests)| <= maxBuckets {
      RoomForAll(requests, start, KeysOf(requests), maxBuckets);
    }
  }

  /** Over every run, no interval of one window admits more than the limit of requests to one bucket. */
  lemma {:induction false} RunIsSafe(requests: seq<Request>, start: int, key: string, from: int)
    requires Run(requests, start) && key in ThrottlesOf(requests)
    ensures var admitted := HistoryOf(Admissions(requests, start), key);
            |Within(admitted, from, ThrottlesOf(requests)[key])| <= ThrottlesOf(requests)[key].limit
  {
    AdmissionsSpaced(requests, start, key);
    AtMostLimitPerWindow(HistoryOf(Admissions(requests, start), key), ClockOf(requests, start), from, ThrottlesOf(requests)[key]);
  }

  lemma {:induction false} AdmissionsSpaced(requests: seq<Request>, start: int, key: string)
    requires Run(requests, start)
    ensures var h := HistoryOf(Admissions(requests, start), key);
            if key in ThrottlesOf(requests)
            then ThrottlesOf(requests)[key].Positive() && Ordered(h, ClockOf(requests, start)) && Spaced(h, ThrottlesOf(requests)[key])
            else h == []
  {
    if |requests| > 0 {
      var earlier, r := requests[..|requests| - 1], requests[|requests| - 1];
      AdmissionsSpaced(earlier, start, key);
      if r.key == key {
        DecideKeepsSpaced(HistoryOf(Admissions(earlier, start), key), ClockOf(earlier, start), r.now, r.throttle);
      }
    }
  }
}
