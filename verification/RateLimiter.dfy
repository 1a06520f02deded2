/** The fixed-window limiter with a block: one SQL upsert per attempt on one bucket's row. */
module RateLimiter {
  import opened Options

  /** The limit and the lengths, in milliseconds, that every attempt of one action is made with. */
  datatype Policy = Policy(limit: nat, window: int, block: int)
  {
    predicate Positive() {
      limit > 0 && window > 0 && block > 0
    }
  }

  datatype Row = Row(windowStartedAt: int, attempts: nat, blockedUntil: Option<int>)

  datatype Outcome = Admitted | Limited(retryAfterSeconds: int)

  predicate Over(row: Row, now: int, p: Policy) {
    row.windowStartedAt <= now - p.window
  }

  /** INSERT ... ON CONFLICT DO UPDATE: all three columns are computed from the old row. */
  function Upsert(row: Option<Row>, now: int, p: Policy): Row {
    match row
    case None => Row(now, 1, None)
    case Some(current) =>
      Row(if Over(current, now, p) then now else current.windowStartedAt,
          if Over(current, now, p) then 1 else current.attempts + 1,
          if current.blockedUntil.Some? && current.blockedUntil.value > now then current.blockedUntil
          else if !Over(current, now, p) && current.attempts + 1 > p.limit then Some(now + p.block)
          else None)
  }

  predicate Blocked(row: Row, now: int) {
    row.blockedUntil.Some? && row.blockedUntil.value > now
  }

  function Max(a: int, b: int): int {
    if a < b then b else a
  }

  class Bucket {
    var row: Option<Row>

    constructor ()
      ensures row == None
    {
      row := None;
    }

    method Attempt(now: int, p: Policy) returns (outcome: Outcome)
      modifies this
      ensures row == Some(Upsert(old(row), now, p))
      ensures outcome.Admitted? <==> !Blocked(row.value, now)
      ensures outcome.Limited? ==>
                (outcome.retryAfterSeconds - 1) * 1_000 < row.value.blockedUntil.value - now <= outcome.retryAfterSeconds * 1_000
    {
      if row.None? {
        row := Some(Row(now, 1, None));
      } else {
        var current := row.value;
        var blockedUntil := None;
        if Blocked(current, now) {
          blockedUntil := current.blockedUntil;
        } else if !Over(current, now, p) && current.attempts + 1 > p.limit {
          blockedUntil := Some(now + p.block);
        }
        row := Some(if Over(current, now, p) then Row(now, 1, blockedUntil)
                    else Row(current.windowStartedAt, current.attempts + 1, blockedUntil));
      }
      if Blocked(row.value, now) {
        return Limited(Max(1, (row.value.blockedUntil.value - now + 999) / 1_000));
      }
      return Admitted;
    }

    /** A successful login deletes the row. */
    method Clear()
      modifies this
      ensures row == None
    {
      row := None;
    }
  }

  // ---------------------------------------------------------------- runs

  ghost predicate Clock(times: seq<int>) {
    forall i, j :: 0 <= i <= j < |times| ==> times[i] <= times[j]
  }

  /** The row after attempts at the given times, starting from a row or none. */
  function After(row: Option<Row>, times: seq<int>, p: Policy): Option<Row> {
    if |times| == 0 then row
    else Some(Upsert(After(row, times[..|times| - 1], p), times[|times| - 1], p))
  }

  function RowAt(row: Option<Row>, times: seq<int>, p: Policy, i: nat): Row
    requires i < |times|
  {
    Upsert(After(row, times[..i], p), times[i], p)
  }

  predicate AdmittedAt(row: Option<Row>, times: seq<int>, p: Policy, i: nat)
    requires i < |times|
  {
    !Blocked(RowAt(row, times, p, i), times[i])
  }

  function CountAdmitted(row: Option<Row>, times: seq<int>, p: Policy, lo: nat, hi: nat): nat
    requires lo <= hi <= |times|
    decreases hi
  {
    if lo == hi then 0
    else CountAdmitted(row, times, p, lo, hi - 1) + if AdmittedAt(row, times, p, hi - 1) then 1 else 0
  }

  lemma NextRow(row: Option<Row>, times: seq<int>, p: Policy, i: nat)
    requires i + 1 < |times|
    ensures RowAt(row, times, p, i + 1) == Upsert(Some(RowAt(row, times, p, i)), times[i + 1], p)
  {
    assert times[..i + 1][..i] == times[..i];
  }

  /** An attempt is admitted iff no block is active and the window it falls into has room. */
  lemma AdmissionRule(row: Option<Row>, now: int, p: Policy)
    requires p.Positive() && (row.Some? ==> row.value.attempts > 0)
    ensures var next := Upsert(row, now, p);
            !Blocked(next, now) <==> !(row.Some? && Blocked(row.value, now)) && next.attempts <= p.limit
  {
  }

  /** While the window is the same, each attempt counts one. */
  lemma {:induction false} AttemptsGrow(row: Option<Row>, times: seq<int>, p: Policy, i: nat, j: nat)
    requires i <= j < |times| && p.Positive() && Clock(times)
    requires forall k :: i <= k <= j ==> RowAt(row, times, p, k).windowStartedAt == RowAt(row, times, p, i).windowStartedAt
    requires row.Some? ==> row.value.windowStartedAt <= times[0]
    ensures RowAt(row, times, p, j).attempts == RowAt(row, times, p, i).attempts + (j - i)
    decreases j
  {
    if i < j {
      AttemptsGrow(row, times, p, i, j - 1);
      NextRow(row, times, p, j - 1);
      assert RowAt(row, times, p, j).windowStartedAt == RowAt(row, times, p, j - 1).windowStartedAt;
      StartedBefore(row, times, p, j - 1);
    }
  }

  lemma {:induction false} StartedBefore(row: Option<Row>, times: seq<int>, p: Policy, i: nat)
    requires i < |times| && Clock(times) && p.Positive()
    requires row.Some? ==> row.value.windowStartedAt <= times[0]
    ensures RowAt(row, times, p, i).windowStartedAt <= times[i] && RowAt(row, times, p, i).attempts > 0
    ensures RowAt(row, times, p, i).windowStartedAt > times[i] - p.window
  {
    if i > 0 {
      StartedBefore(row, times, p, i - 1);
      NextRow(row, times, p, i - 1);
    } else {
      assert times[..0] == [];
    }
  }

  ghost predicate Run(row: Option<Row>, times: seq<int>, p: Policy) {
    p.Positive() && Clock(times) && (row.Some? ==> row.value.attempts > 0 && (|times| > 0 ==> row.value.windowStartedAt <= times[0]))
  }

  ghost predicate SameWindow(row: Option<Row>, times: seq<int>, p: Policy, lo: nat, hi: nat)
    requires lo <= hi <= |times|
  {
    forall k :: lo <= k < hi ==> RowAt(row, times, p, k).windowStartedAt == RowAt(row, times, p, lo).windowStartedAt
  }

  /** At most `limit` attempts are admitted per window instance, counted from its first attempt. */
  lemma {:induction false} AtMostLimitPerWindow(row: Option<Row>, times: seq<int>, p: Policy, lo: nat, hi: nat)
    requires Run(row, times, p) && lo < hi <= |times| && SameWindow(row, times, p, lo, hi)
    ensures CountAdmitted(row, times, p, lo, hi) <= p.limit && CountAdmitted(row, times, p, lo, hi) <= hi - lo
    ensures CountAdmitted(row, times, p, lo, hi) == 0 ||
            CountAdmitted(row, times, p, lo, hi) + RowAt(row, times, p, lo).attempts - 1 <= p.limit
    decreases hi
  {
    StartedBefore(row, times, p, lo);
    AttemptsGrow(row, times, p, lo, hi - 1);
    if RowAt(row, times, p, hi - 1).attempts > p.limit {
      LateIsDenied(row, times, p, hi - 1);
    }
    if lo + 1 < hi {
      AtMostLimitPerWindow(row, times, p, lo, hi - 1);
    }
    CountAtMost(row, times, p, lo, hi);
  }

  lemma {:induction false} CountAtMost(row: Option<Row>, times: seq<int>, p: Policy, lo: nat, hi: nat)
    requires lo <= hi <= |times|
    ensures CountAdmitted(row, times, p, lo, hi) <= hi - lo
    decreases hi
  {
    if lo < hi {
      CountAtMost(row, times, p, lo, hi - 1);
    }
  }

  /** Past the limit of its window an attempt is denied, by a block that is active or that it starts. */
  lemma LateIsDenied(row: Option<Row>, times: seq<int>, p: Policy, i: nat)
    requires Run(row, times, p) && i < |times| && RowAt(row, times, p, i).attempts > p.limit
    ensures !AdmittedAt(row, times, p, i)
  {
  }

  lemma {:induction false} CountSplits(row: Option<Row>, times: seq<int>, p: Policy, lo: nat, mid: nat, hi: nat)
    requires lo <= mid <= hi <= |times|
    ensures CountAdmitted(row, times, p, lo, hi) == CountAdmitted(row, times, p, lo, mid) + CountAdmitted(row, times, p, mid, hi)
    decreases hi
  {
    if mid < hi {
      CountSplits(row, times, p, lo, mid, hi - 1);
    }
  }

  /** The attempts of an interval shorter than the window fall into at most two window instances. */
  lemma {:induction false} TwoWindows(row: Option<Row>, times: seq<int>, p: Policy, lo: nat, hi: nat) returns (mid: nat)
    requires Run(row, times, p) && lo < hi <= |times| && times[hi - 1] - times[lo] < p.window
    ensures lo < mid <= hi && SameWindow(row, times, p, lo, mid)
    ensures SameWindow(row, times, p, mid, hi)
    ensures mid < hi ==> RowAt(row, times, p, mid).windowStartedAt >= times[lo] &&
                         RowAt(row, times, p, mid).windowStartedAt != RowAt(row, times, p, mid - 1).windowStartedAt
    decreases hi
  {
    mid := hi;
    if lo + 1 < hi {
      mid := TwoWindows(row, times, p, lo, hi - 1);
      NextRow(row, times, p, hi - 2);
      if RowAt(row, times, p, hi - 1).windowStartedAt == RowAt(row, times, p, hi - 2).windowStartedAt {
        if mid == hi - 1 {
          SameWindowOn(row, times, p, lo, hi);
          mid := hi;
        } else {
          SameWindowOn(row, times, p, mid, hi);
        }
      } else {
        NewWindowIsFirst(row, times, p, lo, mid, hi);
      }
    }
  }

  /** A window that opens less than a window after `lo` is the first one that does. */
  lemma NewWindowIsFirst(row: Option<Row>, times: seq<int>, p: Policy, lo: nat, mid: nat, hi: nat)
    requires Run(row, times, p) && lo < mid < hi <= |times| && times[hi - 1] - times[lo] < p.window
    requires SameWindow(row, times, p, mid, hi - 1)
    requires mid < hi - 1 ==> RowAt(row, times, p, mid).windowStartedAt >= times[lo]
    requires RowAt(row, times, p, hi - 1).windowStartedAt != RowAt(row, times, p, hi - 2).windowStartedAt
    ensures mid == hi - 1 && RowAt(row, times, p, mid).windowStartedAt >= times[lo]
  {
    NextRow(row, times, p, hi - 2);
  }

  lemma SameWindowOn(row: Option<Row>, times: seq<int>, p: Policy, lo: nat, hi: nat)
    requires lo + 1 < hi <= |times| && SameWindow(row, times, p, lo, hi - 1)
    requires RowAt(row, times, p, hi - 1).windowStartedAt == RowAt(row, times, p, hi - 2).windowStartedAt
    ensures SameWindow(row, times, p, lo, hi)
  {
  }

  /** An attempt that is in its window's second half of an interval is not the window's first. */
  lemma NotFirst(row: Option<Row>, times: seq<int>, p: Policy, lo: nat, mid: nat)
    requires Run(row, times, p) && lo < mid < |times| && SameWindow(row, times, p, lo, mid)
    requires times[mid] - times[lo] < p.window
    requires RowAt(row, times, p, mid).windowStartedAt != RowAt(row, times, p, mid - 1).windowStartedAt
    ensures RowAt(row, times, p, lo).attempts >= 2
  {
    NextRow(row, times, p, mid - 1);
    assert RowAt(row, times, p, mid - 1).windowStartedAt == RowAt(row, times, p, lo).windowStartedAt;
    if lo > 0 {
      NextRow(row, times, p, lo - 1);
      StartedBefore(row, times, p, lo - 1);
    } else {
      assert times[..0] == [];
    }
  }

  /** Fewer than twice the limit are admitted in any interval shorter than the window. */
  lemma FewerThanTwiceTheLimit(row: Option<Row>, times: seq<int>, p: Policy, lo: nat, hi: nat)
    requires Run(row, times, p) && lo < hi <= |times| && times[hi - 1] - times[lo] < p.window
    ensures CountAdmitted(row, times, p, lo, hi) < 2 * p.limit
  {
    var mid := TwoWindows(row, times, p, lo, hi);
    CountSplits(row, times, p, lo, mid, hi);
    AtMostLimitPerWindow(row, times, p, lo, mid);
    if mid < hi {
      AtMostLimitPerWindow(row, times, p, mid, hi);
      NotFirst(row, times, p, lo, mid);
    }
  }

  /** An active block denies every attempt until it ends, and none of them moves its end, window resets included. */
  lemma {:induction false} BlockIsFixed(row: Option<Row>, times: seq<int>, p: Policy, i: nat, j: nat)
    requires Run(row, times, p) && i <= j < |times|
    requires Blocked(RowAt(row, times, p, i), times[i]) && times[j] < RowAt(row, times, p, i).blockedUntil.value
    ensures RowAt(row, times, p, j).blockedUntil == RowAt(row, times, p, i).blockedUntil
    ensures !AdmittedAt(row, times, p, j)
    decreases j
  {
    if i < j {
      BlockIsFixed(row, times, p, i, j - 1);
      NextRow(row, times, p, j - 1);
    }
  }

  /**
   * A denial that no active block explains blocks the bucket for the policy's block length, to the millisecond; the
   * first attempt after that is decided by its window alone.
   */
  lemma BlockLasts(row: Option<Row>, times: seq<int>, p: Policy, i: nat, j: nat)
    requires Run(row, times, p) && i <= j < |times| && !AdmittedAt(row, times, p, i)
    requires var before := After(row, times[..i], p); before.None? || !Blocked(before.value, times[i])
    requires forall k :: i <= k < j ==> times[k] < times[i] + p.block
    ensures times[j] < times[i] + p.block ==>
              !AdmittedAt(row, times, p, j) && RowAt(row, times, p, j).blockedUntil == Some(times[i] + p.block)
    ensures times[j] >= times[i] + p.block ==> (AdmittedAt(row, times, p, j) <==> RowAt(row, times, p, j).attempts <= p.limit)
  {
    if i < j {
      BlockIsFixed(row, times, p, i, j - 1);
      NextRow(row, times, p, j - 1);
      StartedBefore(row, times, p, j - 1);
      AdmissionRule(Some(RowAt(row, times, p, j - 1)), times[j], p);
    }
  }

  /** A bucket that was empty admits the first `limit` attempts of its window. */
  lemma FreshBucketAdmits(times: seq<int>, p: Policy, i: nat)
    requires Run(None, times, p) && i < |times| && i < p.limit && times[i] - times[0] < p.window
    ensures AdmittedAt(None, times, p, i)
  {
    FreshRow(times, p, i);
  }

  lemma {:induction false} FreshRow(times: seq<int>, p: Policy, i: nat)
    requires Run(None, times, p) && i < |times| && i < p.limit && times[i] - times[0] < p.window
    ensures RowAt(None, times, p, i) == Row(times[0], i + 1, None)
  {
    if i > 0 {
      FreshRow(times, p, i - 1);
      NextRow(None, times, p, i - 1);
    } else {
      assert times[..0] == [];
    }
  }

  /** One attempt opens a window, `limit - 1` follow at its last moment, and `limit` at the moment after it. */
  function Burst(p: Policy): (times: seq<int>)
    requires p.Positive()
    ensures |times| == 2 * p.limit
    ensures forall i :: 0 <= i < |times| ==> times[i] == if i == 0 then 0 else if i < p.limit then p.window - 1 else p.window
  {
    seq(2 * p.limit, i requires 0 <= i => if i == 0 then 0 else if i < p.limit then p.window - 1 else p.window)
  }

  /** The attempts of the second window of a burst find its row new. */
  lemma {:induction false} BurstRow(p: Policy, j: nat)
    requires p.Positive() && j < p.limit
    ensures RowAt(None, Burst(p), p, p.limit + j) == Row(p.window, j + 1, None)
  {
    NextRow(None, Burst(p), p, p.limit + j - 1);
    if j == 0 {
      FreshRow(Burst(p), p, p.limit - 1);
    } else {
      BurstRow(p, j - 1);
    }
  }

  lemma {:induction false} CountAll(row: Option<Row>, times: seq<int>, p: Policy, lo: nat, hi: nat)
    requires lo <= hi <= |times| && forall i :: lo <= i < hi ==> AdmittedAt(row, times, p, i)
    ensures CountAdmitted(row, times, p, lo, hi) == hi - lo
    decreases hi
  {
    if lo < hi {
      CountAll(row, times, p, lo, hi - 1);
    }
  }

  /** No smaller bound holds, whatever the policy: a burst gets all but its first attempt through in less than a window. */
  lemma BoundIsReached(p: Policy)
    requires p.Positive() && p.window >= 2
    ensures var times := Burst(p);
            && Run(None, times, p) && times[|times| - 1] - times[1] < p.window
            && CountAdmitted(None, times, p, 1, |times|) == 2 * p.limit - 1
  {
    var times := Burst(p);
    forall i | 1 <= i < |times| ensures AdmittedAt(None, times, p, i) {
      if i < p.limit {
        FreshBucketAdmits(times, p, i);
      } else {
        BurstRow(p, i - p.limit);
      }
    }
    CountAll(None, times, p, 1, |times|);
  }
}
