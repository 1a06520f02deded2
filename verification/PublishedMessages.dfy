/** Deduplication of published messages in a bounded, insertion-ordered table. */
module PublishedMessages {

  datatype Entry = Entry(id: string, expiresAt: int)

  datatype Delivery = Delivery(id: string, at: int)

  ghost predicate Distinct(deliveries: seq<Delivery>, lo: int, hi: int) {
    0 <= lo <= hi <= |deliveries| && forall p, q :: lo <= p < q < hi ==> deliveries[p].id != deliveries[q].id
  }

  /** Between positions `i` and `j` at least `max` distinct ids other than `i`'s own were delivered. */
  ghost predicate Crowded(deliveries: seq<Delivery>, i: int, j: int, max: nat) {
    0 <= i && i + max < j && Distinct(deliveries, i, i + max + 1)
  }

  /** An id is delivered again only after the period, or after `max` distinct other ids. */
  ghost predicate Deduplicated(deliveries: seq<Delivery>, period: int, max: nat) {
    forall i, j :: 0 <= i < j < |deliveries| && deliveries[i].id == deliveries[j].id ==>
      deliveries[i].at + period <= deliveries[j].at || Crowded(deliveries, i, j, max)
  }

  ghost predicate Timed(deliveries: seq<Delivery>, clock: int) {
    && (forall i, j :: 0 <= i < j < |deliveries| ==> deliveries[i].at <= deliveries[j].at)
    && forall i :: 0 <= i < |deliveries| ==> deliveries[i].at <= clock
  }

  /** The table is the latest deliveries in delivery order. */
  ghost predicate Latest(table: seq<Entry>, deliveries: seq<Delivery>, dropped: nat, period: int) {
    && dropped + |table| == |deliveries|
    && (forall i :: 0 <= i < |table| ==> table[i] == Entry(deliveries[dropped + i].id, deliveries[dropped + i].at + period))
    && Distinct(deliveries, dropped, |deliveries|)
    && (forall i :: 0 <= i < |table| ==> table[i].id != "")
  }

  /** An earlier delivery has expired or was crowded out. */
  ghost predicate Forgotten(deliveries: seq<Delivery>, dropped: nat, period: int, max: nat, clock: int) {
    forall i :: 0 <= i < dropped <= |deliveries| ==> Gone(deliveries, i, period, max, clock)
  }

  ghost predicate Gone(deliveries: seq<Delivery>, i: nat, period: int, max: nat, clock: int)
    requires i < |deliveries|
  {
    deliveries[i].at + period <= clock || Crowded(deliveries, i, |deliveries|, max)
  }

  ghost predicate Coherent(table: seq<Entry>, deliveries: seq<Delivery>, period: int, max: nat, clock: int) {
    && |table| <= max && |table| <= |deliveries| && Timed(deliveries, clock) && Deduplicated(deliveries, period, max)
    && Latest(table, deliveries, |deliveries| - |table|, period)
    && Forgotten(deliveries, |deliveries| - |table|, period, max, clock)
  }

  class Deduplicator {
    const period: int
    const maxMessages: nat
    var table: seq<Entry>
    ghost var deliveries: seq<Delivery>
    ghost var clock: int

    ghost predicate Valid()
      reads this
    {
      period > 0 && maxMessages > 0 && Coherent(table, deliveries, period, maxMessages, clock)
    }

    constructor (period: int, maxMessages: nat, ghost start: int)
      requires period > 0 && maxMessages > 0
      ensures Valid() && deliveries == [] && clock == start
      ensures this.period == period && this.maxMessages == maxMessages
    {
      this.period, this.maxMessages := period, maxMessages;
      table, deliveries, clock := [], [], start;
    }

    /** Delivers the message iff its id was not delivered within the period, as far as the table remembers. */
    method AcceptPublished(id: string, now: int) returns (delivered: bool)
      requires Valid() && clock <= now && id != ""
      modifies this
      ensures Valid() && clock == now
      ensures deliveries == if delivered then old(deliveries) + [Delivery(id, now)] else old(deliveries)
      ensures delivered <==> !Recent(old(deliveries), |old(deliveries)| - |old(table)|, period, now, id)
    {
      AcceptKeeps(table, deliveries, period, maxMessages, clock, now, id);
      EntriesHaveIds(table, deliveries, period, maxMessages, clock);
      table, delivered := Accept(table, id, now, period, maxMessages);
      clock := now;
      if delivered {
        deliveries := deliveries + [Delivery(id, now)];
      }
    }
  }

  /** The id is remembered as delivered less than a period ago. */
  ghost predicate Recent(deliveries: seq<Delivery>, dropped: int, period: int, now: int, id: string) {
    exists i :: 0 <= dropped <= i < |deliveries| && deliveries[i].id == id && now < deliveries[i].at + period
  }

  // ---------------------------------------------------------------- one message, on values

  function Live(table: seq<Entry>, now: int): (kept: seq<Entry>)
    ensures |kept| <= |table|
  {
    if |table| == 0 then [] else (if table[0].expiresAt > now then [table[0]] else []) + Live(table[1..], now)
  }

  predicate Listed(table: seq<Entry>, id: string) {
    exists i :: 0 <= i < |table| && table[i].id == id
  }

  /** The table and the answer after a message: prune, refuse a remembered id, make room, and record the id. */
  function Accepted(table: seq<Entry>, id: string, now: int, period: int, max: nat): (seq<Entry>, bool)
    requires max > 0
  {
    var kept := Live(table, now);
    if Listed(kept, id) then (kept, false)
    else (kept[if |kept| == max then 1 else 0..] + [Entry(id, now + period)], true)
  }

  method Accept(table: seq<Entry>, id: string, now: int, period: int, max: nat) returns (next: seq<Entry>, delivered: bool)
    requires max > 0 && |table| <= max && forall i :: 0 <= i < |table| ==> table[i].id != ""
    ensures (next, delivered) == Accepted(table, id, now, period, max)
  {
    var kept := Prune(table, now);
    LiveEntries(table, now);
    if exists e :: e in kept && e.id == id {
      return kept, false;
    }
    assert forall i :: 0 <= i < |kept| ==> kept[i] in kept;
    var room := Evict(kept, max);
    return room + [Entry(id, now + period)], true;
  }

  /** Forgets every entry whose period is over. */
  method Prune(table: seq<Entry>, now: int) returns (kept: seq<Entry>)
    ensures kept == Live(table, now)
  {
    kept := [];
    for i := 0 to |table|
      invariant kept + Live(table[i..], now) == Live(table, now)
    {
      PruneNext(table, kept, i, now);
      var live := if table[i].expiresAt > now then [table[i]] else [];
      kept := kept + live;
    }
  }

  lemma PruneNext(table: seq<Entry>, kept: seq<Entry>, i: nat, now: int)
    requires i < |table| && kept + Live(table[i..], now) == Live(table, now)
    ensures kept + (if table[i].expiresAt > now then [table[i]] else []) + Live(table[i + 1..], now) == Live(table, now)
  {
    LiveFrom(table, i, now);
    Associate(kept, if table[i].expiresAt > now then [table[i]] else [], Live(table[i + 1..], now));
  }

  lemma Associate(a: seq<Entry>, b: seq<Entry>, c: seq<Entry>)
    ensures a + b + c == a + (b + c)
  {
  }

  lemma LiveFrom(table: seq<Entry>, i: nat, now: int)
    requires i < |table|
    ensures Live(table[i..], now) == (if table[i].expiresAt > now then [table[i]] else []) + Live(table[i + 1..], now)
  {
    assert table[i..][1..] == table[i + 1..];
  }

  /** Drops the oldest entries while the table is full. */
  method Evict(table: seq<Entry>, max: nat) returns (room: seq<Entry>)
    requires |table| <= max && max > 0 && forall i :: 0 <= i < |table| ==> table[i].id != ""
    ensures room == table[if |table| == max then 1 else 0..]
  {
    room := table;
    ghost var evicted := 0;
    while |room| >= max
      invariant 0 <= evicted <= 1 && evicted <= |table| && room == table[evicted..]
      invariant evicted == 1 ==> |table| == max
      decreases |room|
    {
      var oldest := room[0].id;
      if oldest == "" {
        break;
      }
      room := room[1..];
      evicted := evicted + 1;
    }
  }

  lemma {:induction false} LiveEntries(table: seq<Entry>, now: int)
    ensures forall e :: e in Live(table, now) <==> e in table && e.expiresAt > now
  {
    if |table| > 0 {
      LiveEntries(table[1..], now);
      assert table == [table[0]] + table[1..];
    }
  }

  /** In a table ordered by expiry pruning drops a prefix. */
  lemma LiveIsTheRest(table: seq<Entry>, now: int)
    requires forall i, j :: 0 <= i < j < |table| ==> table[i].expiresAt <= table[j].expiresAt
    ensures var gone := |table| - |Live(table, now)|;
            && Live(table, now) == table[gone..] && (forall i :: 0 <= i < gone ==> table[i].expiresAt <= now)
            && forall i :: gone <= i < |table| ==> table[i].expiresAt > now
  {
    var gone := FirstLive(table, now);
    LiveSuffix(table, gone, now);
  }

  /** Where the entries that have expired end. */
  lemma FirstLive(table: seq<Entry>, now: int) returns (gone: nat)
    requires forall i, j :: 0 <= i < j < |table| ==> table[i].expiresAt <= table[j].expiresAt
    ensures gone <= |table| && (forall i :: 0 <= i < gone ==> table[i].expiresAt <= now)
    ensures forall i :: gone <= i < |table| ==> table[i].expiresAt > now
  {
    gone := 0;
    while gone < |table| && table[gone].expiresAt <= now
      invariant gone <= |table| && forall i :: 0 <= i < gone ==> table[i].expiresAt <= now
    {
      gone := gone + 1;
    }
  }

  lemma {:induction false} LiveSuffix(table: seq<Entry>, gone: nat, now: int)
    requires gone <= |table| && (forall i :: 0 <= i < gone ==> table[i].expiresAt <= now)
    requires forall i :: gone <= i < |table| ==> table[i].expiresAt > now
    ensures Live(table, now) == table[gone..]
  {
    if gone == 0 {
      AllLive(table, now);
    } else {
      LiveSuffix(table[1..], gone - 1, now);
      assert table[1..][gone - 1..] == table[gone..];
    }
  }

  lemma {:induction false} AllLive(table: seq<Entry>, now: int)
    requires forall i :: 0 <= i < |table| ==> table[i].expiresAt > now
    ensures Live(table, now) == table
  {
    if |table| > 0 {
      AllLive(table[1..], now);
    }
  }

  lemma EntriesHaveIds(table: seq<Entry>, deliveries: seq<Delivery>, period: int, max: nat, clock: int)
    requires Coherent(table, deliveries, period, max, clock)
    ensures |table| <= max && forall i :: 0 <= i < |table| ==> table[i].id != ""
  {
  }

  // ---------------------------------------------------------------- the guarantee is kept

  lemma TableIsSorted(table: seq<Entry>, deliveries: seq<Delivery>, dropped: nat, period: int, clock: int)
    requires Latest(table, deliveries, dropped, period) && Timed(deliveries, clock)
    ensures forall i, j :: 0 <= i < j < |table| ==> table[i].expiresAt <= table[j].expiresAt
  {
  }

  /** Pruning forgets only what has expired. */
  lemma PruneKeeps(table: seq<Entry>, deliveries: seq<Delivery>, period: int, max: nat, clock: int, now: int)
    requires Coherent(table, deliveries, period, max, clock) && clock <= now
    ensures Coherent(Live(table, now), deliveries, period, max, now)
    ensures forall i :: |deliveries| - |table| <= i < |deliveries| ==>
              (now < deliveries[i].at + period <==> |deliveries| - |Live(table, now)| <= i)
  {
    TableIsSorted(table, deliveries, |deliveries| - |table|, period, clock);
    LiveIsTheRest(table, now);
    PruneRest(table, Live(table, now), deliveries, |deliveries| - |table|, period, max, clock, now);
  }

  lemma PruneRest(table: seq<Entry>, kept: seq<Entry>, deliveries: seq<Delivery>, dropped: nat, period: int, max: nat, clock: int, now: int)
    requires Coherent(table, deliveries, period, max, clock) && clock <= now && dropped == |deliveries| - |table|
    requires |kept| <= |table| && kept == table[|table| - |kept|..]
    requires forall i :: 0 <= i < |table| ==> (now < table[i].expiresAt <==> |table| - |kept| <= i)
    ensures Coherent(kept, deliveries, period, max, now)
    ensures forall i :: dropped <= i < |deliveries| ==> (now < deliveries[i].at + period <==> |deliveries| - |kept| <= i)
  {
    var gone := |table| - |kept|;
    PruneForgets(table, deliveries, dropped, gone, period, max, clock, now);
    StillTimed(deliveries, clock, now);
    CoherentFrom(kept, deliveries, dropped + gone, period, max, now);
    PruneTimes(table, deliveries, dropped, gone, period, now);
  }

  lemma StillTimed(deliveries: seq<Delivery>, clock: int, now: int)
    requires Timed(deliveries, clock) && clock <= now
    ensures Timed(deliveries, now)
  {
  }

  lemma PruneTimes(table: seq<Entry>, deliveries: seq<Delivery>, dropped: nat, gone: nat, period: int, now: int)
    requires Latest(table, deliveries, dropped, period) && forall i :: 0 <= i < |table| ==> (now < table[i].expiresAt <==> gone <= i)
    ensures forall i :: dropped <= i < |deliveries| ==> (now < deliveries[i].at + period <==> dropped + gone <= i)
  {
    EntryTimes(table, deliveries, dropped, period);
  }

  lemma EntryTimes(table: seq<Entry>, deliveries: seq<Delivery>, dropped: nat, period: int)
    requires Latest(table, deliveries, dropped, period)
    ensures forall i :: dropped <= i < |deliveries| ==> table[i - dropped].expiresAt == deliveries[i].at + period
  {
    forall i | dropped <= i < |deliveries| ensures table[i - dropped].expiresAt == deliveries[i].at + period {
      assert table[i - dropped] == Entry(deliveries[dropped + (i - dropped)].id, deliveries[dropped + (i - dropped)].at + period);
    }
  }

  lemma PruneForgets(table: seq<Entry>, deliveries: seq<Delivery>, dropped: nat, gone: nat, period: int, max: nat, clock: int, now: int)
    requires Latest(table, deliveries, dropped, period) && Forgotten(deliveries, dropped, period, max, clock)
    requires clock <= now && gone <= |table| && forall i :: 0 <= i < gone ==> table[i].expiresAt <= now
    ensures Latest(table[gone..], deliveries, dropped + gone, period) && Forgotten(deliveries, dropped + gone, period, max, now)
  {
    forall i: nat | i < dropped + gone ensures Gone(deliveries, i, period, max, now) {
      if i < dropped {
        assert Gone(deliveries, i, period, max, clock);
      } else {
        assert table[i - dropped].expiresAt == deliveries[dropped + (i - dropped)].at + period;
      }
    }
  }

  /** An id is listed in the pruned table iff it was delivered within the period. */
  lemma ListedIsRecent(kept: seq<Entry>, deliveries: seq<Delivery>, dropped: nat, period: int, now: int, id: string)
    requires dropped + |kept| <= |deliveries| && Latest(kept, deliveries, |deliveries| - |kept|, period)
    requires forall i :: dropped <= i < |deliveries| ==> (now < deliveries[i].at + period <==> |deliveries| - |kept| <= i)
    ensures Listed(kept, id) <==> Recent(deliveries, dropped, period, now, id)
  {
    var first := |deliveries| - |kept|;
    if k :| 0 <= k < |kept| && kept[k].id == id {
      assert deliveries[first + k].id == id;
    }
    if i :| dropped <= i < |deliveries| && deliveries[i].id == id && now < deliveries[i].at + period {
      assert kept[i - first] == Entry(deliveries[first + (i - first)].id, deliveries[first + (i - first)].at + period);
    }
  }

  lemma CrowdedLater(deliveries: seq<Delivery>, d: Delivery, i: int, j: int, max: nat)
    requires Crowded(deliveries, i, j, max) && j <= |deliveries|
    ensures Crowded(deliveries + [d], i, j, max) && Crowded(deliveries + [d], i, j + 1, max)
  {
  }

  /** A delivery that is the oldest of a full table is crowded out by the next one. */
  lemma NowGone(deliveries: seq<Delivery>, d: Delivery, i: nat, dropped: nat, period: int, max: nat, now: int)
    requires i < |deliveries| && dropped <= |deliveries|
    requires (i < dropped && Gone(deliveries, i, period, max, now)) || (i == dropped && Distinct(deliveries, dropped, |deliveries|))
    requires i == dropped ==> dropped + max == |deliveries| && forall k :: dropped <= k < |deliveries| ==> deliveries[k].id != d.id
    ensures Gone(deliveries + [d], i, period, max, now)
  {
    if Crowded(deliveries, i, |deliveries|, max) {
      CrowdedLater(deliveries, d, i, |deliveries|, max);
    } else if i == dropped {
      assert Distinct(deliveries + [d], i, |deliveries| + 1);
    }
  }

  lemma DeliverForgets(deliveries: seq<Delivery>, d: Delivery, dropped: nat, after: nat, period: int, max: nat, now: int)
    requires Forgotten(deliveries, dropped, period, max, now) && Distinct(deliveries, dropped, |deliveries|)
    requires dropped <= after <= |deliveries| && after <= dropped + 1 && (after == dropped + 1 ==> dropped + max == |deliveries|)
    requires forall k :: dropped <= k < |deliveries| ==> deliveries[k].id != d.id
    ensures Forgotten(deliveries + [d], after, period, max, now)
  {
    forall i: nat | i < after ensures Gone(deliveries + [d], i, period, max, now) {
      if i < dropped {
        assert Gone(deliveries, i, period, max, now);
      }
      NowGone(deliveries, d, i, dropped, period, max, now);
    }
  }

  lemma DeliverDeduplicates(deliveries: seq<Delivery>, d: Delivery, dropped: nat, period: int, max: nat)
    requires Deduplicated(deliveries, period, max) && Forgotten(deliveries, dropped, period, max, d.at) && dropped <= |deliveries|
    requires forall k :: dropped <= k < |deliveries| ==> deliveries[k].id != d.id
    ensures Deduplicated(deliveries + [d], period, max)
  {
    var longer := deliveries + [d];
    forall i, j | 0 <= i < j < |longer| && longer[i].id == longer[j].id
      ensures longer[i].at + period <= longer[j].at || Crowded(longer, i, j, max)
    {
      assert j == |deliveries| ==> i < dropped && Gone(deliveries, i, period, max, d.at);
      if Crowded(deliveries, i, j, max) {
        CrowdedLater(deliveries, d, i, j, max);
      }
    }
  }

  lemma DeliverLatest(kept: seq<Entry>, deliveries: seq<Delivery>, d: Delivery, dropped: nat, from: nat, period: int)
    requires Latest(kept, deliveries, dropped, period) && from <= |kept| && d.id != ""
    requires forall k :: dropped <= k < |deliveries| ==> deliveries[k].id != d.id
    ensures Latest(kept[from..] + [Entry(d.id, d.at + period)], deliveries + [d], dropped + from, period)
  {
  }

  lemma NotListed(kept: seq<Entry>, deliveries: seq<Delivery>, dropped: nat, period: int, id: string)
    requires Latest(kept, deliveries, dropped, period) && !Listed(kept, id)
    ensures forall k :: dropped <= k < |deliveries| ==> deliveries[k].id != id
  {
    forall k | dropped <= k < |deliveries| ensures deliveries[k].id != id {
      assert kept[k - dropped] == Entry(deliveries[dropped + (k - dropped)].id, deliveries[dropped + (k - dropped)].at + period);
    }
  }

  /** Delivering a new id, after the oldest entry of a full table has been dropped. */
  lemma DeliverKeeps(kept: seq<Entry>, deliveries: seq<Delivery>, period: int, max: nat, now: int, id: string)
    requires Coherent(kept, deliveries, period, max, now) && id != "" && max > 0 && !Listed(kept, id)
    ensures Coherent(kept[if |kept| == max then 1 else 0..] + [Entry(id, now + period)], deliveries + [Delivery(id, now)], period, max, now)
  {
    var from := if |kept| == max then 1 else 0;
    DeliverFrom(kept, deliveries, |deliveries| - |kept|, from, period, max, Delivery(id, now));
  }

  lemma DeliverFrom(kept: seq<Entry>, deliveries: seq<Delivery>, dropped: nat, from: nat, period: int, max: nat, d: Delivery)
    requires Coherent(kept, deliveries, period, max, d.at) && d.id != "" && max > 0 && !Listed(kept, d.id)
    requires dropped + |kept| == |deliveries| && from == if |kept| == max then 1 else 0
    ensures Coherent(kept[from..] + [Entry(d.id, d.at + period)], deliveries + [d], period, max, d.at)
  {
    NotListed(kept, deliveries, dropped, period, d.id);
    DeliverLatest(kept, deliveries, d, dropped, from, period);
    DeliverForgets(deliveries, d, dropped, dropped + from, period, max, d.at);
    DeliverDeduplicates(deliveries, d, dropped, period, max);
    LaterTimed(deliveries, d);
    CoherentFrom(kept[from..] + [Entry(d.id, d.at + period)], deliveries + [d], dropped + from, period, max, d.at);
  }

  lemma LaterTimed(deliveries: seq<Delivery>, d: Delivery)
    requires Timed(deliveries, d.at)
    ensures Timed(deliveries + [d], d.at)
  {
  }

  lemma CoherentFrom(table: seq<Entry>, deliveries: seq<Delivery>, dropped: nat, period: int, max: nat, now: int)
    requires |table| <= max && dropped + |table| == |deliveries| && Timed(deliveries, now) && Deduplicated(deliveries, period, max)
    requires Latest(table, deliveries, dropped, period) && Forgotten(deliveries, dropped, period, max, now)
    ensures Coherent(table, deliveries, period, max, now)
  {
  }

  /** Pruning and what follows decide by what was delivered recently, and keep the guarantee. */
  lemma AcceptKeeps(table: seq<Entry>, deliveries: seq<Delivery>, period: int, max: nat, clock: int, now: int, id: string)
    requires Coherent(table, deliveries, period, max, clock) && clock <= now && id != "" && max > 0
    ensures var (next, delivered) := Accepted(table, id, now, period, max);
            && (delivered <==> !Recent(deliveries, |deliveries| - |table|, period, now, id))
            && Coherent(next, if delivered then deliveries + [Delivery(id, now)] else deliveries, period, max, now)
  {
    var kept := Live(table, now);
    PruneKeeps(table, deliveries, period, max, clock, now);
    ListedIsRecent(kept, deliveries, |deliveries| - |table|, period, now, id);
    if !Listed(kept, id) {
      DeliverKeeps(kept, deliveries, period, max, now, id);
    }
  }

  /** What crowding means: the `max` deliveries right after the first are of other ids, all different. */
  lemma CrowdedMeaning(deliveries: seq<Delivery>, i: nat, j: nat, max: nat)
    requires Crowded(deliveries, i, j, max) && j <= |deliveries|
    ensures var between := set k | i < k < j :: deliveries[k].id;
            |between - {deliveries[i].id}| >= max
  {
    var between := set k | i < k < j :: deliveries[k].id;
    var first := IdsOf(deliveries, i + 1, i + 1 + max);
    assert first <= between - {deliveries[i].id};
    assert between - {deliveries[i].id} == first + (between - {deliveries[i].id} - first);
  }

  /** The ids of a stretch of distinct deliveries are as many as the deliveries. */
  lemma {:induction false} IdsOf(deliveries: seq<Delivery>, lo: nat, hi: nat) returns (ids: set<string>)
    requires Distinct(deliveries, lo, hi)
    ensures ids == (set k | lo <= k < hi :: deliveries[k].id) && |ids| == hi - lo
    decreases hi
  {
    if lo == hi {
      ids := {};
    } else {
      var earlier := IdsOf(deliveries, lo, hi - 1);
      ids := earlier + {deliveries[hi - 1].id};
    }
  }
}
