/** Reference-counted presence in Redis: the join, leave, renew and cleanup scripts, each one atomic step. */
module RedisPresence {
  import opened Options

  /** The value of one field of the connections hash. */
  datatype Connection = Connection(actorKey: string, member: string)

  // ---------------------------------------------------------------- the simple model: who is connected

  function ConnectionsOf(connections: map<string, Connection>, actor: string): set<string> {
    set id | id in connections && connections[id].actorKey == actor
  }

  /** The actors that have a connection. */
  function Live(connections: map<string, Connection>): set<string> {
    set id | id in connections :: connections[id].actorKey
  }

  lemma LiveIffConnected(connections: map<string, Connection>, actor: string)
    ensures actor in Live(connections) <==> |ConnectionsOf(connections, actor)| > 0
  {
    if actor in Live(connections) {
      var id :| id in connections && connections[id].actorKey == actor;
      assert id in ConnectionsOf(connections, actor);
    }
    if |ConnectionsOf(connections, actor)| > 0 {
      var id :| id in ConnectionsOf(connections, actor);
    }
  }

  lemma CountAfterAdd(connections: map<string, Connection>, id: string, c: Connection, actor: string)
    requires id !in connections
    ensures |ConnectionsOf(connections[id := c], actor)| ==
            |ConnectionsOf(connections, actor)| + if c.actorKey == actor then 1 else 0
  {
    assert ConnectionsOf(connections[id := c], actor) ==
           ConnectionsOf(connections, actor) + if c.actorKey == actor then {id} else {};
  }

  lemma CountAfterRemove(connections: map<string, Connection>, id: string, actor: string)
    requires id in connections
    ensures |ConnectionsOf(connections - {id}, actor)| ==
            |ConnectionsOf(connections, actor)| - if connections[id].actorKey == actor then 1 else 0
  {
    assert ConnectionsOf(connections - {id}, actor) ==
           ConnectionsOf(connections, actor) - if connections[id].actorKey == actor then {id} else {};
  }

  function CountOf(actors: map<string, int>, actor: string): int {
    if actor in actors then actors[actor] else 0
  }

  /** The stored count is the number of the actor's connections, and is stored only while there is one. */
  ghost predicate CountsFor(connections: map<string, Connection>, actors: map<string, int>, members: map<string, string>, actor: string) {
    && CountOf(actors, actor) == |ConnectionsOf(connections, actor)|
    && (actor in actors <==> actor in Live(connections))
    && (actor in members <==> actor in Live(connections))
  }

  ghost predicate Counts(connections: map<string, Connection>, actors: map<string, int>, members: map<string, string>) {
    forall actor: string :: CountsFor(connections, actors, members, actor)
  }

  lemma LiveAfterAdd(connections: map<string, Connection>, id: string, c: Connection)
    requires id !in connections
    ensures Live(connections[id := c]) == Live(connections) + {c.actorKey}
  {
    forall a ensures a in Live(connections[id := c]) <==> a in Live(connections) + {c.actorKey} {
      LiveIffConnected(connections, a);
      LiveIffConnected(connections[id := c], a);
      CountAfterAdd(connections, id, c, a);
    }
  }

  /** Incrementing the actor's count keeps the counts, and the count is one exactly for an actor who was away. */
  lemma AddConnection(connections: map<string, Connection>, actors: map<string, int>, members: map<string, string>,
                      id: string, c: Connection)
    requires Counts(connections, actors, members) && id !in connections
    ensures var count := CountOf(actors, c.actorKey) + 1;
            && Counts(connections[id := c], actors[c.actorKey := count],
                      if count == 1 then members[c.actorKey := c.member] else members)
            && (count == 1 <==> c.actorKey !in Live(connections))
  {
    LiveAfterAdd(connections, id, c);
    LiveIffConnected(connections, c.actorKey);
    assert CountsFor(connections, actors, members, c.actorKey);
    var count := CountOf(actors, c.actorKey) + 1;
    var connected, counted := connections[id := c], actors[c.actorKey := count];
    var listed := if count == 1 then members[c.actorKey := c.member] else members;
    forall a: string ensures CountsFor(connected, counted, listed, a) {
      assert CountsFor(connections, actors, members, a);
      CountAfterAdd(connections, id, c, a);
    }
  }

  /** Decrementing the actor's count, and dropping it at zero, keeps the counts. */
  lemma RemoveConnection(connections: map<string, Connection>, actors: map<string, int>, members: map<string, string>, id: string,
                         counted: map<string, int>, listed: map<string, string>, last: bool)
    requires Counts(connections, actors, members) && id in connections
    requires last == (CountOf(actors, connections[id].actorKey) - 1 <= 0)
    requires var actor := connections[id].actorKey;
             && counted == (if last then actors - {actor} else actors[actor := CountOf(actors, actor) - 1])
             && listed == if last then members - {actor} else members
    ensures Counts(connections - {id}, counted, listed)
    ensures last <==> connections[id].actorKey !in Live(connections - {id})
    ensures Live(connections - {id}) == if last then Live(connections) - {connections[id].actorKey} else Live(connections)
  {
    var actor, connected := connections[id].actorKey, connections - {id};
    assert actor in Live(connections);
    forall a: string
      ensures a in Live(connected) <==> a in Live(connections) && !(last && a == actor)
      ensures CountsFor(connected, counted, listed, a)
    {
      assert CountsFor(connections, actors, members, a);
      CountAfterRemove(connections, id, a);
      LiveIffConnected(connections, a);
      LiveIffConnected(connections - {id}, a);
    }
  }

  lemma MembersAreLive(connections: map<string, Connection>, actors: map<string, int>, members: map<string, string>)
    requires Counts(connections, actors, members)
    ensures members.Keys == Live(connections)
  {
    forall a ensures a in members <==> a in Live(connections) {
      assert CountsFor(connections, actors, members, a);
    }
  }

  // ---------------------------------------------------------------- what the scripts announce over a run

  datatype Event = Arrived(actor: string) | Departed(actor: string)

  /** Whether the last announcement about the actor was an arrival. */
  function Announced(history: seq<Event>, actor: string): bool {
    if |history| == 0 then false
    else
      var last := history[|history| - 1];
      if last.actor == actor then last.Arrived? else Announced(history[..|history| - 1], actor)
  }

  /** An arrival is announced only of an actor who is away, a departure only of one who is there. */
  ghost predicate Consistent(history: seq<Event>) {
    forall i :: 0 <= i < |history| ==> history[i].Arrived? != Announced(history[..i], history[i].actor)
  }

  ghost predicate Faithful(history: seq<Event>, live: set<string>) {
    Consistent(history) && forall actor :: actor in live <==> Announced(history, actor)
  }

  lemma Announce(history: seq<Event>, live: set<string>, event: Event)
    requires Faithful(history, live)
    requires event.Arrived? <==> event.actor !in live
    ensures Faithful(history + [event], if event.Arrived? then live + {event.actor} else live - {event.actor})
  {
    var longer := history + [event];
    assert longer[..|history|] == history;
    forall i | 0 <= i < |longer| ensures longer[i].Arrived? != Announced(longer[..i], longer[i].actor) {
      if i < |history| {
        assert longer[..i] == history[..i];
      }
    }
  }

  lemma {:induction false} UnannouncedBetween(history: seq<Event>, actor: string, i: nat, j: nat)
    requires i <= j <= |history| && forall k :: i <= k < j ==> history[k].actor != actor
    ensures Announced(history[..j], actor) == Announced(history[..i], actor)
    decreases j
  {
    if i < j {
      assert history[..j][..j - 1] == history[..j - 1];
      UnannouncedBetween(history, actor, i, j - 1);
    }
  }

  /** Each actor's announcements strictly alternate, beginning with an arrival. */
  lemma AnnouncementsAlternate(history: seq<Event>, live: set<string>, i: nat, j: nat)
    requires Faithful(history, live) && i < j < |history|
    requires history[i].actor == history[j].actor
    requires forall k :: i < k < j ==> history[k].actor != history[i].actor
    ensures history[i].Arrived? != history[j].Arrived?
    ensures (forall k :: 0 <= k < i ==> history[k].actor != history[i].actor) ==> history[i].Arrived?
  {
    UnannouncedBetween(history, history[i].actor, i + 1, j);
    assert history[..i + 1][..i] == history[..i];
    if forall k :: 0 <= k < i ==> history[k].actor != history[i].actor {
      UnannouncedBetween(history, history[i].actor, 0, i);
      assert history[..0] == [];
    }
  }

  /** The last announcement about an actor tells whether the actor is live. */
  lemma LastAnnouncement(history: seq<Event>, live: set<string>, i: nat)
    requires Faithful(history, live) && i < |history|
    requires forall k :: i < k < |history| ==> history[k].actor != history[i].actor
    ensures history[i].actor in live <==> history[i].Arrived?
  {
    UnannouncedBetween(history, history[i].actor, i + 1, |history|);
    assert history[..|history|] == history;
    assert history[..i + 1][..i] == history[..i];
  }

  // ---------------------------------------------------------------- the invariant of one channel, on values

  ghost predicate Coherent(connections: map<string, Connection>, leases: map<string, int>, actors: map<string, int>,
                           members: map<string, string>, history: seq<Event>)
  {
    leases.Keys == connections.Keys && Counts(connections, actors, members) && Faithful(history, Live(connections))
  }

  lemma JoinCoherent(connections: map<string, Connection>, leases: map<string, int>, actors: map<string, int>,
                     members: map<string, string>, history: seq<Event>, id: string, c: Connection, expiresAt: int,
                     count: int, listed: map<string, string>, told: seq<Event>)
    requires Coherent(connections, leases, actors, members, history) && id !in connections
    requires count == CountOf(actors, c.actorKey) + 1
    requires listed == if count == 1 then members[c.actorKey := c.member] else members
    requires told == if count == 1 then history + [Arrived(c.actorKey)] else history
    ensures Coherent(connections[id := c], leases[id := expiresAt], actors[c.actorKey := count], listed, told)
    ensures count == 1 <==> c.actorKey !in Live(connections)
  {
    AddConnection(connections, actors, members, id, c);
    LiveAfterAdd(connections, id, c);
    if c.actorKey !in Live(connections) {
      Announce(history, Live(connections), Arrived(c.actorKey));
    } else {
      assert Live(connections) + {c.actorKey} == Live(connections);
    }
  }

  lemma DropCoherent(connections: map<string, Connection>, leases: map<string, int>, actors: map<string, int>,
                     members: map<string, string>, history: seq<Event>, id: string,
                     counted: map<string, int>, listed: map<string, string>, told: seq<Event>, last: bool)
    requires Coherent(connections, leases, actors, members, history) && id in connections
    requires last == (CountOf(actors, connections[id].actorKey) - 1 <= 0)
    requires var actor := connections[id].actorKey;
             && counted == (if last then actors - {actor} else actors[actor := CountOf(actors, actor) - 1])
             && listed == (if last then members - {actor} else members)
             && told == if last then history + [Departed(actor)] else history
    ensures Coherent(connections - {id}, leases - {id}, counted, listed, told)
    ensures last <==> connections[id].actorKey !in Live(connections - {id})
    ensures Live(connections - {id}) == if last then Live(connections) - {connections[id].actorKey} else Live(connections)
  {
    RemoveConnection(connections, actors, members, id, counted, listed, last);
    assert connections[id].actorKey in Live(connections);
    if last {
      Announce(history, Live(connections), Departed(connections[id].actorKey));
    }
  }

  // ---------------------------------------------------------------- the five Redis keys of one channel

  class Channel {
    /** The channel's field of the shared channels hash. */
    var destination: Option<string>
    var connections: map<string, Connection>
    var leases: map<string, int>
    var actors: map<string, int>
    var members: map<string, string>
    /** Every `first` join and every departure reported so far. */
    ghost var history: seq<Event>

    ghost predicate Counted()
      reads this
    {
      Coherent(connections, leases, actors, members, history)
    }

    /** The channel is registered iff it has connections. */
    ghost predicate Valid()
      reads this
    {
      Counted() && (destination.Some? <==> connections != map[])
    }

    constructor ()
      ensures Valid() && connections == map[] && leases == map[] && history == []
    {
      destination, connections, leases, actors, members, history := None, map[], map[], map[], map[], [];
    }

    method Join(id: string, dest: string, actorKey: string, expiresAt: int, member: string)
      returns (first: bool, present: map<string, string>)
      requires Valid()
      modifies this
      ensures Valid()
      ensures id in old(connections) ==> connections == old(connections) && destination == old(destination)
      ensures id !in old(connections) ==>
                connections == old(connections)[id := Connection(actorKey, member)] && destination == Some(dest)
      ensures leases == old(leases)[id := expiresAt]
      ensures first <==> id !in old(connections) && actorKey !in Live(old(connections))
      ensures members == if first then old(members)[actorKey := member] else old(members)
      ensures present == members && present.Keys == Live(connections)
      ensures history == if first then old(history) + [Arrived(actorKey)] else old(history)
    {
      if id in connections {
        leases := leases[id := expiresAt];
        MembersAreLive(connections, actors, members);
        return false, members;
      }
      first := Add(id, dest, actorKey, expiresAt, member);
      MembersAreLive(connections, actors, members);
      return first, members;
    }

    /** The part of the join script for a connection that is not known. */
    method Add(id: string, dest: string, actorKey: string, expiresAt: int, member: string) returns (first: bool)
      requires Counted() && id !in connections
      modifies this
      ensures Counted()
      ensures connections == old(connections)[id := Connection(actorKey, member)] && destination == Some(dest)
      ensures leases == old(leases)[id := expiresAt]
      ensures first <==> actorKey !in Live(old(connections))
      ensures members == if first then old(members)[actorKey := member] else old(members)
      ensures history == if first then old(history) + [Arrived(actorKey)] else old(history)
    {
      var count := CountOf(actors, actorKey) + 1;
      first := count == 1;
      var listed := if first then members[actorKey := member] else members;
      ghost var told := if first then history + [Arrived(actorKey)] else history;
      JoinCoherent(connections, leases, actors, members, history, id, Connection(actorKey, member), expiresAt, count, listed, told);
      destination, connections := Some(dest), connections[id := Connection(actorKey, member)];
      leases, actors, members, history := leases[id := expiresAt], actors[actorKey := count], listed, told;
    }

    /** HDEL of the connection and its lease, and the decrement that drops an actor at zero. */
    method Drop(id: string) returns (last: bool)
      requires Counted() && id in connections
      modifies this`connections, this`leases, this`actors, this`members, this`history
      ensures Counted()
      ensures connections == old(connections) - {id} && leases == old(leases) - {id}
      ensures last <==> old(connections)[id].actorKey !in Live(connections)
      ensures Live(connections) == if last then Live(old(connections)) - {old(connections)[id].actorKey} else Live(old(connections))
      ensures members == if last then old(members) - {old(connections)[id].actorKey} else old(members)
      ensures history == if last then old(history) + [Departed(old(connections)[id].actorKey)] else old(history)
    {
      var actor := connections[id].actorKey;
      var count := CountOf(actors, actor) - 1;
      last := count <= 0;
      var counted := if last then actors - {actor} else actors[actor := count];
      var listed := if last then members - {actor} else members;
      ghost var told := if last then history + [Departed(actor)] else history;
      DropCoherent(connections, leases, actors, members, history, id, counted, listed, told, last);
      connections, leases, actors, members, history := connections - {id}, leases - {id}, counted, listed, told;
    }

    /** HLEN == 0: the channel is unregistered and its keys deleted. */
    method DropIfEmpty()
      requires Counted()
      requires connections != map[] ==> destination.Some?
      modifies this`destination, this`leases, this`actors, this`members
      ensures Valid() && leases == old(leases)
      ensures destination == if connections == map[] then None else old(destination)
    {
      if |connections| == 0 {
        destination, leases, actors, members := None, map[], map[], map[];
      }
    }

    method Leave(id: string) returns (last: bool, member: Option<string>)
      requires Valid()
      modifies this
      ensures Valid()
      ensures connections == old(connections) - {id} && leases == old(leases) - {id}
      ensures member == if id in old(connections) then Some(old(connections)[id].member) else None
      ensures last <==> id in old(connections) && old(connections)[id].actorKey !in Live(connections)
      ensures history == if last then old(history) + [Departed(old(connections)[id].actorKey)] else old(history)
      ensures destination == if connections == map[] then None else old(destination)
    {
      if id !in connections {
        assert connections == connections - {id} && leases == leases - {id};
        return false, None;
      }
      member := Some(connections[id].member);
      last := Drop(id);
      DropIfEmpty();
    }

    method Renew(id: string, expiresAt: int) returns (renewed: bool)
      requires Valid()
      modifies this`leases
      ensures Valid()
      ensures renewed == (id in connections)
      ensures leases == if renewed then old(leases)[id := expiresAt] else old(leases)
    {
      if id in connections {
        leases := leases[id := expiresAt];
        return true;
      }
      return false;
    }

    /** Removes the longest expired connections, at most `limit`, and lists one departure for each actor that left. */
    method Cleanup(now: int, limit: nat) returns (left: seq<Connection>, ghost removed: set<string>)
      requires Valid()
      modifies this
      ensures Valid()
      ensures Swept(old(connections), old(leases), connections, leases, now, limit, removed, left)
      ensures history == old(history) + Departures(left)
      ensures destination == if connections == map[] then None else old(destination)
    {
      var expired := RangeByScore(leases, now, limit);
      left, removed := [], {};
      ghost var live := Live(connections);
      NothingRemoved(connections, leases);
      for i := 0 to |expired|
        invariant Counted() && destination == old(destination)
        invariant removed == Elements(expired[..i])
        invariant connections == old(connections) - removed && leases == old(leases) - removed
        invariant Listed(left, live, connections) && Taken(left, old(connections), removed)
        invariant history == old(history) + Departures(left)
      {
        var id := expired[i];
        OneMore(old(connections), old(leases), removed, expired, i);
        if id in connections {
          ghost var before := left;
          left := CleanupOne(id, left, live, old(history));
          TakenOneMore(before, left, old(connections), removed, id);
        } else {
          // A lease without a connection would be dropped here: there is none.
          assert false;
        }
        removed := removed + {id};
      }
      assert expired[..|expired|] == expired;
      DropIfEmpty();
    }

    /** One round of the cleanup loop. */
    method CleanupOne(id: string, left: seq<Connection>, ghost live: set<string>, ghost before: seq<Event>)
      returns (listed: seq<Connection>)
      requires Counted() && id in connections
      requires Listed(left, live, connections) && history == before + Departures(left)
      modifies this`connections, this`leases, this`actors, this`members, this`history
      ensures Counted()
      ensures connections == old(connections) - {id} && leases == old(leases) - {id}
      ensures Listed(listed, live, connections) && history == before + Departures(listed)
      ensures listed == left || listed == left + [old(connections)[id]]
    {
      var connection := connections[id];
      ghost var earlier := connections;
      var last := Drop(id);
      ListedAfter(left, live, earlier, connections, connection, last);
      listed := if last then left + [connection] else left;
    }
  }

  lemma ListedAfter(left: seq<Connection>, live: set<string>, before: map<string, Connection>, after: map<string, Connection>,
                    c: Connection, last: bool)
    requires Listed(left, live, before) && exists id :: id in before && before[id] == c
    requires Live(after) == if last then Live(before) - {c.actorKey} else Live(before)
    ensures Listed(if last then left + [c] else left, live, after)
    ensures Departures(left + [c]) == Departures(left) + [Departed(c.actorKey)]
  {
    assert c.actorKey in Live(before);
    ActorsOfAppend(left, c);
  }

  /** `left` lists each actor who was live and no longer is, once. */
  ghost predicate Listed(left: seq<Connection>, live: set<string>, connections: map<string, Connection>) {
    ActorsOf(left) == live - Live(connections) && Live(connections) <= live && Distinct(left)
  }

  lemma NothingRemoved(connections: map<string, Connection>, leases: map<string, int>)
    ensures connections - {} == connections && leases - {} == leases
  {
  }

  lemma OneMore(connections: map<string, Connection>, leases: map<string, int>, removed: set<string>, expired: seq<string>, i: nat)
    requires i < |expired| && removed == Elements(expired[..i])
    requires (forall k :: 0 <= k < |expired| ==> expired[k] in leases) && forall j, k :: 0 <= j < k < |expired| ==> expired[j] != expired[k]
    requires leases.Keys == connections.Keys
    ensures connections - removed - {expired[i]} == connections - (removed + {expired[i]})
    ensures leases - removed - {expired[i]} == leases - (removed + {expired[i]})
    ensures Elements(expired[..i + 1]) == removed + {expired[i]}
    ensures expired[i] in connections - removed
  {
    RemoveOneMore(connections, removed, expired[i]);
    RemoveOneMore(leases, removed, expired[i]);
    assert expired[..i + 1] == expired[..i] + [expired[i]];
  }

  lemma RemoveOneMore<V>(m: map<string, V>, removed: set<string>, id: string)
    ensures m - removed - {id} == m - (removed + {id})
  {
  }

  function Elements(ids: seq<string>): set<string> {
    set id | id in ids
  }

  function ActorsOf(left: seq<Connection>): set<string> {
    set c | c in left :: c.actorKey
  }

  ghost predicate Distinct(left: seq<Connection>) {
    forall i, j :: 0 <= i < j < |left| ==> left[i].actorKey != left[j].actorKey
  }

  lemma ActorsOfAppend(left: seq<Connection>, c: Connection)
    ensures ActorsOf(left + [c]) == ActorsOf(left) + {c.actorKey}
    ensures Distinct(left) && c.actorKey !in ActorsOf(left) ==> Distinct(left + [c])
  {
    forall a ensures a in ActorsOf(left + [c]) <==> a in ActorsOf(left) + {c.actorKey} {
      if a in ActorsOf(left) {
        var d :| d in left && d.actorKey == a;
        assert d in left + [c];
      }
      assert c in left + [c];
    }
    assert forall i :: 0 <= i < |left| ==> left[i].actorKey in ActorsOf(left);
  }

  function Departures(left: seq<Connection>): seq<Event> {
    seq(|left|, i requires 0 <= i < |left| => Departed(left[i].actorKey))
  }

  function Due(leases: map<string, int>, now: int): set<string> {
    set id | id in leases && leases[id] <= now
  }

  /** The chosen leases are due, as many as the limit allows, and none left behind is older. */
  ghost predicate Oldest(leases: map<string, int>, now: int, limit: nat, chosen: set<string>) {
    && chosen <= Due(leases, now)
    && |chosen| == (if |Due(leases, now)| <= limit then |Due(leases, now)| else limit)
    && forall a, b :: a in chosen && b in Due(leases, now) - chosen ==> leases[a] <= leases[b]
  }

  lemma {:induction false} LeastExists(leases: map<string, int>, ids: set<string>)
    requires ids != {} && ids <= leases.Keys
    ensures exists a :: a in ids && forall b :: b in ids ==> leases[a] <= leases[b]
    decreases |ids|
  {
    var x :| x in ids;
    if ids == {x} {
      assert forall b :: b in ids ==> b == x;
    } else {
      LeastExists(leases, ids - {x});
      var a :| a in ids - {x} && forall b :: b in ids - {x} ==> leases[a] <= leases[b];
      var least := if leases[x] <= leases[a] then x else a;
      assert forall b :: b in ids ==> b == x || b in ids - {x};
      assert least in ids && forall b :: b in ids ==> leases[least] <= leases[b];
    }
  }

  /** `ZRANGEBYSCORE leases -inf now LIMIT 0 limit`. */
  method RangeByScore(leases: map<string, int>, now: int, limit: nat) returns (ids: seq<string>)
    ensures forall i :: 0 <= i < |ids| ==> ids[i] in Due(leases, now)
    ensures forall i, j :: 0 <= i < j < |ids| ==> ids[i] != ids[j]
    ensures Oldest(leases, now, limit, Elements(ids))
  {
    ids := [];
    var rest := Due(leases, now);
    while rest != {} && |ids| < limit
      invariant Chosen(leases, Due(leases, now), rest, ids) && |ids| <= limit
      decreases rest
    {
      LeastExists(leases, rest);
      var id :| id in rest && forall b :: b in rest ==> leases[id] <= leases[b];
      ChooseLeast(leases, Due(leases, now), rest, ids, id);
      ids, rest := ids + [id], rest - {id};
    }
    ChosenAreOldest(leases, now, limit, rest, ids);
  }

  /** The ids taken from the due ones so far, the oldest first, and those that rest. */
  ghost predicate Chosen(leases: map<string, int>, due: set<string>, rest: set<string>, ids: seq<string>) {
    && Elements(ids) + rest == due && Elements(ids) !! rest && due <= leases.Keys && |Elements(ids)| == |ids|
    && (forall i, j :: 0 <= i < j < |ids| ==> ids[i] != ids[j])
    && forall a, b :: a in Elements(ids) && b in rest ==> leases[a] <= leases[b]
  }

  lemma ChooseLeast(leases: map<string, int>, due: set<string>, rest: set<string>, ids: seq<string>, id: string)
    requires Chosen(leases, due, rest, ids) && id in rest && forall b :: b in rest ==> leases[id] <= leases[b]
    ensures Chosen(leases, due, rest - {id}, ids + [id])
  {
    OneMoreElement(ids, id);
    assert id !in Elements(ids) && (forall k :: 0 <= k < |ids| ==> ids[k] in Elements(ids));
    assert Elements(ids) + {id} + (rest - {id}) == Elements(ids) + rest;
  }

  lemma OneMoreElement(ids: seq<string>, id: string)
    ensures Elements(ids + [id]) == Elements(ids) + {id}
  {
  }

  lemma ChosenAreOldest(leases: map<string, int>, now: int, limit: nat, rest: set<string>, ids: seq<string>)
    requires Chosen(leases, Due(leases, now), rest, ids) && |ids| <= limit && (rest == {} || |ids| == limit)
    ensures Oldest(leases, now, limit, Elements(ids))
    ensures forall i :: 0 <= i < |ids| ==> ids[i] in Due(leases, now)
  {
    assert |Due(leases, now)| == |Elements(ids)| + |rest|;
    assert Due(leases, now) - Elements(ids) == rest;
    assert forall k :: 0 <= k < |ids| ==> ids[k] in Elements(ids);
  }

  // ---------------------------------------------------------------- all channels

  ghost predicate Separate(channels: seq<Channel>) {
    forall i, j :: 0 <= i < j < |channels| ==> channels[i] != channels[j]
  }

  ghost predicate AllValid(channels: seq<Channel>)
    reads set c | c in channels
  {
    Separate(channels) && forall i :: 0 <= i < |channels| ==> channels[i].Valid()
  }

  ghost function Histories(channels: seq<Channel>): seq<seq<Event>>
    reads set c | c in channels
  {
    seq(|channels|, i requires 0 <= i < |channels| reads set c | c in channels => channels[i].history)
  }

  /** Nothing that was announced is taken back. */
  ghost predicate Continues(before: seq<seq<Event>>, after: seq<seq<Event>>) {
    |before| == |after| && forall i :: 0 <= i < |before| ==> before[i] <= after[i]
  }

  /** A script that another request runs; one on no channel does nothing. */
  datatype Script =
    | JoinScript(channel: nat, id: string, destination: string, actorKey: string, expiresAt: int, member: string)
    | LeaveScript(channel: nat, id: string)
    | RenewScript(channel: nat, id: string, expiresAt: int)

  method RunScript(channels: seq<Channel>, script: Script)
    requires AllValid(channels)
    modifies channels
    ensures AllValid(channels) && Continues(old(Histories(channels)), Histories(channels))
  {
    if script.channel < |channels| {
      var channel := channels[script.channel];
      match script
      case JoinScript(_, id, destination, actorKey, expiresAt, member) =>
        var _, _ := channel.Join(id, destination, actorKey, expiresAt, member);
      case LeaveScript(_, id) =>
        var _, _ := channel.Leave(id);
      case RenewScript(_, id, expiresAt) =>
        var _ := channel.Renew(id, expiresAt);
    }
  }

  method RunScripts(channels: seq<Channel>, scripts: seq<Script>)
    requires AllValid(channels)
    modifies channels
    ensures AllValid(channels) && Continues(old(Histories(channels)), Histories(channels))
  {
    for i := 0 to |scripts|
      invariant AllValid(channels) && Continues(old(Histories(channels)), Histories(channels))
    {
      RunScript(channels, scripts[i]);
    }
  }

  /** The connections and leases of a channel at one moment. */
  datatype Content = Content(connections: map<string, Connection>, leases: map<string, int>)

  /** The sweep of one channel: what its cleanup script found and left, what it removed and whom it listed. */
  datatype Sweep = Sweep(channel: nat, found: Content, left: Content, removed: set<string>, departed: seq<Connection>)
  {
    ghost predicate Right(now: int, limit: nat) {
      Swept(found.connections, found.leases, left.connections, left.leases, now, limit, removed, departed)
    }
  }

  /**
   * Reads which channels are registered, then runs the cleanup script on each of them. Between any two scripts other
   * requests may run theirs: `others[k]` runs right before the cleanup of the `k`-th registered channel.
   */
  method CleanupExpired(channels: seq<Channel>, now: int, limit: nat, others: seq<seq<Script>>)
    returns (departed: seq<seq<Connection>>, ghost sweeps: seq<Sweep>)
    requires AllValid(channels)
    modifies channels
    ensures AllValid(channels) && Continues(old(Histories(channels)), Histories(channels))
    ensures |departed| == |sweeps| && forall k :: 0 <= k < |sweeps| ==> departed[k] == sweeps[k].departed && sweeps[k].Right(now, limit)
    ensures forall i :: 0 <= i < |channels| ==>
              (old(channels[i].destination).Some? <==> exists k :: 0 <= k < |sweeps| && sweeps[k].channel == i)
  {
    var registered := Registered(channels);
    assert forall j :: 0 <= j < |registered| ==> registered[j] in registered;
    departed, sweeps := SweepEach(channels, registered, now, limit, others);
    SweptAll(registered, sweeps);
  }

  method SweepEach(channels: seq<Channel>, registered: seq<nat>, now: int, limit: nat, others: seq<seq<Script>>)
    returns (departed: seq<seq<Connection>>, ghost sweeps: seq<Sweep>)
    requires AllValid(channels) && forall j :: 0 <= j < |registered| ==> registered[j] < |channels|
    modifies channels
    ensures AllValid(channels) && Continues(old(Histories(channels)), Histories(channels))
    ensures SweptUntil(registered, departed, sweeps, now, limit)
  {
    departed, sweeps := [], [];
    for k := 0 to |registered|
      invariant AllValid(channels) && Continues(old(Histories(channels)), Histories(channels))
      invariant SweptUntil(registered[..k], departed, sweeps, now, limit)
    {
      var left, sweep := SweepOne(channels, registered[k], now, limit, if k < |others| then others[k] else []);
      SweptOneMore(registered, k, departed, sweeps, now, limit, left, sweep);
      departed, sweeps := departed + [left], sweeps + [sweep];
    }
    assert registered[..|registered|] == registered;
  }

  ghost predicate SweptUntil(swept: seq<nat>, departed: seq<seq<Connection>>, sweeps: seq<Sweep>, now: int, limit: nat) {
    && |sweeps| == |departed| == |swept|
    && forall k :: 0 <= k < |sweeps| ==> departed[k] == sweeps[k].departed && sweeps[k].Right(now, limit) && sweeps[k].channel == swept[k]
  }

  lemma SweptOneMore(registered: seq<nat>, k: nat, departed: seq<seq<Connection>>, sweeps: seq<Sweep>, now: int, limit: nat,
                     left: seq<Connection>, sweep: Sweep)
    requires k < |registered| && SweptUntil(registered[..k], departed, sweeps, now, limit)
    requires sweep.departed == left && sweep.Right(now, limit) && sweep.channel == registered[k]
    ensures SweptUntil(registered[..k + 1], departed + [left], sweeps + [sweep], now, limit)
  {
  }

  lemma SweptAll(registered: seq<nat>, sweeps: seq<Sweep>)
    requires |sweeps| == |registered| && forall k :: 0 <= k < |sweeps| ==> sweeps[k].channel == registered[k]
    ensures forall i :: i in registered <==> exists k :: 0 <= k < |sweeps| && sweeps[k].channel == i
  {
    forall i | i in registered ensures exists k :: 0 <= k < |sweeps| && sweeps[k].channel == i {
      var k :| 0 <= k < |registered| && registered[k] == i;
      assert sweeps[k].channel == i;
    }
  }

  /** One round of the loop: what others run before it, and the cleanup script of one channel. */
  method SweepOne(channels: seq<Channel>, i: nat, now: int, limit: nat, others: seq<Script>)
    returns (departed: seq<Connection>, ghost sweep: Sweep)
    requires AllValid(channels) && i < |channels|
    modifies channels
    ensures AllValid(channels) && Continues(old(Histories(channels)), Histories(channels))
    ensures sweep.Right(now, limit) && sweep.channel == i && sweep.departed == departed
  {
    RunScripts(channels, others);
    var channel := channels[i];
    ghost var found := Content(channel.connections, channel.leases);
    ghost var removed;
    departed, removed := channel.Cleanup(now, limit);
    sweep := Sweep(i, found, Content(channel.connections, channel.leases), removed, departed);
  }

  /** `HGETALL` of the shared channels hash. */
  method Registered(channels: seq<Channel>) returns (registered: seq<nat>)
    ensures forall i :: i in registered <==> 0 <= i < |channels| && channels[i].destination.Some?
  {
    registered := [];
    for i := 0 to |channels|
      invariant forall k :: k in registered <==> 0 <= k < i && channels[k].destination.Some?
    {
      if channels[i].destination.Some? {
        registered := registered + [i];
      }
    }
  }

  /** The chosen leases and their connections are gone, and each actor that has left with them is listed once. */
  ghost predicate Swept(connections: map<string, Connection>, leases: map<string, int>,
                        connections': map<string, Connection>, leases': map<string, int>,
                        now: int, limit: nat, removed: set<string>, left: seq<Connection>)
  {
    && Oldest(leases, now, limit, removed)
    && connections' == connections - removed && leases' == leases - removed
    && Listed(left, Live(connections), connections') && Taken(left, connections, removed)
  }

  /** Every entry of the list was the connection of a lease that was removed. */
  ghost predicate Taken(left: seq<Connection>, connections: map<string, Connection>, removed: set<string>) {
    forall i :: 0 <= i < |left| ==> exists id :: id in removed && id in connections && connections[id] == left[i]
  }

  lemma TakenOneMore(left: seq<Connection>, listed: seq<Connection>, connections: map<string, Connection>, removed: set<string>, id: string)
    requires Taken(left, connections, removed) && id in connections && (listed == left || listed == left + [connections[id]])
    ensures Taken(listed, connections, removed + {id})
  {
    forall i | 0 <= i < |left| ensures exists k :: k in removed + {id} && k in connections && connections[k] == left[i] {
      var k :| k in removed && k in connections && connections[k] == left[i];
      assert k in removed + {id};
    }
  }

  /**
   * What a sweep removes, by the clock: no lease that is still in the future, at most `limit` of the others, and if one
   * of those is left then `limit` were removed that are no newer.
   */
  lemma SweptByTheClock(connections: map<string, Connection>, leases: map<string, int>, connections': map<string, Connection>,
                        leases': map<string, int>, now: int, limit: nat, removed: set<string>, left: seq<Connection>)
    requires Swept(connections, leases, connections', leases', now, limit, removed, left)
    ensures forall id :: id in leases && leases[id] > now ==> id in leases' && leases'[id] == leases[id]
    ensures |removed| <= limit && forall id :: id in removed ==> id in leases && leases[id] <= now && id !in leases'
    ensures forall id :: id in leases' && leases'[id] <= now ==>
              |removed| == limit && forall r :: r in removed ==> leases[r] <= leases'[id]
  {
    var due := Due(leases, now);
    if |due| <= limit {
      SameSize(removed, due);
    }
  }

  lemma SameSize(a: set<string>, b: set<string>)
    requires a <= b && |a| == |b|
    ensures a == b
  {
    assert |b - a| == |b| - |a|;
  }
}
