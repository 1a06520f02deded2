/** The compiler's validation of the finished manifest graph: depth-first searches over mutable visited sets. */
module ManifestGraph {
  import opened Options

  datatype Scope = Singleton | Execution | Transient

  /** A dependency's target id is present iff it is a non-empty string. */
  datatype Provider = Provider(id: string, scope: Scope, capabilities: seq<string>, dependencies: seq<Option<string>>)

  type Graph = map<string, Provider>

  function Targets(dependencies: seq<Option<string>>): (targets: seq<string>)
    ensures forall t :: t in targets <==> t != "" && Some(t) in dependencies
  {
    if |dependencies| == 0 then []
    else
      assert dependencies == [dependencies[0]] + dependencies[1..];
      (if dependencies[0].Some? && dependencies[0].value != "" then [dependencies[0].value] else []) +
      Targets(dependencies[1..])
  }

  /** `new Map(providers.map(p => [p.id, p]))`: a later provider replaces an earlier one with its id. */
  function ById(providers: seq<Provider>): (g: Graph)
    ensures forall id :: id in g ==> g[id] in providers && g[id].id == id
    ensures forall p {:trigger p in providers} :: p in providers ==> p.id in g
  {
    if |providers| == 0 then map[]
    else
      var last := providers[|providers| - 1];
      assert providers == providers[..|providers| - 1] + [last];
      ById(providers[..|providers| - 1])[last.id := last]
  }

  // ---------------------------------------------------------------- walks

  ghost predicate Edge(g: Graph, a: string, b: string) {
    a in g && b in Targets(g[a].dependencies)
  }

  ghost predicate Walk(g: Graph, path: seq<string>) {
    forall i :: 0 <= i < |path| - 1 ==> Edge(g, path[i], path[i + 1])
  }

  ghost predicate Connects(g: Graph, path: seq<string>, from: string, to: string) {
    |path| > 0 && path[0] == from && path[|path| - 1] == to && Walk(g, path)
  }

  ghost predicate Reaches(g: Graph, from: string, to: string) {
    exists path :: Connects(g, path, from, to)
  }

  /** A walk among the graph's own nodes that returns to where it started. */
  ghost predicate Cycle(g: Graph, path: seq<string>) {
    |path| > 1 && Walk(g, path) && path[0] == path[|path| - 1] && path[0] in g
  }

  ghost predicate Leads(g: Graph, path: seq<string>, id: string) {
    Walk(g, path) && (|path| > 0 ==> Edge(g, path[|path| - 1], id))
  }

  /** A reported path is a walk of the graph whose last id already occurs in it. */
  ghost predicate Reported(g: Graph, path: seq<string>) {
    |path| > 1 && Walk(g, path) && path[|path| - 1] in g && path[|path| - 1] in path[..|path| - 1]
  }

  // ---------------------------------------------------------------- assertUnique

  /** The id that `assertUnique` reports: the first one that has been seen. */
  method AssertUnique(ids: seq<string>) returns (duplicate: Option<string>)
    ensures duplicate.None? <==> forall i, j :: 0 <= i < j < |ids| ==> ids[i] != ids[j]
    ensures duplicate.Some? ==> exists i, j :: 0 <= i < j < |ids| && ids[i] == ids[j] == duplicate.value &&
                                  forall p, q :: 0 <= p < q < j ==> ids[p] != ids[q]
  {
    var seen: set<string> := {};
    for i := 0 to |ids|
      invariant seen == set id | id in ids[..i]
      invariant forall p, q :: 0 <= p < q < i ==> ids[p] != ids[q]
    {
      if ids[i] in seen {
        var p :| 0 <= p < |ids[..i]| && ids[..i][p] == ids[i];
        assert ids[p] == ids[i];
        return Some(ids[i]);
      }
      seen := seen + {ids[i]};
      assert ids[..i + 1] == ids[..i] + [ids[i]];
    }
    return None;
  }

  // ---------------------------------------------------------------- assertAcyclicProviderGraph

  /** Every dependency of a listed node that is itself a node is listed before it. */
  ghost predicate DependenciesFirst(g: Graph, order: seq<string>) {
    forall i, t :: 0 <= i < |order| && order[i] in g && t in g && Edge(g, order[i], t) ==> t in order[..i]
  }

  function FirstIndex(order: seq<string>, id: string): (i: nat)
    requires id in order
    ensures i < |order| && order[i] == id && id !in order[..i]
  {
    if order[0] == id then 0
    else
      assert order == [order[0]] + order[1..];
      var i := 1 + FirstIndex(order[1..], id);
      assert order[..i] == [order[0]] + order[1..][..i - 1];
      i
  }

  /** Along an edge among listed nodes the position goes down. */
  lemma EdgeDescends(g: Graph, order: seq<string>, a: string, b: string)
    requires DependenciesFirst(g, order) && Edge(g, a, b) && b in g && a in order
    ensures b in order && FirstIndex(order, b) < FirstIndex(order, a)
  {
    var i := FirstIndex(order, a);
    assert b in order[..i];
    var k :| 0 <= k < i && order[k] == b;
    FirstIndexLeast(order, k);
  }

  lemma FirstIndexLeast(order: seq<string>, k: nat)
    requires k < |order|
    ensures FirstIndex(order, order[k]) <= k
  {
    var i := FirstIndex(order, order[k]);
    assert forall j :: 0 <= j < i ==> order[..i][j] == order[j] && order[j] in order[..i];
  }

  lemma {:induction false} WalkDescends(g: Graph, order: seq<string>, path: seq<string>, k: nat)
    requires DependenciesFirst(g, order) && Walk(g, path) && 0 < k < |path| && path[0] in order && path[|path| - 1] in g
    ensures path[k] in g && path[k] in order && FirstIndex(order, path[k]) < FirstIndex(order, path[0])
  {
    assert path[k] in g by {
      if k < |path| - 1 {
        assert Edge(g, path[k], path[k + 1]);
      }
    }
    assert Edge(g, path[k - 1], path[k]);
    if k > 1 {
      WalkDescends(g, order, path, k - 1);
    }
    EdgeDescends(g, order, path[k - 1], path[k]);
  }

  /** A graph whose nodes can all be listed with dependencies first has no cycle. */
  lemma ListedGraphIsAcyclic(g: Graph, order: seq<string>)
    requires DependenciesFirst(g, order) && forall id :: id in g ==> id in order
    ensures !exists path :: Cycle(g, path)
  {
    if path :| Cycle(g, path) {
      WalkDescends(g, order, path, |path| - 1);
    }
  }

  /** A node is listed when all its dependencies are. */
  lemma ListLast(g: Graph, order: seq<string>, id: string)
    requires DependenciesFirst(g, order) && id in g
    requires forall t :: t in Targets(g[id].dependencies) && t in g ==> t in order
    ensures DependenciesFirst(g, order + [id])
  {
    var longer := order + [id];
    forall i, t | 0 <= i < |longer| && longer[i] in g && t in g && Edge(g, longer[i], t) ensures t in longer[..i] {
      assert longer[..i] == if i < |order| then order[..i] else order;
    }
  }

  ghost predicate Searched(g: Graph, order: seq<string>, visiting: set<string>, visited: set<string>) {
    DependenciesFirst(g, order) && (forall id :: id in visited <==> id in order) && visited !! visiting
  }

  ghost predicate SameElements(ids: set<string>, path: seq<string>) {
    forall v :: v in ids <==> v in path
  }

  class AcyclicSearch {
    const g: Graph
    var visiting: set<string>
    var visited: set<string>
    /** The visited ids in the order in which they were finished. */
    ghost var order: seq<string>

    constructor (g: Graph)
      ensures this.g == g && visiting == {} && visited == {} && order == []
    {
      this.g, visiting, visited, order := g, {}, {}, [];
    }

    ghost predicate Finished()
      reads this
    {
      Searched(g, order, visiting, visited)
    }

    method Visit(id: string, path: seq<string>) returns (error: Option<seq<string>>)
      requires Finished() && SameElements(visiting, path) && visiting <= g.Keys
      requires Leads(g, path, id)
      modifies this
      ensures error.Some? ==> Reported(g, error.value)
      ensures error.None? ==> Finished() && visiting == old(visiting) && old(visited) <= visited && (id in g ==> id in visited)
      decreases g.Keys - visiting - visited, 0
    {
      if id in visiting {
        assert id in path && (path + [id])[..|path|] == path;
        return Some(path + [id]);
      }
      if id in visited {
        return None;
      }
      if id !in g {
        return None;
      }
      visiting := visiting + {id};
      assert SameElements(visiting, path + [id]);
      Shrinks(g, old(visiting), visited, id);
      error := VisitAll(Targets(g[id].dependencies), path + [id]);
      if error.Some? {
        return;
      }
      NodeIsFinished(g, order, old(visiting), visited, id, Targets(g[id].dependencies));
      visiting, visited, order := visiting - {id}, visited + {id}, order + [id];
      assert visiting == old(visiting);
      return None;
    }

    /** The loop over a provider's dependencies. */
    method VisitAll(targets: seq<string>, path: seq<string>) returns (error: Option<seq<string>>)
      requires Finished() && SameElements(visiting, path) && visiting <= g.Keys
      requires forall t :: t in targets && t in g ==> Leads(g, path, t)
      modifies this
      ensures error.Some? ==> Reported(g, error.value)
      ensures error.None? ==> Finished() && visiting == old(visiting) && old(visited) <= visited
      ensures error.None? ==> forall k :: 0 <= k < |targets| && targets[k] in g ==> targets[k] in visited
      decreases g.Keys - visiting - visited, 1
    {
      for i := 0 to |targets|
        invariant Finished() && visiting == old(visiting) && old(visited) <= visited
        invariant forall k :: 0 <= k < i && targets[k] in g ==> targets[k] in visited
      {
        if targets[i] in g {
          error := Visit(targets[i], path);
          if error.Some? {
            return;
          }
        }
      }
      return None;
    }
  }

  lemma NodeIsFinished(g: Graph, order: seq<string>, visiting: set<string>, visited: set<string>, id: string, targets: seq<string>)
    requires Searched(g, order, visiting + {id}, visited) && id in g && id !in visiting && targets == Targets(g[id].dependencies)
    requires forall k :: 0 <= k < |targets| && targets[k] in g ==> targets[k] in visited
    ensures Searched(g, order + [id], visiting, visited + {id})
  {
    ListLast(g, order, id);
  }

  lemma Shrinks(g: Graph, visiting: set<string>, visited: set<string>, id: string)
    requires id in g && id !in visiting && id !in visited
    ensures g.Keys - (visiting + {id}) - visited < g.Keys - visiting - visited
  {
    assert id in g.Keys - visiting - visited;
  }

  /** Reports a cycle iff the provider graph has one; the report is a walk that runs into itself. */
  method AssertAcyclicProviderGraph(providers: seq<Provider>) returns (error: Option<seq<string>>)
    ensures error.Some? <==> exists path :: Cycle(ById(providers), path)
    ensures error.Some? ==> Reported(ById(providers), error.value)
  {
    var search := new AcyclicSearch(ById(providers));
    for i := 0 to |providers|
      invariant search.g == ById(providers) && search.Finished() && search.visiting == {}
      invariant forall k :: 0 <= k < i ==> providers[k].id in search.visited
    {
      IdInGraph(providers, i);
      error := search.Visit(providers[i].id, []);
      if error.Some? {
        CycleInside(search.g, error.value);
        return;
      }
    }
    AllListed(providers, search.g, search.order, search.visiting, search.visited);
    return None;
  }

  lemma IdInGraph(providers: seq<Provider>, i: nat)
    requires i < |providers|
    ensures providers[i].id in ById(providers)
  {
    assert providers[i] in providers;
  }

  lemma AllListed(providers: seq<Provider>, g: Graph, order: seq<string>, visiting: set<string>, visited: set<string>)
    requires g == ById(providers) && Searched(g, order, visiting, visited)
    requires forall k :: 0 <= k < |providers| ==> providers[k].id in visited
    ensures !exists path :: Cycle(g, path)
  {
    forall id | id in g ensures id in order {
      assert g[id] in providers && g[id].id == id;
    }
    ListedGraphIsAcyclic(g, order);
  }

  lemma CycleInside(g: Graph, path: seq<string>)
    requires Reported(g, path)
    ensures exists cycle :: Cycle(g, cycle)
  {
    var i :| 0 <= i < |path| - 1 && path[..|path| - 1][i] == path[|path| - 1];
    var cycle := path[i..];
    forall k | 0 <= k < |cycle| - 1 ensures Edge(g, cycle[k], cycle[k + 1]) {
      assert Edge(g, path[i + k], path[i + k + 1]);
    }
    assert Cycle(g, cycle);
  }

  // ---------------------------------------------------------------- searches that skip what they have seen

  /** Everything newly visited has all its targets visited. */
  ghost predicate Closed(g: Graph, before: set<string>, visited: set<string>) {
    forall n, t :: n in visited && n !in before && Edge(g, n, t) ==> t in visited
  }

  lemma {:induction false} ClosedContainsWalk(g: Graph, visited: set<string>, path: seq<string>, k: nat)
    requires Closed(g, {}, visited) && Walk(g, path) && k < |path| && path[0] in visited
    ensures path[k] in visited
  {
    if k > 0 {
      ClosedContainsWalk(g, visited, path, k - 1);
      assert Edge(g, path[k - 1], path[k]);
    }
  }

  /** A node whose targets are all visited closes. */
  lemma NodeCloses(g: Graph, before: set<string>, visited: set<string>, id: string, targets: seq<string>)
    requires Closed(g, before + {id}, visited) && id in g && targets == Targets(g[id].dependencies)
    requires forall k :: 0 <= k < |targets| ==> targets[k] in visited
    ensures Closed(g, before, visited)
  {
  }

  /** What a finished search has not visited cannot be reached, on cyclic graphs as well. */
  lemma ClosedContainsReachable(g: Graph, visited: set<string>, from: string, to: string)
    requires Closed(g, {}, visited) && from in visited && Reaches(g, from, to)
    ensures to in visited
  {
    var path :| Connects(g, path, from, to);
    ClosedContainsWalk(g, visited, path, |path| - 1);
  }

  lemma ReachSelf(g: Graph, id: string)
    ensures Reaches(g, id, id)
  {
    assert Connects(g, [id], id, id);
  }

  lemma ReachThrough(g: Graph, id: string, next: string, to: string)
    requires Edge(g, id, next) && Reaches(g, next, to)
    ensures Reaches(g, id, to)
  {
    var path :| Connects(g, path, next, to);
    assert Connects(g, [id] + path, id, to);
  }

  lemma FirstStep(g: Graph, from: string, to: string)
    requires Reaches(g, from, to) && from != to
    ensures exists next :: Edge(g, from, next) && Reaches(g, next, to)
  {
    var path :| Connects(g, path, from, to);
    assert Edge(g, path[0], path[1]);
    assert Connects(g, path[1..], path[1], to) by {
      forall i | 0 <= i < |path[1..]| - 1 ensures Edge(g, path[1..][i], path[1..][i + 1]) {
        assert Edge(g, path[i + 1], path[i + 2]);
      }
    }
  }

  // ---------------------------------------------------------------- assertScopeSafety

  ghost predicate IsExecution(g: Graph, id: string) {
    id in g && g[id].scope == Execution
  }

  ghost predicate ReachesExecution(g: Graph, id: string) {
    exists e :: IsExecution(g, e) && Reaches(g, id, e)
  }

  class ScopeSearch {
    const g: Graph
    var visited: set<string>

    constructor (g: Graph)
      ensures this.g == g && visited == {}
    {
      this.g, visited := g, {};
    }

    method ReachesExecutionScope(id: string) returns (found: bool)
      modifies this
      ensures found ==> ReachesExecution(g, id)
      ensures !found ==> old(visited) + {id} <= visited && Closed(g, old(visited), visited)
      ensures !found ==> forall n :: n in visited && n !in old(visited) ==> !IsExecution(g, n)
      decreases g.Keys - visited
    {
      if id in visited {
        return false;
      }
      visited := visited + {id};
      if id !in g {
        return false;
      }
      if g[id].scope == Execution {
        ReachSelf(g, id);
        return true;
      }
      var targets := Targets(g[id].dependencies);
      for i := 0 to |targets|
        invariant old(visited) + {id} <= visited && Closed(g, old(visited) + {id}, visited)
        invariant forall n :: n in visited && n !in old(visited) ==> !IsExecution(g, n)
        invariant forall k :: 0 <= k < i ==> targets[k] in visited
      {
        assert id in g.Keys - old(visited);
        found := ReachesExecutionScope(targets[i]);
        if found {
          ghost var e :| IsExecution(g, e) && Reaches(g, targets[i], e);
          ReachThrough(g, id, targets[i], e);
          return;
        }
      }
      return false;
    }
  }

  method ReachesExecutionFrom(g: Graph, id: string) returns (found: bool)
    ensures found <==> ReachesExecution(g, id)
  {
    var search := new ScopeSearch(g);
    found := search.ReachesExecutionScope(id);
    if !found {
      if e :| IsExecution(g, e) && Reaches(g, id, e) {
        ClosedContainsReachable(g, search.visited, id, e);
      }
    }
  }

  ghost predicate UnsafeDependency(g: Graph, p: Provider, t: string) {
    p.scope == Singleton && t in Targets(p.dependencies) && ReachesExecution(g, t)
  }

  /** Reports a dependency of a singleton that reaches an execution-scoped provider iff there is one. */
  method AssertScopeSafety(providers: seq<Provider>) returns (violation: Option<(string, string)>)
    ensures violation.Some? ==>
              exists p :: p in providers && p.id == violation.value.0 && UnsafeDependency(ById(providers), p, violation.value.1)
    ensures violation.None? ==> forall p, t :: p in providers ==> !UnsafeDependency(ById(providers), p, t)
  {
    var g := ById(providers);
    for i := 0 to |providers|
      invariant forall k, t :: 0 <= k < i ==> !UnsafeDependency(g, providers[k], t)
    {
      var provider := providers[i];
      if provider.scope == Singleton {
        var target := FindUnsafe(g, provider);
        if target.Some? {
          assert provider in providers;
          return Some((provider.id, target.value));
        }
      }
    }
    return None;
  }

  /** The loop over the dependencies of one singleton. */
  method FindUnsafe(g: Graph, provider: Provider) returns (target: Option<string>)
    requires provider.scope == Singleton
    ensures target.Some? ==> UnsafeDependency(g, provider, target.value)
    ensures target.None? ==> forall t :: !UnsafeDependency(g, provider, t)
  {
    var targets := Targets(provider.dependencies);
    for j := 0 to |targets|
      invariant forall k :: 0 <= k < j ==> !UnsafeDependency(g, provider, targets[k])
    {
      var found := ReachesExecutionFrom(g, targets[j]);
      if found {
        return Some(targets[j]);
      }
    }
    return None;
  }

  ghost predicate UniqueIds(providers: seq<Provider>) {
    forall p, q :: p in providers && q in providers && p.id == q.id ==> p == q
  }

  lemma ProviderOfId(providers: seq<Provider>, p: Provider)
    requires UniqueIds(providers) && p in providers
    ensures p.id in ById(providers) && ById(providers)[p.id] == p
  {
  }

  /** With unique ids an unsafe dependency is a singleton of the graph that reaches an execution-scoped provider. */
  lemma UnsafeIffSingletonReaches(providers: seq<Provider>)
    requires UniqueIds(providers)
    ensures var g := ById(providers);
            (exists p, t :: p in providers && UnsafeDependency(g, p, t)) <==>
            (exists s :: s in g && g[s].scope == Singleton && ReachesExecution(g, s))
  {
    var g := ById(providers);
    if p, t :| p in providers && UnsafeDependency(g, p, t) {
      ProviderOfId(providers, p);
      var e :| IsExecution(g, e) && Reaches(g, t, e);
      assert Edge(g, p.id, t);
      ReachThrough(g, p.id, t, e);
    }
    if s :| s in g && g[s].scope == Singleton && ReachesExecution(g, s) {
      var e :| IsExecution(g, e) && Reaches(g, s, e);
      FirstStep(g, s, e);
      var t :| Edge(g, s, t) && Reaches(g, t, e);
      assert g[s] in providers && UnsafeDependency(g, g[s], t);
    }
  }

  // ---------------------------------------------------------------- assertNoNestedActionBusReachability

  const ACTION_BUS := "doxa:action-bus"
  const FORBIDDEN: set<string> := {"authentication", "transactions", "queues", "mail", "sms", "broadcasting"}

  datatype Operation = Operation(id: string, query: bool, dependencies: seq<Option<string>>)

  datatype Root = Root(id: string, dependencies: seq<Option<string>>)

  datatype Violation =
    | ReachesActionBus(path: seq<string>)
    | ReachesCapability(capability: string, path: seq<string>)

  function FirstForbidden(capabilities: seq<string>): (c: Option<string>)
    ensures c.Some? <==> exists x :: x in capabilities && x in FORBIDDEN
    ensures c.Some? ==> c.value in capabilities && c.value in FORBIDDEN
  {
    if |capabilities| == 0 then None
    else
      assert capabilities == [capabilities[0]] + capabilities[1..];
      if capabilities[0] in FORBIDDEN then Some(capabilities[0]) else FirstForbidden(capabilities[1..])
  }

  /** What no root may reach, and what a read-only root may not reach either. */
  ghost predicate Prohibited(g: Graph, readOnly: bool, id: string) {
    id == ACTION_BUS || (readOnly && id in g && exists c :: c in g[id].capabilities && c in FORBIDDEN)
  }

  ghost predicate ReachesProhibited(g: Graph, readOnly: bool, id: string) {
    exists p :: Prohibited(g, readOnly, p) && Reaches(g, id, p)
  }

  /** A report names the root, walks the graph from one of its dependencies, and ends at what is prohibited. */
  ghost predicate Justified(g: Graph, root: Root, readOnly: bool, v: Violation) {
    && |v.path| > 1 && v.path[0] == root.id && v.path[1] in Targets(root.dependencies) && Walk(g, v.path[1..])
    && var last := v.path[|v.path| - 1];
       match v
       case ReachesActionBus(_) => last == ACTION_BUS
       case ReachesCapability(c, _) => readOnly && last in g && c in g[last].capabilities && c in FORBIDDEN
  }

  /** The path given to a visit: the root and a walk from one of its dependencies up to the visited id. */
  ghost predicate Approaches(g: Graph, root: Root, path: seq<string>, id: string) {
    && |path| > 0 && path[0] == root.id
    && (if |path| == 1 then id in Targets(root.dependencies)
        else path[1] in Targets(root.dependencies) && Leads(g, path[1..], id))
  }

  lemma ApproachFurther(g: Graph, root: Root, path: seq<string>, id: string)
    requires Approaches(g, root, path, id)
    ensures var longer := path + [id];
            longer[0] == root.id && longer[1] in Targets(root.dependencies) && Walk(g, longer[1..])
    ensures id in g ==> forall t :: t in Targets(g[id].dependencies) ==> Approaches(g, root, path + [id], t)
  {
    var longer := path + [id];
    assert longer[1..] == path[1..] + [id];
  }

  lemma FewerLeft(g: Graph, before: set<string>, visited: set<string>, id: string)
    requires id in g && id !in before && before + {id} <= visited
    ensures g.Keys - visited < g.Keys - before
  {
    assert id in g.Keys - before;
  }

  lemma ProhibitedThrough(g: Graph, readOnly: bool, id: string, next: string)
    requires Edge(g, id, next) && ReachesProhibited(g, readOnly, next)
    ensures ReachesProhibited(g, readOnly, id)
  {
    var p :| Prohibited(g, readOnly, p) && Reaches(g, next, p);
    ReachThrough(g, id, next, p);
  }

  class BusSearch {
    const g: Graph
    const root: Root
    const readOnly: bool
    var visited: set<string>

    constructor (g: Graph, root: Root, readOnly: bool)
      ensures this.g == g && this.root == root && this.readOnly == readOnly && visited == {}
    {
      this.g, this.root, this.readOnly, visited := g, root, readOnly, {};
    }

    method Visit(id: string, path: seq<string>) returns (violation: Option<Violation>)
      requires Approaches(g, root, path, id)
      modifies this
      ensures violation.Some? ==> Justified(g, root, readOnly, violation.value) && ReachesProhibited(g, readOnly, id)
      ensures violation.None? ==> old(visited) + {id} <= visited && Closed(g, old(visited), visited)
      ensures violation.None? ==> forall n :: n in visited && n !in old(visited) ==> !Prohibited(g, readOnly, n)
      decreases g.Keys - visited, 0
    {
      ApproachFurther(g, root, path, id);
      ReachSelf(g, id);
      if id == ACTION_BUS {
        return Some(ReachesActionBus(path + [id]));
      }
      if id in visited {
        return None;
      }
      visited := visited + {id};
      if id !in g {
        return None;
      }
      var forbidden := if readOnly then FirstForbidden(g[id].capabilities) else None;
      if forbidden.Some? {
        return Some(ReachesCapability(forbidden.value, path + [id]));
      }
      FewerLeft(g, old(visited), visited, id);
      violation := VisitAll(Targets(g[id].dependencies), path + [id]);
      if violation.Some? {
        ghost var t :| t in Targets(g[id].dependencies) && ReachesProhibited(g, readOnly, t);
        ProhibitedThrough(g, readOnly, id, t);
        return;
      }
      NodeCloses(g, old(visited), visited, id, Targets(g[id].dependencies));
      return None;
    }

    /** The loop over a node's dependencies. */
    method VisitAll(targets: seq<string>, path: seq<string>) returns (violation: Option<Violation>)
      requires forall t :: t in targets ==> Approaches(g, root, path, t)
      modifies this
      ensures violation.Some? ==> Justified(g, root, readOnly, violation.value) && exists t :: t in targets && ReachesProhibited(g, readOnly, t)
      ensures violation.None? ==> old(visited) <= visited && Closed(g, old(visited), visited) && forall t :: t in targets ==> t in visited
      ensures violation.None? ==> forall n :: n in visited && n !in old(visited) ==> !Prohibited(g, readOnly, n)
      decreases g.Keys - visited, 1
    {
      for i := 0 to |targets|
        invariant old(visited) <= visited && Closed(g, old(visited), visited)
        invariant forall n :: n in visited && n !in old(visited) ==> !Prohibited(g, readOnly, n)
        invariant forall k :: 0 <= k < i ==> targets[k] in visited
      {
        violation := Visit(targets[i], path);
        if violation.Some? {
          return;
        }
      }
      return None;
    }
  }

  ghost predicate NestsBus(g: Graph, readOnly: bool, root: Root) {
    exists t :: t in Targets(root.dependencies) && ReachesProhibited(g, readOnly, t)
  }

  method CheckRoot(g: Graph, root: Root, readOnly: bool) returns (violation: Option<Violation>)
    ensures violation.Some? <==> NestsBus(g, readOnly, root)
    ensures violation.Some? ==> Justified(g, root, readOnly, violation.value)
  {
    var search := new BusSearch(g, root, readOnly);
    var targets := Targets(root.dependencies);
    for i := 0 to |targets|
      invariant search.g == g && search.root == root && search.readOnly == readOnly
      invariant Closed(g, {}, search.visited)
      invariant forall n :: n in search.visited ==> !Prohibited(g, readOnly, n)
      invariant forall k :: 0 <= k < i ==> targets[k] in search.visited
    {
      violation := search.Visit(targets[i], [root.id]);
      if violation.Some? {
        return;
      }
    }
    if t, p :| t in targets && Prohibited(g, readOnly, p) && Reaches(g, t, p) {
      ClosedContainsReachable(g, search.visited, t, p);
    }
    return None;
  }

  function RootsOf(operations: seq<Operation>): (roots: seq<Root>)
    ensures |roots| == |operations|
  {
    seq(|operations|, i requires 0 <= i < |operations| => Root(operations[i].id, operations[i].dependencies))
  }

  /** A root is read-only when its id is that of a query or of a realtime command. */
  ghost predicate ReadOnly(operations: seq<Operation>, realtime: seq<Root>, id: string) {
    (exists o :: o in operations && o.query && o.id == id) || (exists r :: r in realtime && r.id == id)
  }

  /** Reports a violation iff some root reaches the action bus, or a read-only root a forbidden capability. */
  method AssertNoNestedActionBusReachability(providers: seq<Provider>, operations: seq<Operation>, jobs: seq<Root>, realtime: seq<Root>)
    returns (violation: Option<Violation>)
    ensures var g, roots := ById(providers), RootsOf(operations) + jobs + realtime;
            violation.Some? <==> exists r :: r in roots && NestsBus(g, ReadOnly(operations, realtime, r.id), r)
    ensures var g, roots := ById(providers), RootsOf(operations) + jobs + realtime;
            violation.Some? ==> exists r :: r in roots && Justified(g, r, ReadOnly(operations, realtime, r.id), violation.value)
  {
    var g, roots := ById(providers), RootsOf(operations) + jobs + realtime;
    var readOnlyRootIds := (set o | o in operations && o.query :: o.id) + (set r | r in realtime :: r.id);
    assert forall id :: id in readOnlyRootIds <==> ReadOnly(operations, realtime, id);
    for i := 0 to |roots|
      invariant forall k :: 0 <= k < i ==> !NestsBus(g, ReadOnly(operations, realtime, roots[k].id), roots[k])
    {
      violation := CheckRoot(g, roots[i], roots[i].id in readOnlyRootIds);
      if violation.Some? {
        assert roots[i] in roots;
        return;
      }
    }
    return None;
  }
}
