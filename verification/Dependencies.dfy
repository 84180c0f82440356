/**
 Dependency lookup and transitive resolution.  The dependency graph may have
 cycles, self-edges and dangling targets; the breadth-first search visits what
 is reachable, once, nearest first.
 */
module Dependencies {
  import opened Base
  import opened Events
  import opened Store
  import opened Search

  // ---------------------------------------------------------------------------
  // The graph

  ghost predicate Exists(db: Db, d: Dep) { TagExists(db, d.name, d.tag) }

  predicate Is(db: Db, d: Dep, id: Id) { IsTag(db, d.name, d.tag, id) }

  ghost predicate Resolves(db: Db, id: Id) { exists d :: Is(db, d, id) }

  /** The lookup of this node's dependencies goes through. */
  ghost predicate Answers(db: Db, d: Dep) {
    Exists(db, d) && forall e :: e in db.edges && Is(db, d, e.tagId) ==> Resolves(db, e.dependencyTagId)
  }

  ghost predicate Links(db: Db, from: Dep, to: Dep) {
    exists e :: e in db.edges && Is(db, from, e.tagId) && Is(db, to, e.dependencyTagId)
  }

  /** An edge that resolution can follow: a node whose lookup fails has none. */
  ghost predicate DependsOn(db: Db, from: Dep, to: Dep) { Answers(db, from) && Links(db, from, to) }

  ghost predicate IsLatest(db: Db, name: string, tag: string) {
    exists id :: IsTag(db, name, tag, id) &&
      forall t :: OfModule(db, db.modules[name], t) ==> db.tags[t].updatedAt <= db.tags[id].updatedAt
  }

  // ---------------------------------------------------------------------------
  // Lookups

  method FindTag(db: Db, name: string, tag: string) returns (r: Option<Id>)
    ensures r.Some? ==> IsTag(db, name, tag, r.value)
    ensures r.None? ==> !TagExists(db, name, tag)
  {
    if id :| id in db.tags && IsTag(db, name, tag, id) {
      return Some(id);
    }
    return None;
  }

  method Describe(db: Db, id: Id) returns (r: Option<Dep>)
    ensures r.Some? ==> Is(db, r.value, id)
    ensures r.None? ==> !Resolves(db, id)
  {
    if id !in db.tags {
      return None;
    }
    if name :| name in db.modules && db.modules[name] == db.tags[id].moduleId {
      return Some(Dep(name, db.tags[id].name));
    }
    return None;
  }

  /** `ORDER BY updated_at DESC LIMIT 1`: a newest tag of the module, if it has any. */
  method FindLatest(db: Db, name: string) returns (r: Option<string>)
    ensures r.Some? ==> IsLatest(db, name, r.value)
    ensures r.None? ==> forall tag :: !TagExists(db, name, tag)
  {
    if name !in db.modules {
      return None;
    }
    var rest := set t | t in db.tags && OfModule(db, db.modules[name], t);
    if rest == {} {
      assert forall tag, id :: IsTag(db, name, tag, id) ==> id in rest;
      return None;
    }
    var best :| best in rest;
    ghost var all := rest;
    while rest != {}
      invariant rest <= all && best in all
      invariant forall t :: t in all - rest ==> db.tags[t].updatedAt <= db.tags[best].updatedAt
      decreases |rest|
    {
      var t :| t in rest;
      if db.tags[t].updatedAt > db.tags[best].updatedAt {
        best := t;
      }
      rest := rest - {t};
    }
    assert IsTag(db, name, db.tags[best].name, best);
    return Some(db.tags[best].name);
  }

  /** What a lookup returns: the linked nodes, once each, in any order. */
  ghost predicate IsLookup(db: Db, d: Dep, deps: seq<Dep>) {
    Answers(db, d) && Distinct(deps) && forall v :: v in deps <==> Links(db, d, v)
  }

  /** A module without tags answers with nothing when no tag is asked for. */
  ghost predicate NothingToResolve(db: Db, name: string, tag: string) {
    tag == "" && forall t :: !TagExists(db, name, t)
  }

  ghost predicate ResolvesTo(db: Db, name: string, tag: string, resolved: string) {
    if tag != "" then resolved == tag else IsLatest(db, name, resolved)
  }

  method GetModuleDependencies(db: Db, name: string, tag: string)
    returns (r: Result<seq<Dep>, LookupError>, ghost resolved: string)
    requires UniqueRows(db)
    ensures NothingToResolve(db, name, tag) ==> r == Ok([]) && resolved == tag
    ensures !NothingToResolve(db, name, tag) ==> ResolvesTo(db, name, tag, resolved)
    ensures !NothingToResolve(db, name, tag) ==> (r.Ok? <==> Answers(db, Dep(name, resolved)))
    ensures !NothingToResolve(db, name, tag) && r.Ok? ==> IsLookup(db, Dep(name, resolved), r.value)
    ensures tag != "" && r.Ok? ==> IsLookup(db, Dep(name, tag), r.value)
  {
    var actual := tag;
    resolved := tag;
    if tag == "" {
      var latest := FindLatest(db, name);
      if latest.None? {
        return Ok([]), resolved;
      }
      actual := latest.value;
      resolved := actual;
      assert TagExists(db, name, actual);
    }
    var found := FindTag(db, name, actual);
    if found.None? {
      return Err(TagNotFound), resolved;
    }
    r := EdgesOf(db, Dep(name, actual), found.value);
  }

  method EdgesOf(db: Db, d: Dep, id: Id) returns (r: Result<seq<Dep>, LookupError>)
    requires UniqueRows(db) && Is(db, d, id)
    ensures r.Ok? <==> Answers(db, d)
    ensures r.Ok? ==> IsLookup(db, d, r.value)
  {
    IdIsUnique(db, d, id);
    var rest := set e | e in db.edges && e.tagId == id;
    ghost var all := rest;
    var deps: seq<Dep> := [];
    assert all - rest == {};
    while rest != {}
      invariant rest <= all && AreTargets(db, all - rest, deps)
      decreases |rest|
    {
      var e :| e in rest;
      var target := Describe(db, e.dependencyTagId);
      if target.None? {
        assert Is(db, d, e.tagId);
        return Err(DanglingDependency);
      }
      NewTarget(db, id, all - rest, deps, e, target.value);
      ghost var before := rest;
      deps := deps + [target.value];
      rest := rest - {e};
      assert all - rest == (all - before) + {e};
    }
    AllAnswered(db, d, id, all, deps);
    return Ok(deps);
  }

  /** The nodes at the ends of some edges. */
  ghost predicate AreTargets(db: Db, edges: set<Edge>, deps: seq<Dep>) {
    && Distinct(deps)
    && (forall e :: e in edges ==> Resolves(db, e.dependencyTagId))
    && (forall v :: v in deps <==> exists e :: e in edges && Is(db, v, e.dependencyTagId))
  }

  lemma NewTarget(db: Db, id: Id, done: set<Edge>, deps: seq<Dep>, e: Edge, target: Dep)
    requires UniqueRows(db) && AreTargets(db, done, deps) && (forall x :: x in done ==> x.tagId == id)
    requires e !in done && e.tagId == id && Is(db, target, e.dependencyTagId)
    ensures AreTargets(db, done + {e}, deps + [target])
  {
    IdIsUnique(db, target, e.dependencyTagId);
    forall x | x in done
      ensures !Is(db, target, x.dependencyTagId)
    {
      assert x == Edge(id, x.dependencyTagId) && e == Edge(id, e.dependencyTagId);
    }
    assert target !in deps;
    assert forall i :: 0 <= i < |deps| ==> deps[i] in deps;
    forall v
      ensures v in deps + [target] <==> exists x :: x in done + {e} && Is(db, v, x.dependencyTagId)
    {
      NodeIsUnique(db, v, target, e.dependencyTagId);
      if v in deps {
        var x :| x in done && Is(db, v, x.dependencyTagId);
        assert x in done + {e};
      }
    }
  }

  lemma AllAnswered(db: Db, d: Dep, id: Id, all: set<Edge>, deps: seq<Dep>)
    requires UniqueRows(db) && Is(db, d, id) && AreTargets(db, all, deps)
    requires forall e :: e in all <==> e in db.edges && e.tagId == id
    ensures IsLookup(db, d, deps)
  {
    IdIsUnique(db, d, id);
    forall v
      ensures v in deps <==> Links(db, d, v)
    {
      assert Links(db, d, v) <==> exists e :: e in all && Is(db, v, e.dependencyTagId);
    }
  }

  lemma IdIsUnique(db: Db, d: Dep, id: Id)
    requires UniqueRows(db) && Is(db, d, id)
    ensures forall other :: Is(db, d, other) ==> other == id
  {
    forall other | Is(db, d, other)
      ensures other == id
    {
      assert SameName(db.tags[other], db.tags[id]);
    }
  }

  lemma NodeIsUnique(db: Db, u: Dep, v: Dep, id: Id)
    requires UniqueRows(db) && Is(db, v, id)
    ensures Is(db, u, id) <==> u == v
  {
  }

  // ---------------------------------------------------------------------------
  // Resolution over the registry

  /** The graph that resolution follows. */
  ghost function GraphOf(db: Db): Graph {
    u => iset v | DependsOn(db, u, v)
  }

  /** A lookup in the middle of a search, where the node is known to be an existing tag. */
  method Lookup(db: Db, d: Dep) returns (r: Result<seq<Dep>, LookupError>)
    requires UniqueRows(db) && d.tag != ""
    ensures IsLookedUp(GraphOf(db), d, r)
  {
    ghost var resolved;
    r, resolved := GetModuleDependencies(db, d.name, d.tag);
  }

  /** Every edge leads to an existing tag, which has a non-empty name. */
  lemma EdgesLeadToTags(db: Db, u: Dep, v: Dep)
    requires NamedTags(db) && v in GraphOf(db)(u)
    ensures Exists(db, v) && v.tag != "" && v in NodesOf(db)
  {
    var e :| e in db.edges && Is(db, u, e.tagId) && Is(db, v, e.dependencyTagId);
    assert IsTag(db, v.name, v.tag, e.dependencyTagId);
    assert v == Dep(v.name, db.tags[e.dependencyTagId].name);
  }

  function NodesOf(db: Db): set<Dep> {
    set id, n | id in db.tags && n in db.modules :: Dep(n, db.tags[id].name)
  }

  lemma GraphIsBounded(db: Db)
    requires NamedTags(db)
    ensures BoundedBy(GraphOf(db), NodesOf(db))
  {
    forall u, v | v in GraphOf(db)(u)
      ensures v in NodesOf(db) && v.tag != ""
    {
      EdgesLeadToTags(db, u, v);
    }
  }

  /** The breadth-first loop; it makes one lookup per listed node. */
  method SearchFrom(db: Db, ghost start: Dep, root: Dep, direct: seq<Resolved>, queue0: seq<Dep>, visited0: set<Dep>,
                    ghost universe: set<Dep>)
    returns (list: seq<Resolved>, lookups: nat, ghost depth: seq<nat>)
    requires UniqueRows(db) && BoundedBy(GraphOf(db), universe)
    requires root == start || forall u :: root !in GraphOf(db)(u)
    requires InStep(GraphOf(db), start, root, direct, seq(|direct|, _ => 1), 0, visited0, queue0, 0, universe)
    ensures IsResolution(GraphOf(db), start, root, list, depth)
    ensures lookups == |list|
  {
    list, lookups, depth := direct, 0, seq(|direct|, _ => 1);
    var queue, visited := queue0, visited0;
    while queue != []
      invariant InStep(GraphOf(db), start, root, list, depth, lookups, visited, queue, lookups, universe)
      decreases |universe - visited|, |queue|
    {
      var current := queue[0];
      QueuedIsNamed(GraphOf(db), start, root, list, depth, lookups, visited, queue, universe);
      var next := Lookup(db, current);
      list, visited, queue, depth :=
        Round(GraphOf(db), start, root, list, depth, lookups, visited, queue, next, universe);
      lookups := lookups + 1;
    }
    FinishSearch(GraphOf(db), start, root, list, depth, lookups, visited, universe);
  }

  /**
   Transitive resolution, and how many lookups it costs: one for the start and one per listed node.
   With an empty tag the search starts from the newest tag but remembers the empty tag as visited.
   */
  method GetTransitiveDependencies(db: Db, name: string, tag: string)
    returns (r: Result<seq<Resolved>, LookupError>, lookups: nat, ghost resolved: string, ghost depth: seq<nat>)
    requires UniqueRows(db) && NamedTags(db)
    ensures NothingToResolve(db, name, tag) ==> r == Ok([])
    ensures !NothingToResolve(db, name, tag) ==> ResolvesTo(db, name, tag, resolved)
    ensures !NothingToResolve(db, name, tag) ==> (r.Ok? <==> Answers(db, Dep(name, resolved)))
    ensures !NothingToResolve(db, name, tag) && r.Ok? ==>
              IsResolution(GraphOf(db), Dep(name, resolved), Dep(name, tag), r.value, depth)
    ensures r.Ok? ==> lookups == 1 + |r.value|
  {
    var direct: Result<seq<Dep>, LookupError>;
    direct, resolved := GetModuleDependencies(db, name, tag);
    if direct.Err? {
      return Err(direct.error), 1, resolved, [];
    }
    var list := LabelDirect(direct.value);
    var root := Dep(name, tag);
    var visited := {root} + set d | d in direct.value;
    ghost var start, universe := Dep(name, resolved), visited + NodesOf(db);
    GraphIsBounded(db);
    DirectIsLookedUp(db, name, tag, resolved, direct.value);
    StartSearch(GraphOf(db), start, root, list, visited, universe);
    RootIsStartOrUnreached(db, name, tag, resolved);
    var all;
    all, lookups, depth := SearchFrom(db, start, root, list, direct.value, visited, universe);
    if NothingToResolve(db, name, tag) {
      assert !TagExists(db, name, tag);
      NothingIsReached(GraphOf(db), start, root, all, depth);
    }
    return Ok(all), 1 + lookups, resolved, depth;
  }

  /** Asked with a tag, the search starts at the root itself; asked without, no edge leads to the empty tag. */
  lemma RootIsStartOrUnreached(db: Db, name: string, tag: string, resolved: string)
    requires NamedTags(db) && (tag != "" ==> resolved == tag)
    ensures Dep(name, tag) == Dep(name, resolved) || forall u :: Dep(name, tag) !in GraphOf(db)(u)
  {
    GraphIsBounded(db);
  }

  lemma DirectIsLookedUp(db: Db, name: string, tag: string, resolved: string, direct: seq<Dep>)
    requires if NothingToResolve(db, name, tag) then direct == [] && resolved == tag
             else IsLookup(db, Dep(name, resolved), direct)
    ensures IsLookedUp(GraphOf(db), Dep(name, resolved), Ok(direct))
  {
    var start := Dep(name, resolved);
    if NothingToResolve(db, name, tag) {
      assert !TagExists(db, name, tag);
    }
    forall v
      ensures v in direct <==> v in GraphOf(db)(start)
    {
      assert v in GraphOf(db)(start) <==> DependsOn(db, start, v);
    }
  }

  method LabelDirect(direct: seq<Dep>) returns (list: seq<Resolved>)
    ensures DepsOf(list) == direct && forall k :: 0 <= k < |list| ==> list[k].kind == Direct
  {
    list := [];
    for i := 0 to |direct|
      invariant DepsOf(list) == direct[..i]
      invariant forall k :: 0 <= k < |list| ==> list[k].kind == Direct
    {
      list := list + [Resolved(direct[i], Direct)];
    }
  }
}
