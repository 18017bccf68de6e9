/** Dependency resolution of web plugins: a depth-first topological sort with cycle detection. */
module PluginLoader {
  import opened Wrappers

  datatype Dependency = Named(id: string) | Described(id: string, optional: Option<bool>)

  datatype Manifest = Manifest(id: string, name: string, version: string, dependencies: seq<Dependency>)

  datatype Descriptor = Descriptor(manifest: Manifest)

  datatype LoadError =
    | EmptyId
    | EmptyName(id: string)
    | EmptyVersion(id: string)
    | Duplicate(id: string)
    | Missing(id: string, dependency: string)
    | Cycle(path: seq<string>)

  function Id(d: Descriptor): string {
    d.manifest.id
  }

  predicate IsRequired(d: Dependency) {
    d.Named? || d.optional != Some(true)
  }

  /** Every dependency is required but one described with `optional: true`. */
  lemma OptionalIsExact(d: Dependency)
    ensures !IsRequired(d) <==> exists id :: d == Described(id, Some(true))
  {
    if !IsRequired(d) {
      assert d == Described(d.id, Some(true));
    }
  }

  /** `requiredWebDependencies`, by id. */
  function RequiredIds(dependencies: seq<Dependency>): (ids: seq<string>)
    ensures forall id :: id in ids <==> exists d :: d in dependencies && IsRequired(d) && d.id == id
  {
    if dependencies == [] then []
    else (if IsRequired(dependencies[0]) then [dependencies[0].id] else []) + RequiredIds(dependencies[1..])
  }

  function Required(d: Descriptor): seq<string> {
    RequiredIds(d.manifest.dependencies)
  }

  function Validate(m: Manifest): Option<LoadError> {
    if m.id == "" then Some(EmptyId)
    else if m.name == "" then Some(EmptyName(m.id))
    else if m.version == "" then Some(EmptyVersion(m.id))
    else None
  }

  /** A plugin has an id, a name and a version, and the first that is empty is named. */
  lemma ValidateIsExact(m: Manifest)
    ensures Validate(m) == None <==> m.id != "" && m.name != "" && m.version != ""
    ensures Validate(m) == Some(EmptyId) <==> m.id == ""
    ensures forall id :: Validate(m) == Some(EmptyName(id)) <==> id == m.id != "" && m.name == ""
    ensures forall id :: Validate(m) == Some(EmptyVersion(id)) <==> id == m.id != "" && m.name != "" && m.version == ""
  {
  }

  // ---------------------------------------------------------------------------
  // The dependency graph
  // ---------------------------------------------------------------------------

  type Registry = map<string, Descriptor>

  ghost predicate IsRegistry(byId: Registry) {
    forall id :: id in byId ==> Id(byId[id]) == id
  }

  predicate Edge(byId: Registry, a: string, b: string) {
    a in byId && b in Required(byId[a])
  }

  ghost predicate IsChain(byId: Registry, path: seq<string>) {
    forall i :: 0 <= i < |path| - 1 ==> Edge(byId, path[i], path[i + 1])
  }

  ghost predicate Acyclic(byId: Registry) {
    forall path :: IsChain(byId, path) && |path| >= 2 ==> path[0] != path[|path| - 1]
  }

  ghost predicate DistinctIds(descriptors: seq<Descriptor>) {
    forall i, j :: 0 <= i < j < |descriptors| ==> Id(descriptors[i]) != Id(descriptors[j])
  }

  ghost predicate HasId(descriptors: seq<Descriptor>, id: string) {
    exists d :: d in descriptors && Id(d) == id
  }

  /** The later descriptor wins, as in a JavaScript Map; ids are distinct when this is used. */
  function Register(descriptors: seq<Descriptor>): Registry {
    if descriptors == [] then map[]
    else
      var last := descriptors[|descriptors| - 1];
      Register(descriptors[..|descriptors| - 1])[Id(last) := last]
  }

  lemma {:induction false} RegisterHas(descriptors: seq<Descriptor>)
    ensures IsRegistry(Register(descriptors))
    ensures forall id :: id in Register(descriptors) <==> HasId(descriptors, id)
    ensures forall id :: id in Register(descriptors) ==> Register(descriptors)[id] in descriptors
    ensures DistinctIds(descriptors) ==>
      forall d :: d in descriptors ==> Id(d) in Register(descriptors) && Register(descriptors)[Id(d)] == d
  {
    if descriptors != [] {
      var front, last := descriptors[..|descriptors| - 1], descriptors[|descriptors| - 1];
      assert descriptors == front + [last];
      RegisterHas(front);
      forall d | d in front && DistinctIds(descriptors) ensures Id(d) != Id(last) {
        var i :| 0 <= i < |front| && front[i] == d;
        assert descriptors[i] == d;
      }
    }
  }

  /** What it takes to load: valid manifests, distinct ids, no missing and no circular requirement. */
  ghost predicate Loadable(descriptors: seq<Descriptor>) {
    && (forall d :: d in descriptors ==> Validate(d.manifest).None?)
    && DistinctIds(descriptors)
    && (forall d, id :: d in descriptors && id in Required(d) ==> HasId(descriptors, id))
    && Acyclic(Register(descriptors))
  }

  /** Each plugin comes after everything it requires. */
  ghost predicate DependenciesFirst(order: seq<Descriptor>) {
    forall i, id :: 0 <= i < |order| && id in Required(order[i]) ==> HasId(order[..i], id)
  }

  /** What an error says is true of the input. */
  ghost predicate IsWitness(descriptors: seq<Descriptor>, e: LoadError) {
    match e
    case Missing(id, dependency) => exists d :: d in descriptors && Id(d) == id && dependency in Required(d) && !HasId(descriptors, dependency)
    case Cycle(path) => |path| >= 2 && IsChain(Register(descriptors), path) && path[|path| - 1] in path[..|path| - 1]
    case Duplicate(id) => exists i, j :: 0 <= i < j < |descriptors| && Id(descriptors[i]) == Id(descriptors[j]) == id
    case _ => exists d :: d in descriptors && Validate(d.manifest) == Some(e)
  }

  lemma ChainFrom(byId: Registry, path: seq<string>, k: nat)
    requires IsChain(byId, path) && k < |path|
    ensures IsChain(byId, path[k..])
  {
  }

  /** A chain that comes back to one of its ids contains a cycle. */
  lemma ReturningChain(byId: Registry, path: seq<string>)
    requires |path| >= 2 && IsChain(byId, path) && path[|path| - 1] in path[..|path| - 1]
    ensures !Acyclic(byId)
  {
    hide IsChain;
    var front, last := path[..|path| - 1], path[|path| - 1];
    var k :| 0 <= k < |front| && front[k] == last;
    ChainFrom(byId, path, k);
    assert path[k..][0] == last && path[k..][|path| - k - 1] == last;
  }

  /** No error is reported of a loadable input. */
  lemma WitnessRefutes(descriptors: seq<Descriptor>, e: LoadError)
    requires IsWitness(descriptors, e)
    ensures !Loadable(descriptors)
  {
    hide Acyclic, IsChain, Register;
    match e
    case Cycle(path) => ReturningChain(Register(descriptors), path);
    case _ =>
  }

  // ---------------------------------------------------------------------------
  // An order without forward requirements shows there is no cycle
  // ---------------------------------------------------------------------------

  ghost function Position(order: seq<Descriptor>, id: string): (i: nat)
    requires HasId(order, id)
    ensures i < |order| && Id(order[i]) == id
  {
    var d :| d in order && Id(d) == id;
    var i :| 0 <= i < |order| && order[i] == d;
    i
  }

  ghost predicate Agrees(order: seq<Descriptor>, byId: Registry) {
    && DistinctIds(order)
    && (forall id :: id in byId <==> HasId(order, id))
    && forall d :: d in order ==> Id(d) in byId && byId[Id(d)] == d
  }

  lemma EdgeGoesBack(order: seq<Descriptor>, byId: Registry, a: string, b: string)
    requires Agrees(order, byId) && DependenciesFirst(order) && Edge(byId, a, b)
    ensures HasId(order, a) && HasId(order, b) && Position(order, b) < Position(order, a)
  {
  }

  lemma {:induction false} ChainGoesBack(order: seq<Descriptor>, byId: Registry, path: seq<string>)
    requires Agrees(order, byId) && DependenciesFirst(order) && IsChain(byId, path) && |path| >= 2
    ensures HasId(order, path[0]) && HasId(order, path[|path| - 1])
    ensures Position(order, path[|path| - 1]) < Position(order, path[0])
  {
    EdgeGoesBack(order, byId, path[0], path[1]);
    if |path| > 2 {
      assert forall i :: 0 <= i < |path[1..]| ==> path[1..][i] == path[i + 1];
      ChainGoesBack(order, byId, path[1..]);
    }
  }

  lemma OrderShowsAcyclic(order: seq<Descriptor>, byId: Registry)
    requires Agrees(order, byId) && DependenciesFirst(order)
    ensures Acyclic(byId)
  {
    forall path | IsChain(byId, path) && |path| >= 2 ensures path[0] != path[|path| - 1] {
      ChainGoesBack(order, byId, path);
    }
  }

  lemma {:induction false} CountsOfDistinct(s: seq<Descriptor>, d: Descriptor)
    requires DistinctIds(s)
    ensures multiset(s)[d] == if d in s then 1 else 0
  {
    if s != [] {
      assert s == [s[0]] + s[1..];
      CountsOfDistinct(s[1..], d);
      forall i | 0 <= i < |s| - 1 ensures s[1..][i] != s[0] {
        assert Id(s[0]) != Id(s[i + 1]);
      }
    }
  }

  lemma SamePlugins(order: seq<Descriptor>, descriptors: seq<Descriptor>)
    requires DistinctIds(descriptors) && Agrees(order, Register(descriptors))
    ensures multiset(order) == multiset(descriptors)
  {
    RegisterHas(descriptors);
    forall d ensures multiset(order)[d] == multiset(descriptors)[d] {
      CountsOfDistinct(order, d);
      CountsOfDistinct(descriptors, d);
      if d in descriptors {
        assert HasId(descriptors, Id(d));
        var e :| e in order && Id(e) == Id(d);
      }
    }
  }

  // ---------------------------------------------------------------------------
  // The resolver
  // ---------------------------------------------------------------------------

  class Resolver {
    const byId: Registry
    var visiting: set<string>
    var visited: set<string>
    var resolved: seq<Descriptor>

    constructor (byId: Registry)
      requires IsRegistry(byId)
      ensures this.byId == byId && visiting == {} && visited == {} && resolved == [] && Valid()
    {
      this.byId := byId;
      visiting, visited, resolved := {}, {}, [];
    }

    ghost predicate Valid()
      reads this
    {
      && IsRegistry(byId)
      && visiting <= byId.Keys && visited <= byId.Keys && visiting !! visited
      && DistinctIds(resolved) && DependenciesFirst(resolved)
      && (forall id :: id in visited <==> HasId(resolved, id))
      && forall d :: d in resolved ==> Id(d) in byId && byId[Id(d)] == d
    }

    /** The calls in progress are the visiting ids, along a chain of requirements. */
    ghost predicate Stacked(stack: seq<string>)
      reads this
    {
      (forall id :: id in stack <==> id in visiting) && IsChain(byId, stack)
    }

    ghost predicate Found(e: LoadError) {
      match e
      case Missing(id, dependency) => Edge(byId, id, dependency) && dependency !in byId
      case Cycle(path) => |path| >= 2 && IsChain(byId, path) && path[|path| - 1] in path[..|path| - 1]
      case _ => false
    }

    /**
     Visits a plugin and, before it, everything it requires. Without an error the calls in
     progress are as before and the plugin is resolved; an error is a real one.
     */
    method Visit(d: Descriptor, stack: seq<string>) returns (e: Option<LoadError>)
      requires Valid() && Stacked(stack) && Id(d) in byId && byId[Id(d)] == d && IsChain(byId, stack + [Id(d)])
      modifies this
      ensures e.Some? ==> Found(e.value)
      ensures e.None? ==> Valid() && visiting == old(visiting) && old(visited) + {Id(d)} <= visited
      ensures e.None? ==> old(resolved) <= resolved
      ensures Id(d) in old(visited) ==> e.None? && visited == old(visited) && resolved == old(resolved)
      ensures e.None? && Id(d) !in old(visited) && (forall id :: id in Required(d) ==> id in old(visited)) ==>
        visited == old(visited) + {Id(d)} && resolved == old(resolved) + [d]
      decreases byId.Keys - visited - visiting
    {
      hide IsChain, Required, DependenciesFirst, DistinctIds;
      var id := Id(d);
      if id in visited {
        return None;
      }
      if id in visiting {
        assert (stack + [id])[..|stack|] == stack;
        return Some(Cycle(stack + [id]));
      }
      visiting := visiting + {id};
      var required := Required(d);
      for i := 0 to |required|
        invariant Valid() && visiting == old(visiting) + {id} && old(visited) <= visited && old(resolved) <= resolved
        invariant forall k :: 0 <= k < i ==> required[k] in visited
        invariant (forall k :: 0 <= k < |required| ==> required[k] in old(visited)) ==> visited == old(visited) && resolved == old(resolved)
      {
        if required[i] !in byId {
          return Some(Missing(id, required[i]));
        }
        ExtendChain(byId, stack, id, required[i]);
        e := Visit(byId[required[i]], stack + [id]);
        if e.Some? {
          return;
        }
      }
      AppendResolved(resolved, d);
      visiting := visiting - {id};
      visited := visited + {id};
      resolved := resolved + [d];
      return None;
    }
  }

  lemma ExtendChain(byId: Registry, stack: seq<string>, id: string, next: string)
    requires IsChain(byId, stack + [id]) && Edge(byId, id, next)
    ensures IsChain(byId, stack + [id] + [next])
  {
  }

  lemma AppendResolved(resolved: seq<Descriptor>, d: Descriptor)
    requires DistinctIds(resolved) && DependenciesFirst(resolved) && !HasId(resolved, Id(d))
    requires forall id :: id in Required(d) ==> HasId(resolved, id)
    ensures DistinctIds(resolved + [d]) && DependenciesFirst(resolved + [d])
    ensures forall id :: HasId(resolved + [d], id) <==> HasId(resolved, id) || id == Id(d)
  {
    var all := resolved + [d];
    forall i, id | 0 <= i < |all| && id in Required(all[i]) ensures HasId(all[..i], id) {
      assert all[..i] == resolved[..i];
      assert resolved[..|resolved|] == resolved;
    }
    assert forall x :: x in all <==> x in resolved || x == d;
    assert d in all;
  }

  /** The first loop: every manifest valid, every id new. */
  method RegisterAll(descriptors: seq<Descriptor>) returns (r: Result<Registry, LoadError>)
    ensures r.Err? ==> IsWitness(descriptors, r.error)
    ensures r.Ok? ==> r.value == Register(descriptors) && DistinctIds(descriptors)
    ensures r.Ok? ==> forall d :: d in descriptors ==> Validate(d.manifest).None?
  {
    hide Register, Validate;
    var byId: Registry := map[];
    EmptyRegistry();
    for i := 0 to |descriptors|
      invariant byId == Register(descriptors[..i])
      invariant forall k :: 0 <= k < i ==> Validate(descriptors[k].manifest).None?
      invariant DistinctIds(descriptors[..i])
    {
      var d := descriptors[i];
      RegisterHas(descriptors[..i]);
      assert descriptors[..i + 1] == descriptors[..i] + [d];
      var invalid := Validate(d.manifest);
      if invalid.Some? {
        InvalidFound(descriptors, d);
        return Err(invalid.value);
      }
      if Id(d) in byId {
        DuplicateFound(descriptors, i);
        return Err(Duplicate(Id(d)));
      }
      NewId(descriptors[..i], d);
      byId := byId[Id(d) := d];
    }
    assert descriptors[..|descriptors|] == descriptors;
    r := Ok(byId);
  }

  lemma EmptyRegistry()
    ensures Register([]) == map[]
  {
  }

  lemma InvalidFound(descriptors: seq<Descriptor>, d: Descriptor)
    requires d in descriptors && Validate(d.manifest).Some?
    ensures IsWitness(descriptors, Validate(d.manifest).value)
  {
  }

  /**
   Main result: resolution succeeds exactly on loadable plugins; the result is then the same
   plugins, each after everything it requires, and unchanged if that was their order; and every
   error names a real defect.
   */
  method DiscoverWebPlugins(descriptors: seq<Descriptor>) returns (r: Result<seq<Descriptor>, LoadError>)
    ensures r.Ok? <==> Loadable(descriptors)
    ensures r.Ok? ==> multiset(r.value) == multiset(descriptors) && DependenciesFirst(r.value)
    ensures r.Ok? && DependenciesFirst(descriptors) ==> r.value == descriptors
    ensures r.Err? ==> IsWitness(descriptors, r.error)
  {
    hide Register, Validate, Loadable, IsWitness, Acyclic, DependenciesFirst;
    var registered := RegisterAll(descriptors);
    if registered.Err? {
      WitnessRefutes(descriptors, registered.error);
      return Err(registered.error);
    }
    RegisterHas(descriptors);
    var resolver := new Resolver(registered.value);
    for i := 0 to |descriptors|
      invariant resolver.Valid() && resolver.byId == registered.value && resolver.visiting == {}
      invariant forall k :: 0 <= k < i ==> Id(descriptors[k]) in resolver.visited
      invariant DependenciesFirst(descriptors) ==> resolver.resolved == descriptors[..i]
    {
      InOrder(descriptors, i);
      var e := resolver.Visit(descriptors[i], []);
      if e.Some? {
        FoundIsWitness(descriptors, resolver, e.value);
        WitnessRefutes(descriptors, e.value);
        return Err(e.value);
      }
    }
    AllResolved(descriptors, resolver);
    assert descriptors[..|descriptors|] == descriptors;
    r := Ok(resolver.resolved);
  }

  /** In a list that is in order already, a plugin is new and its requirements are among the ones before it. */
  lemma InOrder(descriptors: seq<Descriptor>, i: nat)
    requires i < |descriptors| && DistinctIds(descriptors)
    ensures !HasId(descriptors[..i], Id(descriptors[i])) && descriptors[..i + 1] == descriptors[..i] + [descriptors[i]]
    ensures DependenciesFirst(descriptors) ==> forall id :: id in Required(descriptors[i]) ==> HasId(descriptors[..i], id)
  {
  }

  lemma DuplicateFound(descriptors: seq<Descriptor>, i: nat)
    requires i < |descriptors| && HasId(descriptors[..i], Id(descriptors[i]))
    ensures IsWitness(descriptors, Duplicate(Id(descriptors[i])))
  {
  }

  lemma NewId(front: seq<Descriptor>, d: Descriptor)
    requires DistinctIds(front) && !HasId(front, Id(d))
    ensures DistinctIds(front + [d]) && Register(front + [d]) == Register(front)[Id(d) := d]
  {
  }

  lemma FoundIsWitness(descriptors: seq<Descriptor>, resolver: Resolver, e: LoadError)
    requires resolver.byId == Register(descriptors) && resolver.Found(e)
    ensures IsWitness(descriptors, e)
  {
    RegisterHas(descriptors);
    match e
    case Missing(id, dependency) => assert resolver.byId[id] in descriptors;
    case Cycle(path) =>
  }

  lemma AllResolved(descriptors: seq<Descriptor>, resolver: Resolver)
    requires DistinctIds(descriptors) && resolver.byId == Register(descriptors) && resolver.Valid()
    requires forall d :: d in descriptors ==> Validate(d.manifest).None? && Id(d) in resolver.visited
    ensures Loadable(descriptors) && multiset(resolver.resolved) == multiset(descriptors) && DependenciesFirst(resolver.resolved)
  {
    RegisterHas(descriptors);
    var order := resolver.resolved;
    forall id ensures id in resolver.byId <==> HasId(order, id) {
      if id in resolver.byId {
        assert resolver.byId[id] in descriptors;
      }
    }
    assert Agrees(order, resolver.byId);
    OrderShowsAcyclic(order, resolver.byId);
    SamePlugins(order, descriptors);
    forall d, id | d in descriptors && id in Required(d) ensures HasId(descriptors, id) {
      assert d in multiset(order);
      var i :| 0 <= i < |order| && order[i] == d;
      var e :| e in order[..i] && Id(e) == id;
      assert e in multiset(order);
    }
  }
}
