/**
 Validation of chat metadata: well-formed strings, and a depth-first walk over an object
 graph that may share objects and may contain cycles.
 */
module ChatMetadata {
  import opened Wrappers
  import opened JsText

  /** The scan of UTF-16 code units, two at a time over a surrogate pair. */
  method HasWellFormedUnicode(value: Text) returns (ok: bool)
    ensures ok == IsWellFormed(value)
  {
    var index := 0;
    assert value[0..] == value;
    while index < |value|
      invariant 0 <= index <= |value|
      invariant IsWellFormed(value) == IsWellFormed(value[index..])
      decreases |value| - index
    {
      var code := value[index];
      ghost var rest := value[index..];
      TailWellFormed(rest, if StartsWithPair(rest) then 2 else 1);
      if IsHighSurrogate(code) {
        if index + 1 == |value| || !IsLowSurrogate(value[index + 1]) {
          return false;
        }
        assert rest[2..] == value[index + 2..];
        index := index + 1;
      } else if IsLowSurrogate(code) {
        return false;
      } else {
        assert rest[1..] == value[index + 1..];
      }
      index := index + 1;
    }
    ok := true;
  }

  // ---------------------------------------------------------------------------
  // Object graphs
  // ---------------------------------------------------------------------------

  type Ref = nat

  /** A JavaScript value; `Other` is what JSON cannot express at all. */
  datatype Node = Null | Boolean | Number(finite: bool) | String(s: Text) | Other | Reference(to: Ref)

  datatype Kind = ArrayObject | PlainObject | ExoticObject

  /** The children of an object with their keys; the keys of an array are empty texts. */
  datatype Container = Container(kind: Kind, entries: seq<(Text, Node)>)

  type Graph = map<Ref, Container>

  ghost predicate IsClosed(g: Graph) {
    forall r, i :: r in g && 0 <= i < |g[r].entries| && g[r].entries[i].1.Reference? ==> g[r].entries[i].1.to in g
  }

  predicate IsInside(g: Graph, v: Node) {
    v.Reference? ==> v.to in g
  }

  predicate LeafOk(v: Node) {
    match v
    case Number(finite) => finite
    case String(s) => IsWellFormed(s)
    case Other => false
    case _ => true
  }

  /** An array or a plain object whose keys and own leaves are valid. */
  predicate ContainerOk(c: Container) {
    !c.kind.ExoticObject? && forall i :: 0 <= i < |c.entries| ==> IsWellFormed(c.entries[i].0) && LeafOk(c.entries[i].1)
  }

  ghost predicate HasChild(g: Graph, r: Ref, v: Node)
    requires r in g
  {
    exists i :: 0 <= i < |g[r].entries| && g[r].entries[i].1 == v
  }

  /** A chain of containers, each an entry of the one before. */
  ghost predicate IsPath(g: Graph, path: seq<Ref>) {
    && (forall i :: 0 <= i < |path| ==> path[i] in g)
    && forall i :: 0 <= i < |path| - 1 ==> HasChild(g, path[i], Reference(path[i + 1]))
  }

  /** A chain of containers that starts at a value. */
  ghost predicate IsPathFrom(g: Graph, v: Node, path: seq<Ref>) {
    path != [] ==> v == Reference(path[0]) && IsPath(g, path)
  }

  predicate Distinct(path: seq<Ref>) {
    forall i, j :: 0 <= i < j < |path| ==> path[i] != path[j]
  }

  /** A chain that repeats nothing, avoids `seen`, and ends in a valid container. */
  predicate IsGood(g: Graph, path: seq<Ref>, seen: set<Ref>)
    requires forall r :: r in path ==> r in g
  {
    Distinct(path) && (forall r :: r in path ==> r !in seen) && (path != [] ==> ContainerOk(g[path[|path| - 1]]))
  }

  /** No cycle is reachable, and everything reachable is valid. */
  ghost predicate IsClean(g: Graph, v: Node) {
    LeafOk(v) && forall path :: IsPathFrom(g, v, path) ==> IsGood(g, path, {})
  }

  ghost predicate BoundsPaths(g: Graph, v: Node, seen: set<Ref>, depth: nat) {
    forall path :: IsPathFrom(g, v, path) ==> |path| <= depth && IsGood(g, path, seen)
  }

  /** The number of containers on the longest chain from a value. */
  ghost predicate IsDepth(g: Graph, v: Node, depth: nat) {
    (forall path :: IsPathFrom(g, v, path) ==> |path| <= depth) && exists path :: IsPathFrom(g, v, path) && |path| == depth
  }

  datatype MetadataError = MalformedString | NotFinite | NotJson | Cyclic | NotPlain | MalformedKey

  // ---------------------------------------------------------------------------
  // The walk
  // ---------------------------------------------------------------------------

  class Walker {
    const g: Graph
    var seen: set<Ref>

    constructor (g: Graph)
      ensures this.g == g && seen == {}
    {
      this.g, seen := g, {};
    }

    /**
     `validateJsonMetadata`: either the length of the longest chain, with `seen` restored, or
     an error and a chain (or the value itself) that is at fault.
     */
    method Validate(v: Node) returns (r: Result<nat, MetadataError>, ghost chain: seq<Ref>)
      requires IsClosed(g) && IsInside(g, v) && seen <= g.Keys
      modifies this
      ensures IsPathFrom(g, v, chain)
      ensures r.Ok? ==> seen == old(seen) && LeafOk(v) && |chain| == r.value && BoundsPaths(g, v, seen, r.value)
      ensures r.Err? ==> !LeafOk(v) || !IsGood(g, chain, old(seen))
      decreases g.Keys - seen, 1
    {
      chain := [];
      if v.Null? || v.Boolean? {
        return Ok(0), [];
      }
      if v.String? {
        var wellFormed := HasWellFormedUnicode(v.s);
        return if wellFormed then Ok(0) else Err(MalformedString), [];
      }
      if v.Number? {
        return if v.finite then Ok(0) else Err(NotFinite), [];
      }
      if v.Other? {
        return Err(NotJson), [];
      }
      if v.to in seen {
        return Err(Cyclic), [v.to];
      }
      if g[v.to].kind.ExoticObject? {
        return Err(NotPlain), [v.to];
      }
      r, chain := ValidateEntries(v.to);
    }

    method ValidateEntries(self: Ref) returns (r: Result<nat, MetadataError>, ghost chain: seq<Ref>)
      requires IsClosed(g) && self in g && self !in seen && seen <= g.Keys && !g[self].kind.ExoticObject?
      modifies this
      ensures IsPathFrom(g, Reference(self), chain)
      ensures r.Ok? ==> seen == old(seen) && |chain| == r.value && BoundsPaths(g, Reference(self), seen, r.value)
      ensures r.Err? ==> !IsGood(g, chain, old(seen))
      decreases g.Keys - seen, 0
    {
      seen := seen + {self};
      var entries := g[self].entries;
      for i := 0 to |entries|
        invariant seen == old(seen) + {self}
        invariant forall k :: 0 <= k < i ==> IsWellFormed(entries[k].0)
      {
        var wellFormed := HasWellFormedUnicode(entries[i].0);
        if !wellFormed {
          return Err(MalformedKey), [self];
        }
      }
      var deepest: nat := 0;
      ghost var longest: seq<Ref> := [];
      for i := 0 to |entries|
        invariant seen == old(seen) + {self}
        invariant |longest| == deepest && IsPathFrom(g, Reference(self), [self] + longest)
        invariant forall k :: 0 <= k < i ==> LeafOk(entries[k].1) && BoundsPaths(g, entries[k].1, seen, deepest)
      {
        var child, below := Validate(entries[i].1);
        ExtendPath(g, self, i, below);
        if child.Err? {
          BadBelow(g, self, i, below, old(seen));
          return Err(child.error), if LeafOk(entries[i].1) then [self] + below else [self];
        }
        if child.value > deepest {
          deepest, longest := child.value, below;
        }
      }
      seen := seen - {self};
      GoodAbove(g, self, deepest, seen);
      return Ok(1 + deepest), [self] + longest;
    }
  }

  lemma ExtendPath(g: Graph, self: Ref, i: nat, below: seq<Ref>)
    requires self in g && i < |g[self].entries| && IsPathFrom(g, g[self].entries[i].1, below)
    ensures IsPathFrom(g, Reference(self), [self] + below)
  {
  }

  /** A fault below an entry is a fault of the container. */
  lemma BadBelow(g: Graph, self: Ref, i: nat, below: seq<Ref>, seen: set<Ref>)
    requires self in g && i < |g[self].entries| && IsPathFrom(g, g[self].entries[i].1, below)
    requires !LeafOk(g[self].entries[i].1) || !IsGood(g, below, seen + {self})
    ensures IsPathFrom(g, Reference(self), [self])
    ensures !LeafOk(g[self].entries[i].1) ==> !IsGood(g, [self], seen)
    ensures LeafOk(g[self].entries[i].1) ==> IsPathFrom(g, Reference(self), [self] + below) && !IsGood(g, [self] + below, seen)
  {
    ExtendPath(g, self, i, below);
    var path := [self] + below;
    if IsGood(g, path, seen) && LeafOk(g[self].entries[i].1) {
      forall a, b | 0 <= a < b < |below| ensures below[a] != below[b] {
        assert path[a + 1] != path[b + 1];
      }
      forall r | r in below ensures r !in seen + {self} {
        var a :| 0 <= a < |below| && below[a] == r;
        assert path[0] != path[a + 1];
      }
    }
  }

  /** A path from a container is the container alone, or goes on through one of its entries. */
  lemma SplitPath(g: Graph, self: Ref, path: seq<Ref>) returns (i: nat)
    requires self in g && IsPathFrom(g, Reference(self), path) && |path| >= 2
    ensures i < |g[self].entries| && IsPathFrom(g, g[self].entries[i].1, path[1..]) && path == [self] + path[1..]
  {
    assert HasChild(g, path[0], Reference(path[1]));
    i :| 0 <= i < |g[self].entries| && g[self].entries[i].1 == Reference(path[1]);
    var rest := path[1..];
    forall k | 0 <= k < |rest| - 1 ensures HasChild(g, rest[k], Reference(rest[k + 1])) {
      assert HasChild(g, path[k + 1], Reference(path[k + 2]));
    }
  }

  lemma GoodAbove(g: Graph, self: Ref, deepest: nat, seen: set<Ref>)
    requires self in g && self !in seen && ContainerOk(g[self])
    requires forall k :: 0 <= k < |g[self].entries| ==> BoundsPaths(g, g[self].entries[k].1, seen + {self}, deepest)
    ensures BoundsPaths(g, Reference(self), seen, 1 + deepest)
  {
    forall path | IsPathFrom(g, Reference(self), path) ensures |path| <= 1 + deepest && IsGood(g, path, seen) {
      if |path| >= 2 {
        var i := SplitPath(g, self, path);
        var rest := path[1..];
        assert IsGood(g, rest, seen + {self});
        forall a, b | 0 <= a < b < |path| ensures path[a] != path[b] {
          if a > 0 {
            assert rest[a - 1] != rest[b - 1];
          } else {
            assert rest[b - 1] in rest;
          }
        }
      }
    }
  }

  /**
   Main result: the walk returns exactly on clean values, and then it returns the length of
   the longest chain of containers; shared objects that form no cycle are accepted.
   */
  method ValidateJsonMetadata(g: Graph, v: Node) returns (r: Result<nat, MetadataError>)
    requires IsClosed(g) && IsInside(g, v)
    ensures r.Ok? <==> IsClean(g, v)
    ensures r.Ok? ==> IsDepth(g, v, r.value)
  {
    var walker := new Walker(g);
    ghost var chain;
    r, chain := walker.Validate(v);
  }
}
