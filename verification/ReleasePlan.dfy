/**
 From `cargo metadata` to a publish order: which dependencies constrain the
 order, which ones are refused, and the plan built from them.
 */
module ReleasePlan {
  import opened Common
  import opened Ordering
  import opened Topology

  datatype Kind = Normal | Build | Dev | OtherKind(kind: string)

  datatype Dependency = Dependency(name: string, kind: Kind, req: string)

  datatype Package = Package(name: string, dependencies: seq<Dependency>)

  datatype PlanError =
    | NoVersion
    | NoPackages
    | VersionMismatch
    | UnpinnedDependency(owner: string, dependency: string)
    | Cycle(members: seq<string>)

  datatype Plan = Plan(edges: Edges, order: seq<string>)

  /** A normal or build dependency of `owner` on another publishable crate. */
  predicate Constrains(names: set<string>, owner: string, dep: Dependency) {
    dep.name in names && dep.name != owner && (dep.kind.Normal? || dep.kind.Build?)
  }

  predicate Unpinned(dep: Dependency) {
    dep.req == "" || dep.req == "*"
  }

  /** Some package called `n` has a normal or build dependency on `d`; dev dependencies do not count. */
  ghost predicate Requires(metadata: seq<Package>, n: string, d: string) {
    exists p, dep :: p in metadata && p.name == n && dep in p.dependencies && dep.name == d &&
      (dep.kind == Normal || dep.kind == Build)
  }

  /** The internal prerequisites of `n`, read off the metadata as a whole. */
  ghost function Prerequisites(metadata: seq<Package>, names: set<string>, n: string): set<string> {
    set d | d in names && d != n && Requires(metadata, n, d)
  }

  ghost predicate IsPrerequisiteGraph(metadata: seq<Package>, names: set<string>, edges: Edges) {
    edges.Keys == names && forall n :: n in names ==> edges[n] == Prerequisites(metadata, names, n)
  }

  ghost function PrerequisiteGraph(metadata: seq<Package>, names: set<string>): Edges {
    map n | n in names :: Prerequisites(metadata, names, n)
  }

  ghost predicate HasUnpinned(names: set<string>, p: Package) {
    exists dep :: dep in p.dependencies && IsUnpinned(names, p, dep)
  }

  /** An internal normal or build dependency without a registry requirement. */
  ghost predicate IsUnpinned(names: set<string>, p: Package, dep: Dependency) {
    p.name in names && dep.name in names && dep.name != p.name &&
    (dep.kind == Normal || dep.kind == Build) && (dep.req == "" || dep.req == "*")
  }

  /** The error names an unpinned dependency of this package. */
  ghost predicate Blames(names: set<string>, p: Package, error: PlanError) {
    exists dep :: dep in p.dependencies && IsUnpinned(names, p, dep) && error == UnpinnedDependency(p.name, dep.name)
  }

  /** One package's dependencies; fails closed on the first unpinned internal one. */
  method AddDependencies(p: Package, names: set<string>, edges: Edges) returns (r: Result<Edges, PlanError>)
    requires p.name in names && edges.Keys == names
    ensures r.Err? <==> HasUnpinned(names, p)
    ensures r.Err? ==> Blames(names, p, r.error)
    ensures r.Ok? ==> r.value == edges[p.name := edges[p.name] + Prerequisites([p], names, p.name)]
  {
    var added: set<string> := {};
    for k := 0 to |p.dependencies|
      invariant forall dep :: dep in p.dependencies[..k] && Constrains(names, p.name, dep) ==> !Unpinned(dep)
      invariant added == set dep | dep in p.dependencies[..k] && Constrains(names, p.name, dep) :: dep.name
    {
      var dep := p.dependencies[k];
      assert p.dependencies[..k + 1] == p.dependencies[..k] + [dep];
      if Constrains(names, p.name, dep) {
        if Unpinned(dep) {
          assert IsUnpinned(names, p, dep);
          return Err(UnpinnedDependency(p.name, dep.name));
        }
        added := added + {dep.name};
      }
    }
    assert p.dependencies[..|p.dependencies|] == p.dependencies;
    assert added == Prerequisites([p], names, p.name);
    return Ok(edges[p.name := edges[p.name] + added]);
  }

  lemma PrerequisitesSnoc(metadata: seq<Package>, p: Package, names: set<string>, n: string)
    ensures Prerequisites(metadata + [p], names, n)
         == Prerequisites(metadata, names, n) + if p.name == n then Prerequisites([p], names, n) else {}
  {
  }

  method InternalEdges(metadata: seq<Package>, names: set<string>) returns (r: Result<Edges, PlanError>)
    ensures r.Err? <==> exists p :: p in metadata && HasUnpinned(names, p)
    ensures r.Err? ==> exists p :: p in metadata && Blames(names, p, r.error)
    ensures r.Ok? ==> IsPrerequisiteGraph(metadata, names, r.value)
    ensures r.Ok? ==> forall n, d :: n in names ==>
      (d in r.value[n] <==> d in names && d != n && Requires(metadata, n, d))
  {
    var edges: Edges := map n | n in names :: {};
    for i := 0 to |metadata|
      invariant forall p :: p in metadata[..i] ==> !HasUnpinned(names, p)
      invariant IsPrerequisiteGraph(metadata[..i], names, edges)
    {
      var p := metadata[i];
      assert metadata[..i + 1] == metadata[..i] + [p];
      forall n | n in names ensures Prerequisites(metadata[..i + 1], names, n)
         == Prerequisites(metadata[..i], names, n) + if p.name == n then Prerequisites([p], names, n) else {}
      {
        PrerequisitesSnoc(metadata[..i], p, names, n);
      }
      if p.name in names {
        var step := AddDependencies(p, names, edges);
        if step.Err? {
          return step;
        }
        edges := step.value;
      }
    }
    assert metadata[..|metadata|] == metadata;
    return Ok(edges);
  }

  /** Every edge of the graph stays inside it, and no crate is its own prerequisite. */
  lemma EdgesStayInside(metadata: seq<Package>, names: set<string>, edges: Edges)
    requires IsPrerequisiteGraph(metadata, names, edges)
    ensures forall n, d :: n in edges && d in edges[n] ==> d in edges && d != n
  {
  }

  /** Every package and every internal pin is at the workspace version. */
  ghost predicate VersionsValid(metadata: seq<Package>, packages: map<string, string>, expected: string) {
    (forall n :: n in packages ==> packages[n] == expected) &&
    forall p :: p in metadata ==> PinsValid(p, packages.Keys, expected)
  }

  ghost predicate PinsValid(p: Package, names: set<string>, expected: string) {
    p.name in names ==>
      forall dep :: dep in p.dependencies && dep.name in names && (dep.kind == Normal || dep.kind == Build) ==>
        dep.req == "=" + expected
  }

  method ValidatePins(p: Package, names: set<string>, expected: string) returns (ok: bool)
    ensures ok <==> PinsValid(p, names, expected)
  {
    if p.name !in names {
      return true;
    }
    for k := 0 to |p.dependencies|
      invariant forall dep :: dep in p.dependencies[..k] && dep.name in names ==>
        dep.kind.Normal? || dep.kind.Build? ==> dep.req == "=" + expected
    {
      var dep := p.dependencies[k];
      if dep.name in names && (dep.kind.Normal? || dep.kind.Build?) && dep.req != "=" + expected {
        assert dep in p.dependencies;
        return false;
      }
    }
    assert p.dependencies[..|p.dependencies|] == p.dependencies;
    return true;
  }

  /** `validate_versions` */
  method ValidateVersions(metadata: seq<Package>, packages: map<string, string>, expected: string) returns (ok: bool)
    ensures ok <==> VersionsValid(metadata, packages, expected)
  {
    if exists n :: n in packages && packages[n] != expected {
      return false;
    }
    for i := 0 to |metadata|
      invariant forall p :: p in metadata[..i] ==> PinsValid(p, packages.Keys, expected)
    {
      var ok' := ValidatePins(metadata[i], packages.Keys, expected);
      if !ok' {
        return false;
      }
    }
    assert metadata[..|metadata|] == metadata;
    return true;
  }

  /** After validation the unpinned-edge check of `internal_edges` cannot fire. */
  lemma ValidatedIsPinned(metadata: seq<Package>, packages: map<string, string>, expected: string)
    requires VersionsValid(metadata, packages, expected)
    ensures forall p :: p in metadata ==> !HasUnpinned(packages.Keys, p)
  {
    forall p, dep | p in metadata && dep in p.dependencies ensures !IsUnpinned(packages.Keys, p, dep) {
      assert PinsValid(p, packages.Keys, expected);
      assert ("=" + expected)[0] == '=';
    }
  }

  ghost predicate Precedes(order: seq<string>, a: string, b: string) {
    exists i, j :: 0 <= i < j < |order| && order[i] == a && order[j] == b
  }

  lemma PrerequisitesPrecede(edges: Edges, order: seq<string>, n: string, d: string)
    requires Topological(edges, order) && n in edges && d in edges[n]
    ensures Precedes(order, d, n)
  {
    assert n in Elements(order);
    var j :| 0 <= j < |order| && order[j] == n;
    assert d in Elements(order[..j]);
    var i :| 0 <= i < j && order[..j][i] == d;
    assert order[i] == d;
  }

  /** There is a version and something to publish, every pin is exact, and the prerequisites can be ranked. */
  ghost predicate Plannable(version: string, metadata: seq<Package>, packages: map<string, string>) {
    version != "" && packages != map[] && VersionsValid(metadata, packages, version) &&
    Rankable(PrerequisiteGraph(metadata, packages.Keys))
  }

  /**
   A plan exists exactly when a version and packages were found, every pin is
   exact and the graph has a ranking. A validated workspace never fails on an
   unpinned edge, and its only other failure is a genuine cycle: every member
   of the reported set has a prerequisite in the set.
   */
  method ComputePlan(version: string, metadata: seq<Package>, packages: map<string, string>)
    returns (r: Result<Plan, PlanError>)
    ensures r.Ok? ==> IsPrerequisiteGraph(metadata, packages.Keys, r.value.edges)
    ensures r.Ok? ==> Topological(r.value.edges, r.value.order) && InRounds(r.value.edges, r.value.order)
    ensures r.Ok? ==> version != "" && packages != map[] && VersionsValid(metadata, packages, version)
    ensures r.Ok? ==> forall n, d ::
      n in packages && d in packages && d != n && Requires(metadata, n, d) ==> Precedes(r.value.order, d, n)
    ensures r.Err? <==> !Plannable(version, metadata, packages)
    ensures r == Err(NoVersion) <==> version == ""
    ensures r == Err(NoPackages) <==> version != "" && packages == map[]
    ensures r == Err(VersionMismatch) <==>
      version != "" && packages != map[] && !VersionsValid(metadata, packages, version)
    ensures r.Err? ==> !r.error.UnpinnedDependency?
    ensures r.Err? && r.error.Cycle? ==>
      r.error.members != [] && Elements(r.error.members) <= packages.Keys &&
      forall n :: n in r.error.members ==>
        exists d :: d in Prerequisites(metadata, packages.Keys, n) && d in r.error.members
  {
    if version == "" {
      return Err(NoVersion);
    }
    if packages == map[] {
      return Err(NoPackages);
    }
    var valid := ValidateVersions(metadata, packages, version);
    if !valid {
      return Err(VersionMismatch);
    }
    var edges := InternalEdges(metadata, packages.Keys);
    ValidatedIsPinned(metadata, packages, version);
    assert edges.value == PrerequisiteGraph(metadata, packages.Keys);
    var order := TopologicalOrder(edges.value);
    if order.Err? {
      EdgesStayInside(metadata, packages.Keys, edges.value);
      forall n | n in order.error
        ensures exists d :: d in Prerequisites(metadata, packages.Keys, n) && d in order.error
      {
        assert n in Elements(order.error) && Waits(edges.value, Elements(order.error), n);
      }
      return Err(Cycle(order.error));
    }
    forall n, d | n in packages && d in packages && d != n && Requires(metadata, n, d)
      ensures Precedes(order.value, d, n)
    {
      PrerequisitesPrecede(edges.value, order.value, n, d);
    }
    return Ok(Plan(edges.value, order.value));
  }
}
