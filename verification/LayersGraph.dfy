/**
 The layer rules of scripts/layers-graph.ts. The tool checks single dependencies; what it
 is for is a statement about every dependency path and every cycle. The registry of
 scripts/layers.ts is the parameter `registry`. Contracts speak of membership in its sets.
 */
module LayersGraph {

  datatype Layer = L0 | L0u | L1 | L2 | L3 | L4

  datatype Registry = Registry(l0: set<string>, l0u: set<string>, l1: set<string>, l3: set<string>, l4: set<string>)

  datatype Package = Package(name: string, layer: Layer, deps: seq<string>)

  datatype Violation = Violation(from: string, fromLayer: Layer, to: string, toLayer: Layer)

  /** `classifyLayer` */
  function ClassifyLayer(registry: Registry, name: string): Layer {
    if name in registry.l0 then L0
    else if name in registry.l0u then L0u
    else if name in registry.l1 then L1
    else if name in registry.l3 then L3
    else if name in registry.l4 then L4
    else L2
  }

  /** `isAllowedDep` */
  predicate IsAllowedDep(from: Layer, to: Layer) {
    match from
    case L0 => false
    case L0u | L1 | L2 => to == L0 || to == L0u
    case L3 | L4 => true
  }

  // --- Layers by membership ---

  /** The core and the utilities, on which everything but the core may depend. */
  predicate IsBase(registry: Registry, name: string) {
    name in registry.l0 || name in registry.l0u
  }

  /** Registered as meta or distribution package and in no lower layer; these may depend on
      anything. */
  predicate IsTop(registry: Registry, name: string) {
    (name in registry.l3 || name in registry.l4) && !IsBase(registry, name) && name !in registry.l1
  }

  /** The first set that has the name, in the order of the layers; a name in none of them is a
      feature package. */
  predicate HasLayer(registry: Registry, name: string, layer: Layer) {
    match layer
    case L0 => name in registry.l0
    case L0u => name in registry.l0u - registry.l0
    case L1 => name in registry.l1 - (registry.l0 + registry.l0u)
    case L3 => name in registry.l3 - (registry.l0 + registry.l0u + registry.l1)
    case L4 => name in registry.l4 - (registry.l0 + registry.l0u + registry.l1 + registry.l3)
    case L2 => name !in registry.l0 + registry.l0u + registry.l1 + registry.l3 + registry.l4
  }

  lemma ClassifiedIsLayer(registry: Registry, name: string, layer: Layer)
    ensures HasLayer(registry, name, layer) <==> layer == ClassifyLayer(registry, name)
  {
  }

  /** The rules forbid a package of this layer the dependency. */
  predicate Forbids(registry: Registry, from: Layer, to: string) {
    from == L0 || (from in {L0u, L1, L2} && !IsBase(registry, to))
  }

  lemma ForbidsIff(registry: Registry, from: Layer, to: string)
    ensures Forbids(registry, from, to) <==> !IsAllowedDep(from, ClassifyLayer(registry, to))
  {
  }

  // --- The check ---

  /** Package `i` declares dependency `j` against the rules. */
  predicate IsForbidden(registry: Registry, packages: seq<Package>, i: nat, j: nat) {
    i < |packages| && j < |packages[i].deps| && Forbids(registry, packages[i].layer, packages[i].deps[j])
  }

  predicate Earlier(a: (nat, nat), b: (nat, nat)) {
    a.0 < b.0 || (a.0 == b.0 && a.1 < b.1)
  }

  /** Entry `k` of the report is about the dependency at `at[k]`, and these are, in order, the
      forbidden ones. */
  ghost predicate Reports(registry: Registry, packages: seq<Package>, violations: seq<Violation>, at: seq<(nat, nat)>,
                          end: (nat, nat))
  {
    && |violations| == |at|
    && (forall k | 0 <= k < |at| ::
          && IsForbidden(registry, packages, at[k].0, at[k].1) && Earlier(at[k], end)
          && Describes(registry, packages[at[k].0], packages[at[k].0].deps[at[k].1], violations[k]))
    && (forall k, l | 0 <= k < l < |at| :: Earlier(at[k], at[l]))
    && (forall i: nat, j: nat | IsForbidden(registry, packages, i, j) && Earlier((i, j), end) :: (i, j) in at)
  }

  /** Every forbidden dependency is reported, once and in order, and nothing else. */
  ghost predicate IsReport(registry: Registry, packages: seq<Package>, violations: seq<Violation>) {
    exists at :: Reports(registry, packages, violations, at, (|packages|, 0))
  }

  predicate Describes(registry: Registry, pkg: Package, dep: string, v: Violation) {
    v.from == pkg.name && v.fromLayer == pkg.layer && v.to == dep && HasLayer(registry, dep, v.toLayer)
  }

  lemma ReportsMore(registry: Registry, packages: seq<Package>, violations: seq<Violation>, at: seq<(nat, nat)>,
                    i: nat, j: nat, violations': seq<Violation>, at': seq<(nat, nat)>)
    requires Reports(registry, packages, violations, at, (i, j)) && i < |packages| && j < |packages[i].deps|
    requires if Forbids(registry, packages[i].layer, packages[i].deps[j])
             then && at' == at + [(i, j)] && |violations'| == |at'| && violations'[..|at|] == violations
                  && Describes(registry, packages[i], packages[i].deps[j], violations'[|at|])
             else at' == at && violations' == violations
    ensures Reports(registry, packages, violations', at', (i, j + 1))
  {
    assert forall k | 0 <= k < |at| :: at'[k] == at[k] && violations'[k] == violations[k];
    forall a: nat, b: nat | IsForbidden(registry, packages, a, b) && Earlier((a, b), (i, j + 1))
      ensures (a, b) in at'
    {
      if (a, b) == (i, j) {
        assert at'[|at|] == (i, j);
      } else {
        assert Earlier((a, b), (i, j)) && (a, b) in at;
      }
    }
  }

  /** `detectViolations` */
  method DetectViolations(registry: Registry, packages: seq<Package>) returns (violations: seq<Violation>)
    ensures IsReport(registry, packages, violations)
  {
    violations := [];
    ghost var at: seq<(nat, nat)> := [];
    var i := 0;
    while i < |packages|
      invariant 0 <= i <= |packages|
      invariant Reports(registry, packages, violations, at, (i, 0))
    {
      var pkg := packages[i];
      var j := 0;
      while j < |pkg.deps|
        invariant 0 <= j <= |pkg.deps|
        invariant Reports(registry, packages, violations, at, (i, j))
      {
        var depLayer := ClassifyLayer(registry, pkg.deps[j]);
        ClassifiedIsLayer(registry, pkg.deps[j], depLayer);
        ForbidsIff(registry, pkg.layer, pkg.deps[j]);
        ghost var before, atBefore := violations, at;
        if !IsAllowedDep(pkg.layer, depLayer) {
          violations, at := violations + [Violation(pkg.name, pkg.layer, pkg.deps[j], depLayer)], at + [(i, j)];
        }
        ReportsMore(registry, packages, before, atBefore, i, j, violations, at);
        j := j + 1;
      }
      RowIsDone(registry, packages, violations, at, i);
      i := i + 1;
    }
  }

  lemma RowIsDone(registry: Registry, packages: seq<Package>, violations: seq<Violation>, at: seq<(nat, nat)>, i: nat)
    requires i < |packages| && Reports(registry, packages, violations, at, (i, |packages[i].deps|))
    ensures Reports(registry, packages, violations, at, (i + 1, 0))
  {
    forall a: nat, b: nat | IsForbidden(registry, packages, a, b) && Earlier((a, b), (i + 1, 0))
      ensures (a, b) in at
    {
      assert Earlier((a, b), (i, |packages[i].deps|));
    }
  }

  // --- Paths ---

  ghost predicate DependsOn(packages: seq<Package>, a: string, b: string) {
    exists pkg :: pkg in packages && pkg.name == a && b in pkg.deps
  }

  /** Each name depends on the next; at least one dependency. */
  ghost predicate IsPath(packages: seq<Package>, path: seq<string>) {
    |path| >= 2 && forall i | 0 <= i < |path| - 1 :: DependsOn(packages, path[i], path[i + 1])
  }

  /** The scanner records each package with the layer of its name. */
  ghost predicate Scanned(registry: Registry, packages: seq<Package>) {
    forall pkg | pkg in packages :: HasLayer(registry, pkg.name, pkg.layer)
  }

  /** The check reports nothing. */
  ghost predicate NoViolations(registry: Registry, packages: seq<Package>) {
    IsReport(registry, packages, [])
  }

  lemma EdgeIsAllowed(registry: Registry, packages: seq<Package>, a: string, b: string)
    requires Scanned(registry, packages) && NoViolations(registry, packages) && DependsOn(packages, a, b)
    ensures a !in registry.l0 && (IsTop(registry, a) || IsBase(registry, b))
  {
    var pkg :| pkg in packages && pkg.name == a && b in pkg.deps;
    var i :| 0 <= i < |packages| && packages[i] == pkg;
    var j :| 0 <= j < |pkg.deps| && pkg.deps[j] == b;
    assert Earlier((i, j), (|packages|, 0));
    assert !IsForbidden(registry, packages, i, j);
  }

  /** Without violations, along every path of any length: the core starts none, and from a
      package that is neither meta nor distribution only the core and utilities are reached,
      the core only at the end. */
  lemma {:induction false} PathsStayInLayers(registry: Registry, packages: seq<Package>, path: seq<string>)
    requires Scanned(registry, packages) && NoViolations(registry, packages) && IsPath(packages, path)
    ensures forall i | 0 <= i < |path| - 1 :: path[i] !in registry.l0
    ensures !IsTop(registry, path[0]) ==> forall i | 0 < i < |path| :: IsBase(registry, path[i])
    decreases |path|
  {
    var n := |path| - 1;
    EdgeIsAllowed(registry, packages, path[n - 1], path[n]);
    if n > 1 {
      var front := path[..n];
      forall i | 0 <= i < |front| - 1
        ensures DependsOn(packages, front[i], front[i + 1])
      {
        assert DependsOn(packages, path[i], path[i + 1]);
      }
      PathsStayInLayers(registry, packages, front);
      assert forall i | 0 <= i < n :: front[i] == path[i];
    }
  }

  /** Every dependency cycle lies among the utilities or among the meta and distribution
      packages. */
  lemma CyclesStayInLayers(registry: Registry, packages: seq<Package>, cycle: seq<string>)
    requires Scanned(registry, packages) && NoViolations(registry, packages)
    requires IsPath(packages, cycle) && cycle[0] == cycle[|cycle| - 1]
    ensures || (forall i | 0 <= i < |cycle| :: cycle[i] in registry.l0u - registry.l0)
            || (forall i | 0 <= i < |cycle| :: IsTop(registry, cycle[i]))
  {
    PathsStayInLayers(registry, packages, cycle);
    var n := |cycle| - 1;
    forall i | 0 < i < n
      ensures !IsTop(registry, cycle[i]) ==> IsBase(registry, cycle[0])
    {
      var rest := cycle[i..];
      assert forall k | 0 <= k < |rest| :: rest[k] == cycle[i + k];
      forall k | 0 <= k < |rest| - 1
        ensures DependsOn(packages, rest[k], rest[k + 1])
      {
        assert DependsOn(packages, cycle[i + k], cycle[i + k + 1]);
      }
      PathsStayInLayers(registry, packages, rest);
    }
  }
}
