/**
 The component renderer of archive/v1/scripts/demo-canvas-viewer.ts. Components refer to
 their children by id and may form cycles; the renderer carries the set of ids on the way
 down from the root and puts a marker where an id comes up again. The result is kept as a
 tree of what was rendered, of which the page shows the part that lies below containers.
 */
module SurfaceRenderer {

  datatype Component = Component(id: string, kind: string, children: seq<string>)

  type Lookup = map<string, Component>

  datatype Html = Cycle(id: string) | Nothing | Element(component: Component, children: seq<Html>)

  /** Every entry is stored under its own id. */
  ghost predicate Keyed(lookup: Lookup) {
    forall k | k in lookup :: lookup[k].id == k
  }

  /** `new Map(components.map((c) => [c.id, c]))`: a later component wins. */
  function LookupOf(components: seq<Component>): (lookup: Lookup)
    ensures Keyed(lookup)
    ensures forall c | c in components :: c.id in lookup
    ensures forall k | k in lookup :: lookup[k] in components
  {
    if components == [] then map[]
    else
      var last := components[|components| - 1];
      LookupOf(components[..|components| - 1])[last.id := last]
  }

  /** `renderComponent`. The set of ids not yet on the way down shrinks with every level. */
  function RenderComponent(comp: Component, lookup: Lookup, visited: set<string>): Html
    requires Keyed(lookup) && comp.id in lookup
    decreases lookup.Keys - visited
  {
    if comp.id in visited then Cycle(comp.id)
    else
      var nextVisited := visited + {comp.id};
      assert comp.id in lookup.Keys - visited && comp.id !in lookup.Keys - nextVisited;
      Element(comp, seq(|comp.children|, i requires 0 <= i < |comp.children| =>
        if comp.children[i] in lookup then RenderComponent(lookup[comp.children[i]], lookup, nextVisited) else Nothing))
  }

  // --- findRoots ---

  ghost predicate IsChild(components: seq<Component>, id: string) {
    exists c :: c in components && id in c.children
  }

  ghost predicate IsRoot(components: seq<Component>, c: Component) {
    c in components && !IsChild(components, c.id)
  }

  function Without(components: seq<Component>, ids: set<string>): (r: seq<Component>)
    ensures forall c :: c in r <==> c in components && c.id !in ids
  {
    if components == [] then []
    else
      var n := |components| - 1;
      Without(components[..n], ids) + if components[n].id in ids then [] else [components[n]]
  }

  /** `picked` are the components at the places `ps`, in order: those whose ids are not in
      `ids`. */
  ghost predicate Picks(components: seq<Component>, ids: set<string>, ps: seq<nat>, picked: seq<Component>) {
    && |picked| == |ps|
    && (forall k | 0 <= k < |ps| :: ps[k] < |components| && picked[k] == components[ps[k]] && picked[k].id !in ids)
    && (forall k, l | 0 <= k < l < |ps| :: ps[k] < ps[l])
    && (forall p: nat | p < |components| && components[p].id !in ids :: p in ps)
  }

  lemma {:induction false} WithoutPicks(components: seq<Component>, ids: set<string>) returns (ps: seq<nat>)
    ensures Picks(components, ids, ps, Without(components, ids))
  {
    if components == [] {
      ps := [];
    } else {
      var n := |components| - 1;
      var before := WithoutPicks(components[..n], ids);
      ps := before + if components[n].id in ids then [] else [n];
      PicksMore(components, ids, before, Without(components[..n], ids), ps, Without(components, ids));
    }
  }

  lemma PicksMore(components: seq<Component>, ids: set<string>, before: seq<nat>, picked: seq<Component>, ps: seq<nat>,
                  picked': seq<Component>)
    requires components != []
    requires var n := |components| - 1;
             && Picks(components[..n], ids, before, picked)
             && ps == before + (if components[n].id in ids then [] else [n])
             && picked' == picked + if components[n].id in ids then [] else [components[n]]
    ensures Picks(components, ids, ps, picked')
  {
    var n := |components| - 1;
    forall p: nat | p < |components| && components[p].id !in ids
      ensures p in ps
    {
      if p < n {
        assert components[..n][p] == components[p] && p in before;
      } else {
        assert ps[|before|] == n;
      }
    }
    assert forall k | 0 <= k < |before| :: ps[k] == before[k] && components[..n][before[k]] == components[before[k]];
  }

  /** `roots` are the components at the places `ps`, in order, and these are the places of all
      that no component names as a child. */
  ghost predicate AreRoots(components: seq<Component>, ps: seq<nat>, roots: seq<Component>) {
    && |roots| == |ps|
    && (forall k | 0 <= k < |ps| ::
          ps[k] < |components| && roots[k] == components[ps[k]] && !IsChild(components, roots[k].id))
    && (forall k, l | 0 <= k < l < |ps| :: ps[k] < ps[l])
    && (forall p: nat | p < |components| && !IsChild(components, components[p].id) :: p in ps)
  }

  method FindRoots(components: seq<Component>) returns (roots: seq<Component>, ghost ps: seq<nat>)
    ensures AreRoots(components, ps, roots)
    ensures forall c :: c in roots <==> IsRoot(components, c)
  {
    var childIds: set<string> := {};
    var i := 0;
    while i < |components|
      invariant 0 <= i <= |components|
      invariant forall id :: id in childIds <==> IsChild(components[..i], id)
    {
      var children := components[i].children;
      var j := 0;
      while j < |children|
        invariant 0 <= j <= |children|
        invariant forall id :: id in childIds <==> IsChild(components[..i], id) || id in children[..j]
      {
        childIds := childIds + {children[j]};
        assert children[..j + 1] == children[..j] + [children[j]];
        j := j + 1;
      }
      assert children[..j] == children;
      assert components[..i + 1] == components[..i] + [components[i]];
      forall id
        ensures IsChild(components[..i + 1], id) <==> IsChild(components[..i], id) || id in components[i].children
      {
        if id in components[i].children {
          assert components[i] in components[..i + 1];
        }
        if IsChild(components[..i], id) {
          var c :| c in components[..i] && id in c.children;
          assert c in components[..i + 1];
        }
      }
      i := i + 1;
    }
    assert components[..i] == components;
    roots := Without(components, childIds);
    ps := WithoutPicks(components, childIds);
  }

  function RenderAll(roots: seq<Component>, lookup: Lookup): seq<Html>
    requires Keyed(lookup) && forall c | c in roots :: c.id in lookup
  {
    if roots == [] then [] else [RenderComponent(roots[0], lookup, {})] + RenderAll(roots[1..], lookup)
  }

  // --- What was rendered ---

  /** The ids of the components that were descended into. */
  function Rendered(html: Html): set<string> {
    match html
    case Element(c, children) => {c.id} + RenderedAll(children)
    case _ => {}
  }

  function RenderedAll(htmls: seq<Html>): set<string> {
    if htmls == [] then {} else Rendered(htmls[0]) + RenderedAll(htmls[1..])
  }

  predicate HasMarker(html: Html) {
    match html
    case Cycle(_) => true
    case Nothing => false
    case Element(_, children) => exists i | 0 <= i < |children| :: HasMarker(children[i])
  }

  lemma {:induction false} RenderedAllIs(htmls: seq<Html>, id: string)
    ensures id in RenderedAll(htmls) <==> exists i :: 0 <= i < |htmls| && id in Rendered(htmls[i])
  {
    if htmls != [] {
      RenderedAllIs(htmls[1..], id);
      if id in RenderedAll(htmls[1..]) {
        var i :| 0 <= i < |htmls[1..]| && id in Rendered(htmls[1..][i]);
        assert id in Rendered(htmls[i + 1]);
      }
      if i :| 0 <= i < |htmls| && id in Rendered(htmls[i]) {
        assert i > 0 ==> htmls[1..][i - 1] == htmls[i];
      }
    }
  }

  // --- Paths ---

  /** Each id is a child of the one before it, and all are known. */
  ghost predicate IsPath(lookup: Lookup, p: seq<string>) {
    && p != []
    && (forall i | 0 <= i < |p| :: p[i] in lookup)
    && (forall i | 0 <= i < |p| - 1 :: p[i + 1] in lookup[p[i]].children)
  }

  ghost predicate PathFromTo(lookup: Lookup, p: seq<string>, a: string, b: string) {
    IsPath(lookup, p) && p[0] == a && p[|p| - 1] == b
  }

  ghost predicate Reachable(lookup: Lookup, a: string, b: string) {
    exists p :: PathFromTo(lookup, p, a, b)
  }

  ghost predicate Distinct(p: seq<string>) {
    forall i, j | 0 <= i < j < |p| :: p[i] != p[j]
  }

  /** A path that comes back to an id it has passed. */
  ghost predicate Loops(lookup: Lookup, p: seq<string>) {
    IsPath(lookup, p) && !Distinct(p)
  }

  lemma Prepend(lookup: Lookup, a: string, p: seq<string>)
    requires IsPath(lookup, p) && a in lookup && p[0] in lookup[a].children
    ensures IsPath(lookup, [a] + p)
  {
    var q := [a] + p;
    assert forall i | 0 <= i < |p| :: q[i + 1] == p[i];
    assert forall i | 0 < i < |q| - 1 :: q[i] == p[i - 1] && q[i + 1] == p[i];
  }

  lemma PathTail(lookup: Lookup, p: seq<string>)
    requires IsPath(lookup, p) && |p| > 1
    ensures IsPath(lookup, p[1..]) && p[1] in lookup[p[0]].children
  {
    assert p[0 + 1] in lookup[p[0]].children;
  }

  /** Child `i` of a rendered component. */
  function ChildHtml(comp: Component, lookup: Lookup, visited: set<string>, i: nat): Html
    requires Keyed(lookup) && comp.id in lookup && comp.id !in visited && i < |comp.children|
  {
    if comp.children[i] in lookup then RenderComponent(lookup[comp.children[i]], lookup, visited + {comp.id})
    else Nothing
  }

  lemma ChildOf(comp: Component, lookup: Lookup, visited: set<string>, i: nat)
    requires Keyed(lookup) && comp.id in lookup && comp.id !in visited && i < |comp.children|
    ensures var html := RenderComponent(comp, lookup, visited);
            && html.Element? && |html.children| == |comp.children|
            && html.children[i] == ChildHtml(comp, lookup, visited, i)
  {
  }

  /** Only reachable components are rendered. */
  lemma {:induction false} RenderedIsReachable(comp: Component, lookup: Lookup, visited: set<string>, id: string)
    returns (p: seq<string>)
    requires Keyed(lookup) && comp.id in lookup && lookup[comp.id] == comp
    requires id in Rendered(RenderComponent(comp, lookup, visited))
    ensures PathFromTo(lookup, p, comp.id, id)
    decreases lookup.Keys - visited
  {
    var html := RenderComponent(comp, lookup, visited);
    if id == comp.id {
      p := [id];
    } else {
      RenderedAllIs(html.children, id);
      var i :| 0 <= i < |html.children| && id in Rendered(html.children[i]);
      ChildOf(comp, lookup, visited, i);
      assert comp.id in lookup.Keys - visited && comp.id !in lookup.Keys - (visited + {comp.id});
      var rest := RenderedIsReachable(lookup[comp.children[i]], lookup, visited + {comp.id}, id);
      Prepend(lookup, comp.id, rest);
      p := [comp.id] + rest;
    }
  }

  /** The component at the end of a path without repetition is rendered. */
  lemma {:induction false} PathIsRendered(comp: Component, lookup: Lookup, visited: set<string>, p: seq<string>)
    requires Keyed(lookup) && comp.id in lookup && lookup[comp.id] == comp
    requires IsPath(lookup, p) && p[0] == comp.id && Distinct(p)
    requires forall i | 0 <= i < |p| :: p[i] !in visited
    ensures p[|p| - 1] in Rendered(RenderComponent(comp, lookup, visited))
    decreases |p|
  {
    if |p| > 1 {
      PathTail(lookup, p);
      var i :| 0 <= i < |comp.children| && comp.children[i] == p[1];
      ChildOf(comp, lookup, visited, i);
      assert forall k | 0 <= k < |p[1..]| :: p[1..][k] == p[k + 1];
      PathIsRendered(lookup[p[1]], lookup, visited + {comp.id}, p[1..]);
      RenderedAllIs(RenderComponent(comp, lookup, visited).children, p[|p| - 1]);
    }
  }

  /** Every path can be shortened to one without repetition. */
  lemma {:induction false} ShortenPath(lookup: Lookup, p: seq<string>) returns (q: seq<string>)
    requires IsPath(lookup, p)
    ensures PathFromTo(lookup, q, p[0], p[|p| - 1]) && Distinct(q)
    decreases |p|
  {
    if Distinct(p) {
      q := p;
    } else {
      var i, j :| 0 <= i < j < |p| && p[i] == p[j];
      var shorter := p[..i] + p[j..];
      assert forall k | 0 <= k < |shorter| - 1 :: shorter[k + 1] in lookup[shorter[k]].children by {
        forall k | 0 <= k < |shorter| - 1
          ensures shorter[k + 1] in lookup[shorter[k]].children
        {
          if k >= i {
            assert shorter[k] == p[k + j - i] && shorter[k + 1] == p[k + j - i + 1];
          } else if k == i - 1 {
            assert shorter[k] == p[k] && shorter[k + 1] == p[j] == p[k + 1];
          } else {
            assert shorter[k] == p[k] && shorter[k + 1] == p[k + 1];
          }
        }
      }
      q := ShortenPath(lookup, shorter);
    }
  }

  /** A component is rendered exactly when it is reachable. */
  lemma RenderedIffReachable(comp: Component, lookup: Lookup, id: string)
    requires Keyed(lookup) && comp.id in lookup && lookup[comp.id] == comp
    ensures id in Rendered(RenderComponent(comp, lookup, {})) <==> Reachable(lookup, comp.id, id)
  {
    if id in Rendered(RenderComponent(comp, lookup, {})) {
      var p := RenderedIsReachable(comp, lookup, {}, id);
    }
    if Reachable(lookup, comp.id, id) {
      var p :| PathFromTo(lookup, p, comp.id, id);
      var q := ShortenPath(lookup, p);
      PathIsRendered(comp, lookup, {}, q);
    }
  }

  // --- Markers ---

  lemma {:induction false} MarkerMeansLoop(comp: Component, lookup: Lookup, path: seq<string>) returns (p: seq<string>)
    requires Keyed(lookup) && comp.id in lookup && lookup[comp.id] == comp
    requires IsPath(lookup, path + [comp.id])
    requires HasMarker(RenderComponent(comp, lookup, set x | x in path))
    ensures Loops(lookup, p) && p[0] == (path + [comp.id])[0]
    decreases lookup.Keys - (set x | x in path)
  {
    var visited := set x | x in path;
    if comp.id in visited {
      p := path + [comp.id];
      var i :| 0 <= i < |path| && path[i] == comp.id;
      assert p[i] == p[|path|];
    } else {
      var html := RenderComponent(comp, lookup, visited);
      var i :| 0 <= i < |html.children| && HasMarker(html.children[i]);
      ChildOf(comp, lookup, visited, i);
      var next := path + [comp.id];
      assert (set x | x in next) == visited + {comp.id};
      assert comp.id in lookup.Keys - visited && comp.id !in lookup.Keys - (visited + {comp.id});
      AppendPath(lookup, next, comp.children[i]);
      p := MarkerMeansLoop(lookup[comp.children[i]], lookup, next);
      assert (next + [comp.children[i]])[0] == next[0];
    }
  }

  lemma AppendPath(lookup: Lookup, p: seq<string>, b: string)
    requires IsPath(lookup, p) && b in lookup && b in lookup[p[|p| - 1]].children
    ensures IsPath(lookup, p + [b])
  {
    var q := p + [b];
    forall i | 0 <= i < |q| - 1
      ensures q[i + 1] in lookup[q[i]].children
    {
      if i < |p| - 1 {
        assert p[i + 1] in lookup[p[i]].children;
      }
    }
  }

  /** A path that returns to an id seen before leads to a marker. */
  lemma {:induction false} LoopMeansMarker(comp: Component, lookup: Lookup, visited: set<string>, p: seq<string>)
    requires Keyed(lookup) && comp.id in lookup && lookup[comp.id] == comp
    requires IsPath(lookup, p) && p[0] == comp.id
    requires !Distinct(p) || exists i :: 0 <= i < |p| && p[i] in visited
    ensures HasMarker(RenderComponent(comp, lookup, visited))
    decreases |p|
  {
    if comp.id !in visited {
      assert |p| > 1;
      PathTail(lookup, p);
      var i :| 0 <= i < |comp.children| && comp.children[i] == p[1];
      ChildOf(comp, lookup, visited, i);
      var rest := p[1..];
      assert forall k | 0 <= k < |rest| :: rest[k] == p[k + 1];
      assert !Distinct(rest) || exists k :: 0 <= k < |rest| && rest[k] in visited + {comp.id} by {
        if Distinct(p) {
          var k :| 0 <= k < |p| && p[k] in visited;
          assert rest[k - 1] in visited + {comp.id};
        } else {
          var a, b :| 0 <= a < b < |p| && p[a] == p[b];
          assert a == 0 ==> rest[b - 1] == comp.id;
          assert a > 0 ==> rest[a - 1] == rest[b - 1];
        }
      }
      LoopMeansMarker(lookup[p[1]], lookup, visited + {comp.id}, rest);
    }
  }

  /** A cycle can be reached from `a`. */
  ghost predicate LoopFrom(lookup: Lookup, a: string) {
    exists p :: Loops(lookup, p) && p[0] == a
  }

  predicate AnyMarker(htmls: seq<Html>) {
    exists i | 0 <= i < |htmls| :: HasMarker(htmls[i])
  }

  /** A cycle marker is produced exactly when a cycle can be reached. */
  lemma MarkerIffLoop(comp: Component, lookup: Lookup)
    requires Keyed(lookup) && comp.id in lookup && lookup[comp.id] == comp
    ensures HasMarker(RenderComponent(comp, lookup, {})) <==> LoopFrom(lookup, comp.id)
  {
    if HasMarker(RenderComponent(comp, lookup, {})) {
      var none: seq<string> := [];
      assert none + [comp.id] == [comp.id];
      assert (set x | x in none) == {};
      var p := MarkerMeansLoop(comp, lookup, none);
    }
    if p :| Loops(lookup, p) && p[0] == comp.id {
      LoopMeansMarker(comp, lookup, {}, p);
    }
  }

  // --- What reaches the page ---

  /** The renderers that put the text of the children into their own; all others, and unknown
      kinds, leave it out. */
  predicate IsContainer(kind: string) {
    kind in {"Row", "Column", "Card", "List", "Tabs", "Modal"}
  }

  /** A component without the children its renderer leaves out. */
  function Prune(c: Component): Component {
    if IsContainer(c.kind) then c else c.(children := [])
  }

  function PruneLookup(lookup: Lookup): (r: Lookup)
    ensures r.Keys == lookup.Keys && forall k | k in lookup :: r[k] == Prune(lookup[k])
  {
    map k | k in lookup :: Prune(lookup[k])
  }

  /** The part of what was rendered that is in the HTML of the page. */
  function Visible(html: Html): Html {
    match html
    case Element(c, children) =>
      if IsContainer(c.kind) then Element(c, seq(|children|, i requires 0 <= i < |children| => Visible(children[i])))
      else Element(Prune(c), [])
    case _ => html
  }

  function VisibleAll(htmls: seq<Html>): seq<Html> {
    if htmls == [] then [] else [Visible(htmls[0])] + VisibleAll(htmls[1..])
  }

  /** The page shows what rendering the pruned components gives. */
  lemma {:induction false} VisibleIsPruned(comp: Component, lookup: Lookup, visited: set<string>)
    requires Keyed(lookup) && comp.id in lookup
    ensures Keyed(PruneLookup(lookup))
    ensures Visible(RenderComponent(comp, lookup, visited)) ==
            RenderComponent(Prune(comp), PruneLookup(lookup), visited)
    decreases lookup.Keys - visited
  {
    if comp.id !in visited && IsContainer(comp.kind) {
      var pruned := PruneLookup(lookup);
      var html, shown := RenderComponent(comp, lookup, visited), RenderComponent(comp, pruned, visited);
      assert comp.id in lookup.Keys - visited && comp.id !in lookup.Keys - (visited + {comp.id});
      forall i | 0 <= i < |comp.children|
        ensures Visible(html.children[i]) == shown.children[i]
      {
        ChildOf(comp, lookup, visited, i);
        ChildOf(comp, pruned, visited, i);
        if comp.children[i] in lookup {
          VisibleIsPruned(lookup[comp.children[i]], lookup, visited + {comp.id});
        }
      }
      assert Visible(html).children == shown.children;
    }
  }

  /** A marker is in the HTML exactly when a cycle can be reached through containers. */
  lemma ShownMarkerIffLoop(comp: Component, lookup: Lookup)
    requires Keyed(lookup) && comp.id in lookup && lookup[comp.id] == comp
    ensures HasMarker(Visible(RenderComponent(comp, lookup, {}))) <==> LoopFrom(PruneLookup(lookup), comp.id)
  {
    VisibleIsPruned(comp, lookup, {});
    MarkerIffLoop(Prune(comp), PruneLookup(lookup));
  }

  /** A component is in the HTML exactly when it can be reached through containers. */
  lemma ShownIffReachable(comp: Component, lookup: Lookup, id: string)
    requires Keyed(lookup) && comp.id in lookup && lookup[comp.id] == comp
    ensures id in Rendered(Visible(RenderComponent(comp, lookup, {}))) <==> Reachable(PruneLookup(lookup), comp.id, id)
  {
    VisibleIsPruned(comp, lookup, {});
    RenderedIffReachable(Prune(comp), PruneLookup(lookup), id);
  }

  // --- Whole surfaces ---

  ghost predicate UniqueIds(components: seq<Component>) {
    forall i, j | 0 <= i < j < |components| :: components[i].id != components[j].id
  }

  ghost predicate Acyclic(lookup: Lookup) {
    forall p | IsPath(lookup, p) :: Distinct(p)
  }

  lemma {:induction false} LookupFinds(components: seq<Component>, c: Component)
    requires UniqueIds(components) && c in components
    ensures LookupOf(components)[c.id] == c
  {
    var front, last := components[..|components| - 1], components[|components| - 1];
    if c != last {
      var i :| 0 <= i < |components| && components[i] == c;
      assert front[i] == c;
      LookupFinds(front, c);
    }
  }

  /** Below an id that is on the way down already, its own entry makes no difference. */
  lemma {:induction false} OwnEntryIsUnused(comp: Component, lookup: Lookup, c: Component, visited: set<string>)
    requires Keyed(lookup) && comp.id in lookup && c.id in lookup && c.id in visited
    ensures RenderComponent(comp, lookup, visited) == RenderComponent(comp, lookup[c.id := c], visited)
    decreases lookup.Keys - visited
  {
    var other := lookup[c.id := c];
    assert other.Keys == lookup.Keys;
    if comp.id !in visited {
      assert comp.id in lookup.Keys - visited && comp.id !in lookup.Keys - (visited + {comp.id});
      var html, html' := RenderComponent(comp, lookup, visited), RenderComponent(comp, other, visited);
      forall i | 0 <= i < |comp.children|
        ensures html.children[i] == html'.children[i]
      {
        ChildOf(comp, lookup, visited, i);
        ChildOf(comp, other, visited, i);
        if comp.children[i] in lookup {
          var next := visited + {comp.id};
          OwnEntryIsUnused(lookup[comp.children[i]], lookup, c, next);
          assert comp.children[i] == c.id ==> other[comp.children[i]].id in next;
        }
      }
      assert html.children == html'.children;
    }
  }

  /** The components as a root sees them: of several with its id it is the one that counts. */
  function SeenFrom(lookup: Lookup, root: Component): Lookup {
    lookup[root.id := root]
  }

  lemma RootIsSeen(root: Component, lookup: Lookup)
    requires Keyed(lookup) && root.id in lookup
    ensures Keyed(SeenFrom(lookup, root))
    ensures RenderComponent(root, lookup, {}) == RenderComponent(root, SeenFrom(lookup, root), {})
  {
    var seen := SeenFrom(lookup, root);
    assert seen.Keys == lookup.Keys;
    var html, html' := RenderComponent(root, lookup, {}), RenderComponent(root, seen, {});
    forall i | 0 <= i < |root.children|
      ensures html.children[i] == html'.children[i]
    {
      ChildOf(root, lookup, {}, i);
      ChildOf(root, seen, {}, i);
      if root.children[i] in lookup {
        OwnEntryIsUnused(lookup[root.children[i]], lookup, root, {} + {root.id});
        assert root.children[i] == root.id ==> seen[root.children[i]].id in {root.id};
      }
    }
    assert html.children == html'.children;
  }

  ghost predicate BelowRoot(components: seq<Component>, id: string) {
    exists root :: IsRoot(components, root) && Reachable(SeenFrom(LookupOf(components), root), root.id, id)
  }

  ghost predicate LoopBelowRoot(components: seq<Component>) {
    exists root :: IsRoot(components, root) && LoopFrom(SeenFrom(LookupOf(components), root), root.id)
  }

  /** The same along components whose renderers show their children. */
  ghost predicate ShownBelowRoot(components: seq<Component>, id: string) {
    exists root :: IsRoot(components, root) && Reachable(PruneLookup(SeenFrom(LookupOf(components), root)), root.id, id)
  }

  ghost predicate LoopShownBelowRoot(components: seq<Component>) {
    exists root :: IsRoot(components, root) && LoopFrom(PruneLookup(SeenFrom(LookupOf(components), root)), root.id)
  }

  /** What a surface shows, for any list of components: it descends into those below a root and
      no others, with a cycle marker exactly when there is a cycle below a root; and the page
      has those below a root through containers, with a marker exactly when a cycle is. */
  ghost predicate ShowsExactly(components: seq<Component>, htmls: seq<Html>) {
    && (forall id :: id in RenderedAll(htmls) <==> BelowRoot(components, id))
    && (AnyMarker(htmls) <==> LoopBelowRoot(components))
    && (forall id :: id in RenderedAll(VisibleAll(htmls)) <==> ShownBelowRoot(components, id))
    && (AnyMarker(VisibleAll(htmls)) <==> LoopShownBelowRoot(components))
  }

  lemma UniqueRootIsSeen(components: seq<Component>, root: Component)
    requires UniqueIds(components) && IsRoot(components, root)
    ensures SeenFrom(LookupOf(components), root) == LookupOf(components)
  {
    LookupFinds(components, root);
  }

  lemma AcyclicHasNoLoop(components: seq<Component>, root: Component)
    requires UniqueIds(components) && Acyclic(LookupOf(components)) && IsRoot(components, root)
    ensures !LoopFrom(SeenFrom(LookupOf(components), root), root.id)
  {
    UniqueRootIsSeen(components, root);
  }

  lemma AcyclicIsBelowRoot(components: seq<Component>, c: Component)
    requires UniqueIds(components) && Acyclic(LookupOf(components)) && c in components
    ensures BelowRoot(components, c.id)
  {
    var p := [c.id];
    assert IsPath(LookupOf(components), p);
    var root := RootAbove(components, c, p);
    UniqueRootIsSeen(components, root);
    assert Reachable(SeenFrom(LookupOf(components), root), root.id, c.id);
  }

  lemma AcyclicSurface(components: seq<Component>)
    requires UniqueIds(components) && Acyclic(LookupOf(components))
    ensures !LoopBelowRoot(components)
    ensures forall c | c in components :: BelowRoot(components, c.id)
  {
    forall root | IsRoot(components, root)
      ensures !LoopFrom(SeenFrom(LookupOf(components), root), root.id)
    {
      AcyclicHasNoLoop(components, root);
    }
    forall c | c in components
      ensures BelowRoot(components, c.id)
    {
      AcyclicIsBelowRoot(components, c);
    }
  }

  lemma RenderedIsBelow(components: seq<Component>, roots: seq<Component>, id: string)
    requires forall c :: c in roots <==> IsRoot(components, c)
    requires forall c | c in roots :: c.id in LookupOf(components)
    ensures id in RenderedAll(RenderAll(roots, LookupOf(components))) <==> BelowRoot(components, id)
  {
    SurfaceRendered(roots, LookupOf(components), id);
  }

  lemma ShownIsBelow(components: seq<Component>, roots: seq<Component>, id: string)
    requires forall c :: c in roots <==> IsRoot(components, c)
    requires forall c | c in roots :: c.id in LookupOf(components)
    ensures id in RenderedAll(VisibleAll(RenderAll(roots, LookupOf(components)))) <==> ShownBelowRoot(components, id)
  {
    SurfaceShown(roots, LookupOf(components), id);
  }

  lemma MarkersAreBelow(components: seq<Component>, roots: seq<Component>)
    requires forall c :: c in roots <==> IsRoot(components, c)
    requires forall c | c in roots :: c.id in LookupOf(components)
    ensures AnyMarker(RenderAll(roots, LookupOf(components))) <==> LoopBelowRoot(components)
  {
    SurfaceMarkers(roots, LookupOf(components));
  }

  lemma ShownMarkersAreBelow(components: seq<Component>, roots: seq<Component>)
    requires forall c :: c in roots <==> IsRoot(components, c)
    requires forall c | c in roots :: c.id in LookupOf(components)
    ensures AnyMarker(VisibleAll(RenderAll(roots, LookupOf(components)))) <==> LoopShownBelowRoot(components)
  {
    ShownMarkers(roots, LookupOf(components));
  }

  lemma SurfaceIsRendered(components: seq<Component>, roots: seq<Component>)
    requires forall c :: c in roots <==> IsRoot(components, c)
    requires forall c | c in roots :: c.id in LookupOf(components)
    ensures ShowsExactly(components, RenderAll(roots, LookupOf(components)))
  {
    forall id
      ensures id in RenderedAll(RenderAll(roots, LookupOf(components))) <==> BelowRoot(components, id)
    {
      RenderedIsBelow(components, roots, id);
    }
    forall id
      ensures id in RenderedAll(VisibleAll(RenderAll(roots, LookupOf(components)))) <==> ShownBelowRoot(components, id)
    {
      ShownIsBelow(components, roots, id);
    }
    MarkersAreBelow(components, roots);
    ShownMarkersAreBelow(components, roots);
  }

  lemma {:induction false} SurfaceRendered(roots: seq<Component>, lookup: Lookup, id: string)
    requires Keyed(lookup) && forall c | c in roots :: c.id in lookup
    ensures id in RenderedAll(RenderAll(roots, lookup)) <==>
            exists root :: root in roots && Reachable(SeenFrom(lookup, root), root.id, id)
  {
    if roots != [] {
      RootIsSeen(roots[0], lookup);
      RenderedIffReachable(roots[0], SeenFrom(lookup, roots[0]), id);
      SurfaceRendered(roots[1..], lookup, id);
      assert roots == [roots[0]] + roots[1..];
      assert RenderAll(roots, lookup)[1..] == RenderAll(roots[1..], lookup);
    }
  }

  lemma {:induction false} SurfaceShown(roots: seq<Component>, lookup: Lookup, id: string)
    requires Keyed(lookup) && forall c | c in roots :: c.id in lookup
    ensures id in RenderedAll(VisibleAll(RenderAll(roots, lookup))) <==>
            exists root :: root in roots && Reachable(PruneLookup(SeenFrom(lookup, root)), root.id, id)
  {
    if roots != [] {
      RootIsSeen(roots[0], lookup);
      ShownIffReachable(roots[0], SeenFrom(lookup, roots[0]), id);
      SurfaceShown(roots[1..], lookup, id);
      assert roots == [roots[0]] + roots[1..];
      assert RenderAll(roots, lookup)[1..] == RenderAll(roots[1..], lookup);
      assert VisibleAll(RenderAll(roots, lookup))[1..] == VisibleAll(RenderAll(roots[1..], lookup));
    }
  }

  lemma {:induction false} SurfaceMarkers(roots: seq<Component>, lookup: Lookup)
    requires Keyed(lookup) && forall c | c in roots :: c.id in lookup
    ensures AnyMarker(RenderAll(roots, lookup)) <==>
            exists root :: root in roots && LoopFrom(SeenFrom(lookup, root), root.id)
  {
    if roots != [] {
      RootIsSeen(roots[0], lookup);
      MarkerIffLoop(roots[0], SeenFrom(lookup, roots[0]));
      SurfaceMarkers(roots[1..], lookup);
      assert roots == [roots[0]] + roots[1..];
      MarkerCons(RenderAll(roots, lookup)[0], RenderAll(roots[1..], lookup));
    }
  }

  lemma {:induction false} ShownMarkers(roots: seq<Component>, lookup: Lookup)
    requires Keyed(lookup) && forall c | c in roots :: c.id in lookup
    ensures AnyMarker(VisibleAll(RenderAll(roots, lookup))) <==>
            exists root :: root in roots && LoopFrom(PruneLookup(SeenFrom(lookup, root)), root.id)
  {
    if roots != [] {
      RootIsSeen(roots[0], lookup);
      ShownMarkerIffLoop(roots[0], SeenFrom(lookup, roots[0]));
      ShownMarkers(roots[1..], lookup);
      assert roots == [roots[0]] + roots[1..];
      assert RenderAll(roots, lookup)[1..] == RenderAll(roots[1..], lookup);
      MarkerCons(Visible(RenderAll(roots, lookup)[0]), VisibleAll(RenderAll(roots[1..], lookup)));
    }
  }

  lemma MarkerCons(html: Html, htmls: seq<Html>)
    ensures AnyMarker([html] + htmls) <==> HasMarker(html) || AnyMarker(htmls)
  {
    var all := [html] + htmls;
    assert all[0] == html && forall i | 0 <= i < |htmls| :: all[i + 1] == htmls[i];
  }

  lemma {:induction false} DistinctFits(p: seq<string>, keys: set<string>)
    requires Distinct(p) && forall i | 0 <= i < |p| :: p[i] in keys
    ensures |p| <= |keys|
  {
    if p != [] {
      assert forall i | 0 <= i < |p[1..]| :: p[1..][i] == p[i + 1] && p[i + 1] != p[0];
      DistinctFits(p[1..], keys - {p[0]});
    }
  }

  lemma PathGoesUp(lookup: Lookup, a: string, p: seq<string>)
    requires Acyclic(lookup) && IsPath(lookup, p) && a in lookup && p[0] in lookup[a].children
    ensures IsPath(lookup, [a] + p) && |[a] + p| <= |lookup.Keys|
  {
    Prepend(lookup, a, p);
    DistinctFits([a] + p, lookup.Keys);
  }

  /** Without cycles, going up from any component ends at a root. */
  lemma {:induction false} RootAbove(components: seq<Component>, c: Component, p: seq<string>) returns (root: Component)
    requires UniqueIds(components) && c in components
    requires Acyclic(LookupOf(components)) && IsPath(LookupOf(components), p) && p[0] == c.id
    ensures IsRoot(components, root) && Reachable(LookupOf(components), root.id, p[|p| - 1])
    decreases |LookupOf(components).Keys| - |p|
  {
    var lookup := LookupOf(components);
    if !IsChild(components, c.id) {
      root := c;
      assert PathFromTo(lookup, p, c.id, p[|p| - 1]);
    } else {
      var parent :| parent in components && c.id in parent.children;
      LookupFinds(components, parent);
      PathGoesUp(lookup, parent.id, p);
      assert ([parent.id] + p)[|p|] == p[|p| - 1];
      root := RootAbove(components, parent, [parent.id] + p);
    }
  }
}
