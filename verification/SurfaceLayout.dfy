/**
 Where things are in a rendered surface: the nodes below a root are those of the routes of
 child references that start at it, in the order of the children lists, and the roots come in
 the order of the components.
 */
module SurfaceLayout {
  import opened SurfaceRenderer

  /** The node at the end of a route of child positions. */
  function NodeAt(html: Html, path: seq<nat>): (node: seq<Html>)
    ensures |node| <= 1
    decreases |path|
  {
    if path == [] then [html]
    else if html.Element? && path[0] < |html.children| then NodeAt(html.children[path[0]], path[1..])
    else []
  }

  /** The component met at step `k`: the first is given, the others are looked up. */
  function Met(comp: Component, lookup: Lookup, ids: seq<string>, k: nat): Component
    requires k < |ids| && (k > 0 ==> ids[k] in lookup)
  {
    if k == 0 then comp else lookup[ids[k]]
  }

  /** `ids` are what the child positions lead through from `comp`: every step but the last is a
      known component that was not met before, on the way to `comp` included. */
  ghost predicate IsRoute(comp: Component, lookup: Lookup, way: seq<string>, path: seq<nat>, ids: seq<string>) {
    && |ids| == |path| + 1 && ids[0] == comp.id
    && forall k | 0 <= k < |path| ::
         && ids[k] !in way + ids[..k] && (k > 0 ==> ids[k] in lookup)
         && path[k] < |Met(comp, lookup, ids, k).children|
         && ids[k + 1] == Met(comp, lookup, ids, k).children[path[k]]
  }

  /** What stands at the end of a route: a marker where an id comes up again, nothing for an
      unknown one, and otherwise the component, with a place for each of its children. */
  ghost predicate Ends(node: Html, comp: Component, lookup: Lookup, way: seq<string>, ids: seq<string>)
    requires ids != []
  {
    var n := |ids| - 1;
    if ids[n] in way + ids[..n] then node == Cycle(ids[n])
    else if n > 0 && ids[n] !in lookup then node == Nothing
    else node.Element? && node.component == Met(comp, lookup, ids, n) && |node.children| == |node.component.children|
  }

  lemma RouteTail(comp: Component, lookup: Lookup, way: seq<string>, path: seq<nat>, ids: seq<string>)
    requires IsRoute(comp, lookup, way, path, ids) && path != [] && ids[1] in lookup && Keyed(lookup)
    ensures IsRoute(lookup[ids[1]], lookup, way + [comp.id], path[1..], ids[1..])
  {
    var tail := ids[1..];
    forall k | 0 <= k < |path[1..]|
      ensures tail[k] !in (way + [comp.id]) + tail[..k] && (k > 0 ==> tail[k] in lookup)
      ensures path[1..][k] < |Met(lookup[ids[1]], lookup, tail, k).children|
      ensures tail[k + 1] == Met(lookup[ids[1]], lookup, tail, k).children[path[1..][k]]
    {
      assert tail[k] == ids[k + 1] && path[1..][k] == path[k + 1] && tail[k + 1] == ids[k + 2];
      assert ids[..k + 1] == [comp.id] + tail[..k];
      assert way + ids[..k + 1] == (way + [comp.id]) + tail[..k];
      assert Met(lookup[ids[1]], lookup, tail, k) == Met(comp, lookup, ids, k + 1);
    }
  }

  lemma EndsTail(node: Html, comp: Component, lookup: Lookup, way: seq<string>, ids: seq<string>)
    requires |ids| > 1 && ids[0] == comp.id && ids[1] in lookup
    requires Ends(node, lookup[ids[1]], lookup, way + [comp.id], ids[1..])
    ensures Ends(node, comp, lookup, way, ids)
  {
    var n, tail := |ids| - 1, ids[1..];
    assert tail[n - 1] == ids[n] && ids[..n] == [comp.id] + tail[..n - 1];
    assert way + ids[..n] == (way + [comp.id]) + tail[..n - 1];
  }

  function Visited(way: seq<string>): set<string> {
    set id | id in way
  }

  lemma VisitedMore(way: seq<string>, id: string)
    ensures Visited(way + [id]) == Visited(way) + {id}
  {
  }

  /** Every route leads to a node, and to the right one. */
  lemma {:induction false} RouteIsRendered(comp: Component, lookup: Lookup, way: seq<string>, path: seq<nat>,
                                           ids: seq<string>)
    requires Keyed(lookup) && comp.id in lookup && (forall id | id in way :: id in lookup)
    requires IsRoute(comp, lookup, way, path, ids)
    ensures var node := NodeAt(RenderComponent(comp, lookup, Visited(way)), path);
            |node| == 1 && Ends(node[0], comp, lookup, way, ids)
    decreases |path|
  {
    var html := RenderComponent(comp, lookup, Visited(way));
    if path == [] {
      assert ids[..0] == [] && way + [] == way;
    } else {
      assert ids[0] !in way + ids[..0];
      ChildOf(comp, lookup, Visited(way), path[0]);
      VisitedMore(way, comp.id);
      assert ids[1] == comp.children[path[0]];
      if ids[1] in lookup {
        RouteTail(comp, lookup, way, path, ids);
        RouteIsRendered(lookup[ids[1]], lookup, way + [comp.id], path[1..], ids[1..]);
        EndsTail(NodeAt(html, path)[0], comp, lookup, way, ids);
      } else {
        assert |path| == 1;
        assert ids[..1] == [comp.id] && ids[1] !in way + ids[..1];
      }
    }
  }

  lemma RouteMore(comp: Component, lookup: Lookup, way: seq<string>, path: seq<nat>, child: string, rest: seq<string>)
    requires comp.id !in way && path != [] && path[0] < |comp.children| && comp.children[path[0]] == child
    requires if child in lookup
             then lookup[child].id == child && IsRoute(lookup[child], lookup, way + [comp.id], path[1..], rest)
             else |path| == 1 && rest == [child]
    ensures IsRoute(comp, lookup, way, path, [comp.id] + rest)
  {
    var ids := [comp.id] + rest;
    forall k | 0 <= k < |path|
      ensures ids[k] !in way + ids[..k] && (k > 0 ==> ids[k] in lookup)
      ensures path[k] < |Met(comp, lookup, ids, k).children|
      ensures ids[k + 1] == Met(comp, lookup, ids, k).children[path[k]]
    {
      if k > 0 {
        assert ids[k] == rest[k - 1] && path[k] == path[1..][k - 1] && ids[k + 1] == rest[k];
        assert ids[..k] == [comp.id] + rest[..k - 1];
        assert way + ids[..k] == (way + [comp.id]) + rest[..k - 1];
      }
    }
  }

  /** And every node is at the end of a route. */
  lemma {:induction false} NodeHasRoute(comp: Component, lookup: Lookup, way: seq<string>, path: seq<nat>)
    returns (ids: seq<string>)
    requires Keyed(lookup) && comp.id in lookup
    requires NodeAt(RenderComponent(comp, lookup, Visited(way)), path) != []
    ensures IsRoute(comp, lookup, way, path, ids)
    decreases |path|
  {
    if path == [] {
      ids := [comp.id];
    } else {
      assert comp.id !in way;
      var child := comp.children[path[0]];
      ChildOf(comp, lookup, Visited(way), path[0]);
      VisitedMore(way, comp.id);
      var rest := [child];
      if child in lookup {
        rest := NodeHasRoute(lookup[child], lookup, way + [comp.id], path[1..]);
      }
      RouteMore(comp, lookup, way, path, child, rest);
      ids := [comp.id] + rest;
    }
  }

  /** What is rendered for a root has a node for every route from it and no others, each with
      what the route leads to. */
  ghost predicate Mirrors(html: Html, root: Component, lookup: Lookup) {
    && (forall path :: NodeAt(html, path) != [] <==> exists ids :: IsRoute(root, lookup, [], path, ids))
    && (forall path, ids | IsRoute(root, lookup, [], path, ids) ::
          NodeAt(html, path) != [] && Ends(NodeAt(html, path)[0], root, lookup, [], ids))
  }

  lemma RenderingMirrors(root: Component, lookup: Lookup)
    requires Keyed(lookup) && root.id in lookup
    ensures Mirrors(RenderComponent(root, lookup, {}), root, lookup)
  {
    var html := RenderComponent(root, lookup, {});
    assert Visited([]) == {};
    forall path, ids | IsRoute(root, lookup, [], path, ids)
      ensures NodeAt(html, path) != [] && Ends(NodeAt(html, path)[0], root, lookup, [], ids)
    {
      RouteIsRendered(root, lookup, [], path, ids);
    }
    forall path | NodeAt(html, path) != []
      ensures exists ids :: IsRoute(root, lookup, [], path, ids)
    {
      var ids := NodeHasRoute(root, lookup, [], path);
    }
  }

  lemma {:induction false} RenderAllIs(roots: seq<Component>, lookup: Lookup, k: nat)
    requires Keyed(lookup) && (forall c | c in roots :: c.id in lookup) && k < |roots|
    ensures |RenderAll(roots, lookup)| == |roots|
    ensures RenderAll(roots, lookup)[k] == RenderComponent(roots[k], lookup, {})
  {
    if |roots| > 1 {
      RenderAllIs(roots[1..], lookup, if k > 0 then k - 1 else 0);
    }
  }

  /** The last component with an id is the one that is looked up. */
  lemma {:induction false} LaterWins(components: seq<Component>, id: string) returns (k: nat)
    requires id in LookupOf(components)
    ensures k < |components| && components[k].id == id && LookupOf(components)[id] == components[k]
    ensures forall i | k < i < |components| :: components[i].id != id
  {
    var n := |components| - 1;
    if components[n].id == id {
      k := n;
    } else {
      k := LaterWins(components[..n], id);
      LastOf(components, components[..n], n, k, id);
    }
  }

  lemma LastOf(components: seq<Component>, front: seq<Component>, n: nat, k: nat, id: string)
    requires |components| == n + 1 && front == components[..n] && components[n].id != id
    requires k < |front| && front[k].id == id && forall i | k < i < |front| :: front[i].id != id
    ensures components[k] == front[k] && forall i | k < i < |components| :: components[i].id != id
  {
    forall i | k < i < |components|
      ensures components[i].id != id
    {
      if i < n {
        assert front[i] == components[i];
      }
    }
  }

  /** The parts of a surface: one for each root, in the order of the components. */
  ghost predicate IsLaidOut(components: seq<Component>, ps: seq<nat>, roots: seq<Component>, htmls: seq<Html>) {
    && AreRoots(components, ps, roots) && |htmls| == |roots|
    && forall k | 0 <= k < |roots| :: Mirrors(htmls[k], roots[k], LookupOf(components))
  }

  /** `renderSurface`; it ends on every list of components, cyclic or not. When ids are unique
      and there is no cycle, it descends into every component and puts no marker. */
  method RenderSurface(components: seq<Component>)
    returns (htmls: seq<Html>, ghost ps: seq<nat>, ghost roots: seq<Component>)
    ensures IsLaidOut(components, ps, roots, htmls) && ShowsExactly(components, htmls)
    ensures UniqueIds(components) && Acyclic(LookupOf(components)) ==>
              !AnyMarker(htmls) && forall c | c in components :: c.id in RenderedAll(htmls)
  {
    var lookup := LookupOf(components);
    var found;
    found, ps := FindRoots(components);
    roots := found;
    htmls := RenderAll(found, lookup);
    LayOut(components, ps, roots);
    SurfaceIsRendered(components, roots);
    if UniqueIds(components) && Acyclic(lookup) {
      AcyclicSurface(components);
    }
  }

  lemma LayOut(components: seq<Component>, ps: seq<nat>, roots: seq<Component>)
    requires AreRoots(components, ps, roots) && forall c | c in roots :: c in components
    ensures (forall c | c in roots :: c.id in LookupOf(components))
            && IsLaidOut(components, ps, roots, RenderAll(roots, LookupOf(components)))
  {
    var lookup := LookupOf(components);
    var htmls := RenderAll(roots, lookup);
    forall k | 0 <= k < |roots|
      ensures |htmls| == |roots| && Mirrors(htmls[k], roots[k], lookup)
    {
      RenderAllIs(roots, lookup, k);
      RenderingMirrors(roots[k], lookup);
    }
  }
}
