/** The parts of src/renderer/graphviz_renderer.py that do not call Graphviz: the
    cluster hierarchy built from each node's `cluster_path` and `cluster`, the ids the
    recursive renderer gives the groups, the colour values it passes on, and the
    splicing of the inline stylesheet into the SVG text. */
module GraphvizRenderer {
  import opened Optional
  import opened Text
  import opened DomainNode
  import opened DomainDiagram

  // ---------------------------------------------------------------- the hierarchy

  /** The names of the groups enclosing a group, outermost first, then its own name. */
  type Path = seq<string>

  /** One group of the nested dict: its direct members (node keys, in placement order)
      and its `metadata_node` (absent until a node is placed directly in it). */
  datatype Group = Group(members: seq<string>, meta: Option<string>)

  /** The nested dict, flattened: the group at each path, and the names of the groups
      one level below each path (the root is `[]`) in dict insertion order. */
  datatype Hierarchy = Hierarchy(groups: map<Path, Group>, levels: map<Path, seq<string>>)

  const EmptyGroup := Group([], None)
  const EmptyHierarchy := Hierarchy(map[], map[])

  /** The names of the groups directly below `q`, in insertion order. */
  function Level(h: Hierarchy, q: Path): seq<string> {
    if q in h.levels then h.levels[q] else []
  }

  /** The group at `p`, or an empty one where there is none yet. */
  function GroupAt(h: Hierarchy, p: Path): Group {
    if p in h.groups then h.groups[p] else EmptyGroup
  }

  /** A name is listed in the level below `q` exactly when there is a group at `q`
      followed by that name: the dict keys and the groups agree. */
  ghost predicate LevelsMatch(h: Hierarchy) {
    forall q, n :: n in Level(h, q) <==> q + [n] in h.groups
  }

  /** No level lists a name twice. */
  ghost predicate LevelsDistinct(h: Hierarchy) {
    forall q :: Distinct(Level(h, q))
  }

  /** Each name along `p` is listed in the level of the path before it. */
  ghost predicate Rooted(h: Hierarchy, p: Path)
    decreases |p|
  {
    p == [] || (Rooted(h, p[..|p| - 1]) && p[|p| - 1] in Level(h, p[..|p| - 1]))
  }

  /** `if part not in level: level[part] = {"nodes": [], "subclusters": {}}` */
  function Enter(h: Hierarchy, parent: Path, name: string): Hierarchy {
    if parent + [name] in h.groups then h
    else Hierarchy(h.groups[parent + [name] := EmptyGroup], h.levels[parent := Level(h, parent) + [name]])
  }

  /** `find_or_create_cluster_path(path)`: the groups along `path`, created where
      missing. */
  function Walk(h: Hierarchy, path: Path): Hierarchy
    decreases |path|
  {
    if path == [] then h
    else
      var parent := path[..|path| - 1];
      Enter(Walk(h, parent), parent, path[|path| - 1])
  }

  /** A node placed directly in a group: appended to its members, and its metadata
      node unless the group has one. */
  function AddMember(g: Group, key: string): Group {
    Group(g.members + [key], if g.meta.None? then Some(key) else g.meta)
  }

  /** The path of the group a node belongs to directly, when its `cluster` is set. */
  function Full(n: NodeInfo): Option<Path> {
    if Truthy(n.style.cluster) then Some(n.style.clusterPath + [n.style.cluster.value]) else None
  }

  /** One iteration of the populate loop. */
  function Place(h: Hierarchy, n: NodeInfo): Hierarchy {
    if !Truthy(n.style.cluster) then h
    else
      var parent := n.style.clusterPath;
      var p := parent + [n.style.cluster.value];
      var h1 := Enter(Walk(h, parent), parent, n.style.cluster.value);
      h1.(groups := h1.groups[p := AddMember(GroupAt(h1, p), n.key)])
  }

  /** The hierarchy after the populate loop has seen `nodes`. */
  function Build(nodes: seq<NodeInfo>): Hierarchy
    decreases |nodes|
  {
    if nodes == [] then EmptyHierarchy
    else Place(Build(nodes[..|nodes| - 1]), nodes[|nodes| - 1])
  }

  /** The keys of the nodes whose own group is `p`, in order. */
  function MembersOf(nodes: seq<NodeInfo>, p: Path): seq<string>
    decreases |nodes|
  {
    if nodes == [] then []
    else
      var last := nodes[|nodes| - 1];
      MembersOf(nodes[..|nodes| - 1], p) + (if Full(last) == Some(p) then [last.key] else [])
  }

  function First(s: seq<string>): Option<string> {
    if s == [] then None else Some(s[0])
  }

  // ---- What building changes ----

  lemma EnterGroup(h: Hierarchy, parent: Path, name: string, p: Path)
    ensures GroupAt(Enter(h, parent, name), p) == GroupAt(h, p)
  {
  }

  lemma {:induction false} WalkGroup(h: Hierarchy, path: Path, p: Path)
    ensures GroupAt(Walk(h, path), p) == GroupAt(h, p)
    decreases |path|
  {
    if path != [] {
      var parent := path[..|path| - 1];
      WalkGroup(h, parent, p);
      EnterGroup(Walk(h, parent), parent, path[|path| - 1], p);
    }
  }

  /** Placing a node changes only its own group, by adding it as a member. */
  lemma PlaceGroup(h: Hierarchy, n: NodeInfo, p: Path)
    ensures GroupAt(Place(h, n), p) == if Full(n) == Some(p) then AddMember(GroupAt(h, p), n.key) else GroupAt(h, p)
  {
    if Truthy(n.style.cluster) {
      var parent := n.style.clusterPath;
      var q := parent + [n.style.cluster.value];
      WalkGroup(h, parent, p);
      EnterGroup(Walk(h, parent), parent, n.style.cluster.value, p);
      WalkGroup(h, parent, q);
      EnterGroup(Walk(h, parent), parent, n.style.cluster.value, q);
    }
  }

  /** Every group holds exactly the nodes whose own group it is, in the order the
      nodes were iterated, and its metadata node is the first of them; a group that
      only encloses others has no member and no metadata node. A node without a
      cluster is in no group. */
  lemma {:induction false} BuildGroups(nodes: seq<NodeInfo>, p: Path)
    ensures GroupAt(Build(nodes), p) == Group(MembersOf(nodes, p), First(MembersOf(nodes, p)))
    decreases |nodes|
  {
    if nodes != [] {
      var init, last := nodes[..|nodes| - 1], nodes[|nodes| - 1];
      BuildGroups(init, p);
      PlaceGroup(Build(init), last, p);
    }
  }

  /** `p` is a non-empty prefix of `path`: the group at `p` encloses or is the group
      at `path`. */
  predicate Within(p: Path, path: Path) {
    p != [] && p <= path
  }

  lemma PrefixStep(p: Path, path: Path)
    requires path != []
    ensures Within(p, path) <==> Within(p, path[..|path| - 1]) || p == path
  {
    if Within(p, path) && p != path {
      assert p == path[..|p|];
      assert p == path[..|path| - 1][..|p|];
    }
  }

  lemma EnterPaths(h: Hierarchy, parent: Path, name: string)
    ensures forall p :: p in Enter(h, parent, name).groups <==> p in h.groups || p == parent + [name]
  {
  }

  lemma {:induction false} WalkPaths(h: Hierarchy, path: Path)
    ensures forall p :: p in Walk(h, path).groups <==> p in h.groups || Within(p, path)
    decreases |path|
  {
    if path != [] {
      var parent := path[..|path| - 1];
      WalkPaths(h, parent);
      EnterPaths(Walk(h, parent), parent, path[|path| - 1]);
      forall p ensures Within(p, path) <==> Within(p, parent) || p == path {
        PrefixStep(p, path);
      }
    }
  }

  /** Whether some node lies in the group at `p` or below it. */
  ghost predicate Reaches(nodes: seq<NodeInfo>, p: Path) {
    exists i :: 0 <= i < |nodes| && Full(nodes[i]).Some? && Within(p, Full(nodes[i]).value)
  }

  lemma PlacePaths(h: Hierarchy, n: NodeInfo)
    ensures forall p :: p in Place(h, n).groups <==> p in h.groups || (Full(n).Some? && Within(p, Full(n).value))
  {
    if Truthy(n.style.cluster) {
      var parent := n.style.clusterPath;
      var q := parent + [n.style.cluster.value];
      WalkPaths(h, parent);
      EnterPaths(Walk(h, parent), parent, n.style.cluster.value);
      forall p ensures Within(p, q) <==> Within(p, parent) || p == q {
        PrefixStep(p, q);
      }
    }
  }

  /** The groups that exist are the paths of the nodes' groups and all their
      enclosing groups, and no other. */
  lemma {:induction false} BuildPaths(nodes: seq<NodeInfo>)
    ensures forall p :: p in Build(nodes).groups <==> Reaches(nodes, p)
    decreases |nodes|
  {
    if nodes != [] {
      var init, last := nodes[..|nodes| - 1], nodes[|nodes| - 1];
      BuildPaths(init);
      PlacePaths(Build(init), last);
      forall p ensures Reaches(nodes, p) <==> Reaches(init, p) || (Full(last).Some? && Within(p, Full(last).value)) {
        if Reaches(nodes, p) {
          var i :| 0 <= i < |nodes| && Full(nodes[i]).Some? && Within(p, Full(nodes[i]).value);
          if i < |init| {
            assert nodes[i] == init[i];
          }
        }
        if Reaches(init, p) {
          var i :| 0 <= i < |init| && Full(init[i]).Some? && Within(p, Full(init[i]).value);
          assert nodes[i] == init[i];
        }
      }
    }
  }

  /** Building only adds: every existing group stays, its members are kept as a prefix,
      its metadata node stays once set, and every level keeps its names in order. */
  lemma PlaceKeeps(h: Hierarchy, n: NodeInfo)
    ensures forall p :: p in h.groups ==> p in Place(h, n).groups
    ensures forall p :: GroupAt(h, p).members <= GroupAt(Place(h, n), p).members
    ensures forall p :: GroupAt(h, p).meta.Some? ==> GroupAt(Place(h, n), p).meta == GroupAt(h, p).meta
    ensures forall q :: Level(h, q) <= Level(Place(h, n), q)
  {
    PlacePaths(h, n);
    forall p ensures GroupAt(h, p).members <= GroupAt(Place(h, n), p).members
                  && (GroupAt(h, p).meta.Some? ==> GroupAt(Place(h, n), p).meta == GroupAt(h, p).meta) {
      PlaceGroup(h, n, p);
    }
    if Truthy(n.style.cluster) {
      WalkLevels(h, n.style.clusterPath);
      EnterLevels(Walk(h, n.style.clusterPath), n.style.clusterPath, n.style.cluster.value);
    }
  }

  lemma EnterLevels(h: Hierarchy, parent: Path, name: string)
    ensures forall q :: Level(h, q) <= Level(Enter(h, parent, name), q)
  {
  }

  lemma {:induction false} WalkLevels(h: Hierarchy, path: Path)
    ensures forall q :: Level(h, q) <= Level(Walk(h, path), q)
    decreases |path|
  {
    if path != [] {
      var parent := path[..|path| - 1];
      WalkLevels(h, parent);
      EnterLevels(Walk(h, parent), parent, path[|path| - 1]);
    }
  }

  // ---- The hierarchy stays well formed ----

  lemma EnterMatch(h: Hierarchy, parent: Path, name: string)
    requires LevelsMatch(h)
    ensures LevelsMatch(Enter(h, parent, name))
    ensures LevelsDistinct(h) ==> LevelsDistinct(Enter(h, parent, name))
  {
    var p := parent + [name];
    if p !in h.groups {
      var r := Enter(h, parent, name);
      assert name !in Level(h, parent);
      forall q, n ensures n in Level(r, q) <==> q + [n] in r.groups {
        if q == parent {
          assert Level(r, q) == Level(h, q) + [name];
        } else {
          assert Level(r, q) == Level(h, q);
        }
        assert n in Level(h, q) <==> q + [n] in h.groups;
        if q + [n] == p {
          AppendOneInjective(q, n, parent, name);
        }
      }
      if LevelsDistinct(h) {
        forall q ensures Distinct(Level(r, q)) {
          assert Distinct(Level(h, q));
          if q == parent {
            assert Level(r, q) == Level(h, q) + [name];
          } else {
            assert Level(r, q) == Level(h, q);
          }
        }
      }
    }
  }

  lemma AppendOneInjective<T>(q: seq<T>, n: T, parent: seq<T>, name: T)
    requires q + [n] == parent + [name]
    ensures q == parent && n == name
  {
    assert q == (q + [n])[..|q|];
    assert parent == (parent + [name])[..|parent|];
  }

  lemma {:induction false} WalkMatch(h: Hierarchy, path: Path)
    requires LevelsMatch(h)
    ensures LevelsMatch(Walk(h, path))
    ensures LevelsDistinct(h) ==> LevelsDistinct(Walk(h, path))
    decreases |path|
  {
    if path != [] {
      var parent := path[..|path| - 1];
      WalkMatch(h, parent);
      EnterMatch(Walk(h, parent), parent, path[|path| - 1]);
    }
  }

  lemma PlaceMatch(h: Hierarchy, n: NodeInfo)
    requires LevelsMatch(h)
    ensures LevelsMatch(Place(h, n))
    ensures LevelsDistinct(h) ==> LevelsDistinct(Place(h, n))
  {
    if Truthy(n.style.cluster) {
      var parent := n.style.clusterPath;
      var h1 := Enter(Walk(h, parent), parent, n.style.cluster.value);
      WalkMatch(h, parent);
      EnterMatch(Walk(h, parent), parent, n.style.cluster.value);
      EnterPaths(Walk(h, parent), parent, n.style.cluster.value);
      var r := Place(h, n);
      assert r.levels == h1.levels;
      forall q ensures Level(r, q) == Level(h1, q) {
      }
      forall q, m ensures m in Level(r, q) <==> q + [m] in r.groups {
        assert m in Level(h1, q) <==> q + [m] in h1.groups;
      }
      if LevelsDistinct(h) {
        forall q ensures Distinct(Level(r, q)) {
          assert Distinct(Level(h1, q));
        }
      }
    }
  }

  /** In the hierarchy the populate loop builds, the names listed in each level are
      the groups one level below, each listed once. */
  lemma {:induction false} BuildMatch(nodes: seq<NodeInfo>)
    ensures LevelsMatch(Build(nodes)) && LevelsDistinct(Build(nodes))
    decreases |nodes|
  {
    if nodes != [] {
      BuildMatch(nodes[..|nodes| - 1]);
      PlaceMatch(Build(nodes[..|nodes| - 1]), nodes[|nodes| - 1]);
    }
  }

  /** Every group of the built hierarchy is reached from the top level through the
      levels of its enclosing groups. */
  lemma {:induction false} BuildRooted(nodes: seq<NodeInfo>, p: Path)
    requires p in Build(nodes).groups
    ensures Rooted(Build(nodes), p)
    decreases |p|
  {
    var h := Build(nodes);
    BuildPaths(nodes);
    BuildMatch(nodes);
    var parent := p[..|p| - 1];
    assert parent + [p[|p| - 1]] == p;
    if parent != [] {
      var i :| 0 <= i < |nodes| && Full(nodes[i]).Some? && Within(p, Full(nodes[i]).value);
      assert Within(parent, Full(nodes[i]).value);
      BuildRooted(nodes, parent);
    }
  }

  // ---- Group ids: `f"{cluster_id_prefix}_{i}"`, starting from "c" ----

  /** The id of the child at position `i` of the group with id `prefix`. */
  function ClusterId(prefix: string, i: nat): string {
    prefix + "_" + NatToString(i)
  }

  /** The id reached by following the positions `idx` down from the top level. */
  function IdOf(idx: seq<nat>): (r: string)
    ensures |r| >= 1
    decreases |idx|
  {
    if idx == [] then "c" else ClusterId(IdOf(idx[..|idx| - 1]), idx[|idx| - 1])
  }

  /** The positions of a group and of its enclosing groups in their levels. */
  function IndexPath(h: Hierarchy, p: Path): (r: seq<nat>)
    requires Rooted(h, p)
    ensures |r| == |p|
    decreases |p|
  {
    if p == [] then []
    else
      var parent := p[..|p| - 1];
      IndexPath(h, parent) + [IndexOf(Level(h, parent), p[|p| - 1])]
  }

  /** The id `render_cluster_recursively` gives the group at `p`. */
  function GroupId(h: Hierarchy, p: Path): string
    requires Rooted(h, p)
  {
    IdOf(IndexPath(h, p))
  }

  /** The `i`-th group of the top level has id `c_i`. */
  lemma TopLevelId(h: Hierarchy, i: nat)
    requires LevelsMatch(h) && LevelsDistinct(h) && i < |Level(h, [])|
    ensures [Level(h, [])[i]] in h.groups
    ensures GroupId(h, [Level(h, [])[i]]) == "c_" + NatToString(i)
  {
    var p := [Level(h, [])[i]];
    assert [] + p == p;
    assert p[..0] == [];
    IndexOfDistinct(Level(h, []), i);
    assert IndexPath(h, p) == [i];
    assert [i][..0] == [];
    assert IdOf([i]) == "c" + "_" + NatToString(i);
    assert "c" + "_" == "c_";
  }

  /** The `i`-th group below the group with id `x` has id `x_i`. */
  lemma ChildId(h: Hierarchy, p: Path, i: nat)
    requires LevelsMatch(h) && LevelsDistinct(h) && Rooted(h, p) && i < |Level(h, p)|
    ensures p + [Level(h, p)[i]] in h.groups
    ensures GroupId(h, p + [Level(h, p)[i]]) == GroupId(h, p) + "_" + NatToString(i)
  {
    var c := p + [Level(h, p)[i]];
    assert c[..|c| - 1] == p;
    IndexOfDistinct(Level(h, p), i);
    assert IndexPath(h, c) == IndexPath(h, p) + [i];
    assert (IndexPath(h, p) + [i])[..|p|] == IndexPath(h, p);
  }

  /** In a level without repeats, the name at position `i` is found at `i`. */
  lemma IndexOfDistinct(s: seq<string>, i: nat)
    requires Distinct(s) && i < |s|
    ensures IndexOf(s, s[i]) == i
  {
  }

  /** The last `_` of an id separates the parent's id from the position. */
  lemma SplitId(x1: string, d1: string, x2: string, d2: string)
    requires All(d1, Digit) && All(d2, Digit)
    requires x1 + "_" + d1 == x2 + "_" + d2
    ensures x1 == x2 && d1 == d2
  {
    var s := x1 + "_" + d1;
    IdShape(s, x1, d1);
    IdShape(s, x2, d2);
    assert x1 == s[..|x1|];
    assert x2 == s[..|x2|];
    assert d1 == s[|x1| + 1..];
  }

  /** An id ends with `_` and a run of digits. */
  lemma IdShape(s: string, x: string, d: string)
    requires s == x + "_" + d && All(d, Digit)
    ensures s[|x|] == '_' && forall i :: |x| < i < |s| ==> s[i] != '_'
  {
    forall i | |x| < i < |s| ensures s[i] != '_' {
      assert s[i] == d[i - |x| - 1];
    }
  }

  /** Different position paths give different ids. */
  lemma {:induction false} IdOfInjective(a: seq<nat>, b: seq<nat>)
    requires IdOf(a) == IdOf(b)
    ensures a == b
    decreases |a|
  {
    if a != [] && b != [] {
      var ia, ib := a[..|a| - 1], b[..|b| - 1];
      SplitId(IdOf(ia), NatToString(a[|a| - 1]), IdOf(ib), NatToString(b[|b| - 1]));
      NatToStringInjective(a[|a| - 1], b[|b| - 1]);
      IdOfInjective(ia, ib);
      assert a == ia + [a[|a| - 1]];
      assert b == ib + [b[|b| - 1]];
    }
  }

  lemma {:induction false} IndexPathInjective(h: Hierarchy, p: Path, q: Path)
    requires Rooted(h, p) && Rooted(h, q)
    requires IndexPath(h, p) == IndexPath(h, q)
    ensures p == q
    decreases |p|
  {
    if p != [] {
      var pp, qp := p[..|p| - 1], q[..|q| - 1];
      var a, b := p[|p| - 1], q[|q| - 1];
      var ip, iq := IndexPath(h, pp), IndexPath(h, qp);
      var i, j := IndexOf(Level(h, pp), a), IndexOf(Level(h, qp), b);
      assert ip + [i] == iq + [j];
      assert ip == iq && i == j by {
        AppendOneInjective(ip, i, iq, j);
      }
      IndexPathInjective(h, pp, qp);
      assert p == pp + [a] && q == qp + [b];
    }
  }


  /** No two groups share an id, so no two `cluster_<id>` subgraphs share a name. */
  lemma GroupIdsDistinct(h: Hierarchy, p: Path, q: Path)
    requires Rooted(h, p) && Rooted(h, q) && p != q
    ensures GroupId(h, p) != GroupId(h, q)
  {
    if GroupId(h, p) == GroupId(h, q) {
      IdOfInjective(IndexPath(h, p), IndexPath(h, q));
      IndexPathInjective(h, p, q);
    }
  }

  // ---- The loops that build it ----

  /** The nested dict `cluster_hierarchy`, which the populate loop and
      `find_or_create_cluster_path` update in place. */
  class ClusterHierarchy {
    var groups: map<Path, Group>
    var levels: map<Path, seq<string>>

    function Value(): Hierarchy
      reads this
    {
      Hierarchy(groups, levels)
    }

    /** `cluster_hierarchy = {}` */
    constructor ()
      ensures Value() == EmptyHierarchy
    {
      groups := map[];
      levels := map[];
    }

    /** `find_or_create_cluster_path(path)`: walks down `path`, creating each missing
        group empty at the end of its level. */
    method FindOrCreatePath(path: Path)
      modifies this
      ensures Value() == Walk(old(Value()), path)
    {
      var i := 0;
      while i < |path|
        invariant 0 <= i <= |path|
        invariant Value() == Walk(old(Value()), path[..i])
      {
        var level := path[..i];
        if level + [path[i]] !in groups {
          groups := groups[level + [path[i]] := EmptyGroup];
          levels := levels[level := Level(Value(), level) + [path[i]]];
        }
        assert path[..i + 1][..i] == level && path[..i + 1][i] == path[i];
        i := i + 1;
      }
      assert path[..i] == path;
    }

    /** One iteration of the populate loop: a node with a cluster is appended to the
        group at its `cluster_path` and `cluster`, which is created (with the node as
        its metadata node) if missing, and which takes the node as metadata node if
        it has none. A node without a cluster changes nothing. */
    method AddNode(n: NodeInfo)
      modifies this
      ensures Value() == Place(old(Value()), n)
    {
      if Truthy(n.style.cluster) {
        var parent := n.style.clusterPath;
        if parent != [] {
          FindOrCreatePath(parent);
        }
        var name := n.style.cluster.value;
        var p := parent + [name];
        if p !in groups {
          groups := groups[p := Group([], Some(n.key))];
          levels := levels[parent := Level(Value(), parent) + [name]];
        }
        var g := groups[p];
        groups := groups[p := g.(members := g.members + [n.key])];
        if groups[p].meta.None? {
          groups := groups[p := groups[p].(meta := Some(n.key))];
        }
      }
    }
  }

  /** The populate loop `for node in diagram.nodes.values()`: every node of the
      diagram, in insertion order, is placed in the hierarchy. The fields are those the
      nodes hold when the loop starts; the loop changes none of them. */
  method BuildHierarchy(d: Diagram) returns (t: ClusterHierarchy)
    requires d.Valid()
    ensures fresh(t) && t.Value() == Build(old(Infos(d.Values())))
  {
    t := PlaceAll(d.Values());
  }

  /** The loop itself: each node's fields are placed, one node after the other. */
  method PlaceAll(nodes: seq<Node>) returns (t: ClusterHierarchy)
    ensures fresh(t) && t.Value() == Build(old(Infos(nodes)))
  {
    ghost var infos := Infos(nodes);
    t := new ClusterHierarchy();
    var i := 0;
    while i < |nodes|
      invariant 0 <= i <= |nodes|
      invariant t.Value() == Build(infos[..i])
    {
      assert infos[..i + 1][..i] == infos[..i];
      assert nodes[i].Value() == infos[i];
      t.AddNode(nodes[i].Value());
      i := i + 1;
    }
    assert infos[..i] == infos;
  }

  // ---------------------------------------------------------------- colours

  /** `c if c.startswith('#') else f"#{c}"` */
  function NormalizeColor(c: string): string {
    if StartsWith(c, "#") then c else "#" + c
  }

  /** The colour starts with `#`, which is added only when missing: normalising twice
      is normalising once, and dropping the added `#` gives the colour back. */
  lemma NormalizeColorFacts(c: string)
    ensures StartsWith(NormalizeColor(c), "#")
    ensures NormalizeColor(NormalizeColor(c)) == NormalizeColor(c)
    ensures StartsWith(c, "#") ==> NormalizeColor(c) == c
    ensures !StartsWith(c, "#") ==> NormalizeColor(c)[1..] == c
  {
    var r := NormalizeColor(c);
    assert r[..1] == "#";
  }

  /** The `color` or `bgcolor` a group gets from its metadata node's `cluster_color` or
      `cluster_bgcolor`: none when unset or empty. */
  function GroupColor(c: Option<string>): Option<string> {
    if Truthy(c) then Some(NormalizeColor(c.value)) else None
  }

  /** `getattr(node, "color", None) or "lightblue"` */
  function FillColor(c: Option<string>): string {
    if Truthy(c) then c.value else "lightblue"
  }

  /** A group gets a colour exactly when one is set, always `#`-prefixed; a node always
      gets a fill colour, its own when set. */
  lemma ColorFallbacks(c: Option<string>)
    ensures GroupColor(c).Some? <==> Truthy(c)
    ensures GroupColor(c).Some? ==>
              StartsWith(GroupColor(c).value, "#") && (GroupColor(c).value == c.value || GroupColor(c).value == "#" + c.value)
    ensures FillColor(c) != ""
    ensures Truthy(c) ==> FillColor(c) == c.value
  {
    if Truthy(c) {
      NormalizeColorFacts(c.value);
    }
  }

  // ---------------------------------------------------------------- inline stylesheet

  function StyleTag(css: string): string {
    "<style type=\"text/css\">\n" + css + "\n</style>\n"
  }

  /** The inline stylesheet, when set and not empty, goes right after the `>` that
      closes the first `<svg` tag; without `<svg`, or without `>` after it, the text
      is left as it is. */
  function InjectStylesheet(svg: string, css: Option<string>): string {
    if !Truthy(css) then svg
    else
      match Find(svg, "<svg", 0)
      case None => svg
      case Some(start) =>
        match Find(svg, ">", start)
        case None => svg
        case Some(pos) => svg[..pos + 1] + "\n" + StyleTag(css.value) + svg[pos + 1..]
  }

  lemma CloseAt(s: string, i: nat)
    requires i < |s|
    ensures StartsWith(s[i..], ">") <==> s[i] == '>'
  {
    if s[i] == '>' {
      assert s[i..][..1] == ">";
    }
  }

  /** Where the tag goes: after the first `>` at or after the first `<svg`. Removing
      the inserted text gives the SVG text back. */
  lemma InjectPlacement(svg: string, css: Option<string>, start: nat, pos: nat)
    requires Truthy(css)
    requires start + 4 <= |svg| && StartsWith(svg[start..], "<svg")
    requires forall i :: 0 <= i < start ==> !StartsWith(svg[i..], "<svg")
    requires start <= pos < |svg| && svg[pos] == '>'
    requires forall i :: start <= i < pos ==> svg[i] != '>'
    ensures InjectStylesheet(svg, css) == svg[..pos + 1] + "\n" + StyleTag(css.value) + svg[pos + 1..]
    ensures var r, n := InjectStylesheet(svg, css), 1 + |StyleTag(css.value)|;
            r[..pos + 1] + r[pos + 1 + n..] == svg
  {
    var f := Find(svg, "<svg", 0);
    assert f == Some(start);
    var g := Find(svg, ">", start);
    CloseAt(svg, pos);
    assert g == Some(pos) by {
      if g.Some? && g.value < pos {
        CloseAt(svg, g.value);
      }
    }
    var r := svg[..pos + 1] + "\n" + StyleTag(css.value) + svg[pos + 1..];
    var n := 1 + |StyleTag(css.value)|;
    assert r[..pos + 1] == svg[..pos + 1];
    assert r[pos + 1 + n..] == svg[pos + 1..];
    assert svg[..pos + 1] + svg[pos + 1..] == svg;
  }

  /** The text is left as it is when the stylesheet is unset or empty, when there is
      no `<svg`, or when no `>` follows it. */
  lemma InjectUnchanged(svg: string, css: Option<string>)
    ensures !Truthy(css) ==> InjectStylesheet(svg, css) == svg
    ensures (forall i :: 0 <= i <= |svg| - 4 ==> !StartsWith(svg[i..], "<svg")) ==> InjectStylesheet(svg, css) == svg
    ensures (forall i, j :: 0 <= j <= |svg| - 4 && StartsWith(svg[j..], "<svg") && j <= i < |svg| ==> svg[i] != '>')
              ==> InjectStylesheet(svg, css) == svg
  {
    if Truthy(css) {
      match Find(svg, "<svg", 0)
      case None =>
      case Some(start) =>
        var g := Find(svg, ">", start);
        if g.Some? {
          CloseAt(svg, g.value);
        }
    }
  }
}
