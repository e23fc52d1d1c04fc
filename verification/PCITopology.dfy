/**
 The PCI forest of the running system and the LCA distance between two devices
 (pci_topology.go).  A device's location is the list of PCI path components from its root
 down to itself; a tree node stands for one such list.  Nodes refer to each other by index.
 */
module PCITopology {
  import opened Ordering

  type Path = seq<int>

  /** What the allocator reads of a device: a VF's parent PF, a usable SID, the parsed NUMA
      number and the PCI ancestors, each absent when it could not be determined. */
  datatype NPUDevice = NPUDevice(parentPF: Option<int>, sid: Option<int>, numa: Option<int>, path: Option<Path>)

  datatype PCIDistance = PCIDistance(known: bool, separateRoots: bool, hops: int)

  datatype PCITreeNode = PCITreeNode(parent: Option<nat>, root: nat, children: seq<nat>, depth: nat)

  datatype PCITree = PCITree(devices: map<int, nat>, nodes: seq<PCITreeNode>, roots: seq<nat>)

  // ----- distances on paths -----

  function CommonPrefix(a: Path, b: Path): (k: nat)
    ensures k <= |a| && k <= |b|
    ensures a[..k] == b[..k]
    ensures k < |a| && k < |b| ==> a[k] != b[k]
  {
    if |a| == 0 || |b| == 0 || a[0] != b[0] then 0
    else
      var k := CommonPrefix(a[1..], b[1..]);
      assert a[..k + 1] == [a[0]] + a[1..][..k];
      assert b[..k + 1] == [b[0]] + b[1..][..k];
      k + 1
  }

  /** The documented distance: hops to and from the lowest common ancestor, no number at all
      across roots, and nothing for a device without a path. */
  ghost function PathDistance(a: Option<Path>, b: Option<Path>): PCIDistance {
    if a.None? || b.None? then PCIDistance(false, false, 0)
    else if CommonPrefix(a.value, b.value) == 0 then PCIDistance(false, true, 0)
    else PCIDistance(true, false, |a.value| + |b.value| - 2 * CommonPrefix(a.value, b.value))
  }

  /** CommonPrefix is the longest common prefix. */
  lemma CommonPrefixLongest(a: Path, b: Path, k: nat)
    requires k <= |a| && k <= |b|
    ensures a[..k] == b[..k] <==> k <= CommonPrefix(a, b)
  {
    var c := CommonPrefix(a, b);
    if k <= c {
      assert a[..k] == a[..c][..k] && b[..k] == b[..c][..k];
    } else {
      assert a[..k][c] == a[c] && b[..k][c] == b[c];
    }
  }

  lemma DistanceSymmetric(a: Option<Path>, b: Option<Path>)
    ensures PathDistance(a, b) == PathDistance(b, a)
  {}

  /** Within one root the hop count is a metric: zero exactly on the same endpoint, symmetric,
      and subject to the triangle inequality. */
  lemma DistanceIsMetric(a: Path, b: Path, c: Path)
    requires |a| > 0 && |b| > 0 && |c| > 0 && a[0] == b[0] == c[0]
    ensures PathDistance(Some(a), Some(b)).known
    ensures PathDistance(Some(a), Some(b)).hops == 0 <==> a == b
    ensures PathDistance(Some(a), Some(b)) == PathDistance(Some(b), Some(a))
    ensures PathDistance(Some(a), Some(c)).hops <= PathDistance(Some(a), Some(b)).hops +
            PathDistance(Some(b), Some(c)).hops
  {}

  /** Paths under different roots are exactly those that differ in their first component. */
  lemma SeparateRootsSpec(a: Path, b: Path)
    requires |a| > 0 && |b| > 0
    ensures PathDistance(Some(a), Some(b)).separateRoots <==> a[0] != b[0]
    ensures PathDistance(Some(a), Some(b)).known <==> a[0] == b[0]
  {}

  // ----- the forest -----

  ghost predicate NodeAgrees(nodes: seq<PCITreeNode>, paths: seq<Path>, i: nat)
    requires i < |nodes| == |paths|
  {
    var n, path := nodes[i], paths[i];
    && |path| == n.depth + 1
    && n.root <= i && paths[n.root] == path[..1]
    && (n.parent.None? <==> |path| == 1)
    && (n.parent.Some? ==> n.parent.value < i && paths[n.parent.value] == path[..|path| - 1])
  }

  ghost predicate ChildrenAgree(nodes: seq<PCITreeNode>, i: nat)
    requires i < |nodes|
  {
    && Ascending(nodes[i].children)
    && forall c :: c in nodes[i].children <==> 0 <= c < |nodes| && nodes[c].parent == Some(i)
  }

  /** The forest invariant: nodes are in one-to-one correspondence with the distinct paths,
      parents precede children, and roots and children invert the parent links. */
  ghost predicate Forest(nodes: seq<PCITreeNode>, roots: seq<nat>, paths: seq<Path>) {
    && |nodes| == |paths|
    && (forall i, j | 0 <= i < j < |paths| :: paths[i] != paths[j])
    && (forall i | 0 <= i < |nodes| :: NodeAgrees(nodes, paths, i))
    && (forall i | 0 <= i < |nodes| :: ChildrenAgree(nodes, i))
    && Ascending(roots)
    && (forall r :: r in roots <==> 0 <= r < |nodes| && nodes[r].parent == None)
  }

  ghost predicate ValidPaths(devices: map<int, NPUDevice>) {
    forall id | id in devices && devices[id].path.Some? :: |devices[id].path.value| > 0
  }

  ghost function PathOf(devices: map<int, NPUDevice>, id: int): Option<Path> {
    if id in devices then devices[id].path else None
  }

  /** The tree holds the given devices, each at the node of its path. */
  ghost predicate TreeOf(tree: PCITree, paths: seq<Path>, devices: map<int, NPUDevice>) {
    && Forest(tree.nodes, tree.roots, paths)
    && (forall id :: id in tree.devices <==> PathOf(devices, id).Some?)
    && (forall id | id in tree.devices ::
        tree.devices[id] < |paths| && paths[tree.devices[id]] == devices[id].path.value)
  }

  /** One node per distinct nonempty prefix of a device path, and no others. */
  ghost predicate NodesAreThePrefixes(paths: seq<Path>, devices: map<int, NPUDevice>) {
    forall p: Path :: p in paths <==> PrefixOfSome(p, devices)
  }

  /** The distinct nonempty prefixes of the devices' paths. */
  ghost function Prefixes(devices: map<int, NPUDevice>): set<Path> {
    set id, k | id in devices && devices[id].path.Some? && 1 <= k <= |devices[id].path.value| ::
      devices[id].path.value[..k]
  }

  /** The same of a tree alone: some assignment of paths to its nodes fits. */
  ghost predicate TreeFor(tree: PCITree, devices: map<int, NPUDevice>) {
    exists paths :: TreeOf(tree, paths, devices) && NodesAreThePrefixes(paths, devices)
  }

  function AppendChild(nodes: seq<PCITreeNode>, parent: nat, child: nat): (r: seq<PCITreeNode>)
    requires parent < |nodes|
  {
    nodes[parent := nodes[parent].(children := nodes[parent].children + [child])]
  }

  lemma AddRoot(nodes: seq<PCITreeNode>, roots: seq<nat>, paths: seq<Path>, path: Path)
    requires Forest(nodes, roots, paths) && |path| == 1 && path !in paths
    ensures Forest(nodes + [PCITreeNode(None, |nodes|, [], 0)], roots + [|nodes|], paths + [path])
  {
    var n', p' := nodes + [PCITreeNode(None, |nodes|, [], 0)], paths + [path];
    forall i | 0 <= i < |n'| ensures NodeAgrees(n', p', i) {
      if i < |nodes| { assert NodeAgrees(nodes, paths, i); }
    }
    forall i | 0 <= i < |n'| ensures ChildrenAgree(n', i) {
      if i < |nodes| { assert ChildrenAgree(nodes, i); } else {
        forall c | 0 <= c < |n'| ensures n'[c].parent != Some(i) {
          if c < |nodes| { assert NodeAgrees(nodes, paths, c); }
        }
      }
    }
    assert forall i | 0 <= i < |roots| :: roots[i] in roots;
  }

  lemma AddNode(nodes: seq<PCITreeNode>, roots: seq<nat>, paths: seq<Path>, path: Path, parent: nat)
    requires Forest(nodes, roots, paths) && |path| > 1 && path !in paths
    requires parent < |nodes| && paths[parent] == path[..|path| - 1]
    ensures Forest(AppendChild(nodes, parent, |nodes|) +
                   [PCITreeNode(Some(parent), nodes[parent].root, [], nodes[parent].depth + 1)],
                   roots, paths + [path])
  {
    var n' := AppendChild(nodes, parent, |nodes|) +
      [PCITreeNode(Some(parent), nodes[parent].root, [], nodes[parent].depth + 1)];
    var p' := paths + [path];
    assert NodeAgrees(nodes, paths, parent);
    forall i | 0 <= i < |n'| ensures NodeAgrees(n', p', i) {
      if i < |nodes| { assert NodeAgrees(nodes, paths, i); }
      else {
        assert path[..|path| - 1][..1] == path[..1];
      }
    }
    forall i | 0 <= i < |n'| ensures ChildrenAgree(n', i) {
      if i < |nodes| {
        assert ChildrenAgree(nodes, i);
        assert forall k | 0 <= k < |nodes[i].children| :: nodes[i].children[k] in nodes[i].children;
        forall c ensures c in n'[i].children <==> 0 <= c < |n'| && n'[c].parent == Some(i) {
          assert c in nodes[i].children <==> 0 <= c < |nodes| && nodes[c].parent == Some(i);
        }
      } else {
        forall c | 0 <= c < |n'| ensures n'[c].parent != Some(i) {
          if c < |nodes| { assert NodeAgrees(nodes, paths, c); }
        }
      }
    }
    forall r ensures r in roots <==> 0 <= r < |n'| && n'[r].parent == None {
      assert r in roots <==> 0 <= r < |nodes| && nodes[r].parent == None;
    }
  }

  /** The node of one path prefix, created below its parent if it is new. */
  method InternPrefix(nodes: seq<PCITreeNode>, roots: seq<nat>, interned: map<Path, nat>, parent: Option<nat>,
                      path: Path, ghost paths: seq<Path>)
    returns (nodes': seq<PCITreeNode>, roots': seq<nat>, interned': map<Path, nat>, node: nat, ghost paths': seq<Path>)
    requires Forest(nodes, roots, paths) && Interned(interned, paths) && |path| > 0
    requires parent.None? <==> |path| == 1
    requires parent.Some? ==> parent.value < |paths| && paths[parent.value] == path[..|path| - 1]
    ensures Forest(nodes', roots', paths') && Interned(interned', paths')
    ensures node < |paths'| && paths'[node] == path
    ensures paths' == if path in paths then paths else paths + [path]
  {
    nodes', roots', interned', paths' := nodes, roots, interned, paths;
    if path in interned {
      node := interned[path];
      return;
    }
    node := |nodes|;
    if parent.None? {
      AddRoot(nodes, roots, paths, path);
      nodes' := nodes + [PCITreeNode(None, node, [], 0)];
      roots' := roots + [node];
    } else {
      AddNode(nodes, roots, paths, path, parent.value);
      var up := nodes[parent.value];
      nodes' := AppendChild(nodes, parent.value, node) + [PCITreeNode(parent, up.root, [], up.depth + 1)];
    }
    InternedGrows(interned, paths, path);
    interned' := interned[path := node];
    paths' := paths + [path];
  }

  /** The loop over a device's ancestors, root first: afterwards all its prefixes have nodes. */
  method InternPath(nodes: seq<PCITreeNode>, roots: seq<nat>, interned: map<Path, nat>, ancestors: Path,
                    ghost paths: seq<Path>)
    returns (nodes': seq<PCITreeNode>, roots': seq<nat>, interned': map<Path, nat>, leaf: nat, ghost paths': seq<Path>)
    requires Forest(nodes, roots, paths) && Interned(interned, paths) && |ancestors| > 0
    ensures Forest(nodes', roots', paths') && Interned(interned', paths')
    ensures leaf < |paths'| && paths'[leaf] == ancestors
    ensures paths <= paths' && forall p | p in paths' :: p in paths || (|p| > 0 && p <= ancestors)
  {
    hide Forest, Interned;
    nodes', roots', interned', paths' := nodes, roots, interned, paths;
    var parent: Option<nat> := None;
    for k := 0 to |ancestors|
      invariant Forest(nodes', roots', paths') && Interned(interned', paths')
      invariant parent.None? <==> k == 0
      invariant parent.Some? ==> parent.value < |paths'| && paths'[parent.value] == ancestors[..k]
      invariant paths <= paths' && forall p | p in paths' :: p in paths || (|p| > 0 && p <= ancestors)
    {
      var path := ancestors[..k + 1];
      assert path[..k] == ancestors[..k];
      var node: nat;
      nodes', roots', interned', node, paths' := InternPrefix(nodes', roots', interned', parent, path, paths');
      parent := Some(node);
    }
    assert ancestors[..|ancestors|] == ancestors;
    leaf := parent.value;
  }

  /** The first d of the listed devices that have a path sit at the nodes of their paths. */
  ghost predicate Placed(placed: map<int, nat>, ids: seq<int>, d: nat, devices: map<int, NPUDevice>, paths: seq<Path>)
    requires d <= |ids|
  {
    && (forall id :: id in placed <==> id in ids[..d] && PathOf(devices, id).Some?)
    && (forall id | id in placed :: placed[id] < |paths| && paths[placed[id]] == PathOf(devices, id).value)
  }

  lemma PlacedNext(placed: map<int, nat>, ids: seq<int>, d: nat, devices: map<int, NPUDevice>, paths: seq<Path>,
                   leaf: nat)
    requires d < |ids| && Ascending(ids) && Placed(placed, ids, d, devices, paths)
    ensures PathOf(devices, ids[d]).None? ==> Placed(placed, ids, d + 1, devices, paths)
    ensures PathOf(devices, ids[d]).Some? && leaf < |paths| && paths[leaf] == PathOf(devices, ids[d]).value ==>
              Placed(placed[ids[d] := leaf], ids, d + 1, devices, paths)
  {
    assert ids[..d + 1] == ids[..d] + [ids[d]];
  }

  ghost predicate OnlyPrefixes(paths: seq<Path>, devices: map<int, NPUDevice>) {
    forall p | p in paths :: PrefixOfSome(p, devices)
  }

  lemma PrefixesOfOneMore(paths: seq<Path>, paths': seq<Path>, devices: map<int, NPUDevice>, id: int)
    requires OnlyPrefixes(paths, devices) && PathOf(devices, id).Some?
    requires forall p | p in paths' :: p in paths || (|p| > 0 && p <= PathOf(devices, id).value)
    ensures OnlyPrefixes(paths', devices)
  {}

  /** newPCITree: interns the path prefixes of the devices, in ID order. */
  method NewPCITree(devices: map<int, NPUDevice>) returns (tree: PCITree, ghost paths: seq<Path>)
    requires ValidPaths(devices)
    ensures TreeOf(tree, paths, devices)
    ensures NodesAreThePrefixes(paths, devices)
    ensures TreeFor(tree, devices)
  {
    var nodes: seq<PCITreeNode>, roots: seq<nat> := [], [];
    var placed: map<int, nat> := map[];
    var interned: map<Path, nat> := map[];
    paths := [];
    var ids := SortedKeys(devices);
    assert Forest(nodes, roots, paths) && Interned(interned, paths);
    assert Placed(placed, ids, 0, devices, paths) && OnlyPrefixes(paths, devices);
    hide Forest, Interned, Placed, OnlyPrefixes, TreeOf, NodesAreThePrefixes, TreeFor;
    for d := 0 to |ids|
      invariant Forest(nodes, roots, paths) && Interned(interned, paths)
      invariant Placed(placed, ids, d, devices, paths) && OnlyPrefixes(paths, devices)
    {
      assert ids[d] in ids;
      if devices[ids[d]].path.Some? {
        ghost var before := paths;
        var leaf: nat;
        nodes, roots, interned, leaf, paths := InternPath(nodes, roots, interned, devices[ids[d]].path.value, paths);
        PrefixesOfOneMore(before, paths, devices, ids[d]);
        StillPlaced(placed, ids, d, devices, before, paths);
        PlacedNext(placed, ids, d, devices, paths, leaf);
        placed := placed[ids[d] := leaf];
      } else {
        PlacedNext(placed, ids, d, devices, paths, 0);
      }
    }
    tree := PCITree(placed, nodes, roots);
    TreeBuilt(tree, ids, paths, devices);
  }

  lemma TreeBuilt(tree: PCITree, ids: seq<int>, paths: seq<Path>, devices: map<int, NPUDevice>)
    requires Forest(tree.nodes, tree.roots, paths) && Placed(tree.devices, ids, |ids|, devices, paths) &&
             OnlyPrefixes(paths, devices)
    requires forall id :: id in ids <==> id in devices
    ensures TreeOf(tree, paths, devices) && NodesAreThePrefixes(paths, devices) && TreeFor(tree, devices)
  {
    hide Forest, NodesAreThePrefixes, OnlyPrefixes;
    assert ids[..|ids|] == ids;
    forall id ensures id in tree.devices <==> PathOf(devices, id).Some? { assert id in ids <==> id in devices; }
    assert TreeOf(tree, paths, devices);
    PrefixesArePresent(tree, paths, devices);
  }

  lemma StillPlaced(placed: map<int, nat>, ids: seq<int>, d: nat, devices: map<int, NPUDevice>, paths: seq<Path>,
                    paths': seq<Path>)
    requires d <= |ids| && Placed(placed, ids, d, devices, paths) && paths <= paths'
    ensures Placed(placed, ids, d, devices, paths')
  {}

  ghost predicate Interned(interned: map<Path, nat>, paths: seq<Path>) {
    && (forall p :: p in interned <==> p in paths)
    && (forall p | p in interned :: interned[p] < |paths| && paths[interned[p]] == p)
  }

  lemma InternedGrows(interned: map<Path, nat>, paths: seq<Path>, path: Path)
    requires Interned(interned, paths) && path !in paths
    ensures Interned(interned[path := |paths|], paths + [path])
  {}

  ghost predicate PrefixOfSome(p: Path, devices: map<int, NPUDevice>) {
    |p| > 0 && exists id :: PathOf(devices, id).Some? && p <= PathOf(devices, id).value
  }

  /** Every nonempty prefix of a node's path is a node's path. */
  lemma {:induction false} PrefixClosed(nodes: seq<PCITreeNode>, roots: seq<nat>, paths: seq<Path>, v: nat, k: nat)
    returns (u: nat)
    requires Forest(nodes, roots, paths) && v < |paths| && 0 < k <= |paths[v]|
    ensures u <= v && paths[u] == paths[v][..k]
    decreases v
  {
    assert NodeAgrees(nodes, paths, v);
    if k == |paths[v]| {
      u := v;
    } else {
      u := PrefixClosed(nodes, roots, paths, nodes[v].parent.value, k);
      assert paths[v][..|paths[v]| - 1][..k] == paths[v][..k];
    }
  }

  lemma PrefixesArePresent(tree: PCITree, paths: seq<Path>, devices: map<int, NPUDevice>)
    requires TreeOf(tree, paths, devices)
    requires OnlyPrefixes(paths, devices)
    ensures NodesAreThePrefixes(paths, devices)
  {
    forall p: Path | PrefixOfSome(p, devices) ensures p in paths {
      var id :| PathOf(devices, id).Some? && p <= PathOf(devices, id).value;
      assert id in tree.devices;
      var u := PrefixClosed(tree.nodes, tree.roots, paths, tree.devices[id], |p|);
      assert paths[u] == p;
    }
  }

  lemma TreeFacts(tree: PCITree, paths: seq<Path>, devices: map<int, NPUDevice>, id: int)
    requires TreeOf(tree, paths, devices)
    ensures Forest(tree.nodes, tree.roots, paths) && |tree.nodes| == |paths|
    ensures id in tree.devices <==> PathOf(devices, id).Some?
    ensures id in tree.devices ==>
              tree.devices[id] < |paths| && paths[tree.devices[id]] == PathOf(devices, id).value &&
              NodeAgrees(tree.nodes, paths, tree.devices[id])
  {}

  lemma DifferentPaths(nodes: seq<PCITreeNode>, roots: seq<nat>, paths: seq<Path>, a: nat, b: nat)
    requires Forest(nodes, roots, paths) && a < |paths| && b < |paths| && a != b
    ensures paths[a] != paths[b]
  {
    if b < a { assert paths[b] != paths[a]; }
  }

  /** The node's path is a prefix of the path climbed from. */
  ghost predicate OnPath(nodes: seq<PCITreeNode>, paths: seq<Path>, v: int, full: Path) {
    && 0 <= v < |nodes| == |paths|
    && |paths[v]| == nodes[v].depth + 1 <= |full| && paths[v] == full[..|paths[v]|]
  }

  /** The loops that lift the deeper of the two nodes. */
  method Climb(nodes: seq<PCITreeNode>, node: nat, depth: nat, ghost roots: seq<nat>, ghost paths: seq<Path>,
               ghost full: Path)
    returns (up: nat)
    requires Forest(nodes, roots, paths) && OnPath(nodes, paths, node, full)
    ensures OnPath(nodes, paths, up, full)
    ensures nodes[up].depth == if depth < nodes[node].depth then depth else nodes[node].depth
  {
    hide Forest, OnPath;
    up := node;
    IsNode(nodes, paths, up, full);
    while nodes[up].depth > depth
      invariant OnPath(nodes, paths, up, full) && up < |nodes|
      invariant nodes[up].depth == nodes[node].depth || depth <= nodes[up].depth < nodes[node].depth
      decreases nodes[up].depth
    {
      ParentOnPath(nodes, roots, paths, full, up);
      up := nodes[up].parent.value;
    }
  }

  lemma IsNode(nodes: seq<PCITreeNode>, paths: seq<Path>, v: int, full: Path)
    requires OnPath(nodes, paths, v, full)
    ensures 0 <= v < |nodes| == |paths| && |paths[v]| == nodes[v].depth + 1 <= |full|
  {}

  lemma ParentOnPath(nodes: seq<PCITreeNode>, roots: seq<nat>, paths: seq<Path>, full: Path, v: nat)
    requires Forest(nodes, roots, paths) && OnPath(nodes, paths, v, full) && nodes[v].depth > 0
    ensures nodes[v].parent.Some? && nodes[v].parent.value < v
    ensures nodes[nodes[v].parent.value].depth == nodes[v].depth - 1
    ensures OnPath(nodes, paths, nodes[v].parent.value, full)
  {
    ParentStep(nodes, roots, paths, full, v);
  }

  /** Nodes of equal depth coincide exactly when the paths agree up to there. */
  lemma MeetIff(nodes: seq<PCITreeNode>, roots: seq<nat>, paths: seq<Path>, a: nat, b: nat, pa: Path, pb: Path)
    requires Forest(nodes, roots, paths) && OnPath(nodes, paths, a, pa) && OnPath(nodes, paths, b, pb)
    requires nodes[a].depth == nodes[b].depth
    ensures a == b <==> nodes[a].depth < CommonPrefix(pa, pb)
  {
    hide Forest, CommonPrefix;
    CommonPrefixLongest(pa, pb, nodes[a].depth + 1);
    if a != b { DifferentPaths(nodes, roots, paths, a, b); }
  }

  /** The loop that climbs both nodes until they meet. */
  method MeetingDepth(nodes: seq<PCITreeNode>, source: nat, destination: nat, ghost roots: seq<nat>,
                      ghost paths: seq<Path>, ghost pa: Path, ghost pb: Path) returns (depth: nat)
    requires Forest(nodes, roots, paths) && OnPath(nodes, paths, source, pa) && OnPath(nodes, paths, destination, pb)
    requires nodes[source].depth == nodes[destination].depth
    requires 0 < CommonPrefix(pa, pb) <= nodes[source].depth + 1
    ensures depth + 1 == CommonPrefix(pa, pb)
  {
    hide Forest, OnPath, CommonPrefix;
    var a: nat, b: nat := source, destination;
    IsNode(nodes, paths, a, pa);
    IsNode(nodes, paths, b, pb);
    MeetIff(nodes, roots, paths, a, b, pa, pb);
    while a != b
      invariant OnPath(nodes, paths, a, pa) && OnPath(nodes, paths, b, pb) && a < |nodes| && b < |nodes|
      invariant nodes[a].depth == nodes[b].depth && CommonPrefix(pa, pb) <= nodes[a].depth + 1
      invariant a == b <==> nodes[a].depth < CommonPrefix(pa, pb)
      decreases nodes[a].depth
    {
      ParentOnPath(nodes, roots, paths, pa, a);
      ParentOnPath(nodes, roots, paths, pb, b);
      a, b := nodes[a].parent.value, nodes[b].parent.value;
      MeetIff(nodes, roots, paths, a, b, pa, pb);
    }
    depth := nodes[a].depth;
  }

  /** The LCA climb returns the distance of the paths. */
  method Distance(tree: PCITree, source: int, destination: int, ghost paths: seq<Path>,
                  ghost devices: map<int, NPUDevice>)
    returns (d: PCIDistance)
    requires TreeOf(tree, paths, devices)
    ensures d == PathDistance(PathOf(devices, source), PathOf(devices, destination))
  {
    hide TreeOf, Forest, CommonPrefix;
    TreeFacts(tree, paths, devices, source);
    TreeFacts(tree, paths, devices, destination);
    if source !in tree.devices || destination !in tree.devices {
      return PCIDistance(false, false, 0);
    }
    var a: nat, b: nat := tree.devices[source], tree.devices[destination];
    var nodes := tree.nodes;
    ghost var pa, pb := paths[a], paths[b];
    CommonPrefixLongest(pa, pb, 1);
    if nodes[a].root != nodes[b].root {
      DifferentPaths(nodes, tree.roots, paths, nodes[a].root, nodes[b].root);
      return PCIDistance(false, true, 0);
    }
    var depthSum := nodes[a].depth + nodes[b].depth;
    assert pa[..|pa|] == pa && pb[..|pb|] == pb;
    a := Climb(nodes, a, nodes[b].depth, tree.roots, paths, pa);
    b := Climb(nodes, b, nodes[a].depth, tree.roots, paths, pb);
    var depth := MeetingDepth(nodes, a, b, tree.roots, paths, pa, pb);
    d := PCIDistance(true, false, depthSum - 2 * depth);
  }

  /** A node below a root has a parent, one component shorter. */
  lemma ParentStep(nodes: seq<PCITreeNode>, roots: seq<nat>, paths: seq<Path>, full: Path, v: nat)
    requires Forest(nodes, roots, paths) && v < |nodes| && nodes[v].depth > 0
    requires |paths[v]| <= |full| && paths[v] == full[..|paths[v]|]
    ensures nodes[v].parent.Some?
    ensures var up := nodes[v].parent.value;
      up < v && NodeAgrees(nodes, paths, up) && nodes[up].depth == nodes[v].depth - 1
      && |paths[up]| == |paths[v]| - 1 && paths[up] == full[..|paths[up]|]
  {
    assert NodeAgrees(nodes, paths, v);
    assert NodeAgrees(nodes, paths, nodes[v].parent.value);
    assert full[..|paths[v]|][..|paths[v]| - 1] == full[..|paths[v]| - 1];
  }
}
