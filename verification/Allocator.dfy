/**
 newTopologyAllocator (topology_allocator.go:10-24, 77-116): devices in ID order with interned
 card and NUMA identities, the PCI forest and the table of all pair distances.
 */
module Allocator {
  import opened Ordering
  import opened PCITopology
  import opened EdgeIdentity
  import opened Score

  datatype AllocationDevice = AllocationDevice(id: int, sid: int, numa: int, hasPCI: bool)

  datatype TopologyAllocator = TopologyAllocator(
    devices: seq<AllocationDevice>, byID: map<int, int>, pairs: seq<seq<PCIDistance>>,
    tree: PCITree, sidCount: nat, numaCount: nat)
  {
    /** What the score sees of the device with a given index. */
    ghost function Attr(): Attributes<int> {
      Attributes(
        i => if 0 <= i < |devices| then devices[i].numa else -1,
        i => if 0 <= i < |devices| then devices[i].sid else -1,
        i => 0 <= i < |devices| && devices[i].hasPCI,
        (i, j) => if 0 <= i < |pairs| && 0 <= j < |pairs[i]| then pairs[i][j] else PCIDistance(false, false, 0))
    }

    /** The tree node of the device with a given index, or -1. */
    ghost function Place(): int -> int {
      i => if 0 <= i < |devices| && devices[i].id in tree.devices then tree.devices[devices[i].id] as int else -1
    }

    ghost function IDs(): int -> int {
      i => if 0 <= i < |devices| then devices[i].id else -1
    }

    /** The tables agree with the forest: pair distances, PCI flags and the ranges of the interned identities. */
    ghost predicate Topology(paths: seq<Path>) {
      && Forest(tree.nodes, tree.roots, paths)
      && (forall id | id in tree.devices :: tree.devices[id] < |tree.nodes|)
      && |pairs| == |devices|
      && (forall i | 0 <= i < |pairs| :: |pairs[i]| == |devices|)
      && (forall i, j | 0 <= i < |devices| && 0 <= j < |devices| ::
          pairs[i][j] == NodeDistance(paths, Place()(i), Place()(j)))
      && (forall i | 0 <= i < |devices| :: 0 <= devices[i].sid < sidCount && -1 <= devices[i].numa < numaCount)
      && (forall i | 0 <= i < |devices| :: devices[i].hasPCI <==> 0 <= Place()(i) < |paths|)
    }
  }

  // ----- the devices themselves -----

  /** VFs group by their parent PF; otherwise a usable SID is a card; otherwise a device is its own card. */
  datatype CardKey = ParentPF(pf: int) | SharedSID(sid: int) | Single(id: int)

  function CardKeyOf(id: int, device: NPUDevice): CardKey {
    if device.parentPF.Some? then ParentPF(device.parentPF.value)
    else if device.sid.None? then Single(id)
    else SharedSID(device.sid.value)
  }

  ghost function KnownNUMANode(device: NPUDevice): int {
    if device.numa.Some? && device.numa.value >= 0 then device.numa.value else -1
  }

  /** What the documented score sees of a device ID. */
  ghost function DeviceAttributes(devices: map<int, NPUDevice>): Attributes<CardKey> {
    Attributes(
      id => if id in devices then KnownNUMANode(devices[id]) else -1,
      id => if id in devices then CardKeyOf(id, devices[id]) else Single(id),
      id => PathOf(devices, id).Some?,
      (a, b) => PathDistance(PathOf(devices, a), PathOf(devices, b)))
  }

  /** Different devices share a card: the same parent PF if both have one, the same usable SID if
      neither has, and otherwise never. */
  ghost predicate SameCard(devices: map<int, NPUDevice>, x: int, y: int)
    requires x in devices && y in devices
  {
    var c, d := devices[x], devices[y];
    || (c.parentPF.Some? && d.parentPF.Some? && c.parentPF.value == d.parentPF.value)
    || (c.parentPF.None? && d.parentPF.None? && c.sid.Some? && d.sid.Some? && c.sid.value == d.sid.value)
  }

  /** Any number from 0 on names a NUMA node. */
  ghost predicate OnNUMANode(devices: map<int, NPUDevice>, x: int) {
    x in devices && devices[x].numa.Some? && devices[x].numa.value >= 0
  }

  /** The identities the score sees are those of the devices. */
  lemma AttributesAgree(devices: map<int, NPUDevice>, x: int, y: int)
    requires x in devices && y in devices
    ensures var b := DeviceAttributes(devices);
            && (b.numa(x) >= 0 <==> OnNUMANode(devices, x))
            && (OnNUMANode(devices, x) ==> b.numa(x) == devices[x].numa.value)
            && (x != y ==> (b.group(x) == b.group(y) <==> SameCard(devices, x, y)))
  {}

  /** The numbers given to cards and NUMA nodes agree with the devices' identities. */
  ghost predicate IdentitiesAgree(ds: seq<AllocationDevice>, devices: map<int, NPUDevice>) {
    && (forall i | 0 <= i < |ds| :: ds[i].id in devices)
    && (forall i, j | 0 <= i < |ds| && 0 <= j < |ds| && i != j ::
          ds[i].sid == ds[j].sid <==> SameCard(devices, ds[i].id, ds[j].id))
    && (forall i | 0 <= i < |ds| :: ds[i].numa >= 0 <==> OnNUMANode(devices, ds[i].id))
    && (forall i, j | 0 <= i < |ds| && 0 <= j < |ds| && ds[i].numa >= 0 && ds[j].numa >= 0 ::
          ds[i].numa == ds[j].numa <==> devices[ds[i].id].numa.value == devices[ds[j].id].numa.value)
  }

  lemma IdentitiesOf(ds: seq<AllocationDevice>, devices: map<int, NPUDevice>)
    requires forall i | 0 <= i < |ds| :: ds[i].id in devices
    requires forall i, j | 0 <= i < j < |ds| :: ds[i].id < ds[j].id
    requires SameIdentities(ds, devices)
    ensures IdentitiesAgree(ds, devices)
  {
    forall i, j | 0 <= i < |ds| && 0 <= j < |ds|
      ensures ds[i].numa >= 0 <==> OnNUMANode(devices, ds[i].id)
      ensures i != j ==> (ds[i].sid == ds[j].sid <==> SameCard(devices, ds[i].id, ds[j].id))
      ensures ds[i].numa >= 0 && ds[j].numa >= 0 ==>
                (ds[i].numa == ds[j].numa <==> devices[ds[i].id].numa.value == devices[ds[j].id].numa.value)
    {
      assert i < j ==> ds[i].id < ds[j].id;
      assert j < i ==> ds[j].id < ds[i].id;
      AttributesAgree(devices, ds[i].id, ds[j].id);
    }
  }

  lemma DevicePairsSymmetric(devices: map<int, NPUDevice>)
    ensures SymmetricPairs(DeviceAttributes(devices))
  {}

  ghost predicate ListsDevices(ds: seq<AllocationDevice>, byID: map<int, int>, devices: map<int, NPUDevice>) {
    && (forall i, j | 0 <= i < j < |ds| :: ds[i].id < ds[j].id)
    && (forall i | 0 <= i < |ds| :: ds[i].id in devices)
    && (forall i | 0 <= i < |ds| :: ds[i].id in byID && byID[ds[i].id] == i)
    && (forall id | id in byID :: 0 <= byID[id] < |ds| && ds[byID[id]].id == id)
  }

  /** Interned numbers are equal exactly when the identities are, and NUMA -1 is exactly unknown. */
  ghost predicate InternedDevices(ds: seq<AllocationDevice>, devices: map<int, NPUDevice>, sids: map<CardKey, int>,
                                  numas: map<int, int>)
    requires forall i | 0 <= i < |ds| :: ds[i].id in devices
  {
    forall i | 0 <= i < |ds| ::
      && CardKeyOf(ds[i].id, devices[ds[i].id]) in sids && ds[i].sid == sids[CardKeyOf(ds[i].id, devices[ds[i].id])]
      && (var numa := KnownNUMANode(devices[ds[i].id]);
          if numa < 0 then ds[i].numa == -1 else numa in numas && ds[i].numa == numas[numa])
  }

  /** Cards and NUMA nodes are told apart by their numbers; -1 marks an unknown NUMA node. */
  ghost predicate SameIdentities(ds: seq<AllocationDevice>, devices: map<int, NPUDevice>)
    requires forall i | 0 <= i < |ds| :: ds[i].id in devices
  {
    && (forall i | 0 <= i < |ds| :: ds[i].numa < 0 <==> KnownNUMANode(devices[ds[i].id]) < 0)
    && (forall i, j | 0 <= i < |ds| && 0 <= j < |ds| ::
          && (ds[i].sid == ds[j].sid <==>
              CardKeyOf(ds[i].id, devices[ds[i].id]) == CardKeyOf(ds[j].id, devices[ds[j].id]))
          && (ds[i].numa == ds[j].numa <==> KnownNUMANode(devices[ds[i].id]) == KnownNUMANode(devices[ds[j].id])))
  }

  lemma InternedIdentities(ds: seq<AllocationDevice>, devices: map<int, NPUDevice>, sids: map<CardKey, int>,
                           numas: map<int, int>)
    requires forall i | 0 <= i < |ds| :: ds[i].id in devices
    requires Numbering(sids) && Numbering(numas) && InternedDevices(ds, devices, sids, numas)
    ensures SameIdentities(ds, devices)
  {}

  /** Numbered consecutively from 0, without repeats. */
  ghost predicate Numbering<K(!new)>(m: map<K, int>) {
    && (forall k | k in m :: 0 <= m[k] < |m|)
    && (forall k, l | k in m && l in m && k != l :: m[k] != m[l])
  }

  ghost predicate HasPCIAgrees(ds: seq<AllocationDevice>, tree: PCITree) {
    forall i | 0 <= i < |ds| :: ds[i].hasPCI <==> ds[i].id in tree.devices
  }

  /** The allocator built from the given devices. */
  ghost predicate AllocatorOf(a: TopologyAllocator, paths: seq<Path>, devices: map<int, NPUDevice>) {
    && TreeOf(a.tree, paths, devices)
    && ListsDevices(a.devices, a.byID, devices) && a.byID.Keys == devices.Keys
    && HasPCIAgrees(a.devices, a.tree)
    && a.Topology(paths)
    && SameIdentities(a.devices, devices)
  }

  /** The same of an allocator alone. */
  ghost predicate AllocatorFor(a: TopologyAllocator, devices: map<int, NPUDevice>) {
    exists paths :: AllocatorOf(a, paths, devices) && NodesAreThePrefixes(paths, devices)
  }

  lemma AllocatorDescribes(a: TopologyAllocator, paths: seq<Path>, devices: map<int, NPUDevice>, xs: seq<int>)
    requires AllocatorOf(a, paths, devices)
    requires forall i | 0 <= i < |xs| :: 0 <= xs[i] < |a.devices|
    ensures Describes(xs, a.IDs(), a.Attr(), DeviceAttributes(devices))
  {
    hide Labels, SameLabelling, SameIdentities;
    var b := DeviceAttributes(devices);
    LabelsAgree(a, devices, xs, Renamed(xs, a.IDs()));
    forall i | 0 <= i < |xs| ensures a.Attr().hasPCI(xs[i]) == b.hasPCI(a.IDs()(xs[i])) {
      assert a.devices[xs[i]].hasPCI <==> a.devices[xs[i]].id in a.tree.devices;
    }
    forall i, j | 0 <= i < |xs| && 0 <= j < |xs|
      ensures a.Attr().pair(xs[i], xs[j]) == b.pair(a.IDs()(xs[i]), a.IDs()(xs[j])) {
      PairAgrees(a, paths, devices, xs[i], xs[j]);
    }
  }

  /** The allocator scores a selection of indices exactly as the documented score does their IDs. */
  lemma AllocatorScoresDevices(a: TopologyAllocator, paths: seq<Path>, devices: map<int, NPUDevice>, xs: seq<int>)
    requires AllocatorOf(a, paths, devices)
    requires forall i | 0 <= i < |xs| :: 0 <= xs[i] < |a.devices|
    ensures ScoreOf(xs, a.Attr()) == ScoreOf(Renamed(xs, a.IDs()), DeviceAttributes(devices))
  {
    hide ScoreOf, Describes;
    AllocatorDescribes(a, paths, devices, xs);
    ScoreRenamed(xs, a.IDs(), a.Attr(), DeviceAttributes(devices));
  }

  lemma PairAgrees(a: TopologyAllocator, paths: seq<Path>, devices: map<int, NPUDevice>, i: nat, j: nat)
    requires AllocatorOf(a, paths, devices) && i < |a.devices| && j < |a.devices|
    ensures a.pairs[i][j] == PathDistance(PathOf(devices, a.devices[i].id), PathOf(devices, a.devices[j].id))
  {}

  lemma PlaceAgrees(tree: PCITree, paths: seq<Path>, devices: map<int, NPUDevice>, id: int)
    requires TreeOf(tree, paths, devices)
    ensures PathOf(devices, id) == if id in tree.devices && tree.devices[id] < |paths|
            then Some(paths[tree.devices[id]]) else None
  {}

  lemma LabelsAgree(a: TopologyAllocator, devices: map<int, NPUDevice>, xs: seq<int>, ys: seq<int>)
    requires |xs| == |ys|
    requires forall i | 0 <= i < |a.devices| :: a.devices[i].id in devices
    requires SameIdentities(a.devices, devices)
    requires forall i | 0 <= i < |xs| :: 0 <= xs[i] < |a.devices| && ys[i] == a.devices[xs[i]].id
    ensures var b := DeviceAttributes(devices);
            SameLabelling(xs, ys, a.Attr().KnownNUMA(), a.Attr().numa, b.KnownNUMA(), b.numa) &&
            SameLabelling(xs, ys, a.Attr().Present(), a.Attr().group, b.Present(), b.group)
  {
    var b := DeviceAttributes(devices);
    forall i | 0 <= i < |xs| ensures a.Attr().KnownNUMA()(xs[i]) == b.KnownNUMA()(ys[i]) {
      assert a.devices[xs[i]].id in devices;
    }
    forall i, j | 0 <= i < |xs| && 0 <= j < |xs|
      ensures a.Attr().group(xs[i]) == a.Attr().group(xs[j]) <==> b.group(ys[i]) == b.group(ys[j])
      ensures a.Attr().numa(xs[i]) == a.Attr().numa(xs[j]) <==> b.numa(ys[i]) == b.numa(ys[j])
    {
      assert a.devices[xs[i]].id in devices && a.devices[xs[j]].id in devices;
    }
  }

  /** The first n IDs are listed, in order. */
  ghost predicate Listed(ids: seq<int>, n: nat, ds: seq<AllocationDevice>, byID: map<int, int>,
                         devices: map<int, NPUDevice>, tree: PCITree) {
    && n <= |ids| && |ds| == n && (forall i | 0 <= i < n :: ds[i].id == ids[i])
    && ListsDevices(ds, byID, devices) && HasPCIAgrees(ds, tree)
  }

  ghost predicate Numbered(ds: seq<AllocationDevice>, devices: map<int, NPUDevice>, sids: map<CardKey, int>,
                           numas: map<int, int>) {
    && (forall i | 0 <= i < |ds| :: ds[i].id in devices)
    && Numbering(sids) && Numbering(numas) && InternedDevices(ds, devices, sids, numas)
    && (forall i | 0 <= i < |ds| :: 0 <= ds[i].sid < |sids| && -1 <= ds[i].numa < |numas|)
  }

  /** The next free number for a key that has none yet. */
  ghost function Intern<K>(m: map<K, int>, k: K): map<K, int> {
    if k in m then m else m[k := |m|]
  }

  lemma NewCard(ds: seq<AllocationDevice>, devices: map<int, NPUDevice>, sids: map<CardKey, int>, numas: map<int, int>,
                key: CardKey)
    requires Numbered(ds, devices, sids, numas)
    ensures Numbered(ds, devices, Intern(sids, key), numas) && key in Intern(sids, key)
  {}

  lemma NewNUMA(ds: seq<AllocationDevice>, devices: map<int, NPUDevice>, sids: map<CardKey, int>, numas: map<int, int>,
                numa: int)
    requires Numbered(ds, devices, sids, numas)
    ensures Numbered(ds, devices, sids, Intern(numas, numa)) && numa in Intern(numas, numa)
  {}

  lemma NumberNext(ds: seq<AllocationDevice>, devices: map<int, NPUDevice>, sids: map<CardKey, int>,
                   numas: map<int, int>, id: int, numa: int, hasPCI: bool)
    requires Numbered(ds, devices, sids, numas) && id in devices && CardKeyOf(id, devices[id]) in sids
    requires var known := KnownNUMANode(devices[id]);
             if known < 0 then numa == -1 else known in numas && numa == numas[known]
    ensures Numbered(ds + [AllocationDevice(id, sids[CardKeyOf(id, devices[id])], numa, hasPCI)], devices, sids, numas)
  {}

  lemma ListNext(ids: seq<int>, n: nat, ds: seq<AllocationDevice>, byID: map<int, int>, devices: map<int, NPUDevice>,
                 tree: PCITree, sid: int, numa: int)
    requires Listed(ids, n, ds, byID, devices, tree) && n < |ids| && Ascending(ids) && ids[n] in devices
    ensures Listed(ids, n + 1, ds + [AllocationDevice(ids[n], sid, numa, ids[n] in tree.devices)],
                   byID[ids[n] := |ds|], devices, tree)
  {}

  ghost function InternKnown(numas: map<int, int>, numa: Option<int>): map<int, int> {
    if numa.Some? && numa.value >= 0 then Intern(numas, numa.value) else numas
  }

  ghost function NumberOf(numas: map<int, int>, numa: Option<int>): int {
    if numa.Some? && numa.value in numas && numa.value >= 0 then numas[numa.value] else -1
  }

  /** The tables filled while the devices are listed. */
  datatype DeviceTables = DeviceTables(devices: seq<AllocationDevice>, byID: map<int, int>, sids: map<CardKey, int>,
                                       numas: map<int, int>)

  /** One turn of the listing loop: intern the card and the NUMA node, then append the device. */
  ghost function WithDevice(t: DeviceTables, id: int, device: NPUDevice, hasPCI: bool): DeviceTables {
    var key := CardKeyOf(id, device);
    var sids := Intern(t.sids, key);
    var numas := InternKnown(t.numas, device.numa);
    DeviceTables(t.devices + [AllocationDevice(id, NumberOfCard(sids, key), NumberOf(numas, device.numa), hasPCI)],
                 t.byID[id := |t.devices|], sids, numas)
  }

  ghost function NumberOfCard(sids: map<CardKey, int>, key: CardKey): int {
    if key in sids then sids[key] else 0
  }

  ghost predicate TablesGood(t: DeviceTables, ids: seq<int>, n: nat, devices: map<int, NPUDevice>, tree: PCITree) {
    Listed(ids, n, t.devices, t.byID, devices, tree) && Numbered(t.devices, devices, t.sids, t.numas)
  }

  /** One more device keeps the list and the numbering. */
  lemma NextDevice(t: DeviceTables, ids: seq<int>, n: nat, devices: map<int, NPUDevice>, tree: PCITree)
    requires TablesGood(t, ids, n, devices, tree) && n < |ids| && Ascending(ids) && ids[n] in devices
    ensures TablesGood(WithDevice(t, ids[n], devices[ids[n]], ids[n] in tree.devices), ids, n + 1, devices, tree)
  {
    var id := ids[n];
    var key, numa := CardKeyOf(id, devices[id]), devices[id].numa;
    var sids', numas' := Intern(t.sids, key), InternKnown(t.numas, numa);
    NewCard(t.devices, devices, t.sids, t.numas, key);
    if numa.Some? && numa.value >= 0 { NewNUMA(t.devices, devices, sids', t.numas, numa.value); }
    ListNext(ids, n, t.devices, t.byID, devices, tree, sids'[key], NumberOf(numas', numa));
    NumberNext(t.devices, devices, sids', numas', id, NumberOf(numas', numa), id in tree.devices);
  }

  /** The device list in ID order, with card and NUMA identities numbered as they first appear. */
  method NumberDevices(ids: seq<int>, devices: map<int, NPUDevice>, tree: PCITree)
    returns (ds: seq<AllocationDevice>, byID: map<int, int>, sids: map<CardKey, int>, numas: map<int, int>)
    requires Ascending(ids) && forall i | 0 <= i < |ids| :: ids[i] in devices
    ensures TablesGood(DeviceTables(ds, byID, sids, numas), ids, |ids|, devices, tree)
    ensures IdentitiesAgree(ds, devices)
  {
    ds, byID, sids, numas := [], map[], map[], map[];
    for d := 0 to |ids|
      invariant TablesGood(DeviceTables(ds, byID, sids, numas), ids, d, devices, tree)
    {
      ghost var t := DeviceTables(ds, byID, sids, numas);
      var id := ids[d];
      var device := devices[id];
      var key := CardKeyOf(id, device);
      if key !in sids {
        sids := sids[key := |sids|];
      }
      var numaIndex := -1;
      if device.numa.Some? && device.numa.value >= 0 {
        if device.numa.value !in numas {
          numas := numas[device.numa.value := |numas|];
        }
        numaIndex := numas[device.numa.value];
      }
      byID := byID[id := |ds|];
      ds := ds + [AllocationDevice(id, sids[key], numaIndex, id in tree.devices)];
      assert DeviceTables(ds, byID, sids, numas) == WithDevice(t, id, device, id in tree.devices);
      NextDevice(t, ids, d, devices, tree);
    }
    InternedIdentities(ds, devices, sids, numas);
    IdentitiesOf(ds, devices);
  }

  /** newTopologyAllocator. */
  method NewTopologyAllocator(devices: map<int, NPUDevice>) returns (a: TopologyAllocator, ghost paths: seq<Path>)
    requires ValidPaths(devices)
    ensures AllocatorOf(a, paths, devices)
    ensures NodesAreThePrefixes(paths, devices)
    ensures AllocatorFor(a, devices)
    ensures IdentitiesAgree(a.devices, devices)
  {
    var tree: PCITree;
    tree, paths := NewPCITree(devices);
    var ids := SortedKeys(devices);
    forall i | 0 <= i < |ids| ensures ids[i] in devices { assert ids[i] in ids; }
    var ds, byID, sids, numas := NumberDevices(ids, devices, tree);
    var pairs := PairTable(tree, ds, paths, devices);
    a := TopologyAllocator(ds, byID, pairs, tree, |sids|, |numas|);
    Built(a, paths, devices, ids, sids, numas);
  }

  lemma Built(a: TopologyAllocator, paths: seq<Path>, devices: map<int, NPUDevice>, ids: seq<int>,
              sids: map<CardKey, int>, numas: map<int, int>)
    requires TreeOf(a.tree, paths, devices) && Listed(ids, |ids|, a.devices, a.byID, devices, a.tree)
    requires Numbered(a.devices, devices, sids, numas) && a.sidCount == |sids| && a.numaCount == |numas|
    requires forall id :: id in ids <==> id in devices
    requires |a.pairs| == |a.devices| && forall i | 0 <= i < |a.pairs| :: RowAgrees(a.pairs[i], a.devices, devices, i)
    ensures AllocatorOf(a, paths, devices)
  {
    InternedIdentities(a.devices, devices, sids, numas);
    KeysCovered(ids, a.devices, a.byID, devices);
    TablesAgree(a, paths, devices);
  }

  lemma KeysCovered(ids: seq<int>, ds: seq<AllocationDevice>, byID: map<int, int>, devices: map<int, NPUDevice>)
    requires forall id :: id in ids <==> id in devices
    requires |ds| == |ids| && forall i | 0 <= i < |ids| :: ds[i].id == ids[i]
    requires ListsDevices(ds, byID, devices)
    ensures byID.Keys == devices.Keys
  {
    forall id ensures id in byID <==> id in devices {
      if id in devices {
        assert id in ids;
        var i :| 0 <= i < |ids| && ids[i] == id;
        assert ds[i].id in byID;
      }
      if id in byID { assert ds[byID[id]].id in devices; }
    }
  }

  lemma TablesAgree(a: TopologyAllocator, paths: seq<Path>, devices: map<int, NPUDevice>)
    requires TreeOf(a.tree, paths, devices) && HasPCIAgrees(a.devices, a.tree)
    requires |a.pairs| == |a.devices| && forall i | 0 <= i < |a.pairs| :: RowAgrees(a.pairs[i], a.devices, devices, i)
    requires forall i | 0 <= i < |a.devices| ::
             0 <= a.devices[i].sid < a.sidCount && -1 <= a.devices[i].numa < a.numaCount
    ensures a.Topology(paths)
  {
    forall i | 0 <= i < |a.devices| ensures a.devices[i].hasPCI <==> 0 <= a.Place()(i) < |paths| {
      PlaceAgrees(a.tree, paths, devices, a.devices[i].id);
      if a.devices[i].id in a.tree.devices { assert a.tree.devices[a.devices[i].id] < |paths|; }
    }
    forall i, j | 0 <= i < |a.devices| && 0 <= j < |a.devices|
      ensures a.pairs[i][j] == NodeDistance(paths, a.Place()(i), a.Place()(j))
    {
      assert RowAgrees(a.pairs[i], a.devices, devices, i);
      PlaceAgrees(a.tree, paths, devices, a.devices[i].id);
      PlaceAgrees(a.tree, paths, devices, a.devices[j].id);
    }
  }

  ghost predicate RowAgrees(row: seq<PCIDistance>, ds: seq<AllocationDevice>, devices: map<int, NPUDevice>, i: nat) {
    && i < |ds| && |row| == |ds|
    && forall j | 0 <= j < |ds| :: row[j] == PathDistance(PathOf(devices, ds[i].id), PathOf(devices, ds[j].id))
  }

  /** The distances of all pairs. */
  method PairTable(tree: PCITree, ds: seq<AllocationDevice>, ghost paths: seq<Path>, ghost devices: map<int, NPUDevice>)
    returns (pairs: seq<seq<PCIDistance>>)
    requires TreeOf(tree, paths, devices)
    ensures |pairs| == |ds| && forall i | 0 <= i < |ds| :: RowAgrees(pairs[i], ds, devices, i)
  {
    pairs := [];
    for i := 0 to |ds|
      invariant |pairs| == i && forall k | 0 <= k < i :: RowAgrees(pairs[k], ds, devices, k)
    {
      var row: seq<PCIDistance> := [];
      for j := 0 to |ds|
        invariant |row| == j
        invariant forall k | 0 <= k < j :: row[k] == PathDistance(PathOf(devices, ds[i].id), PathOf(devices, ds[k].id))
      {
        var d := Distance(tree, ds[i].id, ds[j].id, paths, devices);
        row := row + [d];
      }
      pairs := pairs + [row];
    }
  }
}
