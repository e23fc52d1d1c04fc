# Topology-aware device allocation, verified

This project models the allocator behind `GetPreferredAllocation` of the RBLN Kubernetes device
plugin and proves that it is exact: the answer is the set of devices of least documented score
among all sets of the requested size that contain the mandatory devices, and among equal scores
the first in device ID order. A second, smaller part models the hand-off of device lists between
the manager and a `ListAndWatch` stream.

## How the proof is built

| layer | modules |
|---|---|
| sums, pairs, sorted lists, machine range | `Sums`, `Pairs`, `Ordering`, `Lists`, `Machine` |
| PCI forest and LCA distance | `PCITopology` |
| the seven-field score and its order | `Score`, `Allocator` |
| edge identity and subtree sums | `EdgeIdentity`, `Subtrees` |
| knapsack in a tree and over the roots | `TreeKnapsack`, `ForestKnapsack`, `Placement` |
| bounds on completions | `CardPacking`, `Bounds`, `BoundRange`, `Admissibility`, `Exactness` |
| enumeration, incremental score, pruned search | `Exhaustive`, `Tally`, `Search` |
| the request and the documented policy | `Preference`, `Policy`, `Request` |
| device-list hand-off | `Handoff` |

The code that works step by step is modelled by methods with loops: the forest construction, the
climb to the common ancestor, both knapsacks, the tables, and the class `AllocationSearch`, whose
`Add` and `Search` update chosen devices, counts and score in place and undo them. Each is proved
against a specification: `Search` against the unpruned enumeration `Explore`, the incremental
score against `ScoreOf`, the distance against `PathDistance`, the knapsacks against the minimum
over all selections. The score in turn is tied to the devices' metadata: `Policy` states the
documented order of preference about the answer itself, without the score.

The bound is lexicographic and not componentwise. The maximum distance stands between the
separate-root count and the total, and the PCI placement assumes the fewest missing paths, so
several of its fields hold only while the earlier ones are tied. `Admissibility` proves the order
statement for each of the four returns.

Two edge cases are kept: devices may share an endpoint (distance 0), and a device may sit on an
inner node. A comment in `pci_topology.go` calls the endpoint a leaf; the code does not rely on
it and neither do the proofs.

**Modelling choices.** Device IDs are integers in place of strings; only their order matters. A
path component is an integer, and a node's path is the list of components from its root. SIDs,
parent PFs and NUMA numbers are keys that are present or absent. Tree nodes are indices into the
node list in place of pointers.

Integers are unbounded; the sentinel of the knapsack is that of a 64-bit machine. A request that
is neither refused nor answered by a shortcut, and so reaches the search, must meet `FitsMachine`:
the number of distinct path prefixes of the offered devices (at least 1) times size*size/4 is
below 0x1FFF_FFFF_FFFF_FFFF (about 2.3e18, the sentinel); a million prefixes and a million devices
are well within it (`MillionsFit`). Refusals and shortcuts need no such condition. Under it no real
cost is mistaken for an impossible one (`CostBelowSentinel`, `SentinelMeansNone`), and these values
stay in the machine range: every sum of the tree knapsack (`JoinedSumsInRange`, asserted where
`JoinChild` forms it) and of the forest knapsack (`RootSumsInRange`, asserted in `JoinRoot`), the
fields of the score (`ScoreInRange`) and the pair counts and products of `lowerBound`
(`NewPairsInRange`, `DistancesInRange`). The exactness of `PCISubtreeCosts` is proved without it.

**Documentation and code.** No disagreement was found between the documented policy (repository
`README.md` lines 91-119) and the code that is modelled here.

## Model

| member | source | states |
|---|---|---|
| Request.SelectPreferredDeviceIDs | cmd/rbln-device-plugin/topology_allocator.go:43-75 | a request fails if and only if it is one of the bad requests (negative size, unmanaged available ID, more asked than available, mandatory ID not available, too many distinct mandatory IDs); the error names a defect the request has, checked in that order, and is never the size-mismatch error; an accepted request gets exactly `size` devices and they are the preferred answer, whichever of the two shortcuts or the search produced it |
| Request.SelectDevices | cmd/rbln-device-plugin/topology_allocator.go:127-152 | exactness for the documented score: for mandatory IDs among the devices and a size they do not already fill, the answer is the mandatory IDs in the order first named followed by the others in ID order, together of least score among all sets of that size with the mandatory ones, and the first in ID order among equals; the two degenerate sizes are stated too |
| Policy.AnswerFollowsPolicy | README.md:91-113 | against any other set of the size with the mandatory devices, the answer has no more devices without a NUMA node; on a tie no more NUMA nodes; then no more cards, no more devices without a path, no more pairs under separate roots, no greater largest distance and no greater total distance, each counted from the devices' own metadata |
| Policy.TiesGoToSmallerIDs | README.md:109 | if all seven are equal, the sorted answer equals the other set or has the smaller ID at the first place where they differ |
| Policy.CriteriaAreFields | cmd/rbln-device-plugin/topology_allocator.go:26-41 | the seven score fields are those seven quantities of the devices' metadata |
| Policy.CardsCounted | README.md:99-104 | the number of cards is the number of devices that share a card with no earlier one, where VFs share by parent PF, others by usable SID, and nothing else is shared |
| Request.SearchPreferred | cmd/rbln-device-plugin/topology_allocator.go:70 | building the allocator and searching yields the preferred answer for the offered devices |
| Request.AvailableDevices | cmd/rbln-device-plugin/plugin.go:394-411 | succeeds if and only if every ID is managed, and then holds exactly the managed devices named; otherwise the error carries the first unmanaged ID |
| Request.ValidateMustInclude | cmd/rbln-device-plugin/topology_allocator.go:322-337 | passes if and only if all mandatory IDs are available and the distinct ones fit; the error is the first unknown ID, and the count only when none is unknown |
| Request.NormalizeMustInclude | cmd/rbln-device-plugin/topology_allocator.go:339-350 | returns the duplicate-free list of first mentions, and its elements as the excluded set |
| Lists.FirstOccurrencesFacts | cmd/rbln-device-plugin/topology_allocator.go:339-350 | removing duplicates keeps exactly the same elements, each once |
| Lists.FirstOccurrencesInOrder | cmd/rbln-device-plugin/topology_allocator.go:339-350 | the remaining IDs keep the order in which they were first mentioned |
| Request.MandatoryFill | cmd/rbln-device-plugin/topology_allocator.go:58-60 | first shortcut: if the mandatory devices fill the request they are the preferred answer |
| Request.AllNeeded | cmd/rbln-device-plugin/topology_allocator.go:61-69 | second shortcut: if all available devices are needed, mandatory ones followed by the rest in ID order are the preferred answer |
| Request.CandidateIndices | cmd/rbln-device-plugin/topology_allocator.go:140-144 | the candidates are exactly the indices of non-mandatory devices, in ID order |
| Request.AddMandatory | cmd/rbln-device-plugin/topology_allocator.go:137-139 | after the loop the chosen indices are those of the mandatory IDs in the given order, with score and counts up to date |
| Request.NodeCount | cmd/rbln-device-plugin/pci_topology.go:50-68 | the forest has exactly one node per distinct prefix of the offered devices' paths, so the size condition on the search can be read off the request |
| Request.OfferedSameSets | cmd/rbln-device-plugin/plugin.go:394-411 | permuting or duplicating the available IDs offers the same devices and fails on the same requests |
| Request.BadRequestSameSets | cmd/rbln-device-plugin/topology_allocator.go:43-57 | permuting or duplicating the available IDs, the mandatory IDs or both refuses exactly the same requests |
| Request.AcceptedIffPossible | cmd/rbln-device-plugin/topology_allocator.go:43-57 | a request for managed devices is refused exactly when no set of devices of that size contains the mandatory ones |
| Preference.RepresentationIndependence | cmd/rbln-device-plugin/topology_allocator.go:130-152 | permuting or duplicating the mandatory IDs changes neither the selected set nor the added devices, only the order of the mandatory prefix |
| Preference.PreferredIsUnique | cmd/rbln-device-plugin/topology_allocator.go:194-209 | a request has one preferred answer, so the shortcuts return what the full search would |
| Preference.BestEligibleUnique | cmd/rbln-device-plugin/topology_allocator.go:205-206 | least score with the ID tie-break determines the set, independently of enumeration |
| Preference.FoundIsPreferred | cmd/rbln-device-plugin/topology_allocator.go:194-209 | first least-score completion in enumeration order = first least-score device set in sorted full ID order, mandatory IDs included |
| Preference.OnlyEligible | cmd/rbln-device-plugin/topology_allocator.go:58-69 | when only one device set is possible, listing it is the preferred answer |
| Preference.DeterministicFallback | README.md:117-119 | if no device has any metadata the answer is the lexicographically first eligible set |
| Preference.ScoreOfEligible | cmd/rbln-device-plugin/topology_allocator.go:164-192 | the score of a set of devices does not depend on whether it is read off sorted IDs or off indices in insertion order |
| Lists.CommonElementsKeepOrder | cmd/rbln-device-plugin/topology_allocator.go:205-206 | two sorted lists of added devices compare as the sorted lists obtained by merging in the same mandatory devices |
| Search.AllocationSearch.Search | cmd/rbln-device-plugin/topology_allocator.go:194-223 | the pruned, mutating search leaves in `best` exactly what unpruned enumeration would, and restores chosen devices, counts and score |
| Search.AllocationSearch.Branch | cmd/rbln-device-plugin/topology_allocator.go:207-221 | one iteration has the effect on `best` of exploring with that candidate taken, and puts everything else back |
| Search.AllocationSearch.Undo | cmd/rbln-device-plugin/topology_allocator.go:214-220 | takes back exactly the card and NUMA counts that `add` raised, whatever they were before |
| Search.AllocationSearch.Add | cmd/rbln-device-plugin/topology_allocator.go:164-192 | appends the device, raises exactly its own counts, and keeps score and counts equal to their from-scratch values |
| Search.AllocationSearch.AddPairs | cmd/rbln-device-plugin/topology_allocator.go:182-190 | the pair loop adds the separate-root pairs, hops and maximum of the new device against all chosen ones |
| Search.AllocationSearch.PrepareBounds | cmd/rbln-device-plugin/topology_allocator.go:225-260 | every suffix table holds the counts of the candidates from that position on; the least distance and the separate-root flag are exact |
| Search.AllocationSearch.LowerBound | cmd/rbln-device-plugin/topology_allocator.go:262-320 | admissibility: whichever of its four returns is taken, the result is lexicographically at most the score of every completion by `remaining` of the later candidates |
| Search.AllocationSearch.BaseLowerBound | cmd/rbln-device-plugin/topology_allocator.go:263-281 | the first part computes the shared bound from the prepared tables, and those tables describe the remaining candidates |
| Search.AllocationSearch.CheapLowerBound | cmd/rbln-device-plugin/topology_allocator.go:282-290 | the connected-pair arithmetic equals the bound stated with numbers of pairs |
| Search.AllocationSearch.PlacedLowerBound | cmd/rbln-device-plugin/topology_allocator.go:314-319 | the last part puts an exact PCI placement in place of the PCI sums |
| Search.AllocationSearch.PCILowerBound | cmd/rbln-device-plugin/pci_allocation_bounds.go:17-87 | equals the least (separate-root pairs, total hops) over all sets of exactly knownCount PCI-known devices that contain the chosen ones and otherwise draw on the remaining candidates, and is invalid if and only if there is none |
| Search.AllocationSearch.Endpoints | cmd/rbln-device-plugin/pci_allocation_bounds.go:22-33 | counts the devices located at each tree node; devices without a path count nowhere |
| Search.AllocationSearch.NewCardCount | cmd/rbln-device-plugin/topology_allocator.go:264-277 | the greedy loop opens the specified greedy number of new cards |
| Search.AllocationSearch.WorstDistances | cmd/rbln-device-plugin/topology_allocator.go:301-308 | distance of each remaining candidate to the farthest chosen device |
| Search.SuffixCounts | cmd/rbln-device-plugin/topology_allocator.go:226-243 | one backward pass yields the counts of every suffix of the candidates |
| Search.PairExtremes | cmd/rbln-device-plugin/topology_allocator.go:244-259 | the distance found is the least of any connected pair, attained by one, and 0 only if some connected pair is at 0 or none is within machine range; the flag is 1 exactly when all pairs are under separate roots |
| Search.NothingBetter | cmd/rbln-device-plugin/topology_allocator.go:204-206 | if the bound is not less than the best score, no completion changes the best choice |
| Exhaustive.ExploreFindsBest | cmd/rbln-device-plugin/topology_allocator.go:194-223 | enumeration yields a completion of least score, the first in lexicographic order of added devices among equals; an earlier best wins ties |
| Exhaustive.PruneSound | cmd/rbln-device-plugin/topology_allocator.go:204-206 | skipping a subtree without a strictly better completion leaves the enumeration's result unchanged |
| Exhaustive.FirstStays | cmd/rbln-device-plugin/topology_allocator.go:207-221 | a branch's first completion precedes all equal ones of later branches: leaves come in strictly increasing order |
| Exhaustive.FirstFromLater | cmd/rbln-device-plugin/topology_allocator.go:207-221 | a later branch displaces the best only by being strictly better than everything before it |
| Tally.AddedScoreIsScore | cmd/rbln-device-plugin/topology_allocator.go:164-192 | the incrementally updated score is the from-scratch score of the extended list |
| Tally.AddKeepsTallies | cmd/rbln-device-plugin/topology_allocator.go:164-192 | score, card counts and NUMA counts all remain the from-scratch values |
| Tally.NewPairsFormula | cmd/rbln-device-plugin/topology_allocator.go:280 | remaining*chosen + remaining*(remaining-1)/2 is the number of pairs a completion adds |
| Score.LessIsLexicographic | cmd/rbln-device-plugin/topology_allocator.go:34-41 | `less` is the lexicographic order on the seven fields, and comparing the first four values compares the first four fields |
| Score.OrderIsTotal | cmd/rbln-device-plugin/topology_allocator.go:34-41 | not better means at least as good the other way round |
| Score.OrderIsTransitive | cmd/rbln-device-plugin/topology_allocator.go:34-41 | the order is transitive, strictly if either step is strict |
| Score.ScoreIsOrderFree | cmd/rbln-device-plugin/topology_allocator.go:164-192 | the score does not depend on the insertion order |
| Score.ScoreRenamed | cmd/rbln-device-plugin/topology_allocator.go:77-108 | replacing SID, PF and NUMA keys by numbers with the same equalities leaves the score unchanged |
| Allocator.AllocatorScoresDevices | cmd/rbln-device-plugin/topology_allocator.go:77-116 | the allocator's interned tables give every list of devices the score their own metadata documents |
| Allocator.NewTopologyAllocator | cmd/rbln-device-plugin/topology_allocator.go:77-116 | devices in ID order with IDs and indices inverse to each other; two devices get one card number exactly if both have a parent PF and it is the same, or neither has and both have the same usable SID; a NUMA number exactly if the NUMA value is 0 or more, equal exactly if the values are; PCI flags and pair table agree with the device paths |
| Allocator.NumberDevices | cmd/rbln-device-plugin/topology_allocator.go:82-107 | the same statement of card and NUMA numbers, and the numbers are dense |
| Allocator.AttributesAgree | cmd/rbln-device-plugin/topology_allocator.go:83-102 | the identities the documented score is computed from are those of the devices: same card by PF or else SID, known NUMA from 0 on |
| Allocator.PairTable | cmd/rbln-device-plugin/topology_allocator.go:109-114 | every entry is the documented distance of the two devices |
| CardPacking.GreedyIsMinimal | cmd/rbln-device-plugin/topology_allocator.go:264-277 | no completion opens fewer new cards than filling open cards and then taking unopened ones by descending capacity |
| CardPacking.GreedyThreshold | cmd/rbln-device-plugin/topology_allocator.go:273-277 | a capacity threshold witnesses that one card fewer than the greedy count cannot cover the need |
| CardPacking.CardBound | cmd/rbln-device-plugin/topology_allocator.go:264-277 | cards of any completion are at least the cards of the chosen devices plus the greedy count |
| Exactness.GreedyIsExact | cmd/rbln-device-plugin/topology_allocator.go:264-277 | the greedy count is exactly the least number of cards a completion adds: a bound for all of them, attained by one |
| Exactness.PlacementIsLeast | cmd/rbln-device-plugin/pci_allocation_bounds.go:17-87 | the knapsack's result over endpoint counts is the minimum over actual device sets, in both directions |
| Bounds.UnknownNUMABound | cmd/rbln-device-plugin/topology_allocator.go:278 | a completion has at least the deficit of NUMA-known candidates as additional unknowns |
| Bounds.UnknownPCIBound | cmd/rbln-device-plugin/topology_allocator.go:279 | the same for devices without a PCI path |
| Bounds.NUMANodesBound | cmd/rbln-device-plugin/topology_allocator.go:262-263 | adding devices never lowers the number of NUMA nodes, so the current count is a bound |
| Bounds.SeparateBound | cmd/rbln-device-plugin/topology_allocator.go:280-281 | if all pairs are separate, every new pair adds one separate-root pair |
| Bounds.ConnectedPairs | cmd/rbln-device-plugin/topology_allocator.go:282-285 | pairs of located devices that are not under separate roots are exactly the pairs with a known distance |
| Bounds.TotalBound | cmd/rbln-device-plugin/topology_allocator.go:287 | each newly connected pair adds at least the minimum distance to the total |
| Bounds.MaxBound | cmd/rbln-device-plugin/topology_allocator.go:288-290 | one connected pair makes the maximum at least the minimum distance |
| Bounds.OrderStatistic | cmd/rbln-device-plugin/topology_allocator.go:299-311 | any `remaining` candidates include one at least as far as the remaining-th nearest |
| Bounds.WorstBound | cmd/rbln-device-plugin/topology_allocator.go:299-311 | so the diameter of every completion is at least worst[remaining-1] |
| Bounds.PlacementBound | cmd/rbln-device-plugin/topology_allocator.go:314-315 | a completion with exactly the assumed number of located devices costs at least the best placement |
| BoundRange.ScoreInRange | cmd/rbln-device-plugin/topology_allocator.go:164-192 | the score fields of at most K devices stay in machine range: at most K unknowns, K*K/2 separate pairs, and a total distance below the sentinel |
| BoundRange.NewPairsInRange | cmd/rbln-device-plugin/topology_allocator.go:280-281 | the number of new pairs, its parts, its weighted value and the resulting separate-root field are in machine range |
| BoundRange.DistancesInRange | cmd/rbln-device-plugin/topology_allocator.go:282-287 | so are both counts of connected pairs, their difference, and its product with the least distance added to the total |
| BoundRange.LeastDistanceAtMostNodes | cmd/rbln-device-plugin/topology_allocator.go:244-259 | the least distance is at most the number of forest nodes |
| Admissibility.BaseAdmissible | cmd/rbln-device-plugin/topology_allocator.go:263-281 | the shared part of the bound is at most every completion on the first four fields, and field by field when they are tied |
| Admissibility.CheapAdmissible | cmd/rbln-device-plugin/topology_allocator.go:286-298 | the first two returns are lexicographically at most every completion's score |
| Admissibility.WorstAdmissible | cmd/rbln-device-plugin/topology_allocator.go:299-313 | the third return is lexicographically at most every completion's score |
| Admissibility.PlacedAdmissible | cmd/rbln-device-plugin/topology_allocator.go:314-319 | the fourth return is too: its PCI fields are true bounds exactly because they matter only when unknownPCI is tied |
| ForestKnapsack.PCIForestCost | cmd/rbln-device-plugin/pci_allocation_bounds.go:43-87 | the knapsack over the roots yields the least (cross-root pairs, total hops) over all endpoint selections of the wanted size, attained by one; valid if and only if one exists |
| ForestKnapsack.NextForest | cmd/rbln-device-plugin/pci_allocation_bounds.go:54-84 | after a root the table is exact for one root more |
| ForestKnapsack.WindowKeepsCompletions | cmd/rbln-device-plugin/pci_allocation_bounds.go:55-61 | the minimum/maximum filter on a root's count discards no selection that can still be completed |
| ForestKnapsack.EmptyRoot | cmd/rbln-device-plugin/pci_allocation_bounds.go:51-53 | skipping a root without capacity loses nothing |
| ForestKnapsack.JoinRoot | cmd/rbln-device-plugin/pci_allocation_bounds.go:65-83 | every combination of a valid cell and a possible root count is bounded by the new table, and every valid new cell comes from one |
| ForestKnapsack.SubtreeTotals | cmd/rbln-device-plugin/pci_allocation_bounds.go:33-41 | forced and total endpoints of every node's whole subtree |
| ForestKnapsack.SweepGivesSubtreeSums | cmd/rbln-device-plugin/pci_allocation_bounds.go:33-41 | one descending pass over the indices yields subtree sums because parents precede children |
| TreeKnapsack.CostBelowSentinel | cmd/rbln-device-plugin/pci_allocation_bounds.go:89 | if edges times K*K/4 is below 0x1FFF_FFFF_FFFF_FFFF, every real cost is below the sentinel |
| TreeKnapsack.SentinelMeansNone | cmd/rbln-device-plugin/pci_allocation_bounds.go:89 | at such sizes a cell holds 0x1FFF_FFFF_FFFF_FFFF if and only if no selection exists, and otherwise a real cost below it |
| TreeKnapsack.CellsAreExact | cmd/rbln-device-plugin/pci_allocation_bounds.go:89-130 | at such sizes the table is the least cost wherever something can be taken and that number exactly where nothing can |
| Machine.MillionsFit | cmd/rbln-device-plugin/pci_allocation_bounds.go:89 | a million nodes and a million devices are such a size |
| Machine.IntermediateSumFits | cmd/rbln-device-plugin/pci_allocation_bounds.go:122 | two possible costs and an edge contribution add up to at most the largest machine integer |
| TreeKnapsack.JoinedSumsInRange | cmd/rbln-device-plugin/pci_allocation_bounds.go:113-124 | every sum the tree knapsack forms, for every pair of counts its loops reach, lies between 0 and the largest machine integer |
| ForestKnapsack.RootSumsInRange | cmd/rbln-device-plugin/pci_allocation_bounds.go:65-78 | both sums of every candidate the forest knapsack forms, and the product in one of them, lie in that range |
| ForestKnapsack.RootsInnerBound | cmd/rbln-device-plugin/pci_allocation_bounds.go:74-78 | the hops under any number of roots are at most nodes times known*known/4 |
| TreeKnapsack.PCISubtreeCosts | cmd/rbln-device-plugin/pci_allocation_bounds.go:95-130 | for every node and every count: the minimum of the edge costs below the node over all selections containing the forced endpoints, capped at the sentinel; and below the size condition, which is stated in literal numbers, exactly that minimum, or 0x1FFF_FFFF_FFFF_FFFF where there is no selection |
| TreeKnapsack.JoinChild | cmd/rbln-device-plugin/pci_allocation_bounds.go:110-125 | every usable split of a count is bounded by the joined table and every finite entry comes from one |
| TreeKnapsack.NextStage | cmd/rbln-device-plugin/pci_allocation_bounds.go:104-127 | joining a child's exact table into an exact table gives the exact table for one child more |
| TreeKnapsack.TakenWithinCapacity | cmd/rbln-device-plugin/pci_allocation_bounds.go:33-41 | any selection takes between the forced and the total endpoints of a subtree |
| Subtrees.StrictSumOverChildren | cmd/rbln-device-plugin/pci_allocation_bounds.go:91-94 | a sum over the nodes below v is the sum of the children's subtree sums |
| Subtrees.Locality | cmd/rbln-device-plugin/pci_allocation_bounds.go:91-94 | the cost of a subtree depends only on the selection inside it, which is why children can be optimised separately |
| EdgeIdentity.TotalHopsIsEdgeSum | cmd/rbln-device-plugin/pci_allocation_bounds.go:91-94 | edge identity: over any multiset of devices, total pairwise hops equal the sum over edges of c*(K-c), c being the devices below the edge and K those under its root |
| EdgeIdentity.HopsAreEdgesBetween | cmd/rbln-device-plugin/pci_topology.go:109-128 | the hop count of two nodes is the number of edges that separate them |
| EdgeIdentity.SeparatePairsIsRootSum | cmd/rbln-device-plugin/pci_allocation_bounds.go:74-78 | the number of separate-root pairs is the sum over roots of (endpoints under earlier roots) times (endpoints under this one) |
| Placement.CostOfDevices | cmd/rbln-device-plugin/pci_allocation_bounds.go:17-33 | separate-root pairs and total hops of a set of devices are the cost of its endpoint counts |
| Placement.AllowedIsRealised | cmd/rbln-device-plugin/pci_allocation_bounds.go:22-33 | every allowed endpoint count is taken by some sublist of the candidates, all of them located |
| Placement.CompletionAllowed | cmd/rbln-device-plugin/pci_allocation_bounds.go:22-33 | every completion is an allowed selection |
| PCITopology.NewPCITree | cmd/rbln-device-plugin/pci_topology.go:40-71 | one node per distinct non-empty path prefix and no others; parents precede children, depths and roots agree with the paths, children and roots invert the parent links; every device with a path sits at its node |
| PCITopology.InternPath | cmd/rbln-device-plugin/pci_topology.go:50-68 | after the loop over a device's ancestors all its prefixes have nodes, none else is added, the forest invariant holds and existing nodes keep their place |
| PCITopology.InternPrefix | cmd/rbln-device-plugin/pci_topology.go:52-67 | a prefix gets a node exactly when it has none, below the node of the next shorter prefix |
| PCITopology.Distance | cmd/rbln-device-plugin/pci_topology.go:109-128 | the climb terminates without passing a root and returns the path distance: unknown without a path, separate across roots, else len(a)+len(b)-2*commonPrefix |
| PCITopology.Climb | cmd/rbln-device-plugin/pci_topology.go:118-123 | lifting the deeper node stops at the wanted depth, on the node of the corresponding path prefix |
| PCITopology.MeetingDepth | cmd/rbln-device-plugin/pci_topology.go:124-127 | climbing together from equal depth meets at the common prefix, before passing a root |
| PCITopology.CommonPrefixLongest | cmd/rbln-device-plugin/pci_topology.go:109-128 | two paths agree on their first k components if and only if k is at most the common prefix length |
| PCITopology.DistanceIsMetric | cmd/rbln-device-plugin/pci_topology.go:109-128 | under one root: known, zero exactly on a shared endpoint, symmetric, triangle inequality |
| PCITopology.SeparateRootsSpec | cmd/rbln-device-plugin/pci_topology.go:114-116 | separate roots exactly when the first components differ |
| PCITopology.DistanceSymmetric | cmd/rbln-device-plugin/pci_topology.go:109-128 | the distance is symmetric in all three cases |
| Handoff.SendNeverBlocks | cmd/rbln-device-plugin/plugin.go:136-143 | at no moment of any run does the unconditional send find the slot full |
| Handoff.QuietMeansCurrent | cmd/rbln-device-plugin/plugin.go:125-144 | in every run, when the producer is idle, the slot empty and no send in flight, the list last sent is the stored one |
| Handoff.StoredIsGiven | cmd/rbln-device-plugin/plugin.go:125-144 | the stored list is the one given to the last UpdateDevices, and once the hand-off is quiet that list is the one sent last |
| Handoff.StepKeepsInv | cmd/rbln-device-plugin/plugin.go:125-144 | the invariant that carries both is kept by every step of either side |
| Handoff.NeverStuck | cmd/rbln-device-plugin/plugin.go:181-201 | with a live stream, no finishing step is possible exactly when everything has been delivered: neither side waits for the other |
| Handoff.EveryContinuationSettles | cmd/rbln-device-plugin/plugin.go:125-144 | every interleaving after a store ends within 13 finishing steps, and then the list last sent is the stored one |
| Handoff.StaleListCanBeSent | cmd/rbln-device-plugin/plugin.go:181-201 | a run in which a stream sends an older list after a newer one, so currency holds only once the hand-off is quiet |

## Left out

- Sysfs access, symlink resolution and the patterns of `pciDeviceAncestors`: a device's path components, or their absence, are an input.
- Parsing of SID and NUMA text (`knownSID`, `strconv.Atoi`): the keys and their absence are inputs.
- Strings: IDs, path components and keys are integers, so only order and equality of strings are captured.
- Pointers between tree nodes and slices shared between calls: nodes are indices and tables are sequences, except for the knapsack tables and the search's counts, which are arrays updated in place.
- The library sort: `slices.Sort` is represented by a function that returns the sorted rearrangement.
- Error texts: an error is a constructor with the values the message would print.
- Request.SelectDevices: requires the mandatory IDs to be among the devices, as its caller has validated; an unknown ID would be read as index 0 by the original.
- Request.SelectPreferredDeviceIDs: a request that reaches the search must meet the size condition above, beyond which machine arithmetic of the original is not modelled.
- Handoff.QuietMeansCurrent: one producer and at most one live stream; two streams reading the same slot, or a second producer, are not modelled. The single producer is the manager's rescan loop, which holds its own lock.
- Handoff.EveryContinuationSettles: counts steps and assumes that a step that can be taken eventually is; it does not model time or an unresponsive receiver.
- Mutual exclusion by `p.mu`: storing the list and reading it are single atomic steps, and `availableDevices` sees one state of the managed devices.
- `Allocate`, RSD groups, CDI annotations, registration, sockets, health, logging, tracing and metrics: foreign calls without a deep invariant.
- Reconciliation in `manager.go` and the inventory tables in `inventory.go`, `sriov.go` and `status.go`: these lifecycle steps and tables are outside the allocator.
- Running time: how much the bound prunes is not claimed, only exactness and termination.
