# Verified model of the Cherry Servers cloud controller

This project models four connected parts of the Kubernetes cloud controller for Cherry Servers in
Dafny and proves what they keep:

1. **MetalLB configuration file.** A list of peers stands for a relation between peer identities and
   services, kept inside node selectors. A list of pools stands for a relation between pool bodies and
   names, kept inside comma-joined names. Whether two entries are the same is decided by sorting slices
   in place and comparing them element by element.
2. **MetalLB custom resources.** A reconciler converges stored BGPPeers, IPAddressPools and the default
   BGPAdvertisement, while any API call may fail with or without having had its effect.
3. **Control-plane floating IP (FIP).** Node events, health endpoints and node filters over maps in any
   iteration order decide where the address goes, under a mutex.
4. **Load-balancer lifecycle.** Tagged IP reservations, the address on the service, and part 2 composed
   with them.

## Layout

| file | what it holds |
|---|---|
| `Order.dfy`, `Text.dfy`, `Relation.dfy`, `Api.dfy` | comparisons and sorting, Go's string functions, lists that stand for a relation, outcomes of an API call |
| `Selectors.dfy`, `SelectorLists.dfy`, `Services.dfy` | orders and equality of selectors and of their lists; services kept in selectors |
| `Peers.dfy`, `Pools.dfy`, `Config.dfy` | the configuration file and the relations it refines |
| `CrdPeers.dfy`, `CrdPools.dfy`, `Crd.dfy` | what each call makes of the stored resources, and the configurer that makes it |
| `Builders.dfy`, `Composition.dfy` | peers built from nodes; the builders meet what the configurers ask |
| `Reservations.dfy`, `Matching.dfy`, `LifecycleSteps.dfy`, `Lifecycle.dfy`, `ReserveProtocol.dfy` | tags, the match of pools and reservations, what a call may do wherever it fails, the calls themselves and their runs, interleaved calls |
| `FipNodes.dfy`, `Fip.dfy`, `FipConcurrency.dfy` | node filters, the FIP manager, concurrent handlers |
| `ProviderId.dfy` | provider IDs |

`dafny verify dfyconfig.toml` checks the whole project.

## How the code is modelled

- Operations that rewrite state are methods of classes (`ConfigFile`, `CMConfigurer`, `CRDConfigurer`,
  `LoadBalancers`, `Manager`). Each is tied by its `ensures` to a function of the old state, and what the
  code promises is proved about that function.
- Slices that the code sorts in place are arrays where the sort can be seen from outside: the values of a
  requirement, the selector lists that `NodeSelectors.Equal` compares, the addresses of a pool. Go structs
  that are copied are datatypes.
- `sort.Sort` is the insertion sort that Go uses on short slices (`Order.SortBy`). Where the comparison is an
  order, the results use only that the outcome is a permutation without inversion, which fixes it, so they
  hold of any sorting algorithm. Where it is not, two results look at insertion sort itself: that two
  selectors can each be less than the other (`Selectors.TwoExprsBreakLess`, on lists of two), and that equal
  requirement lists can compare unequal (`Selectors.RequirementsEqualExactly`).
- `Resources.Less` is an order on a set of services exactly if no two of them have namespaces and names
  ordered oppositely (`Services.ResourceLessOrdersExactly`), so services are stated as multisets or sets.
- The Kubernetes and cloud APIs are maps by name or ID. Each call works, has no effect, or has its effect
  and reports an error (`Api.Fault`); a schedule of these outcomes is a parameter. Listings and ranges
  over maps come in arbitrary order.
- Health endpoints, hashes, duration parsing and the addresses that the cloud hands out are parameters.
- `slices.Delete` and `slices.Compact` clear what they drop, as the functions of the Go version in
  `go.mod` do.

## Where the code does less than one would expect

- `NodeSelector.Equal` reads a missing label as "". It tells a selector from all others by its labels and
  expressions exactly when none of its label values is empty and its expressions hold no nil and empty value
  list on one key and operator (`Selectors.EqualIsFaithfulExactly`).
- `NodeSelectors.Equal` sorts a nil label map before an empty one, but compares the two as equal. So with match
  expressions two lists of the same selectors can compare unequal (`SelectorLists.CrossedBreaksEquality`). A list of
  selectors with at most one expression is told from all others exactly if its selectors without labels all
  have the same expressions (`SelectorLists.SelectorsEqualExactly`).
- `NodeSelectors.Less` is a strict weak order on the selectors with at most n match expressions exactly
  for n <= 1 (`Selectors.StrictWeakExactly`); `Selectors.TwoExprsBreakLess` shows a pair beyond.
- `SelectorRequirementsSlice.Less` is the strict part of `Compare` except on a nil and an empty value list on
  the same key and operator (`Selectors.LessIsStrictPart`). Slice `Equal` is faithful to a list exactly if it
  holds no such pair (`Selectors.RequirementsEqualExactly`); `Selectors.NilValuesBreakEquality` shows one.
- One `UpdatePeersByService` on the custom resources is not always enough; when it is, is stated exactly
  by `CrdPeers.OneCallExactly`. Two always are (`CrdPeers.Convergence`).
- Deleting from the list of an advertisement while ranging over it skips elements. It removes every
  occurrence of a pool exactly when no two are adjacent (`CrdPools.RangeDeleteExact`), which the
  advertisement invariant guarantees.
- A service that brings an address but has no reservation gets a pool that matches no reservation
  (`Matching.PoolWithoutReservation`), so the bijection of pools and reservations is kept exactly under
  the condition that this does not happen.
- `EnsureLoadBalancerDeleted` removes the reservation first and does nothing without one. A successful
  deletion cleans up the configuration exactly if it found a reservation. One that stops between the
  reservation and the pool leaves a pool that no further deletion removes (`LifecycleSteps.OrphanForGood`);
  when the service is ensured again the pool keeps the old CIDR, so the match is back exactly if the cloud
  hands out the same CIDR (`LifecycleSteps.OrphanEnsured`). In general, wherever calls fail, pools and
  reservations stay in bijection over a run exactly if every step is complete (`LifecycleSteps.RunExactly`).
- `AddAddressPool` writes the pool before its advertisement and does not look at the advertisement of a pool
  that is there. Trying again after a failure puts things in line exactly if the failed call did not leave a
  pool that is not advertised (`CrdPools.AddAgainExactly`). `RemoveAddressPool` can be resumed
  (`CrdPools.RemoveAgain`).

## Model

| member | source | states |
|---|---|---|
| Order.SortThenCompare | cherry/loadbalancers/metallb/config.go:370-387 | sorting two lists and comparing them pointwise decides equality of their multisets of canonical forms, for any comparison that orders by a key |
| Order.SortedUnique | cherry/loadbalancers/metallb/config.go:377-385 | a sorted sequence is fixed by its elements, so equality by sorting does not depend on the algorithm |
| Order.StringLessMeans | cherry/loadbalancers/metallb/config.go:319-351 | the order of strings: at the first difference the smaller character, and a beginning before the whole |
| Order.SortAndCompare | cherry/loadbalancers/metallb/config.go:376-387 | both slices end up sorted and permuted only, also when they are one slice; the answer is the pointwise comparison of the sorted contents |
| Selectors.ComparePreorder | cherry/loadbalancers/metallb/config.go:426-462 | `Compare` is a total preorder; zero means same key, operator, nilness and multiset of values |
| Selectors.LessIsStrictPart | cherry/loadbalancers/metallb/config.go:470-492 | slice `Less` is the strict part of `Compare` except exactly when the first value list is nil and the second empty on one key and operator |
| Selectors.RequirementsEqualIsMultisetEqual | cherry/loadbalancers/metallb/config.go:497-514 | slice `Equal` implies multiset equality modulo value order, and follows from it when nil and empty value lists are not mixed on one key |
| Selectors.RequirementsEqualExactly | cherry/loadbalancers/metallb/config.go:497-514 | slice `Equal` tells a list from all others by its multiset modulo value order iff the list has no nil and empty value list on the same key and operator |
| Selectors.NilValuesBreakEquality | cherry/loadbalancers/metallb/config.go:497-514 | with a nil and an empty value list two permutations of one list compare unequal |
| Selectors.CompareInPlace | cherry/loadbalancers/metallb/config.go:426-458 | the comparison on slices computes `Compare` and leaves both value lists permuted only |
| Selectors.CollectKeys | cherry/loadbalancers/metallb/config.go:323-332 | ranging over a label map in any order and sorting gives its keys in order, each once |
| Selectors.SelectorLessStrictWeak | cherry/loadbalancers/metallb/config.go:311-363 | `NodeSelectors.Less` is irreflexive, transitive and has transitive incomparability on selectors with at most one match expression |
| Selectors.TwoExprsBreakLess | cherry/loadbalancers/metallb/config.go:353-362 | with two match expressions each of two selectors can be less than the other |
| Selectors.StrictWeakExactly | cherry/loadbalancers/metallb/config.go:311-363 | for every n, `NodeSelectors.Less` is a strict weak order on the selectors with at most n expressions iff n <= 1 |
| Selectors.SelectorEqualMeans | cherry/loadbalancers/metallb/config.go:689-704 | selectors are equal iff they have the same labels and, value order forgotten, the same multiset of expressions |
| Selectors.EqualIsFaithfulExactly | cherry/loadbalancers/metallb/config.go:689-704 | `NodeSelector.Equal` tells a selector from all others by labels and expressions iff no label value is empty and no nil and empty value list are mixed |
| Selectors.EmptyValueBreaksEquality | cherry/loadbalancers/metallb/config.go:696-700 | two selectors with different labels compare equal |
| SelectorLists.SelectorsEqualSound | cherry/loadbalancers/metallb/config.go:370-387 | lists that compare equal hold the same multiset of labels and expressions, with any number of expressions |
| SelectorLists.SelectorsEqualIsMultisetEqual | cherry/loadbalancers/metallb/config.go:370-387 | with at most one expression per selector, and no nil and empty label map whose expressions are in the opposite order, `NodeSelectors.Equal` holds iff the multisets of labels and expressions are equal |
| SelectorLists.SelectorsEqualExactly | cherry/loadbalancers/metallb/config.go:370-387 | a list is told from all others by that multiset iff its selectors without labels all have the same expressions |
| SelectorLists.CrossedBreaksEquality | cherry/loadbalancers/metallb/config.go:370-387 | two lists of the same labels and expressions that compare unequal |
| Selectors.NodeSelectorsEqual | cherry/loadbalancers/metallb/config.go:370-387 | the method computes that equality; it sorts both slices in place and only permutes them, and touches neither if the lengths differ |
| Services.ResourceLessIsNoOrder | cherry/loadbalancers/metallb/resource.go:20-28 | a pair of services that are each less than the other |
| Services.ResourceLessBothWays | cherry/loadbalancers/metallb/resource.go:20-28 | two services are each less than the other iff namespaces and names are ordered oppositely; within a namespace `Less` is the order of names |
| Services.ResourceLessOrdersExactly | cherry/loadbalancers/metallb/resource.go:20-28 | `Less` is a strict weak order on a set of services iff no two of them are ordered oppositely |
| Services.ServiceLabelsMean | cherry/loadbalancers/metallb/config.go:569-616 | the two labels of a service selector by name, and when a selector names no part or both parts of a service |
| Services.FiltersMean | cherry/loadbalancers/metallb/config.go:578-600 | plain are exactly the selectors that name no part, carried exactly the services named in both parts; a selector that names one part is neither |
| Services.AddEffect | cherry/loadbalancers/metallb/config.go:569-614 | adding a service changes the selectors iff it was absent; plain selectors keep their order, the services gain exactly this one |
| Services.RemoveEffect | cherry/loadbalancers/metallb/config.go:618-658 | found iff the service was carried; plain selectors stay, the other services stay with their multiplicities, the size is their number |
| Services.ServicesInOrder | cherry/loadbalancers/metallb/config.go:604-616 | where `Resources.Less` is an order, the services of a peer come in that order after both operations |
| Services.AddThenRemove | cherry/loadbalancers/metallb/config.go:569-658 | removing undoes adding an absent service |
| Services.AddIdempotent | cherry/loadbalancers/metallb/config.go:569-614 | adding a second time changes nothing and says so |
| Services.AddsCommute | cherry/loadbalancers/metallb/config.go:569-614 | adds of two services commute up to the order of services |
| Services.ConvertCommutes | cherry/loadbalancers/metallb/crd.go:361-450 | any label-preserving conversion of selectors commutes with adding and removing |
| Services.AddServiceLoop | cherry/loadbalancers/metallb/config.go:569-614 | the loop with its early return computes the specified selectors and flag |
| Services.RemoveServiceLoop | cherry/loadbalancers/metallb/config.go:618-658 | the loop computes the specified selectors, flag and size |
| Peers.PeerEqualMeans | cherry/loadbalancers/metallb/config.go:517-529 | `Peer.Equal` holds iff the compared fields agree and the selectors are the same label maps in any order |
| Peers.IsServiceSelectorMeans | cherry/loadbalancers/metallb/config.go:392-424 | which selectors the comparison that ignores services leaves out |
| Peers.EqualIgnoreServiceIsIdentity | cherry/loadbalancers/metallb/config.go:534-546 | the comparison ignoring services is equality of peer identities |
| Peers.WithServiceMeans | cherry/loadbalancers/metallb/config.go:569-614 | a peer keeps its identity and gains the service |
| Peers.WithoutServiceMeans | cherry/loadbalancers/metallb/config.go:618-658 | a peer keeps its identity and loses the service |
| Peers.AddRefines | cherry/loadbalancers/metallb/config.go:119-147 | adding a peer for a service keeps one entry per identity and adds exactly that pair to the relation |
| Peers.AddKeepsEntries | cherry/loadbalancers/metallb/config.go:119-147 | entries keep their places and every field, plain selectors in order, and only those of the identity change; a new one comes last |
| Peers.KeepIsEntry | cherry/loadbalancers/metallb/config.go:154-188 | what a removal keeps of an entry is the entry, changed in services only |
| Peers.RemoveRefines | cherry/loadbalancers/metallb/config.go:169-188 | removing a service removes exactly its pairs and the entries left without a service; the flag says whether there were any |
| Peers.RunRefines | cherry/loadbalancers/metallb/config.go:119-188 | after any run from empty: one entry per identity, each carrying exactly the services added and not since removed, none without a service |
| Config.EqualIgnoreService | cherry/loadbalancers/metallb/config.go:392-424 | the filtered, sorted, pointwise comparison as the code does it; the peers stay as they are |
| Config.ConfigFile.AddPeerByService | cherry/loadbalancers/metallb/config.go:119-147 | the new list, the flag and the change to the given peer, also for no peer |
| Config.ConfigFile.RemovePeersByService | cherry/loadbalancers/metallb/config.go:169-188 | the new list and the flag |
| Config.CMConfigurer.UpdatePeersByService | cherry/loadbalancers/metallb/configmap.go:69-100 | the nested loops equal adding the peers one by one as the configuration file does |
| Config.CMConfigurer.RemovePeersByService | cherry/loadbalancers/metallb/configmap.go:106-125 | equals the removal of the configuration file |
| Config.AddAllRefines | cherry/loadbalancers/metallb/configmap.go:69-100 | the update adds the service to the identities of all given peers and nothing else |
| Pools.AddRefines | cherry/loadbalancers/metallb/config.go:210-247 | adding a pool keeps one pool per body, adds exactly the pair of body and name, and reports whether it was new |
| Pools.RemoveRefines | cherry/loadbalancers/metallb/config.go:250-281 | removing a pool removes exactly the pair of body and name |
| Pools.RunRefines | cherry/loadbalancers/metallb/config.go:210-281 | after any run the list relates a body to exactly the names added and not since removed |
| Pools.PoolNames | cherry/loadbalancers/metallb/config.go:228-240 | after any run each pool's name is the comma-join of its live names, ascending and each once, and no two pools share a body |
| Config.EqualIgnoreName | cherry/loadbalancers/metallb/config.go:743-780 | equal iff the bodies agree with addresses as multisets; the in-place sorts change no pool of any list |
| Config.ConfigFile.AddAddressPool | cherry/loadbalancers/metallb/config.go:210-247 | the new pools and the flag, with addresses up to order, also for no pool |
| Config.ConfigFile.RemoveAddressPool | cherry/loadbalancers/metallb/config.go:250-281 | the new pools, with addresses up to order |
| Text.SplitJoin | cherry/loadbalancers/metallb/config.go:228-240 | splitting a join of separator-free parts gives the parts back |
| Text.JoinSplit | cherry/loadbalancers/metallb/config.go:228-240 | joining the parts of a split gives the string back |
| CrdPeers.ConversionCommutes | cherry/loadbalancers/metallb/crd.go:472-522 | converting a peer commutes with adding and with removing a service |
| CrdPeers.ConvertedIs | cherry/loadbalancers/metallb/crd.go:472-522 | field by field what a peer is converted to, the router ID dropped, labels and expressions of every selector kept |
| CrdPeers.AddMeans | cherry/loadbalancers/metallb/crd.go:361-406 | a stored peer gains exactly the service, and changes iff it did not carry it |
| CrdPeers.RemoveMeans | cherry/loadbalancers/metallb/crd.go:410-450 | a stored peer loses exactly the service; nothing is left iff it carried no other |
| CrdPeers.UpdatedMeans | cherry/loadbalancers/metallb/crd.go:68-79 | a requested peer agrees on the compared fields; a changed field drops all services; it is unchanged iff it agreed and carried the service |
| CrdPeers.UpdatedFields | cherry/loadbalancers/metallb/crd.go:68-79 | a stored peer ends up with the seven compared fields of the request; if it had them, everything but services stays, else every field is the request's |
| CrdPeers.CreatedFields | cherry/loadbalancers/metallb/crd.go:96-114 | a created peer has all fields of the request and its selectors |
| CrdPeers.UnmanagedStay | cherry/loadbalancers/metallb/crd.go:296-306 | peers that are not managed are left alone by updates and removals |
| CrdPeers.ReleasedMeans | cherry/loadbalancers/metallb/crd.go:326-347 | a peer is deleted iff it carried the service and no other; otherwise it loses just that service |
| CrdPeers.Convergence | cherry/loadbalancers/metallb/crd.go:34-114 | from any store two identical updates reach a fixed point with every requested peer present, agreeing and carrying the service, and no other managed peer carrying it |
| CrdPeers.OneCallExactly | cherry/loadbalancers/metallb/crd.go:49-79 | exactly when one update is enough for a requested peer to carry the service |
| CrdPeers.UpdateFrame | cherry/loadbalancers/metallb/crd.go:59-114 | while compared fields do not change, an update for one service leaves the peers of every other service the same |
| CrdPeers.RemoveFrame | cherry/loadbalancers/metallb/crd.go:120-138 | a removal leaves no carrier of the service and the carriers of all others the same |
| CrdPeers.DeletedOnlyByLast | cherry/loadbalancers/metallb/crd.go:326-347 | a stored peer disappears iff it is managed, not requested, and carried the service and no other |
| CrdPeers.RunFrame | cherry/loadbalancers/metallb/crd.go:34-138 | over any run of calls for other services the set of carriers of a service does not change |
| Crd.CRDConfigurer.UpdatePeersByService | cherry/loadbalancers/metallb/crd.go:34-114 | success gives the specified store, with every requested peer stored under its name with its ASNs, address, port, hold time and password, a new one with source address and multi-hop too; whatever fails, each peer is as before or as after; the flag says whether anything changed; it succeeds when no call fails and no name is taken |
| Crd.CRDConfigurer.RemovePeersByService | cherry/loadbalancers/metallb/crd.go:120-138 | the same for removal; it reports a change whenever it succeeds |
| Crd.CRDConfigurer.UpdateOrDelete | cherry/loadbalancers/metallb/crd.go:326-347 | one peer is patched, deleted or left alone |
| Crd.RequestNames | cherry/loadbalancers/metallb/crd.go:40-46 | the first and the last request for each name have the same names, and are the same requests if names are distinct |
| Crd.LastAt | cherry/loadbalancers/metallb/crd.go:40-46 | among requests for one name the last is the one that is created |
| CrdPools.StripConcat | cherry/loadbalancers/metallb/metallb.go:249-253 | each character of a name is kept iff it is a letter, digit or hyphen |
| CrdPools.PoolNameExact | cherry/loadbalancers/metallb/metallb.go:249-253 | two services share a pool name iff they agree up to dropped characters; never, if their names are DNS labels, and then it is namespace, dot, name |
| CrdPools.ScanMeans | cherry/loadbalancers/metallb/crd.go:162-203 | what the scan of the stored pools concludes, for every listing order |
| CrdPools.ScanFirst | cherry/loadbalancers/metallb/crd.go:162-203 | the first listed pool with the name or a shared address decides, and how |
| CrdPools.OverlappedMeans | cherry/loadbalancers/metallb/crd.go:190-196 | the addresses of an overlapping pool: those of both, ascending and each once, then a blank for every repetition |
| CrdPools.PatchedMeans | cherry/loadbalancers/metallb/crd.go:183-199 | a patch adds only the service's label, changes addresses only if the pools share one, and keeps the flags |
| CrdPools.PoolFrame | cherry/loadbalancers/metallb/crd.go:142-294 | neither call touches other pools, pools of others or other advertisements |
| CrdPools.RangeDeleteExact | cherry/loadbalancers/metallb/crd.go:271-289 | deleting while ranging removes every occurrence iff no two are adjacent, and loses nothing else |
| CrdPools.AddKeepsAdvInv | cherry/loadbalancers/metallb/crd.go:142-240 | adding a pool keeps the advertisement in line with the pools |
| CrdPools.AdvertiseMeans | cherry/loadbalancers/metallb/crd.go:212-238 | with managed advertisements but no managed default one nothing is advertised; with none the default one is made |
| CrdPools.RemoveKeepsAdvInv | cherry/loadbalancers/metallb/crd.go:243-294 | so does removing one |
| CrdPools.AdvInvFromEmpty | cherry/loadbalancers/metallb/crd.go:142-294 | over every run from empty the default advertisement exists iff a managed pool does, and lists each of them exactly once |
| CrdPools.KnownPoolIsNotRepaired | cherry/loadbalancers/metallb/crd.go:162-203 | adding a pool that is there leaves the advertisement in line iff it was before |
| CrdPools.HalfAddedIsOut | cherry/loadbalancers/metallb/crd.go:205-240 | after an addition that failed anywhere the advertisement is in line iff the call did not leave a new pool unadvertised |
| CrdPools.AddAgainExactly | cherry/loadbalancers/metallb/crd.go:142-240 | trying again after a failure puts the advertisement in line iff the failed call did not leave a new pool unadvertised |
| CrdPools.StoppedIsEither | cherry/loadbalancers/metallb/crd.go:271-289 | in a list without duplicates, wherever the deleting loop stops, the list is the old one or the final one |
| CrdPools.PartlyRemovedIs | cherry/loadbalancers/metallb/crd.go:243-294 | a removal that fails has done nothing, taken the pool alone, or done everything |
| CrdPools.RemoveAgain | cherry/loadbalancers/metallb/crd.go:243-294 | trying again completes a removal, wherever it failed |
| Crd.CRDConfigurer.AddAddressPool | cherry/loadbalancers/metallb/crd.go:142-240 | success gives the specified state for the listing that was met; a failure leaves nothing done, the pool without its advertisement, or everything done; it succeeds when no call fails and no name is taken |
| Crd.CRDConfigurer.RemoveAddressPool | cherry/loadbalancers/metallb/crd.go:243-294 | success gives the specified state; a failure leaves the pool gone or not and the list of the advertisement as far as the loop got; nothing is done if the pools cannot be listed |
| Crd.CRDConfigurer.DeleteWhileRanging | cherry/loadbalancers/metallb/crd.go:271-289 | the loop on the shared array, patch by patch, ends with the specified list or without the advertisement; where a patch fails the list is a beginning of that and the untouched rest |
| Builders.PeersFromNodesNative | cherry/loadbalancers/metallb/bgp_peers.go:106-128 | the loops build one peer per node and BGP peer, in order |
| Builders.NativeAt | cherry/loadbalancers/metallb/bgp_peers.go:106-128 | peer i of node j stands behind all peers of the nodes before it |
| Builders.NativeNamesDistinct | cherry/loadbalancers/metallb/bgp_peers.go:106-128 | nodes with distinct names get peers with pairwise distinct names |
| Builders.FrrSorted | cherry/loadbalancers/metallb/bgp_peers.go:151-183 | the FRR peers are strictly sorted by name and have exactly the names lower(region)-i |
| Builders.ToLowerMeans | cherry/loadbalancers/metallb/bgp_peers.go:169-170 | capital letters become small ones and nothing else changes |
| Builders.FrrLast | cherry/loadbalancers/metallb/bgp_peers.go:154-173 | each name holds the peer of the last node that writes under it |
| Builders.FrrOrderFree | cherry/loadbalancers/metallb/bgp_peers.go:151-183 | if nodes of one region agree, the FRR peers depend neither on the order nor on the repetition of nodes |
| Builders.BuildFrr | cherry/loadbalancers/metallb/bgp_peers.go:154-173 | the loop builds that map; two entries share a label map iff the same node was the last to write both, and the configured labels stay |
| Composition.NativeIsIncoming | cherry/loadbalancers/metallb/bgp_peers.go:106-128 | native peers meet what the configuration file asks of incoming peers |
| Composition.NativeConverges | cherry/loadbalancers/metallb/metallb.go:180-197 | two updates with native peers make every BGP peer of every node carry the service, stored under node name and index with that node's ASNs, password and that peer's address and port, a new one selecting just that node, and a third changes nothing |
| Composition.FrrConverges | cherry/loadbalancers/metallb/metallb.go:180-197 | the same of FRR peers, for any nodes, each name being that of the last node that writes it; a new one selects the configured labels and the region |
| Composition.FrrIsIncoming | cherry/loadbalancers/metallb/bgp_peers.go:151-183 | FRR peers meet what the configuration file asks of incoming peers, with at most one configured expression |
| Composition.NativeKeepsOthers | cherry/loadbalancers/metallb/metallb.go:180-197 | an update with native peers leaves the peers of other services alone while fields do not change |
| Reservations.ReservationsByAllTags | cherry/ipreservations.go:19-38 | the positions of exactly the reservations with all tags, in order |
| Reservations.ReservationByAllTags | cherry/ipreservations.go:9-15 | the first of them, or none iff there is none |
| Reservations.TagsTellServices | cherry/loadbalancers.go:504-531 | with hashes that do not collide no reservation has the tags of two services |
| Reservations.TagsMean | cherry/loadbalancers.go:504-531 | having a service's tags means the service's hash, the cluster's ID and the controller's mark, each under its key |
| Reservations.TagsTellClusters | cherry/loadbalancers.go:275-275 | no reservation has the tags of two clusters |
| LifecycleSteps.ServiceIPRoundTrip | cherry/loadbalancers/metallb/metallb.go:94-126 | an address that was set is the one that is read, whatever the older sources say |
| LifecycleSteps.ServiceIPMeans | cherry/loadbalancers/metallb/metallb.go:94-111 | the address comes from the new annotation, else from the old one, else from the spec, and is missing only if all are |
| LifecycleSteps.ManagedMeans | cherry/loadbalancers.go:112-115 | a service is managed unless its annotation says "false" |
| LifecycleSteps.ServedForeign | cherry/loadbalancers.go:255-297 | no call touches a reservation without the cluster's own tag, wherever it fails |
| Lifecycle.BeforeSlashMeans | cherry/loadbalancers.go:190-196 | the reported address is all of the CIDR or what comes before its first slash |
| Lifecycle.LoadBalancers.Reserve | cherry/loadbalancers.go:372-443 | wherever it fails, a service with a reservation keeps it and one without gets at most one, tagged for it, in the wanted region, with an unused ID and CIDR; without a region none is made; reservations of other clusters stay |
| Lifecycle.LoadBalancers.EnsureLoadBalancer | cherry/loadbalancers.go:175-198 | wherever it fails: at most one reservation is created, tagged for the service, the service gets no other address, the pool is written in part or whole, each peer is as before or after; on success everything is done and the address of the CIDR reported; reservations of other clusters stay; pools and reservations stay in step when nothing fails, and get out of step for an address without a reservation |
| Lifecycle.LoadBalancers.AddService | cherry/loadbalancers/metallb/metallb.go:128-142 | the pool of the service, in part or whole, and no peer before that is done; then its peers, each as before or after |
| Lifecycle.LoadBalancers.UpdateLoadBalancer | cherry/loadbalancers.go:204-245 | only peers change, each is as before or after; success gives the specified store, and comes when no call fails and no name is taken |
| Lifecycle.LoadBalancers.EnsureLoadBalancerDeleted | cherry/loadbalancers.go:255-297 | removes only a reservation with all three tags, none of another cluster, and that first; after success the service has none, and pool and peers are cleaned up iff one was found; which failures leave the pool behind; pools and reservations stay in step when nothing fails |
| Lifecycle.LoadBalancers.GetLoadBalancer | cherry/loadbalancers.go:123-161 | fails only if the reservations cannot be listed; reports a load balancer iff a reservation carries all its tags, so none after a successful deletion |
| Lifecycle.LoadBalancers.Serve | cherry/loadbalancers.go:175-297 | each request is a step of its kind, and keeps pools and reservations in step if nothing fails and it fits |
| Lifecycle.LoadBalancers.Run | cherry/loadbalancers.go:175-297 | over any sequence of calls, failures anywhere, the states form a trace of steps with unique tags throughout and reservations of other clusters untouched; if nothing fails and every request fits the state it meets, pools and reservations are in bijection at every moment |
| Lifecycle.LoadBalancers.constructor | cherry/loadbalancers.go:62-109 | a cluster in which the controller has done nothing is in step |
| LifecycleSteps.StepExactly | cherry/loadbalancers.go:175-297 | from a state in step, wherever calls fail, a step leads to one in step iff it is complete: nothing came or went, or the service has reservation, pool and advertisement, or none of them |
| LifecycleSteps.RunExactly | cherry/loadbalancers.go:175-297 | over every run, failures anywhere, pools and reservations are in bijection at every moment iff every step is complete |
| LifecycleSteps.EnsureKnownStep | cherry/loadbalancers.go:372-443 | with its reservation in place, ensuring a service changes no reservation and no pool, wherever it fails |
| LifecycleSteps.OrphanForGood | cherry/loadbalancers.go:278-296 | a pool left behind by a deletion that stopped half way survives any number of further deletions |
| LifecycleSteps.OrphanEnsured | cherry/loadbalancers.go:175-198 | ensuring the service after that leaves the pool with the old CIDR, so things are in step iff the cloud hands out the same CIDR |
| Matching.Bijection | cherry/loadbalancers/metallb/metallb.go:211-253 | the managed pools are exactly the pools of tagged reservations, one each, holding exactly the reservation's CIDR |
| Matching.EnsureKnown | cherry/loadbalancers/metallb/metallb.go:211-247 | ensuring a service that has its reservation changes no pool, in every listing order |
| Matching.EnsureNew | cherry/loadbalancers/metallb/metallb.go:211-247 | a new reservation brings exactly its pool and keeps the match |
| Matching.DeleteKeepsMatch | cherry/loadbalancers.go:284-296 | a deletion takes exactly the pool of the reservation and keeps the match |
| Matching.DeleteExactly | cherry/loadbalancers.go:284-296 | wherever a deletion stops after taking the reservation, the match holds iff the pool is gone |
| Matching.EnsureAfterHalfDelete | cherry/loadbalancers/metallb/crd.go:162-203 | a pool left behind is found by the scan in every listing order and stays as it is; the match is back iff the new CIDR is the old one |
| Matching.FreshMatches | cherry/loadbalancers/metallb/metallb.go:211-253 | without reservations and managed pools the match and the advertisement invariant hold |
| Matching.PoolWithoutReservation | cherry/loadbalancers.go:444-452 | a pool for a service without a reservation breaks the match, whichever branch adds it |
| ReserveProtocol.NextKeepsInv | cherry/loadbalancers.go:123-161 | every step of every call keeps tags unique, keeps true what each call under way has seen, and leaves reservations of other clusters |
| ReserveProtocol.RunKeepsUnique | cherry/loadbalancers.go:372-443 | in every interleaving of calls for different services, with retries after failures, each service has at most one tagged reservation and those of other clusters stay |
| ReserveProtocol.RemovedForGood | cherry/loadbalancers.go:284-288 | a call that removes the reservation it saw leaves none of its service |
| FipNodes.FilterLoop | cherry/fip_controlplane_reconciliation.go:358-367 | the loop keeps exactly the passing nodes in order |
| FipNodes.PipelineIsCandidates | cherry/fip_controlplane_reconciliation.go:342-384 | for every order of nodes the filters leave the same set |
| FipNodes.CandidatesMeans | cherry/fip_controlplane_reconciliation.go:342-384 | exactly the candidates: live nodes, unschedulable only if every live node is, the node to leave only if nothing else passed; some exist iff a live node does |
| FipNodes.FilteredList | cherry/fip_controlplane_reconciliation.go:607-658 | through both node sets and any iteration order: exactly the candidates, with distinct names |
| Fip.ListedMeans | cherry/fip_controlplane_reconciliation.go:418-429 | a name is listed iff the first list has it with the master label or the second with the control-plane label |
| Fip.HealthURLTells | cherry/fip_controlplane_reconciliation.go:440-443 | health URLs tell address and port |
| Fip.Manager.Reassign | cherry/fip_controlplane_reconciliation.go:254-304 | a move is safe; with valid provider IDs and a working API it succeeds iff some node is healthy, else the target is unchanged; without the node port nothing happens |
| Fip.Manager.TryReassign | cherry/fip_controlplane_reconciliation.go:416-438 | the same for the candidates of the listed nodes |
| Fip.Manager.MoveAway | cherry/fip_controlplane_reconciliation.go:388-412 | acts iff the node has the FIP or nobody has, and then moves iff a candidate is healthy |
| Fip.Manager.HolderURLMeans | cherry/fip_controlplane_reconciliation.go:567-574 | the holder is asked at the FIP or, with host addresses in use, at its last external address other than the FIP if it has one |
| Fip.Manager.HealthCheck | cherry/fip_controlplane_reconciliation.go:533-601 | acts iff nobody has the FIP, or the node has it and fails at that URL, and then moves iff a candidate is healthy |
| Fip.Manager.SyncService | cherry/fip_controlplane_reconciliation.go:465-530 | the node port follows the service and the FIP port is filled in once, also if what comes after fails; which outcomes make it succeed |
| Fip.Manager.Handle | cherry/fip_controlplane_reconciliation.go:122-164 | one event: the new ports, whether it calls for a move and away from which node; the FIP stays or makes one safe move to a candidate listed then; with a working API it moves iff some candidate is healthy |
| Fip.Manager.Run | cherry/fip_controlplane_reconciliation.go:122-164 | over any sequence of events the states form a trace of handled events; at every moment every move was safe and the target is where the last one went; over quiet events it never moves |
| Fip.Manager.TraceFollows | cherry/fip_controlplane_reconciliation.go:254-304 | in every trace every move is safe and the target is where the last move went, or where it started |
| Fip.Manager.QuietTraceStays | cherry/fip_controlplane_reconciliation.go:136-162 | in every trace from a state with a target, events that leave the holder healthy, schedulable and present move nothing |
| Fip.Manager.QuietIsNoDuty | cherry/fip_controlplane_reconciliation.go:332-412 | while the FIP has a target such an event calls for nothing |
| Fip.Manager.DutyMeans | cherry/fip_controlplane_reconciliation.go:122-164 | an event calls for a move iff ports are known, its node was in the control plane, and nobody has the FIP or that node has it and leaves, becomes unschedulable or fails |
| FipConcurrency.NextKeepsInv | cherry/fip_controlplane_reconciliation.go:388-438 | every step keeps mutual exclusion, a current snapshot and a serial history |
| FipConcurrency.Serializable | cherry/fip_controlplane_reconciliation.go:533-601 | in every interleaving the reservation acted on is the current one, and the target is what the handlers would leave one after the other |
| ProviderId.RoundTrip | cherry/instances.go:175-200 | parsing the printed provider ID, or the bare decimal, returns the server ID, for every 64-bit ID |
| ProviderId.PrintInjective | cherry/instances.go:214-216 | different servers have different provider IDs |
| ProviderId.AcceptedExactly | cherry/instances.go:175-200 | exactly the decimal numbers, bare or behind `cherryservers://`, are accepted |
| ProviderId.RefusedHow | cherry/instances.go:175-200 | which error an empty ID, another provider, two separators and a bad number give |
| Text.AtoiRange | cherry/instances.go:194-197 | numbers outside 64 bits are refused |

## Left out

- BGP advertisements of a pool in the configuration file: their order is no order and their equality can index out of range, so pools have none; a nil `AutoAssign`, on which the code panics, is left out too.
- Peers.RunRefines: is about plain selectors with non-empty label values and at most one match expression, and per peer no crossed pair (`SelectorLists.Crossed`), the ones for which the comparison of peers is exact.
- Selectors.RequirementsEqualExactly: is about insertion sort, which Go uses up to twelve elements; longer slices are sorted by pattern-defeating quicksort, which is not modelled.
- Services.AddServiceLoop: the order of services after sorting is that of insertion sort, which Go uses up to twelve elements; results do not depend on it.
- `AddPeer`, `RemovePeer`, `RemovePeersBySelector`, `RemoveAddressPoolByAddress` and the pool methods of `CMConfigurer`: they repeat loops that are modelled elsewhere.
- Selectors.RequirementsEqualIsMultisetEqual: `SelectorRequirementsSlice` and expressions inside selectors are values; that sorting them also permutes the shared value slices is modelled for `Compare` alone.
- Builders.BuildFrr: the value slices of match expressions stay shared between nodes, as in the code; lower-casing covers ASCII letters, the alphabet of region slugs.
- CrdPools.AddKeepsAdvInv: is about calls that succeed; what a failed one leaves is `CrdPools.HalfAddedIsOut`.
- Crd.CRDConfigurer.AddAddressPool: with a nil pool the code returns at once; the model has no nil pool.
- Building the node list (BGP enablement, node annotation, node selector) in `EnsureLoadBalancer` and `UpdateLoadBalancer`: the resulting peers are a parameter.
- Kubernetes clients, informers, HTTP, TLS, YAML and JSON, SHA-256 and base64: foreign code. The hash is a parameter that does not collide.
- kube-vip and the empty implementor, configuration, `main.go`, the test server, `bgp.go`, `server_ip.go`, `ssa-helpers.go`: not part of this model; they parse options, copy fields, or do nothing.
- Publishing the external service and endpoints in `syncService` and `syncEndpoints`: field copying into API calls.
- Fip.Manager.SyncService: ports are written under another mutex than the one handlers hold; each read is taken as atomic.
