/**
  What each call of the load-balancer lifecycle may do to the cluster and the cloud, wherever it fails,
  and when pools and reservations stay in step.
 */
module LifecycleSteps {
  import opened Order
  import opened Services
  import opened Peers
  import opened Reservations
  import opened Matching
  import opened Crd
  import opened CrdPeers
  import P = CrdPools

  // ---- services ----

  const MANAGED_ANNOTATION := "cherryservers.com/loadbalancer-managed"
  const IPS_ANNOTATION := "metallb.io/loadBalancerIPs"
  const OLD_IPS_ANNOTATION := "metallb.universe.tf/loadBalancerIPs"

  datatype Service = Service(annotations: map<string, string>, loadBalancerIP: string)

  function Annotation(svc: Service, k: string): string { if k in svc.annotations then svc.annotations[k] else "" }

  predicate IsServiceManaged(svc: Service) { Annotation(svc, MANAGED_ANNOTATION) != "false" }

  function ServiceIP(svc: Service): Option<string> {
    if Annotation(svc, IPS_ANNOTATION) != "" then Some(Annotation(svc, IPS_ANNOTATION))
    else if Annotation(svc, OLD_IPS_ANNOTATION) != "" then Some(Annotation(svc, OLD_IPS_ANNOTATION))
    else if svc.loadBalancerIP != "" then Some(svc.loadBalancerIP)
    else None
  }

  function SetServiceIP(svc: Service, ip: string): Service { svc.(annotations := svc.annotations[IPS_ANNOTATION := ip]) }

  /** An address that was set is the one that is read, whatever the older sources say. */
  lemma ServiceIPRoundTrip(svc: Service, ip: string)
    requires ip != ""
    ensures ServiceIP(SetServiceIP(svc, ip)) == Some(ip)
    ensures IsServiceManaged(SetServiceIP(svc, ip)) <==> IsServiceManaged(svc)
    ensures SetServiceIP(svc, ip).loadBalancerIP == svc.loadBalancerIP
    ensures forall k :: k in SetServiceIP(svc, ip).annotations <==> k in svc.annotations || k == "metallb.io/loadBalancerIPs"
    ensures forall k :: k in svc.annotations && k != "metallb.io/loadBalancerIPs" ==> SetServiceIP(svc, ip).annotations[k] == svc.annotations[k]
  {
    assert MANAGED_ANNOTATION[0] != IPS_ANNOTATION[0];
  }

  /** The annotation is there, with a value. */
  predicate Annotated(svc: Service, k: string) { k in svc.annotations && svc.annotations[k] != "" }

  /** The sources of the address in their order: the new annotation, the old one, the field of the spec. */
  lemma ServiceIPMeans(svc: Service)
    ensures var new', old' := "metallb.io/loadBalancerIPs", "metallb.universe.tf/loadBalancerIPs";
      && (Annotated(svc, new') ==> ServiceIP(svc) == Some(svc.annotations[new']))
      && (!Annotated(svc, new') && Annotated(svc, old') ==> ServiceIP(svc) == Some(svc.annotations[old']))
      && (!Annotated(svc, new') && !Annotated(svc, old') && svc.loadBalancerIP != "" ==> ServiceIP(svc) == Some(svc.loadBalancerIP))
      && (ServiceIP(svc) == None <==> !Annotated(svc, new') && !Annotated(svc, old') && svc.loadBalancerIP == "")
  {
  }

  /** The service asks to be left alone: its annotation says "false", and nothing else does. */
  predicate OptedOut(svc: Service) {
    "cherryservers.com/loadbalancer-managed" in svc.annotations && svc.annotations["cherryservers.com/loadbalancer-managed"] == "false"
  }

  lemma ManagedMeans(svc: Service)
    ensures IsServiceManaged(svc) <==> !OptedOut(svc)
  {
  }

  /** The CIDR of a service without a reservation of its own. */
  function HostCidr(ip: string): string { ip + "/32" }

  // ---- reservations ----

  /** One reservation was added, tagged for a service that had none. */
  ghost predicate CreatedOne(before: Store, now: Store, tags: map<string, string>) {
    !AnyTagged(before, tags) && exists r: Reservation :: r.id !in before && r.tags == Some(tags) && now == before[r.id := r]
  }

  /** One reservation with all the tags was removed. */
  ghost predicate RemovedOne(before: Store, now: Store, tags: map<string, string>) {
    exists id :: TaggedBy(before, tags, id) && now == before - {id}
  }

  // ---- steps ----

  datatype Snapshot = Snapshot(reservations: Store, services: map<Resource, Service>, config: P.State, peers: PeerStore)

  datatype ServiceCall =
    | Ensure(key: Resource, svc: Service, adds: seq<Peer>)
    | Update(key: Resource, svc: Service, adds: seq<Peer>)
    | Delete(key: Resource, svc: Service)

  /** Kept by every step, failed or not: each service has at most one reservation. */
  ghost predicate InvAt(c: Cluster, s: Snapshot) {
    UniqueTags(c.hash, c.id, s.reservations) && DistinctCidrs(s.reservations) && ById(s.reservations)
  }

  /** Pools and reservations match, and the advertisement lists the pools. */
  ghost predicate InStepAt(c: Cluster, s: Snapshot) {
    Sound(c, s.reservations) && Matched(c, s.reservations, s.config.pools) && P.AdvInv(s.config)
  }

  /** The service was given the address of its reservation. */
  ghost predicate AddressSet(before: map<Resource, Service>, now: map<Resource, Service>, key: Resource, res: Store, tags: map<string, string>) {
    key in before && exists id :: TaggedBy(res, tags, id) && now == before[key := SetServiceIP(before[key], res[id].address)]
  }

  /** The CIDR that the pool of a service gets: that of its reservation or, without one, its own address. */
  ghost predicate CidrFor(res: Store, tags: map<string, string>, svc: Service, cidr: string) {
    if AnyTagged(res, tags) then exists id :: TaggedBy(res, tags, id) && cidr == res[id].cidr
    else ServiceIP(svc).Some? && cidr == ServiceIP(svc).value + "/32"
  }

  /** The addition of the pool of a service, with this listing, did nothing, part or all of its work. */
  ghost predicate PoolPartly(st: P.State, now: P.State, key: Resource, cidr: string, listing: seq<string>) {
    P.Listing(listing, st.pools) && P.PartlyAdded(st, listing, P.PoolName(key), PoolOf(cidr, key), key, now)
  }

  ghost predicate PoolDone(st: P.State, now: P.State, key: Resource, cidr: string, listing: seq<string>) {
    P.Listing(listing, st.pools) && now == P.AddPool(st, listing, P.PoolName(key), PoolOf(cidr, key), key).1
  }

  ghost function Asked(parse: string -> int, adds: seq<Peer>): Request { RequestOf(ConvertAll(parse, adds)) }

  ghost predicate EnsureStep(c: Cluster, parse: string -> int, s: Snapshot, key: Resource, svc: Service, adds: seq<Peer>, t: Snapshot) {
    && (OptedOut(svc) ==> t == s)
    && (t.reservations == s.reservations || CreatedOne(s.reservations, t.reservations, Tags(c, key)))
    && (t.services == s.services || AddressSet(s.services, t.services, key, t.reservations, Tags(c, key)))
    && (t.config == s.config || exists cidr, listing ::
          CidrFor(t.reservations, Tags(c, key), svc, cidr) && PoolPartly(s.config, t.config, key, cidr, listing))
    && Between(s.peers, UpdatePeers(s.peers, Asked(parse, adds), key), t.peers)
  }

  ghost predicate UpdateStep(parse: string -> int, s: Snapshot, key: Resource, svc: Service, adds: seq<Peer>, t: Snapshot) {
    && t == s.(peers := t.peers)
    && (OptedOut(svc) ==> t == s)
    && Between(s.peers, UpdatePeers(s.peers, Asked(parse, adds), key), t.peers)
  }

  /** The reservation goes first: without that, nothing else changes. */
  ghost predicate DeleteStep(c: Cluster, s: Snapshot, key: Resource, svc: Service, t: Snapshot) {
    && t.services == s.services
    && (OptedOut(svc) ==> t == s)
    && (t.reservations == s.reservations ==> t == s)
    && (t.reservations == s.reservations || RemovedOne(s.reservations, t.reservations, Tags(c, key)))
    && P.PartlyRemoved(s.config, P.PoolName(key), t.config)
    && Between(s.peers, ReleasePeers(s.peers, key), t.peers)
  }

  ghost predicate Served(c: Cluster, parse: string -> int, s: Snapshot, r: ServiceCall, t: Snapshot) {
    match r
    case Ensure(key, svc, adds) => EnsureStep(c, parse, s, key, svc, adds, t)
    case Update(key, svc, adds) => UpdateStep(parse, s, key, svc, adds, t)
    case Delete(key, svc) => DeleteStep(c, s, key, svc, t)
  }

  // ---- which steps keep pools and reservations in step ----

  /** The key's names are DNS labels, and no pool of others has its pool name. */
  ghost predicate Regular(s: Snapshot, key: Resource) {
    P.Labelled(key) && (P.PoolName(key) in s.config.pools ==> P.Managed(s.config.pools, P.PoolName(key)))
  }

  ghost predicate Advertised(st: P.State, name: string) {
    P.DEFAULT_ADVERTISEMENT in st.advs && name in st.advs[P.DEFAULT_ADVERTISEMENT].pools
  }

  /**
    What can be seen of one step: no reservation came or went and the configuration stayed, or the service has
    a reservation, a managed pool and an entry in the advertisement, or none of the three.
   */
  ghost predicate Complete(c: Cluster, s: Snapshot, key: Resource, t: Snapshot) {
    if t.reservations == s.reservations then t.config == s.config
    else
      && (AnyTagged(t.reservations, Tags(c, key)) <==> P.Managed(t.config.pools, P.PoolName(key)))
      && (P.Managed(t.config.pools, P.PoolName(key)) <==> Advertised(t.config, P.PoolName(key)))
  }

  lemma AdvertisedIsManaged(st: P.State, name: string)
    requires P.AdvInv(st)
    ensures Advertised(st, name) <==> P.Managed(st.pools, name)
  {
    hide P.PoolManaged;
    assert P.Managed(st.pools, name) <==> name in P.ManagedNames(st.pools);
  }

  lemma InStepIsComplete(c: Cluster, s: Snapshot, key: Resource)
    requires InStepAt(c, s) && P.Labelled(key)
    ensures AnyTagged(s.reservations, Tags(c, key)) <==> P.Managed(s.config.pools, P.PoolName(key))
    ensures P.Managed(s.config.pools, P.PoolName(key)) <==> Advertised(s.config, P.PoolName(key))
  {
    hide TagsOf, HasTags, P.PoolName, P.Labelled, P.AdvInv, P.PoolManaged;
    AdvertisedIsManaged(s.config, P.PoolName(key));
    if AnyTagged(s.reservations, Tags(c, key)) {
      var id :| TaggedBy(s.reservations, Tags(c, key), id);
      assert Owns(c, s.reservations, key, id);
    } else {
      NotYetManaged(c, s.reservations, s.config.pools, key);
    }
  }

  // ---- ensuring ----

  /** With its reservation in place, ensuring a service can change nothing but the address on it and the peers. */
  lemma EnsureKnownStep(c: Cluster, parse: string -> int, s: Snapshot, key: Resource, svc: Service, adds: seq<Peer>, t: Snapshot)
    requires InStepAt(c, s) && P.Labelled(key) && EnsureStep(c, parse, s, key, svc, adds, t)
    requires AnyTagged(s.reservations, Tags(c, key))
    ensures t.reservations == s.reservations && t.config == s.config
  {
    hide TagsOf, HasTags, P.PoolName, P.Labelled, P.AdvInv, Matched, Between, UpdatePeers, PoolOf, P.AddPool, UniqueTags,
         DistinctCidrs, Asked, AddressSet, OptedOut, P.Listing;
    if t.config != s.config {
      var cidr, listing :| CidrFor(t.reservations, Tags(c, key), svc, cidr) && PoolPartly(s.config, t.config, key, cidr, listing);
      var id :| TaggedBy(t.reservations, Tags(c, key), id) && cidr == t.reservations[id].cidr;
      EnsureKnown(c, s.reservations, s.config, listing, key, id);
    }
  }

  /** An address without a reservation: any change of the configuration breaks the match. */
  lemma EnsureUnreservedStep(c: Cluster, parse: string -> int, s: Snapshot, key: Resource, svc: Service, adds: seq<Peer>, t: Snapshot)
    requires InStepAt(c, s) && P.Labelled(key) && EnsureStep(c, parse, s, key, svc, adds, t)
    requires !AnyTagged(t.reservations, Tags(c, key)) && t.config != s.config
    ensures !InStepAt(c, t)
  {
    hide TagsOf, HasTags, P.PoolName, P.Labelled, P.AdvInv, Matched, Between, UpdatePeers, PoolOf, P.AddPool, UniqueTags,
         DistinctCidrs, Asked, AddressSet, OptedOut, P.Listing, AnyTagged, CreatedOne, CidrFor, Sound;
    var cidr, listing :| CidrFor(t.reservations, Tags(c, key), svc, cidr) && PoolPartly(s.config, t.config, key, cidr, listing);
    PoolWithoutReservation(c, t.reservations, s.config, listing, key, cidr);
  }

  /** A new reservation: in step exactly if its pool was written and advertised. */
  lemma EnsureNewStep(c: Cluster, parse: string -> int, s: Snapshot, key: Resource, svc: Service, adds: seq<Peer>, t: Snapshot)
    requires InStepAt(c, s) && InvAt(c, t) && Regular(s, key) && EnsureStep(c, parse, s, key, svc, adds, t)
    requires t.reservations != s.reservations
    ensures AnyTagged(t.reservations, Tags(c, key))
    ensures InStepAt(c, t) <==> P.Managed(t.config.pools, P.PoolName(key)) && Advertised(t.config, P.PoolName(key))
  {
    hide TagsOf, P.PoolName, P.Labelled, P.AdvInv, Matched, Between, UpdatePeers, PoolOf, P.AddPool, UniqueTags,
         Asked, AddressSet, OptedOut, P.Listing, HasTags, P.PoolManaged;
    var tags := Tags(c, key);
    var r: Reservation :| r.id !in s.reservations && r.tags == Some(tags) && t.reservations == s.reservations[r.id := r];
    CarriesOwn(r, tags);
    assert TaggedBy(t.reservations, tags, r.id);
    if InStepAt(c, t) {
      InStepIsComplete(c, t, key);
    }
    if t.config == s.config {
      InStepIsComplete(c, s, key);
    } else {
      var cidr, listing :| CidrFor(t.reservations, tags, svc, cidr) && PoolPartly(s.config, t.config, key, cidr, listing);
      var id :| TaggedBy(t.reservations, tags, id) && cidr == t.reservations[id].cidr;
      NewPoolStep(c, s, key, r, id, t, listing);
    }
  }

  lemma CarriesOwn(r: Reservation, tags: map<string, string>)
    requires r.tags == Some(tags)
    ensures HasTags(tags, r)
  {
  }

  lemma NewPoolStep(c: Cluster, s: Snapshot, key: Resource, r: Reservation, id: string, t: Snapshot, listing: seq<string>)
    requires InStepAt(c, s) && InvAt(c, t) && Regular(s, key) && !AnyTagged(s.reservations, Tags(c, key))
    requires r.id !in s.reservations && r.tags == Some(Tags(c, key)) && t.reservations == s.reservations[r.id := r]
    requires TaggedBy(t.reservations, Tags(c, key), id) && PoolPartly(s.config, t.config, key, t.reservations[id].cidr, listing)
    ensures Advertised(t.config, P.PoolName(key)) ==> InStepAt(c, t)
  {
    hide TagsOf, P.PoolName, P.Labelled, P.AdvInv, Matched, PoolOf, P.AddPool, UniqueTags, HasTags, P.PoolManaged, P.ScanPools;
    assert id == r.id by { assert !TaggedBy(s.reservations, Tags(c, key), id); }
    var res := s.reservations;
    forall j | j in res ensures res[j].cidr != r.cidr {
      assert t.reservations[j] == res[j] && t.reservations[r.id] == r;
    }
    EnsureNew(c, res, s.config, listing, key, r);
    PoolHasLabel(r.cidr, key);
    P.AddKeepsAdvInv(s.config, listing, P.PoolName(key), PoolOf(r.cidr, key), key);
    if Advertised(t.config, P.PoolName(key)) {
      InStepIsComplete(c, s, key);
      AdvertisedIsManaged(s.config, P.PoolName(key));
    }
  }

  lemma PoolHasLabel(cidr: string, key: Resource)
    ensures P.PoolManaged(PoolOf(cidr, key))
  {
    P.ServiceKeyIsNotManagedKey(key);
  }

  // ---- deleting ----

  lemma SoundAfterRemoval(c: Cluster, res: Store, key: Resource, id: string)
    requires Sound(c, res) && TaggedBy(res, Tags(c, key), id)
    ensures Sound(c, res - {id}) && !AnyTagged(res - {id}, Tags(c, key))
  {
    hide UniqueTags, TagsOf, AnyTagged, HasTags;
    RemoveKeepsUnique(c.hash, c.id, res, id);
    RemoveLastTagged(c.hash, c.id, res, id, key);
  }

  /** A reservation went: in step exactly if its pool and the entry in the advertisement went too. */
  lemma DeletedStep(c: Cluster, s: Snapshot, key: Resource, svc: Service, t: Snapshot)
    requires InStepAt(c, s) && P.Labelled(key) && DeleteStep(c, s, key, svc, t) && t.reservations != s.reservations
    ensures !AnyTagged(t.reservations, Tags(c, key))
    ensures InStepAt(c, t) <==> !P.Managed(t.config.pools, P.PoolName(key)) && !Advertised(t.config, P.PoolName(key))
  {
    hide TagsOf, P.PoolName, P.Labelled, P.AdvInv, Matched, Between, ReleasePeers, UniqueTags, HasTags, P.PoolManaged, Sound,
         AnyTagged, P.Withdraw, P.PartlyRemoved, OptedOut;
    var id :| TaggedBy(s.reservations, Tags(c, key), id) && t.reservations == s.reservations - {id};
    SoundAfterRemoval(c, s.reservations, key, id);
    DeleteExactly(c, s.reservations, s.config, key, id, t.config);
    P.PartlyRemovedIs(s.config, P.PoolName(key), t.config);
    P.RemoveKeepsAdvInv(s.config, P.PoolName(key));
    if InStepAt(c, t) {
      AdvertisedIsManaged(t.config, P.PoolName(key));
    }
    HalfDeletedBreaks(c, s.reservations, s.config.pools, key, id);
    AdvertisedIsManaged(s.config, P.PoolName(key));
    AdvertisedIsManaged(P.RemovePool(s.config, P.PoolName(key)), P.PoolName(key));
  }

  // ---- every step, every run ----

  /** From a state that is in step, whatever failed on the way, a step leads to one that is exactly if it is complete. */
  lemma StepExactly(c: Cluster, parse: string -> int, s: Snapshot, r: ServiceCall, t: Snapshot)
    requires InStepAt(c, s) && InvAt(c, t) && Regular(s, r.key) && Served(c, parse, s, r, t)
    ensures InStepAt(c, t) <==> Complete(c, s, r.key, t)
  {
    hide EnsureStep, UpdateStep, DeleteStep, P.PoolName, P.Labelled, P.PoolManaged, Tags, InStepAt, InvAt, AnyTagged, Advertised;
    match r
    case Ensure(key, svc, adds) =>
      if t.reservations != s.reservations {
        EnsureNewStep(c, parse, s, key, svc, adds, t);
      } else if t.config != s.config {
        if AnyTagged(s.reservations, Tags(c, key)) {
          EnsureKnownStep(c, parse, s, key, svc, adds, t);
        } else {
          EnsureUnreservedStep(c, parse, s, key, svc, adds, t);
        }
      } else {
        SameInStep(c, s, t);
      }
    case Update(key, svc, adds) =>
      UpdateKeepsPools(parse, s, key, svc, adds, t);
      SameInStep(c, s, t);
    case Delete(key, svc) =>
      if t.reservations != s.reservations {
        DeletedStep(c, s, key, svc, t);
      } else {
        DeleteNothing(c, s, key, svc, t);
      }
  }

  lemma SameInStep(c: Cluster, s: Snapshot, t: Snapshot)
    requires t.reservations == s.reservations && t.config == s.config
    ensures InStepAt(c, t) <==> InStepAt(c, s)
  {
  }

  lemma UpdateKeepsPools(parse: string -> int, s: Snapshot, key: Resource, svc: Service, adds: seq<Peer>, t: Snapshot)
    requires UpdateStep(parse, s, key, svc, adds, t)
    ensures t.reservations == s.reservations && t.config == s.config
  {
  }

  lemma DeleteNothing(c: Cluster, s: Snapshot, key: Resource, svc: Service, t: Snapshot)
    requires DeleteStep(c, s, key, svc, t) && (t.reservations == s.reservations || !AnyTagged(s.reservations, Tags(c, key)))
    ensures t == s
  {
    hide TagsOf, HasTags, Between, P.PartlyRemoved;
  }

  /** One snapshot before each request and one at the end, each reached from the one before by a step. */
  ghost predicate Trace(c: Cluster, parse: string -> int, trace: seq<Snapshot>, requests: seq<ServiceCall>) {
    && |trace| == |requests| + 1
    && (forall i :: 0 <= i < |trace| ==> InvAt(c, trace[i]))
    && (forall i :: 0 <= i < |requests| ==> Served(c, parse, trace[i], requests[i], trace[i + 1]))
  }

  /**
    In every run, with failures anywhere, pools and reservations are in bijection at every moment exactly
    if every step is complete.
   */
  lemma RunExactly(c: Cluster, parse: string -> int, trace: seq<Snapshot>, requests: seq<ServiceCall>)
    requires Trace(c, parse, trace, requests) && InStepAt(c, trace[0])
    requires forall i :: 0 <= i < |requests| ==> Regular(trace[i], requests[i].key)
    ensures (forall i :: 0 <= i < |trace| ==> InStepAt(c, trace[i]))
       <==> (forall i :: 0 <= i < |requests| ==> Complete(c, trace[i], requests[i].key, trace[i + 1]))
  {
    hide InStepAt, Complete, Served, Regular, InvAt;
    if forall i :: 0 <= i < |trace| ==> InStepAt(c, trace[i]) {
      forall i | 0 <= i < |requests| ensures Complete(c, trace[i], requests[i].key, trace[i + 1]) {
        StepExactly(c, parse, trace[i], requests[i], trace[i + 1]);
      }
    }
    if forall i :: 0 <= i < |requests| ==> Complete(c, trace[i], requests[i].key, trace[i + 1]) {
      forall i | 0 <= i < |trace| ensures InStepAt(c, trace[i]) { CompleteUpTo(c, parse, trace, requests, i); }
    }
  }

  lemma {:induction false} CompleteUpTo(c: Cluster, parse: string -> int, trace: seq<Snapshot>, requests: seq<ServiceCall>, i: nat)
    requires Trace(c, parse, trace, requests) && InStepAt(c, trace[0]) && i < |trace|
    requires forall j :: 0 <= j < |requests| ==> Regular(trace[j], requests[j].key)
    requires forall j :: 0 <= j < |requests| ==> Complete(c, trace[j], requests[j].key, trace[j + 1])
    ensures InStepAt(c, trace[i])
  {
    hide InStepAt, Complete, Served, Regular, InvAt;
    if i > 0 {
      CompleteUpTo(c, parse, trace, requests, i - 1);
      assert Complete(c, trace[i - 1], requests[i - 1].key, trace[i - 1 + 1]);
      StepExactly(c, parse, trace[i - 1], requests[i - 1], trace[i]);
    }
  }

  // ---- what belongs to others ----

  lemma CreatedForeign(c: Cluster, before: Store, now: Store, key: Resource)
    requires CreatedOne(before, now, Tags(c, key))
    ensures ForeignStay(c.id, before, now)
  {
    hide TagsOf, HasTags, AnyTagged;
    var r: Reservation :| r.id !in before && r.tags == Some(Tags(c, key)) && now == before[r.id := r];
    CreateForeign(c.hash, c.id, before, r, key);
  }

  lemma RemovedForeign(c: Cluster, before: Store, now: Store, key: Resource)
    requires RemovedOne(before, now, Tags(c, key))
    ensures ForeignStay(c.id, before, now)
  {
    hide TagsOf, HasTags;
    var id :| TaggedBy(before, Tags(c, key), id) && now == before - {id};
    RemoveForeign(c.hash, c.id, before, id, key);
  }

  /** No step touches a reservation that does not carry the cluster's own tag. */
  lemma ServedForeign(c: Cluster, parse: string -> int, s: Snapshot, r: ServiceCall, t: Snapshot)
    requires Served(c, parse, s, r, t)
    ensures ForeignStay(c.id, s.reservations, t.reservations)
  {
    hide TagsOf, CreatedOne, RemovedOne, Between, UpdatePeers, ReleasePeers, P.PartlyRemoved, CidrFor, PoolPartly, AddressSet, OptedOut;
    if t.reservations != s.reservations {
      match r
      case Ensure(key, svc, adds) => CreatedForeign(c, s.reservations, t.reservations, key);
      case Update(key, svc, adds) =>
      case Delete(key, svc) => RemovedForeign(c, s.reservations, t.reservations, key);
    }
  }

  lemma {:induction false} TraceForeign(c: Cluster, parse: string -> int, trace: seq<Snapshot>, requests: seq<ServiceCall>, i: nat)
    requires Trace(c, parse, trace, requests) && i < |trace|
    ensures ForeignStay(c.id, trace[0].reservations, trace[i].reservations)
  {
    hide Served, InvAt, ForeignTo;
    if i > 0 {
      TraceForeign(c, parse, trace, requests, i - 1);
      assert Served(c, parse, trace[i - 1], requests[i - 1], trace[i - 1 + 1]);
      ServedForeign(c, parse, trace[i - 1], requests[i - 1], trace[i]);
      ForeignTransitive(c.id, trace[0].reservations, trace[i - 1].reservations, trace[i].reservations);
    }
  }

  // ---- a deletion that stopped half way ----

  /** Without a reservation, deleting a service does nothing, however often. */
  lemma {:induction false} DeletedAgain(c: Cluster, parse: string -> int, trace: seq<Snapshot>, requests: seq<ServiceCall>, key: Resource, i: nat)
    requires Trace(c, parse, trace, requests) && !AnyTagged(trace[0].reservations, Tags(c, key)) && i < |trace|
    requires forall j :: 0 <= j < |requests| ==> requests[j].Delete? && requests[j].key == key
    ensures trace[i] == trace[0]
  {
    hide DeleteStep, AnyTagged, Tags, InvAt;
    if i > 0 {
      DeletedAgain(c, parse, trace, requests, key, i - 1);
      assert Served(c, parse, trace[i - 1], requests[i - 1], trace[i - 1 + 1]);
      DeleteNothing(c, trace[i - 1], key, requests[i - 1].svc, trace[i]);
    }
  }

  /**
    A deletion takes the reservation and stops before the pool: the pool is still there, out of step, after
    any number of further deletions.
   */
  lemma OrphanForGood(c: Cluster, parse: string -> int, s: Snapshot, key: Resource, svc: Service,
                      trace: seq<Snapshot>, requests: seq<ServiceCall>)
    requires InStepAt(c, s) && P.Labelled(key) && Trace(c, parse, trace, requests)
    requires DeleteStep(c, s, key, svc, trace[0]) && trace[0].reservations != s.reservations
    requires P.Managed(trace[0].config.pools, P.PoolName(key))
    requires forall j :: 0 <= j < |requests| ==> requests[j].Delete? && requests[j].key == key
    ensures forall i :: 0 <= i < |trace| ==>
      P.Managed(trace[i].config.pools, P.PoolName(key)) && !InStepAt(c, trace[i])
  {
    hide DeleteStep, AnyTagged, Tags, InvAt, InStepAt, P.PoolName, P.PoolManaged, P.Labelled, Advertised;
    DeletedStep(c, s, key, svc, trace[0]);
    forall i | 0 <= i < |trace| ensures trace[i] == trace[0] { DeletedAgain(c, parse, trace, requests, key, i); }
  }

  /**
    If the service is ensured after that, with reservation r in place of the old one, the configuration stays:
    its pool keeps the old CIDR. So things are in step again exactly if the cloud hands out the same CIDR.
   */
  lemma OrphanEnsured(c: Cluster, parse: string -> int, s: Snapshot, t: Snapshot, key: Resource, svc: Service, adds: seq<Peer>,
                      u: Snapshot, id: string, r: Reservation)
    requires InStepAt(c, s) && P.Labelled(key) && TaggedBy(s.reservations, Tags(c, key), id)
    requires t.reservations == s.reservations - {id} && t.config == s.config
    requires EnsureStep(c, parse, t, key, svc, adds, u) && InvAt(c, u)
    requires r.id !in t.reservations && r.tags == Some(Tags(c, key)) && u.reservations == t.reservations[r.id := r]
    ensures u.config == s.config
    ensures InStepAt(c, u) <==> r.cidr == s.reservations[id].cidr
  {
    hide TagsOf, P.PoolName, P.Labelled, P.AdvInv, Matched, Between, UpdatePeers, PoolOf, P.AddPool, UniqueTags,
         Asked, AddressSet, OptedOut, P.Listing, HasTags, P.PoolManaged, CreatedOne;
    var tags, res := Tags(c, key), s.reservations;
    CarriesOwn(r, tags);
    assert TaggedBy(u.reservations, tags, r.id);
    assert Owns(c, res, key, id);
    forall j | j in res - {id} ensures res[j].cidr != r.cidr {
      assert u.reservations[j] == res[j] && u.reservations[r.id] == r;
    }
    if u.config != t.config {
      var cidr, listing :| CidrFor(u.reservations, tags, svc, cidr) && PoolPartly(t.config, u.config, key, cidr, listing);
      var k :| TaggedBy(u.reservations, tags, k) && cidr == u.reservations[k].cidr;
      SoundAfterRemoval(c, res, key, id);
      assert k == r.id by { assert !TaggedBy(t.reservations, tags, k); }
      OrphanScanned(c, res, s.config, listing, key, id, r.cidr);
    }
    OrphanMatch(c, res, s.config.pools, key, id, r);
  }
}
