/**
  The life of a load balancer: a tagged reservation in the cloud, the address on the service,
  and the pool and peers in MetalLB's custom resources.
 */
module Lifecycle {
  import opened Api
  import opened Order
  import opened Text
  import opened Services
  import opened Peers
  import opened Reservations
  import opened Matching
  import opened LifecycleSteps
  import opened Crd
  import opened CrdPeers
  import P = CrdPools

  /** What the cloud hands out next. */
  datatype Offer = Offer(id: string, address: string, cidr: string)

  ghost predicate Unused(res: Store, offer: Offer) {
    offer.id !in res && forall id :: id in res ==> res[id].cidr != offer.cidr
  }

  datatype EnsureResult = Elsewhere | Failed | Ingress(ip: string)

  function BeforeSlash(cidr: string): string { Split(cidr, "/")[0] }

  /** The address of a CIDR: all of it, or what comes before the first slash. */
  ghost predicate IsAddressOf(ip: string, cidr: string) { '/' !in ip && (cidr == ip || ip + "/" <= cidr) }

  lemma BeforeSlashMeans(cidr: string)
    ensures IsAddressOf(BeforeSlash(cidr), cidr)
  {
    match IndexOf(cidr, "/")
    case None =>
      forall i | 0 <= i < |cidr| ensures cidr[i] != '/' { SlashAt(cidr, i); }
    case Some(k) =>
      SlashAt(cidr, k);
      forall i | 0 <= i < k ensures cidr[i] != '/' { SlashAt(cidr, i); }
      assert cidr[..k] + "/" == cidr[..k + 1];
  }

  lemma SlashAt(s: string, i: nat)
    requires i < |s|
    ensures At(s, "/", i) <==> s[i] == '/'
  {
    assert s[i..i + 1] == [s[i]];
  }

  /** There is only one. */
  lemma AddressUnique(a: string, b: string, rest: string)
    requires '/' !in a && IsAddressOf(b, a + "/" + rest)
    ensures a == b
  {
    var cidr := a + "/" + rest;
    assert cidr[|a|] == '/';
    assert cidr != b;
    var v := cidr[|b| + 1..];
    assert cidr == b + "/" + v;
    FirstSplitUnique(a, rest, b, v, '/');
  }

  /** Reservation r is tagged, and has an ID and a CIDR that are not in use. */
  ghost predicate NewIn(res: Store, r: Reservation, tags: map<string, string>) {
    r.id !in res && r.tags == Some(tags) && forall id :: id in res ==> res[id].cidr != r.cidr
  }

  lemma NewKeepsInv(c: Cluster, res: Store, r: Reservation, key: Resource)
    requires UniqueTags(c.hash, c.id, res) && DistinctCidrs(res) && ById(res)
    requires NewIn(res, r, Tags(c, key)) && !AnyTagged(res, Tags(c, key))
    ensures var now := res[r.id := r];
      && UniqueTags(c.hash, c.id, now) && DistinctCidrs(now) && ById(now)
      && CreatedOne(res, now, Tags(c, key)) && TaggedBy(now, Tags(c, key), r.id)
  {
    hide UniqueTags, TagsOf, AnyTagged;
    CreateKeepsUnique(c.hash, c.id, res, r, key);
  }

  class LoadBalancers {
    var reservations: Store
    var services: map<Resource, Service>
    var calls: nat
    var offered: nat
    const cluster: Cluster
    const region: string
    const regionAnnotation: string
    const faults: nat -> Fault
    const offers: nat -> Offer
    const crd: CRDConfigurer

    /** Starts with the reservations and services it finds. */
    constructor (cluster: Cluster, region: string, regionAnnotation: string, faults: nat -> Fault,
                 offers: nat -> Offer, crd: CRDConfigurer, found: Store, services: map<Resource, Service>)
      ensures this.cluster == cluster && this.faults == faults && this.crd == crd
      ensures reservations == found && this.services == services
      ensures Fresh(cluster, found, crd.config) ==> Inv() && InStep()
    {
      this.cluster, this.region, this.regionAnnotation := cluster, region, regionAnnotation;
      this.faults, this.offers, this.crd := faults, offers, crd;
      reservations, this.services, calls, offered := found, services, 0, 0;
      new;
      if Fresh(cluster, found, crd.config) {
        FreshMatches(cluster, found, crd.config);
      }
    }

    ghost function Now(): Snapshot
      reads this, crd
    {
      Snapshot(reservations, services, crd.config, crd.peers)
    }

    ghost predicate Inv()
      reads this, crd
    {
      InvAt(cluster, Now())
    }

    ghost predicate InStep()
      reads this, crd
    {
      InStepAt(cluster, Now())
    }

    ghost predicate Reliable() { (forall k :: faults(k) == Done) && crd.Reliable() }

    ghost function TagsFor(key: Resource): map<string, string> { Tags(cluster, key) }

    // ---- the cloud ----

    method Call() returns (fault: Fault)
      modifies this`calls
      ensures fault == faults(old(calls)) && calls == old(calls) + 1
    {
      fault := faults(calls);
      calls := calls + 1;
    }

    method List() returns (ok: bool, ips: seq<Reservation>)
      requires ById(reservations)
      modifies this`calls
      ensures ok ==> Listing(ips, reservations)
      ensures (ok <==> faults(old(calls)) == Done) && calls == old(calls) + 1
    {
      var fault := Call();
      ips := [];
      if fault != Done {
        return false, [];
      }
      var rest := reservations.Keys;
      while rest != {}
        invariant rest <= reservations.Keys
        invariant forall i :: 0 <= i < |ips| ==> ips[i].id in reservations && reservations[ips[i].id] == ips[i]
        invariant forall id :: id in reservations && id !in rest ==> reservations[id] in ips
        decreases rest
      {
        var id :| id in rest;
        ips := ips + [reservations[id]];
        rest := rest - {id};
      }
      return true, ips;
    }

    /** The cloud never hands out an ID or a CIDR twice. */
    method CreateReservation(region: string, tags: map<string, string>) returns (ok: bool, r: Reservation)
      modifies this`calls, this`offered, this`reservations
      ensures reservations == old(reservations)
        || (r.id !in old(reservations) && reservations == old(reservations)[r.id := r])
      ensures reservations != old(reservations) || ok ==> NewIn(old(reservations), r, tags) && r.region == region
      ensures ok ==> reservations == old(reservations)[r.id := r]
      ensures (forall k :: faults(k) == Done) && !ok ==> reservations == old(reservations)
      ensures (forall k :: faults(k) == Done) && Unused(old(reservations), offers(old(offered))) ==> ok
    {
      var offer := offers(offered);
      offered := offered + 1;
      r := Reservation(offer.id, offer.address, offer.cidr, region, Some(tags));
      var fault := Call();
      var taken := set id | id in reservations && reservations[id].cidr == offer.cidr;
      if offer.id in reservations || taken != {} {
        return false, r;
      }
      assert forall id :: id in reservations && reservations[id].cidr == offer.cidr ==> id in taken;
      if fault != Lost {
        reservations := reservations[offer.id := r];
      }
      return fault == Done, r;
    }

    method RemoveReservation(id: string) returns (ok: bool)
      modifies this`calls, this`reservations
      ensures reservations == if faults(old(calls)) == Lost then old(reservations) else old(reservations) - {id}
      ensures ok <==> faults(old(calls)) == Done
    {
      var fault := Call();
      if fault != Lost {
        reservations := reservations - {id};
      }
      return fault == Done;
    }

    /** Finds the reservation of a service, if the cloud answers. */
    method Find(key: Resource) returns (ok: bool, r: Option<Reservation>)
      requires ById(reservations)
      modifies this`calls
      ensures ok ==> (r.Some? <==> AnyTagged(reservations, TagsFor(key)))
      ensures ok && r.Some? ==> TaggedBy(reservations, TagsFor(key), r.value.id) && reservations[r.value.id] == r.value
      ensures (ok <==> faults(old(calls)) == Done) && calls == old(calls) + 1
    {
      hide HasTags, AnyTagged, TagsOf, TaggedBy;
      var ips;
      ok, ips := List();
      if !ok {
        return false, None;
      }
      FoundIsTagged(ips, reservations, Tags(cluster, key));
      r := ReservationByAllTags(Tags(cluster, key), ips);
    }

    // ---- ensuring ----

    /** The region of the service's annotation or, without one, the configured region. */
    ghost function WantedRegion(svc: Service): string {
      if regionAnnotation in svc.annotations && svc.annotations[regionAnnotation] != "" then svc.annotations[regionAnnotation] else region
    }

    /** What was made is in the wanted region, and nothing is made if there is none. */
    ghost predicate MadeIn(before: Store, now: Store, svc: Service) {
      forall id :: id in now && id !in before ==> now[id].region == WantedRegion(svc) != ""
    }

    /** The reservation of a service and the address on it: found, or made. */
    method Reserve(key: Resource, svc: Service) returns (ok: bool, r: Option<Reservation>)
      requires Inv()
      modifies this
      ensures Inv() && crd.config == old(crd.config) && crd.peers == old(crd.peers)
      ensures reservations == old(reservations) || CreatedOne(old(reservations), reservations, TagsFor(key))
      ensures ForeignStay(cluster.id, old(reservations), reservations)
      ensures MadeIn(old(reservations), reservations, svc)
      ensures ok ==> (r.Some? <==> AnyTagged(reservations, TagsFor(key)))
      ensures ok && r.Some? ==> TaggedBy(reservations, TagsFor(key), r.value.id) && reservations[r.value.id] == r.value
      ensures ok && reservations != old(reservations) ==>
        r.Some? && NewIn(old(reservations), r.value, TagsFor(key)) && !AnyTagged(old(reservations), TagsFor(key))
      ensures ok && reservations != old(reservations) ==> reservations == old(reservations)[r.value.id := r.value]
      ensures ok && ServiceIP(svc) == None ==> r.Some?
      ensures (services == old(services) && (ok ==> ServiceIP(svc).Some?))
        || AddressSet(old(services), services, key, reservations, TagsFor(key))
      ensures ServiceIP(svc).Some? ==> services == old(services) && reservations == old(reservations)
      ensures Reliable() && key in old(services) && !ok ==> reservations == old(reservations)
      ensures Reliable() && key in old(services) && CanReserve(old(reservations), old(offered), key, svc) ==> ok
    {
      hide UniqueTags, DistinctCidrs, TagsOf, AnyTagged, CreatedOne, SetServiceIP, TaggedBy;
      ok, r := Find(key);
      if !ok || ServiceIP(svc).Some? {
        return;
      }
      if r == None {
        var wanted := region;
        if Annotation(svc, regionAnnotation) != "" {
          wanted := Annotation(svc, regionAnnotation);
        } else if region == "" {
          return false, None;
        }
        var made;
        ok, made := CreateReservation(wanted, Tags(cluster, key));
        if reservations != old(reservations) {
          NewKeepsInv(cluster, old(reservations), made, key);
          CreatedForeign(cluster, old(reservations), reservations, key);
        }
        if !ok {
          return;
        }
        NewKeepsInv(cluster, old(reservations), made, key);
        AnyIs(reservations, TagsFor(key), made.id);
        r := Some(made);
      }
      var fault := Call();
      if fault != Done || key !in services {
        return false, r;
      }
      var existing := SetServiceIP(services[key], r.value.address);
      fault := Call();
      if fault != Lost {
        services := services[key := existing];
      }
      ok := fault == Done;
    }

    /** If a reservation has to be made, a region is known and the cloud has an address to offer. */
    ghost predicate CanReserve(res: Store, next: nat, key: Resource, svc: Service) {
      ServiceIP(svc) == None && !AnyTagged(res, TagsFor(key)) ==>
        && (Annotation(svc, regionAnnotation) != "" || region != "")
        && Unused(res, offers(next))
    }

    /** The peers can be written: no name is taken by others and, in a store without managed peers, none comes twice. */
    ghost predicate CanPeer(peers: PeerStore, adds: seq<Peer>) {
      var news := ConvertAll(crd.parse, adds);
      !Collides(peers, RequestOf(news)) && (HasManaged(peers) || DistinctNames(news))
    }

    /**
      The implementor's part: the pool, then the peers. `listing` is the listing of the pools, if their part
      succeeded; the peers are not touched before that.
     */
    method AddService(key: Resource, cidr: string, adds: seq<Peer>) returns (ok: bool, ghost listing: Option<seq<string>>)
      modifies crd
      ensures ok ==> listing.Some?
      ensures listing.Some? ==> PoolDone(old(crd.config), crd.config, key, cidr, listing.value)
      ensures listing == None ==> crd.peers == old(crd.peers)
      ensures crd.config == old(crd.config) || exists names :: PoolPartly(old(crd.config), crd.config, key, cidr, names)
      ensures crd.Reliable() && P.AdvInv(old(crd.config))
        && (P.PoolName(key) in old(crd.config.pools) ==> P.Managed(old(crd.config.pools), P.PoolName(key)))
        ==> listing.Some? && (CanPeer(old(crd.peers), adds) ==> ok)
      ensures var after := UpdatePeers(old(crd.peers), Asked(crd.parse, adds), key);
        (ok ==> crd.peers == after) && Between(old(crd.peers), after, crd.peers)
    {
      hide P.AddPool, P.Listing, P.PoolName, UpdatePeers, P.PoolManaged, Between;
      var changed;
      ghost var names;
      ok, changed, names := crd.AddAddressPool(P.PoolName(key), PoolOf(cidr, key), key);
      if crd.config != old(crd.config) {
        assert PoolPartly(old(crd.config), crd.config, key, cidr, names);
      }
      if !ok {
        NothingBetween(crd.peers, UpdatePeers(crd.peers, Asked(crd.parse, adds), key));
        return false, None;
      }
      listing := Some(names);
      ok, changed := crd.UpdatePeersByService(adds, key);
    }

    /**
      A service that has a reservation keeps it; one that has none gets exactly one, tagged for it.
      That holds wherever the call fails. If nothing fails, the service is in the cluster, it does not
      come with an address but without a reservation, and its pool name is not taken by a pool of
      others, then pools and reservations stay in step.
     */
    method EnsureLoadBalancer(key: Resource, svc: Service, adds: seq<Peer>) returns (r: EnsureResult)
      requires Inv()
      modifies this, crd
      ensures Inv() && EnsureStep(cluster, crd.parse, old(Now()), key, svc, adds, Now())
      ensures r.Elsewhere? <==> OptedOut(svc)
      ensures r.Ingress? ==> EnsureDone(old(Now()), key, svc, adds, r.ip, Now())
      ensures EnsureFits(old(Now()), key, svc) && old(InStep()) ==>
        && InStep()
        && var able := CanReserve(old(reservations), old(offered), key, svc) && CanPeer(old(crd.peers), adds);
           (!OptedOut(svc) && able ==> r.Ingress? && AnyTagged(reservations, TagsFor(key)))
      ensures r.Ingress? && P.Labelled(key) && !AnyTagged(reservations, TagsFor(key)) ==> !InStep()
      ensures ForeignStay(cluster.id, old(reservations), reservations)
      ensures MadeIn(old(reservations), reservations, svc)
      ensures r.Ingress? && !AnyTagged(reservations, TagsFor(key)) && '/' !in ServiceIP(svc).value ==> r.ip == ServiceIP(svc).value
    {
      hide UniqueTags, DistinctCidrs, TagsOf, AnyTagged, CreatedOne, TaggedBy, P.PoolName, P.AddPool,
           P.AdvInv, Matched, Sound, P.Labelled, PoolOf, P.PoolManaged, P.Listing, UpdatePeers, Between, PoolPartly,
           AddressSet, SetServiceIP, ServiceIP, ForeignStay, IsAddressOf, BeforeSlash, OptedOut, IsServiceManaged, CidrFor,
           HostCidr;
      NothingBetween(crd.peers, UpdatePeers(crd.peers, Asked(crd.parse, adds), key));
      ForeignSame(cluster.id, reservations);
      ManagedMeans(svc);
      if !IsServiceManaged(svc) {
        return Elsewhere;
      }
      ghost var s := Now();
      ghost var fits := EnsureFits(s, key, svc) && InStep();
      var ok, found := Reserve(key, svc);
      if !ok {
        return Failed;
      }
      var cidr := if found.Some? then found.value.cidr else HostCidr(ServiceIP(svc).value);
      ghost var listing;
      ok, listing := AddService(key, cidr, adds);
      CidrIs(reservations, TagsFor(key), svc, found, cidr);
      if fits {
        StepEnsure(cluster, s.reservations, reservations, s.config, listing.value, key, found.value);
      }
      if !ok {
        return Failed;
      }
      if P.Labelled(key) && found == None {
        PoolWithoutReservation(cluster, reservations, s.config, listing.value, key, cidr);
      }
      assert PoolDone(s.config, crd.config, key, cidr, listing.value);
      BeforeSlashMeans(cidr);
      return Ingress(BeforeSlash(cidr));
    }

    /** All the work was done: the address is on the service, the pool is there, the peers are updated. */
    ghost predicate EnsureDone(s: Snapshot, key: Resource, svc: Service, adds: seq<Peer>, ip: string, t: Snapshot) {
      && (if ServiceIP(svc) == None then AddressSet(s.services, t.services, key, t.reservations, TagsFor(key))
          else t.services == s.services)
      && (exists cidr, listing ::
            CidrFor(t.reservations, TagsFor(key), svc, cidr) && PoolDone(s.config, t.config, key, cidr, listing) && IsAddressOf(ip, cidr))
      && t.peers == UpdatePeers(s.peers, Asked(crd.parse, adds), key)
    }

    /** The conditions under which ensuring keeps pools and reservations in step. */
    ghost predicate EnsureFits(s: Snapshot, key: Resource, svc: Service) {
      && Reliable() && Regular(s, key) && key in s.services
      && (ServiceIP(svc).Some? ==> AnyTagged(s.reservations, TagsFor(key)))
    }

    // ---- updating ----

    /** Only the peers change; nothing is created. */
    method UpdateLoadBalancer(key: Resource, svc: Service, adds: seq<Peer>) returns (ok: bool)
      modifies crd
      ensures UpdateStep(crd.parse, old(Now()), key, svc, adds, Now())
      ensures ok ==> !OptedOut(svc) && crd.peers == UpdatePeers(old(crd.peers), Asked(crd.parse, adds), key)
      ensures crd.Reliable() && !OptedOut(svc) && CanPeer(old(crd.peers), adds) ==> ok
    {
      hide UpdatePeers, Between;
      NothingBetween(crd.peers, UpdatePeers(crd.peers, Asked(crd.parse, adds), key));
      ManagedMeans(svc);
      if !IsServiceManaged(svc) {
        return false;
      }
      var changed;
      ok, changed := crd.UpdatePeersByService(adds, key);
    }

    // ---- deleting ----

    /** The cloud's and the cluster's next calls fail between the reservation and the pool. */
    ghost predicate StopsHalfWay(next: nat, nextInCluster: nat) {
      && faults(next) == Done && faults(next + 1) != Lost
      && (faults(next + 1) == Unacknowledged || crd.faults(nextInCluster) != Done)
    }

    /**
      Removes only a reservation with all three tags. Once it succeeds the service has none. A successful
      deletion cleans up the pool and the peers exactly if it found a reservation; without one the configuration
      is left alone. So a deletion that stops between the reservation and the pool, as it does whenever that is
      where a call fails, is not resumed.
     */
    method EnsureLoadBalancerDeleted(key: Resource, svc: Service) returns (ok: bool)
      requires Inv()
      modifies this, crd
      ensures Inv() && DeleteStep(cluster, old(Now()), key, svc, Now())
      ensures ForeignStay(cluster.id, old(reservations), reservations)
      ensures OptedOut(svc) ==> ok
      ensures ok && !OptedOut(svc) ==>
        && !AnyTagged(reservations, TagsFor(key))
        && (if AnyTagged(old(reservations), TagsFor(key))
            then crd.config == P.RemovePool(old(crd.config), P.PoolName(key)) && crd.peers == ReleasePeers(old(crd.peers), key)
            else Now() == old(Now()))
      ensures !OptedOut(svc) && !AnyTagged(old(reservations), TagsFor(key)) ==> (ok <==> faults(old(calls)) == Done)
      ensures !OptedOut(svc) && AnyTagged(old(reservations), TagsFor(key)) && StopsHalfWay(old(calls), old(crd.calls)) ==>
        !ok && RemovedOne(old(reservations), reservations, TagsFor(key)) && crd.config == old(crd.config)
      ensures Reliable() ==> ok
      ensures Reliable() && P.Labelled(key) && old(InStep()) ==> InStep()
    {
      hide UniqueTags, DistinctCidrs, TagsOf, AnyTagged, P.PoolName, P.RemovePool, TaggedBy, P.PartlyRemoved,
           P.AdvInv, Matched, Sound, P.Labelled, ReleasePeers, RemovedOne, Between;
      ghost var s := Now();
      NothingBetween(s.peers, ReleasePeers(s.peers, key));
      NothingRemoved(s.config, P.PoolName(key));
      NameNotEmpty(key);
      ManagedMeans(svc);
      if !IsServiceManaged(svc) {
        return true;
      }
      var found;
      ok, found := Find(key);
      if !ok || found == None {
        return;
      }
      var id := found.value.id;
      StepRemoved(cluster, s.reservations, key, id);
      RemovedForeign(cluster, s.reservations, s.reservations - {id}, key);
      ok := RemoveReservation(id);
      if !ok {
        return;
      }
      ok := crd.RemoveAddressPool(P.PoolName(key));
      if !ok {
        return;
      }
      if P.Labelled(key) && InStepAt(cluster, s) {
        StepDelete(cluster, s.reservations, s.config, key, id);
      }
      var removed;
      ok, removed := crd.RemovePeersByService(key);
    }

    /** Reports a load balancer exactly when a reservation carries all its tags. */
    method GetLoadBalancer(key: Resource, svc: Service) returns (ok: bool, status: Option<string>)
      requires Inv()
      modifies this`calls
      ensures ok <==> OptedOut(svc) || faults(old(calls)) == Done
      ensures ok && !OptedOut(svc) ==> (status.Some? <==> AnyTagged(reservations, TagsFor(key)))
      ensures ok && status.Some? ==>
        exists id :: TaggedBy(reservations, TagsFor(key), id) && status.value == reservations[id].cidr
      ensures OptedOut(svc) ==> ok && status == None
    {
      hide TagsOf, AnyTagged, TaggedBy, UniqueTags;
      ManagedMeans(svc);
      if !IsServiceManaged(svc) {
        return true, None;
      }
      var r;
      ok, r := Find(key);
      status := if ok && r.Some? then Some(r.value.cidr) else None;
      if ok && r.Some? {
        assert TaggedBy(reservations, TagsFor(key), r.value.id);
      }
    }

    // ---- runs ----

    /** What a failure-free step needs so that pools and reservations stay in step. */
    ghost predicate Fits(s: Snapshot, r: ServiceCall) {
      match r
      case Ensure(key, svc, adds) => EnsureFits(s, key, svc)
      case Update(key, svc, adds) => true
      case Delete(key, svc) => P.Labelled(key)
    }

    /** One request. */
    method Serve(r: ServiceCall)
      requires Inv()
      modifies this, crd
      ensures Inv() && Served(cluster, crd.parse, old(Now()), r, Now())
      ensures old(InStep()) && Reliable() && Fits(old(Now()), r) ==> InStep()
    {
      hide InvAt, EnsureStep, UpdateStep, DeleteStep, P.AdvInv, Matched, Sound, P.Labelled, EnsureDone, UpdatePeers, AnyTagged,
           TagsOf, P.RemovePool, RemovedOne, ReleasePeers;
      match r
      case Ensure(key, svc, adds) =>
        var result := EnsureLoadBalancer(key, svc, adds);
      case Update(key, svc, adds) =>
        ghost var s := Now();
        var ok := UpdateLoadBalancer(key, svc, adds);
        UpdateKeepsPools(crd.parse, s, key, svc, adds, Now());
        SameInv(cluster, s, Now());
      case Delete(key, svc) =>
        var ok := EnsureLoadBalancerDeleted(key, svc);
    }

    /**
      Any sequence of calls, with failures anywhere. At every moment each service has at most one reservation,
      and reservations, services, pools and peers change only as the requests' steps allow. If nothing fails
      and every request fits, pools and reservations are in bijection at every moment.
     */
    method Run(requests: seq<ServiceCall>) returns (ghost trace: seq<Snapshot>)
      requires Inv()
      modifies this, crd
      ensures Inv() && Trace(cluster, crd.parse, trace, requests)
      ensures trace[0] == old(Now()) && trace[|requests|] == Now()
      ensures forall i :: 0 <= i < |trace| ==> ForeignStay(cluster.id, old(reservations), trace[i].reservations)
      ensures old(InStep()) && Reliable() && (forall i :: 0 <= i < |requests| ==> Fits(trace[i], requests[i])) ==>
        forall i :: 0 <= i < |trace| ==> InStepAt(cluster, trace[i])
    {
      hide InvAt, InStepAt, Served, Fits, ForeignStay;
      trace := [Now()];
      for i := 0 to |requests|
        invariant Inv() && |trace| == i + 1 && trace[0] == old(Now()) && trace[i] == Now()
        invariant forall j :: 0 <= j <= i ==> InvAt(cluster, trace[j])
        invariant forall j :: 0 <= j < i ==> Served(cluster, crd.parse, trace[j], requests[j], trace[j + 1])
        invariant old(InStep()) && Reliable() && (forall j :: 0 <= j < i ==> Fits(trace[j], requests[j])) ==>
          forall j :: 0 <= j <= i ==> InStepAt(cluster, trace[j])
      {
        ghost var before := trace;
        Serve(requests[i]);
        trace := trace + [Now()];
        assert forall j :: 0 <= j <= i ==> trace[j] == before[j];
      }
      forall i | 0 <= i < |trace| ensures ForeignStay(cluster.id, trace[0].reservations, trace[i].reservations) {
        TraceForeign(cluster, crd.parse, trace, requests, i);
      }
    }
  }

  lemma SameInv(c: Cluster, s: Snapshot, t: Snapshot)
    requires t.reservations == s.reservations && t.config == s.config
    ensures InvAt(c, t) <==> InvAt(c, s)
    ensures InStepAt(c, t) <==> InStepAt(c, s)
  {
  }

  lemma NothingBetween(before: PeerStore, after: PeerStore)
    ensures Between(before, after, before)
  {
  }

  lemma NothingRemoved(st: P.State, pool: string)
    ensures P.PartlyRemoved(st, pool, st)
  {
  }

  /** The CIDR that goes into the pool, and the address reported for it. */
  lemma CidrIs(res: Store, tags: map<string, string>, svc: Service, found: Option<Reservation>, cidr: string)
    requires found.Some? <==> AnyTagged(res, tags)
    requires found.Some? ==> TaggedBy(res, tags, found.value.id) && res[found.value.id] == found.value && cidr == found.value.cidr
    requires found == None ==> ServiceIP(svc).Some? && cidr == HostCidr(ServiceIP(svc).value)
    ensures CidrFor(res, tags, svc, cidr)
    ensures found == None && '/' !in ServiceIP(svc).value ==> BeforeSlash(cidr) == ServiceIP(svc).value
  {
    hide ServiceIP, HasTags, BeforeSlash;
    if found == None && '/' !in ServiceIP(svc).value {
      BeforeSlashMeans(cidr);
      AddressUnique(ServiceIP(svc).value, BeforeSlash(cidr), "32");
    }
  }

  lemma AnyIs(res: Store, tags: map<string, string>, id: string)
    requires TaggedBy(res, tags, id)
    ensures AnyTagged(res, tags)
  {
  }

  /** The pool operation that follows a reservation, found or new, keeps everything in step. */
  lemma StepEnsure(c: Cluster, before: Store, now: Store, st: P.State, listing: seq<string>, key: Resource, r: Reservation)
    requires Sound(c, before) && Matched(c, before, st.pools) && P.AdvInv(st) && P.Listing(listing, st.pools)
    requires P.Labelled(key) && TaggedBy(now, Tags(c, key), r.id) && now[r.id] == r
    requires now == before || (NewIn(before, r, Tags(c, key)) && now == before[r.id := r] && !AnyTagged(before, Tags(c, key)))
    requires P.PoolName(key) in st.pools ==> P.Managed(st.pools, P.PoolName(key))
    ensures var t := P.AddPool(st, listing, P.PoolName(key), PoolOf(r.cidr, key), key).1;
      Sound(c, now) && Matched(c, now, t.pools) && P.AdvInv(t)
  {
    hide TagsOf, UniqueTags, DistinctCidrs, P.PoolName, P.AddPool, P.AdvInv, Matched, P.Labelled, PoolOf, HasTags,
         P.PoolManaged;
    PoolHasLabel(r.cidr, key);
    P.AddKeepsAdvInv(st, listing, P.PoolName(key), PoolOf(r.cidr, key), key);
    if now == before {
      EnsureKnown(c, before, st, listing, key, r.id);
    } else {
      NewKeepsInv(c, before, r, key);
      EnsureNew(c, before, st, listing, key, r);
    }
  }

  lemma StepRemoved(c: Cluster, before: Store, key: Resource, id: string)
    requires UniqueTags(c.hash, c.id, before) && DistinctCidrs(before) && ById(before)
    requires TaggedBy(before, Tags(c, key), id)
    ensures var now := before - {id};
      && UniqueTags(c.hash, c.id, now) && DistinctCidrs(now) && ById(now)
      && !AnyTagged(now, Tags(c, key)) && RemovedOne(before, now, Tags(c, key))
  {
    hide UniqueTags, TagsOf, AnyTagged, HasTags;
    RemoveKeepsUnique(c.hash, c.id, before, id);
    RemoveLastTagged(c.hash, c.id, before, id, key);
  }

  lemma StepDelete(c: Cluster, before: Store, st: P.State, key: Resource, id: string)
    requires Sound(c, before) && Matched(c, before, st.pools) && P.AdvInv(st) && P.Labelled(key)
    requires TaggedBy(before, Tags(c, key), id)
    ensures var t := P.RemovePool(st, P.PoolName(key));
      Sound(c, before - {id}) && Matched(c, before - {id}, t.pools) && P.AdvInv(t)
  {
    hide TagsOf, UniqueTags, P.PoolName, P.RemovePool, P.AdvInv, Matched, P.Labelled, HasTags, RemovedOne, AnyTagged;
    StepRemoved(c, before, key, id);
    P.RemoveKeepsAdvInv(st, P.PoolName(key));
    DeleteKeepsMatch(c, before, st, key, id);
  }
}
