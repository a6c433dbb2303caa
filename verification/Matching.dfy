/** How the pools of a cluster and its tagged reservations match, and how each lifecycle step keeps the match. */
module Matching {
  import opened Order
  import opened Services
  import opened Reservations
  import P = CrdPools

  /** The controller of one cluster, as far as tags depend on it. */
  datatype Cluster = Cluster(id: string, hash: string -> string)

  function Tags(c: Cluster, svc: Resource): map<string, string> { TagsOf(c.hash, c.id, svc) }

  /** Reservation id belongs to service svc. */
  ghost predicate Owns(c: Cluster, res: Store, svc: Resource, id: string): (owns: bool)
    ensures owns ==> id in res
  {
    P.Labelled(svc) && TaggedBy(res, Tags(c, svc), id)
  }

  ghost predicate PoolFor(pools: map<string, P.IPPool>, svc: Resource, cidr: string) {
    && P.Managed(pools, P.PoolName(svc))
    && var p := pools[P.PoolName(svc)];
       && p.addresses == [cidr] && !p.autoAssign && !p.avoidBuggyIPs
       && "service-" + svc.name in p.labels && p.labels["service-" + svc.name] == "namespace-" + svc.namespace
       && "cloud-provider" in p.labels && p.labels["cloud-provider"] == "equinix-metal"
  }

  ghost predicate HasOwner(c: Cluster, res: Store, n: string) {
    exists svc, id :: Owns(c, res, svc, id) && n == P.PoolName(svc)
  }

  /**
    Every tagged reservation has a pool, named after its service and holding exactly its CIDR,
    and every managed pool is the pool of a tagged reservation.
   */
  ghost predicate Matched(c: Cluster, res: Store, pools: map<string, P.IPPool>) {
    && (forall svc, id :: Owns(c, res, svc, id) ==> PoolFor(pools, svc, res[id].cidr))
    && (forall n :: P.Managed(pools, n) ==> HasOwner(c, res, n))
  }

  /** What the cloud and the controller keep of the reservations. */
  ghost predicate Sound(c: Cluster, res: Store) {
    Injective(c.hash) && UniqueTags(c.hash, c.id, res) && DistinctCidrs(res) && ById(res)
  }

  lemma OwnersAgree(c: Cluster, res: Store, a: Resource, i: string, b: Resource, j: string)
    requires Sound(c, res) && Owns(c, res, a, i) && Owns(c, res, b, j)
    ensures i == j <==> a == b
    ensures P.PoolName(a) == P.PoolName(b) <==> a == b
  {
    hide HasTags, TagsOf, P.PoolName, P.Labelled;
    if i == j {
      TagsTellServices(c.hash, c.id, a, b, res[i]);
    }
    P.PoolNameExact(a, b);
  }

  /** Pool names tell the reservations apart: with `Matched`, reservations and managed pools are in bijection. */
  lemma Bijection(c: Cluster, res: Store, pools: map<string, P.IPPool>)
    requires Sound(c, res) && Matched(c, res, pools)
    ensures forall n :: P.Managed(pools, n) <==> HasOwner(c, res, n)
    ensures forall a, i, b, j :: Owns(c, res, a, i) && Owns(c, res, b, j) ==>
              (i == j <==> P.PoolName(a) == P.PoolName(b))
    ensures forall a, i :: Owns(c, res, a, i) ==>
      pools[P.PoolName(a)].addresses == [res[i].cidr] && !pools[P.PoolName(a)].autoAssign
  {
    hide Owns, P.PoolName;
    forall a, i, b, j | Owns(c, res, a, i) && Owns(c, res, b, j)
      ensures i == j <==> P.PoolName(a) == P.PoolName(b)
    {
      OwnersAgree(c, res, a, i, b, j);
    }
  }

  function PoolOf(cidr: string, svc: Resource): P.IPPool { P.NewPool([cidr], false, false, svc) }

  lemma NoOverlap(o: P.IPPool, a: string, b: string, svc: Resource)
    requires o.addresses == [a] && a != b
    ensures !P.Overlaps(o, PoolOf(b, svc))
  {
  }

  /** Only the pool of the service itself can hold one of its reservation's addresses. */
  lemma Apart(c: Cluster, res: Store, pools: map<string, P.IPPool>, listing: seq<string>, svc: Resource, cidr: string)
    requires Matched(c, res, pools) && P.AllManaged(listing, pools)
    requires forall id, s :: Owns(c, res, s, id) && P.PoolName(s) != P.PoolName(svc) ==> res[id].cidr != cidr
    ensures P.ApartFrom(listing, pools, P.PoolName(svc), PoolOf(cidr, svc))
  {
    hide Owns, P.PoolName, P.PoolManaged, P.Overlaps;
    forall n | n in listing && n in pools && n != P.PoolName(svc) ensures !P.Overlaps(pools[n], PoolOf(cidr, svc)) {
      assert P.Managed(pools, n);
      assert HasOwner(c, res, n);
      var s, id :| Owns(c, res, s, id) && n == P.PoolName(s);
      NoOverlap(pools[n], res[id].cidr, cidr, svc);
    }
  }

  /** Ensuring a service that has its reservation changes no pool. */
  lemma EnsureKnown(c: Cluster, res: Store, st: P.State, listing: seq<string>, svc: Resource, id: string)
    requires Sound(c, res) && Matched(c, res, st.pools) && P.Listing(listing, st.pools) && Owns(c, res, svc, id)
    ensures P.AddPool(st, listing, P.PoolName(svc), PoolOf(res[id].cidr, svc), svc) == (false, st)
  {
    hide Owns, P.PoolName, P.PoolManaged, P.ScanPools, P.ApartFrom, PoolOf;
    forall j, s | Owns(c, res, s, j) && P.PoolName(s) != P.PoolName(svc) ensures res[j].cidr != res[id].cidr {
      OwnersAgree(c, res, svc, id, s, j);
    }
    Apart(c, res, st.pools, listing, svc, res[id].cidr);
    P.ScanMeans(listing, st.pools, P.PoolName(svc), PoolOf(res[id].cidr, svc), svc);
  }

  /** Ensuring a service with a new reservation adds its pool, and keeps the match. */
  lemma EnsureNew(c: Cluster, res: Store, st: P.State, listing: seq<string>, svc: Resource, r: Reservation)
    requires Sound(c, res) && Matched(c, res, st.pools) && P.Listing(listing, st.pools) && P.Labelled(svc)
    requires r.id !in res && r.tags == Some(Tags(c, svc)) && !AnyTagged(res, Tags(c, svc))
    requires forall id :: id in res ==> res[id].cidr != r.cidr
    requires P.PoolName(svc) in st.pools ==> P.Managed(st.pools, P.PoolName(svc))
    ensures var t := P.AddPool(st, listing, P.PoolName(svc), PoolOf(r.cidr, svc), svc).1;
      && t == P.State(st.pools[P.PoolName(svc) := PoolOf(r.cidr, svc)], P.Advertise(st.advs, P.PoolName(svc)))
      && Matched(c, res[r.id := r], t.pools)
  {
    hide Owns, P.PoolName, P.PoolManaged, P.ScanPools, P.ApartFrom, PoolOf, P.Labelled, HasTags, TagsOf;
    var name := P.PoolName(svc);
    assert !P.Managed(st.pools, name) by { NotYetManaged(c, res, st.pools, svc); }
    forall j, s | Owns(c, res, s, j) && P.PoolName(s) != name ensures res[j].cidr != r.cidr { }
    Apart(c, res, st.pools, listing, svc, r.cidr);
    P.ScanMeans(listing, st.pools, name, PoolOf(r.cidr, svc), svc);
    MatchCreated(c, res, st.pools, svc, r);
  }

  lemma NotYetManaged(c: Cluster, res: Store, pools: map<string, P.IPPool>, svc: Resource)
    requires Matched(c, res, pools) && P.Labelled(svc) && !AnyTagged(res, Tags(c, svc))
    ensures !P.Managed(pools, P.PoolName(svc))
  {
    hide HasTags, TagsOf, P.PoolName, P.Labelled, P.PoolManaged, PoolFor;
    if P.Managed(pools, P.PoolName(svc)) {
      assert HasOwner(c, res, P.PoolName(svc));
      var s, id :| Owns(c, res, s, id) && P.PoolName(svc) == P.PoolName(s);
      P.PoolNameExact(svc, s);
    }
  }

  lemma NewPoolFor(pools: map<string, P.IPPool>, svc: Resource, cidr: string)
    ensures PoolFor(pools[P.PoolName(svc) := PoolOf(cidr, svc)], svc, cidr)
  {
    hide P.PoolName;
    P.ServiceKeyIsNotManagedKey(svc);
  }

  lemma OwnsAfterCreate(c: Cluster, res: Store, r: Reservation, svc: Resource, s: Resource, id: string)
    requires Injective(c.hash) && P.Labelled(svc) && r.id !in res && r.tags == Some(Tags(c, svc))
    ensures Owns(c, res[r.id := r], s, id) <==> (if id == r.id then s == svc else Owns(c, res, s, id))
  {
    hide TagsOf;
    if id == r.id {
      if Owns(c, res[r.id := r], s, id) {
        assert HasTags(Tags(c, svc), r);
        TagsTellServices(c.hash, c.id, s, svc, r);
      }
    }
  }

  lemma MatchCreated(c: Cluster, res: Store, pools: map<string, P.IPPool>, svc: Resource, r: Reservation)
    requires Sound(c, res) && Matched(c, res, pools) && P.Labelled(svc)
    requires r.id !in res && r.tags == Some(Tags(c, svc)) && !AnyTagged(res, Tags(c, svc))
    ensures Matched(c, res[r.id := r], pools[P.PoolName(svc) := PoolOf(r.cidr, svc)])
  {
    hide Owns, P.PoolName, P.Labelled, HasTags, TagsOf, PoolOf, P.PoolManaged;
    var name, now, then' := P.PoolName(svc), res[r.id := r], pools[P.PoolName(svc) := PoolOf(r.cidr, svc)];
    forall s, id | Owns(c, now, s, id) ensures PoolFor(then', s, now[id].cidr) {
      OwnsAfterCreate(c, res, r, svc, s, id);
      if id == r.id {
        NewPoolFor(pools, svc, r.cidr);
      } else {
        OtherName(c, res, svc, s, id);
        assert PoolFor(pools, s, res[id].cidr);
      }
    }
    forall n | P.Managed(then', n) ensures HasOwner(c, now, n) {
      if n == name {
        OwnsAfterCreate(c, res, r, svc, svc, r.id);
        assert Owns(c, now, svc, r.id);
      } else {
        assert P.Managed(pools, n);
        assert HasOwner(c, res, n);
        var s, id :| Owns(c, res, s, id) && n == P.PoolName(s);
        OwnsAfterCreate(c, res, r, svc, s, id);
        assert Owns(c, now, s, id);
      }
    }
  }

  /** A service with a reservation has another pool name than one without. */
  lemma OtherName(c: Cluster, res: Store, svc: Resource, s: Resource, id: string)
    requires P.Labelled(svc) && !AnyTagged(res, Tags(c, svc)) && Owns(c, res, s, id)
    ensures P.PoolName(s) != P.PoolName(svc)
  {
    P.PoolNameExact(svc, s);
  }

  /** Deleting a service takes its reservation and its pool, and keeps the match. */
  lemma DeleteKeepsMatch(c: Cluster, res: Store, st: P.State, svc: Resource, id: string)
    requires Sound(c, res) && Matched(c, res, st.pools) && Owns(c, res, svc, id)
    ensures Matched(c, res - {id}, P.RemovePool(st, P.PoolName(svc)).pools)
  {
    hide Owns, P.PoolName, P.PoolManaged, P.Withdraw;
    var name, now := P.PoolName(svc), res - {id};
    assert PoolFor(st.pools, svc, res[id].cidr);
    NameNotEmpty(svc);
    var then' := P.RemovePool(st, name).pools;
    assert then' == st.pools - {name};
    forall s, j | Owns(c, now, s, j) ensures PoolFor(then', s, now[j].cidr) {
      OwnsAfterDelete(c, res, id, s, j);
      OwnersAgree(c, res, svc, id, s, j);
      assert PoolFor(st.pools, s, res[j].cidr);
    }
    forall n | P.Managed(then', n) ensures HasOwner(c, now, n) {
      assert P.Managed(st.pools, n);
      assert HasOwner(c, res, n);
      var s, j :| Owns(c, res, s, j) && n == P.PoolName(s);
      OwnersAgree(c, res, svc, id, s, j);
      OwnsAfterDelete(c, res, id, s, j);
      assert Owns(c, now, s, j);
    }
  }

  lemma NameNotEmpty(svc: Resource)
    ensures P.PoolName(svc) != ""
  {
  }

  lemma OwnsAfterDelete(c: Cluster, res: Store, id: string, s: Resource, j: string)
    ensures Owns(c, res - {id}, s, j) <==> Owns(c, res, s, j) && j != id
  {
    hide HasTags, TagsOf;
  }

  /** A deletion that stops between the reservation and its pool leaves a pool that no reservation owns. */
  lemma HalfDeletedBreaks(c: Cluster, res: Store, pools: map<string, P.IPPool>, svc: Resource, id: string)
    requires Sound(c, res) && Matched(c, res, pools) && Owns(c, res, svc, id)
    ensures P.Managed(pools, P.PoolName(svc)) && !Matched(c, res - {id}, pools)
  {
    hide Owns, P.PoolName, P.PoolManaged;
    assert PoolFor(pools, svc, res[id].cidr);
    if HasOwner(c, res - {id}, P.PoolName(svc)) {
      var s, j :| Owns(c, res - {id}, s, j) && P.PoolName(svc) == P.PoolName(s);
      OwnsAfterDelete(c, res, id, s, j);
      OwnersAgree(c, res, svc, id, s, j);
    }
  }

  /** So wherever a deletion stops, pools and reservations match exactly if the pool is gone. */
  lemma DeleteExactly(c: Cluster, res: Store, st: P.State, svc: Resource, id: string, now: P.State)
    requires Sound(c, res) && Matched(c, res, st.pools) && Owns(c, res, svc, id)
    requires P.PartlyRemoved(st, P.PoolName(svc), now)
    ensures Matched(c, res - {id}, now.pools) <==> !P.Managed(now.pools, P.PoolName(svc))
  {
    hide Owns, P.PoolName, Matched, P.Withdrawing, P.PoolManaged;
    HalfDeletedBreaks(c, res, st.pools, svc, id);
    DeleteKeepsMatch(c, res, st, svc, id);
    NameNotEmpty(svc);
  }

  /** The state after such a deletion, when the service gets reservation r. */
  ghost function Renewed(res: Store, id: string, r: Reservation): Store { (res - {id})[r.id := r] }

  /**
    A deletion stopped before the pool, and the service is ensured again: the scan finds its pool and changes
    nothing, in every listing order. So the match is back exactly if the cloud hands out the same CIDR.
   */
  lemma EnsureAfterHalfDelete(c: Cluster, res: Store, st: P.State, listing: seq<string>, svc: Resource, id: string, r: Reservation)
    requires Sound(c, res) && Matched(c, res, st.pools) && Owns(c, res, svc, id) && P.Listing(listing, st.pools)
    requires r.id !in res - {id} && r.tags == Some(Tags(c, svc))
    requires forall j :: j in res - {id} ==> res[j].cidr != r.cidr
    ensures P.AddPool(st, listing, P.PoolName(svc), PoolOf(r.cidr, svc), svc) == (false, st)
    ensures Matched(c, Renewed(res, id, r), st.pools) <==> r.cidr == res[id].cidr
  {
    OrphanScanned(c, res, st, listing, svc, id, r.cidr);
    OrphanMatch(c, res, st.pools, svc, id, r);
  }

  lemma OrphanScanned(c: Cluster, res: Store, st: P.State, listing: seq<string>, svc: Resource, id: string, cidr: string)
    requires Sound(c, res) && Matched(c, res, st.pools) && Owns(c, res, svc, id) && P.Listing(listing, st.pools)
    requires forall j :: j in res - {id} ==> res[j].cidr != cidr
    ensures P.AddPool(st, listing, P.PoolName(svc), PoolOf(cidr, svc), svc) == (false, st)
  {
    hide Owns, P.PoolName, P.PoolManaged, P.ScanPools, P.ApartFrom, PoolOf;
    forall j, s | Owns(c, res, s, j) && P.PoolName(s) != P.PoolName(svc) ensures res[j].cidr != cidr {
      OwnersAgree(c, res, svc, id, s, j);
    }
    Apart(c, res, st.pools, listing, svc, cidr);
    P.ScanMeans(listing, st.pools, P.PoolName(svc), PoolOf(cidr, svc), svc);
    assert PoolFor(st.pools, svc, res[id].cidr);
  }

  lemma OwnsRenewed(c: Cluster, res: Store, svc: Resource, id: string, r: Reservation, s: Resource, j: string)
    requires Sound(c, res) && Owns(c, res, svc, id) && r.id !in res - {id} && r.tags == Some(Tags(c, svc))
    ensures Owns(c, Renewed(res, id, r), s, j) <==> if j == r.id then s == svc else Owns(c, res, s, j) && j != id
  {
    hide TagsOf, HasTags;
    assert P.Labelled(svc);
    hide P.Labelled;
    OwnsAfterCreate(c, res - {id}, r, svc, s, j);
    OwnsAfterDelete(c, res, id, s, j);
  }

  lemma OrphanMatch(c: Cluster, res: Store, pools: map<string, P.IPPool>, svc: Resource, id: string, r: Reservation)
    requires Sound(c, res) && Matched(c, res, pools) && Owns(c, res, svc, id)
    requires r.id !in res - {id} && r.tags == Some(Tags(c, svc))
    ensures Matched(c, Renewed(res, id, r), pools) <==> r.cidr == res[id].cidr
  {
    hide Owns, P.PoolName, P.PoolManaged;
    var now := Renewed(res, id, r);
    OwnsRenewed(c, res, svc, id, r, svc, r.id);
    assert PoolFor(pools, svc, res[id].cidr);
    forall s, j | Owns(c, now, s, j) && r.cidr == res[id].cidr ensures PoolFor(pools, s, now[j].cidr) {
      OwnsRenewed(c, res, svc, id, r, s, j);
      assert j != r.id ==> PoolFor(pools, s, res[j].cidr);
    }
    forall n | P.Managed(pools, n) ensures HasOwner(c, now, n) {
      assert HasOwner(c, res, n);
      var s, j :| Owns(c, res, s, j) && n == P.PoolName(s);
      OwnersAgree(c, res, svc, id, s, j);
      OwnsRenewed(c, res, svc, id, r, s, j);
      assert Owns(c, now, s, if j == id then r.id else j);
    }
  }

  /** Before the controller has done anything: no reservation carries its tags and nothing in the cluster is managed. */
  ghost predicate Fresh(c: Cluster, res: Store, st: P.State) {
    && Injective(c.hash) && DistinctCidrs(res) && ById(res)
    && (forall svc :: !AnyTagged(res, Tags(c, svc)))
    && (forall n :: !P.Managed(st.pools, n))
    && P.DEFAULT_ADVERTISEMENT !in st.advs && (forall a :: a in st.advs ==> !st.advs[a].managed)
  }

  lemma FreshMatches(c: Cluster, res: Store, st: P.State)
    requires Fresh(c, res, st)
    ensures Sound(c, res) && Matched(c, res, st.pools) && P.AdvInv(st)
  {
    hide TagsOf, HasTags, P.PoolManaged, P.PoolName, P.Labelled;
    forall n ensures n !in P.ManagedNames(st.pools) { assert !P.Managed(st.pools, n); }
    forall svc, i ensures !TaggedBy(res, TagsOf(c.hash, c.id, svc), i) { assert !AnyTagged(res, Tags(c, svc)); }
  }

  /**
    A pool for a service that has no reservation breaks the match, whatever branch adds it: the pool of the
    service has no owner, or a pool that shares the address ends up with more than one address.
   */
  lemma PoolWithoutReservation(c: Cluster, res: Store, st: P.State, listing: seq<string>, svc: Resource, cidr: string)
    requires P.Labelled(svc) && !AnyTagged(res, Tags(c, svc)) && P.Listing(listing, st.pools)
    ensures !Matched(c, res, P.AddPool(st, listing, P.PoolName(svc), PoolOf(cidr, svc), svc).1.pools)
  {
    hide P.PoolName, P.ScanPools, PoolOf, P.Labelled, HasTags, TagsOf, Matched, P.PoolManaged, P.Overlaps, P.Patched;
    var name, add := P.PoolName(svc), PoolOf(cidr, svc);
    var pools := P.AddPool(st, listing, name, add, svc).1.pools;
    P.ScanMeans(listing, st.pools, name, add, svc);
    ManagedNew(cidr, svc);
    if P.Managed(pools, name) {
      if Matched(c, res, pools) {
        NotYetManaged(c, res, pools, svc);
      }
    } else {
      var scan := P.ScanPools(listing, st.pools, name, add, svc);
      PatchedOther(listing, st.pools, name, add, svc);
      LongPool(c, res, pools, scan.name);
    }
  }

  lemma ManagedNew(cidr: string, svc: Resource)
    ensures P.PoolManaged(PoolOf(cidr, svc)) && |PoolOf(cidr, svc).addresses| == 1
  {
    P.ServiceKeyIsNotManagedKey(svc);
  }

  /** A pool patched under another name has the addresses of both. */
  lemma {:induction false} PatchedOther(listing: seq<string>, pools: map<string, P.IPPool>, name: string, add: P.IPPool, svc: Resource)
    requires P.AllManaged(listing, pools)
    ensures var r := P.ScanPools(listing, pools, name, add, svc);
      r.Patch? && r.name != name ==> |r.pool.addresses| >= 1 + |add.addresses|
  {
    hide P.PoolManaged, P.Compact;
    if listing != [] {
      PatchedOther(listing[1..], pools, name, add, svc);
      var o := pools[listing[0]];
      if P.Overlaps(o, add) {
        OverlappedLength(o, add);
      }
    }
  }

  lemma OverlappedLength(o: P.IPPool, add: P.IPPool)
    requires P.Overlaps(o, add)
    ensures |P.Overlapped(o.addresses, add.addresses)| >= 1 + |add.addresses|
  {
    assert |o.addresses| > 0;
  }

  lemma LongPool(c: Cluster, res: Store, pools: map<string, P.IPPool>, n: string)
    requires P.Managed(pools, n) && |pools[n].addresses| > 1
    ensures !Matched(c, res, pools)
  {
    hide Owns, P.PoolName, P.PoolManaged;
  }
}
