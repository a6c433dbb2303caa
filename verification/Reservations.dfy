/** IP reservations of the project and the tags by which the controller finds its own. */
module Reservations {
  import opened Order
  import opened Text
  import opened Services
  import P = CrdPools

  /** `tags` is None for a nil pointer. */
  datatype Reservation = Reservation(
    id: string, address: string, cidr: string, region: string, tags: Option<map<string, string>>)

  type Store = map<string, Reservation>

  predicate HasTags(target: map<string, string>, r: Reservation) {
    r.tags.Some? && forall k :: k in target ==> k in r.tags.value && r.tags.value[k] == target[k]
  }

  /** `ipReservationsByAllTags`: the positions, in order, of exactly the reservations with all the tags. */
  method ReservationsByAllTags(target: map<string, string>, ips: seq<Reservation>) returns (ret: seq<nat>)
    ensures forall i :: i in ret <==> 0 <= i < |ips| && HasTags(target, ips[i])
    ensures forall j, k :: 0 <= j < k < |ret| ==> ret[j] < ret[k]
  {
    ret := [];
    for i := 0 to |ips|
      invariant forall j :: j in ret <==> 0 <= j < i && HasTags(target, ips[j])
      invariant forall j, k :: 0 <= j < k < |ret| ==> ret[j] < ret[k]
    {
      if ips[i].tags == None {
        continue;
      }
      var all, rest := true, target.Keys;
      while rest != {} && all
        invariant rest <= target.Keys
        invariant all <==> forall k :: k in target && k !in rest ==> Agrees(target, ips[i].tags.value, k)
        decreases rest
      {
        var k :| k in rest;
        all := Agrees(target, ips[i].tags.value, k);
        rest := rest - {k};
      }
      if all {
        assert forall m :: 0 <= m < |ret| ==> ret[m] in ret;
        ret := ret + [i];
      }
    }
  }

  predicate Agrees(target: map<string, string>, tags: map<string, string>, k: string) {
    k in target && k in tags && tags[k] == target[k]
  }

  /** `ipReservationByAllTags`: the first of them. */
  method ReservationByAllTags(target: map<string, string>, ips: seq<Reservation>) returns (r: Option<Reservation>)
    ensures r == None <==> forall i :: 0 <= i < |ips| ==> !HasTags(target, ips[i])
    ensures r.Some? ==> exists i :: 0 <= i < |ips| && ips[i] == r.value && HasTags(target, ips[i])
                                 && forall j :: 0 <= j < i ==> !HasTags(target, ips[j])
  {
    var ret := ReservationsByAllTags(target, ips);
    if |ret| > 0 {
      assert ret[0] in ret;
      r := Some(ips[ret[0]]);
    } else {
      r := None;
    }
  }

  // ---- the controller's tags ----

  const CHERRY_TAG := "usage"
  const CHERRY_VALUE := "cloud-provider-cherry-auto"

  function ServiceRep(svc: Resource): string { svc.namespace + "/" + svc.name }

  /** What a reservation of a service is tagged with; `hash` stands for the base64 of the SHA-256. */
  function TagsOf(hash: string -> string, clusterID: string, svc: Resource): map<string, string> {
    map["service" := hash(ServiceRep(svc)), "cluster" := clusterID, CHERRY_TAG := CHERRY_VALUE]
  }

  /** The reservation has the tag, with this value. */
  predicate TagIs(r: Reservation, k: string, v: string) { r.tags.Some? && k in r.tags.value && r.tags.value[k] == v }

  /** All three tags: the service's hash, the cluster's ID and the controller's mark. */
  lemma TagsMean(hash: string -> string, clusterID: string, svc: Resource, r: Reservation)
    ensures HasTags(TagsOf(hash, clusterID, svc), r) <==>
      && TagIs(r, "service", hash(svc.namespace + "/" + svc.name))
      && TagIs(r, "cluster", clusterID)
      && TagIs(r, "usage", "cloud-provider-cherry-auto")
    ensures |TagsOf(hash, clusterID, svc)| == 3
  {
    var t := TagsOf(hash, clusterID, svc);
    assert |"service"| != |CHERRY_TAG| && "service"[0] != "cluster"[0] && |"cluster"| != |CHERRY_TAG|;
    assert "service" in t && "cluster" in t && "usage" in t;
    assert t.Keys == {"service", "cluster", "usage"};
    assert |t| == |t.Keys|;
  }

  /** So no reservation has the tags of two clusters. */
  lemma TagsTellClusters(hash: string -> string, c: string, d: string, a: Resource, b: Resource, r: Reservation)
    requires HasTags(TagsOf(hash, c, a), r) && HasTags(TagsOf(hash, d, b), r)
    ensures c == d
  {
    TagsMean(hash, c, a, r);
    TagsMean(hash, d, b, r);
  }

  /** The reservation does not carry the tag of the cluster. */
  predicate ForeignTo(clusterID: string, r: Reservation) { !TagIs(r, "cluster", clusterID) }

  /** Every reservation that is not the cluster's is as it was, and no other such has come. */
  ghost predicate ForeignStay(clusterID: string, before: Store, now: Store) {
    && (forall id :: id in before && ForeignTo(clusterID, before[id]) ==> id in now && now[id] == before[id])
    && (forall id :: id in now && ForeignTo(clusterID, now[id]) ==> id in before && before[id] == now[id])
  }

  ghost predicate Injective(hash: string -> string) { forall a, b :: hash(a) == hash(b) ==> a == b }

  lemma NoSlash(s: string)
    requires P.IsLabel(s)
    ensures '/' !in s
  {
    assert !P.NameChar('/');
  }

  /** With hashes that do not collide, no reservation has the tags of two services. */
  lemma TagsTellServices(hash: string -> string, clusterID: string, a: Resource, b: Resource, r: Reservation)
    requires Injective(hash) && P.Labelled(a) && P.Labelled(b)
    requires HasTags(TagsOf(hash, clusterID, a), r) && HasTags(TagsOf(hash, clusterID, b), r)
    ensures a == b
  {
    var ta, tb := TagsOf(hash, clusterID, a), TagsOf(hash, clusterID, b);
    assert |"service"| != |CHERRY_TAG| && "service"[0] != "cluster"[0];
    assert "service" in ta && "service" in tb;
    assert ta["service"] == tb["service"];
    assert hash(ServiceRep(a)) == hash(ServiceRep(b));
    NoSlash(a.namespace);
    NoSlash(b.namespace);
    FirstSplitUnique(a.namespace, a.name, b.namespace, b.name, '/');
  }

  ghost predicate TaggedBy(res: Store, target: map<string, string>, id: string) { id in res && HasTags(target, res[id]) }

  /** At most one reservation carries all the tags of a service. */
  ghost predicate UniqueTags(hash: string -> string, clusterID: string, res: Store) {
    forall svc, i, j :: TaggedBy(res, TagsOf(hash, clusterID, svc), i) && TaggedBy(res, TagsOf(hash, clusterID, svc), j) ==> i == j
  }

  ghost predicate AnyTagged(res: Store, target: map<string, string>) { exists id :: TaggedBy(res, target, id) }

  ghost predicate DistinctCidrs(res: Store) { forall i, j :: i in res && j in res && i != j ==> res[i].cidr != res[j].cidr }

  /** Reservations are stored under their IDs. */
  ghost predicate ById(res: Store) { forall id :: id in res ==> res[id].id == id }

  /** A listing holds every reservation, in any order. */
  ghost predicate Listing(ips: seq<Reservation>, res: Store) {
    && (forall i :: 0 <= i < |ips| ==> ips[i].id in res && res[ips[i].id] == ips[i])
    && (forall id :: id in res ==> res[id] in ips)
  }

  lemma FoundIsTagged(ips: seq<Reservation>, res: Store, target: map<string, string>)
    requires Listing(ips, res) && ById(res)
    ensures (forall i :: 0 <= i < |ips| ==> !HasTags(target, ips[i])) <==> !AnyTagged(res, target)
    ensures forall i :: 0 <= i < |ips| && HasTags(target, ips[i]) ==> TaggedBy(res, target, ips[i].id)
  {
    hide HasTags;
    if AnyTagged(res, target) {
      var id :| TaggedBy(res, target, id);
      assert res[id] in ips;
      var i :| 0 <= i < |ips| && ips[i] == res[id];
      assert HasTags(target, ips[i]);
    }
    forall i | 0 <= i < |ips| && HasTags(target, ips[i]) ensures TaggedBy(res, target, ips[i].id) { }
  }

  // ---- creating and removing ----

  lemma CreateForeign(hash: string -> string, clusterID: string, res: Store, r: Reservation, svc: Resource)
    requires r.id !in res && r.tags == Some(TagsOf(hash, clusterID, svc))
    ensures ForeignStay(clusterID, res, res[r.id := r])
  {
    TagsMean(hash, clusterID, svc, r);
    assert HasTags(TagsOf(hash, clusterID, svc), r);
  }

  lemma RemoveForeign(hash: string -> string, clusterID: string, res: Store, id: string, svc: Resource)
    requires TaggedBy(res, TagsOf(hash, clusterID, svc), id)
    ensures ForeignStay(clusterID, res, res - {id})
  {
    hide TagsOf, HasTags;
    TagsMean(hash, clusterID, svc, res[id]);
  }

  lemma ForeignSame(clusterID: string, res: Store)
    ensures ForeignStay(clusterID, res, res)
  {
  }

  lemma ForeignTransitive(clusterID: string, a: Store, b: Store, d: Store)
    requires ForeignStay(clusterID, a, b) && ForeignStay(clusterID, b, d)
    ensures ForeignStay(clusterID, a, d)
  {
    hide ForeignTo;
  }

  lemma CreateKeepsUnique(hash: string -> string, clusterID: string, res: Store, r: Reservation, svc: Resource)
    requires UniqueTags(hash, clusterID, res)
    requires r.id !in res && r.tags == Some(TagsOf(hash, clusterID, svc))
    requires !AnyTagged(res, TagsOf(hash, clusterID, svc))
    ensures UniqueTags(hash, clusterID, res[r.id := r])
  {
    hide TagsOf, HasTags;
    var now := res[r.id := r];
    forall s, i, j | TaggedBy(now, TagsOf(hash, clusterID, s), i) && TaggedBy(now, TagsOf(hash, clusterID, s), j)
      ensures i == j
    {
      if HasTags(TagsOf(hash, clusterID, s), r) {
        SameTags(hash, clusterID, s, svc, r);
        assert !TaggedBy(res, TagsOf(hash, clusterID, svc), i) && !TaggedBy(res, TagsOf(hash, clusterID, svc), j);
      } else {
        assert TaggedBy(res, TagsOf(hash, clusterID, s), i) && TaggedBy(res, TagsOf(hash, clusterID, s), j);
      }
    }
  }

  lemma SameTags(hash: string -> string, clusterID: string, a: Resource, b: Resource, r: Reservation)
    requires r.tags == Some(TagsOf(hash, clusterID, b)) && HasTags(TagsOf(hash, clusterID, a), r)
    ensures TagsOf(hash, clusterID, a) == TagsOf(hash, clusterID, b)
  {
    var ta, tb := TagsOf(hash, clusterID, a), TagsOf(hash, clusterID, b);
    assert "service" in ta && "cluster" in ta && CHERRY_TAG in ta;
    assert ta.Keys == tb.Keys;
  }

  lemma RemoveKeepsUnique(hash: string -> string, clusterID: string, res: Store, id: string)
    requires UniqueTags(hash, clusterID, res)
    ensures UniqueTags(hash, clusterID, res - {id})
  {
    hide TagsOf, HasTags;
    var now := res - {id};
    forall s, i, j | TaggedBy(now, TagsOf(hash, clusterID, s), i) && TaggedBy(now, TagsOf(hash, clusterID, s), j)
      ensures i == j
    {
      assert TaggedBy(res, TagsOf(hash, clusterID, s), i) && TaggedBy(res, TagsOf(hash, clusterID, s), j);
    }
  }

  lemma RemoveLastTagged(hash: string -> string, clusterID: string, res: Store, id: string, svc: Resource)
    requires UniqueTags(hash, clusterID, res) && TaggedBy(res, TagsOf(hash, clusterID, svc), id)
    ensures !AnyTagged(res - {id}, TagsOf(hash, clusterID, svc))
  {
    hide TagsOf, HasTags;
    forall i ensures !TaggedBy(res - {id}, TagsOf(hash, clusterID, svc), i) {
      assert TaggedBy(res, TagsOf(hash, clusterID, svc), i) ==> i == id;
    }
  }
}
