/**
  BGPPeer custom resources: what one update or removal for a service makes of the stored
  peers, and where repeated updates lead.
 */
module CrdPeers {
  import opened Order
  import opened Selectors
  import opened Services
  import opened Peers

  /** On the wire a nil and an empty list are the same. */
  datatype CrdSelector = CrdSelector(labels: Labels, exprs: seq<Requirement>)

  datatype PeerSpec = PeerSpec(
    myASN: nat, asn: nat, address: string, srcAddress: string, port: nat, holdTime: int, routerID: string,
    selectors: seq<CrdSelector>, password: string, ebgpMultiHop: bool)

  /** `managed`: carries the label cloud-provider=equinix-metal, by which the peers are listed. */
  datatype BGPPeer = BGPPeer(managed: bool, spec: PeerSpec)

  type PeerStore = map<string, BGPPeer>

  function CrdLabels(s: CrdSelector): Labels { s.labels }

  function CrdServiceSelector(r: Resource): CrdSelector { CrdSelector(ServiceLabels(r), []) }

  lemma CrdSelectorsName()
    ensures Makes(CrdLabels, CrdServiceSelector)
  {
    forall r ensures ServiceIn(CrdLabels(CrdServiceSelector(r))) == r { ServiceLabelsRead(r); }
  }

  // ---- conversion ----

  function ConvertSelector(s: NodeSelector): CrdSelector { CrdSelector(LabelsOf(s), ExprsOf(s)) }

  /** The router ID is dropped; the hold time is parsed by `parse`. */
  function ConvertPeer(parse: string -> int, p: Peer): PeerSpec {
    PeerSpec(p.myASN, p.asn, p.addr, p.srcAddr, p.port, parse(p.holdTime), "",
             MapSeq(ConvertSelector, p.selectors), p.password, p.ebgpMultiHop)
  }

  /** A stored peer has the values of p in every field that the comparison of specs looks at. */
  predicate ComparedAs(spec: PeerSpec, parse: string -> int, p: Peer) {
    && spec.myASN == p.myASN && spec.asn == p.asn && spec.address == p.addr && spec.port == p.port
    && spec.holdTime == parse(p.holdTime) && spec.password == p.password && spec.routerID == ""
  }

  /** And in the others, selectors apart. */
  predicate CopiedAs(spec: PeerSpec, parse: string -> int, p: Peer) {
    ComparedAs(spec, parse, p) && spec.srcAddress == p.srcAddr && spec.ebgpMultiHop == p.ebgpMultiHop
  }

  lemma ConvertedIs(parse: string -> int, p: Peer)
    ensures var spec := ConvertPeer(parse, p);
      && CopiedAs(spec, parse, p) && |spec.selectors| == |p.selectors|
      && forall i :: 0 <= i < |p.selectors| ==>
           spec.selectors[i].labels == LabelsOf(p.selectors[i]) && spec.selectors[i].exprs == ExprsOf(p.selectors[i])
  {
  }

  /** Adding or removing a service before conversion is the same as after. */
  lemma ConversionCommutes(parse: string -> int, p: Peer, svc: Resource)
    ensures var spec := ConvertPeer(parse, p);
      && ConvertPeer(parse, WithService(p, svc)).selectors
           == AddService(CrdLabels, CrdServiceSelector, spec.selectors, svc).1
      && var (found, size, q) := WithoutService(p, svc);
         RemoveService(CrdLabels, CrdServiceSelector, spec.selectors, svc)
           == (found, size, ConvertPeer(parse, q).selectors)
  {
    hide AddService, RemoveService, MapSeq;
    ConvertCommutes(LabelsOf, ServiceSelector, CrdLabels, CrdServiceSelector, ConvertSelector, p.selectors, svc);
  }

  // ---- one peer ----

  predicate SpecEqual(p: PeerSpec, o: PeerSpec) {
    && p.myASN == o.myASN && p.asn == o.asn && p.address == o.address && p.port == o.port
    && p.holdTime == o.holdTime && p.password == o.password && p.routerID == o.routerID
  }

  function ServicesIn(spec: PeerSpec): seq<Resource> { Carried(CrdLabels, spec.selectors) }

  ghost predicate Carrying(p: BGPPeer, svc: Resource) { svc in ServicesIn(p.spec) }

  /** No service but svc. */
  ghost predicate OnlyCarries(p: BGPPeer, svc: Resource) { forall t :: Carrying(p, t) ==> t == svc }

  function PeerAddService(p: BGPPeer, svc: Resource): (bool, BGPPeer) {
    var (changed, s) := AddService(CrdLabels, CrdServiceSelector, p.spec.selectors, svc);
    (changed, p.(spec := p.spec.(selectors := s)))
  }

  function PeerRemoveService(p: BGPPeer, svc: Resource): (bool, nat, BGPPeer) {
    var (found, size, s) := RemoveService(CrdLabels, CrdServiceSelector, p.spec.selectors, svc);
    (found, size, p.(spec := p.spec.(selectors := s)))
  }

  /** A stored peer that is requested: it gets the service and, if a compared field differs, the whole requested spec. */
  function Updated(o: BGPPeer, want: PeerSpec, svc: Resource): BGPPeer {
    var p := PeerAddService(o, svc).1;
    if SpecEqual(p.spec, want) then p else p.(spec := want)
  }

  /** A stored peer that is not requested, or a peer on removal: it loses the service, and goes with the last one. */
  function Released(o: BGPPeer, svc: Resource): Option<BGPPeer> {
    var (found, size, p) := PeerRemoveService(o, svc);
    if !found then Some(o) else if size > 0 then Some(p) else None
  }

  function Bare(want: PeerSpec): BGPPeer { BGPPeer(true, want) }

  function Created(want: PeerSpec, svc: Resource): BGPPeer { PeerAddService(Bare(want), svc).1 }

  lemma AddMeans(p: BGPPeer, svc: Resource)
    requires IsFull(svc)
    ensures var (changed, q) := PeerAddService(p, svc);
      && (changed <==> !Carrying(p, svc)) && (!changed ==> q == p)
      && q.managed == p.managed && SpecEqual(q.spec, p.spec)
      && (forall r :: Carrying(q, r) <==> Carrying(p, r) || r == svc)
  {
    hide AddService, Carried, Plains, MapSeq, CrdServiceSelector;
    CrdSelectorsName();
    AddEffect(CrdLabels, CrdServiceSelector, p.spec.selectors, svc);
    InMultiset(ServicesIn(p.spec));
    InMultiset(ServicesIn(PeerAddService(p, svc).1.spec));
  }

  lemma RemoveMeans(p: BGPPeer, svc: Resource)
    requires IsFull(svc)
    ensures var (found, size, q) := PeerRemoveService(p, svc);
      && (found <==> Carrying(p, svc))
      && q.managed == p.managed && SpecEqual(q.spec, p.spec)
      && (forall r :: Carrying(q, r) <==> Carrying(p, r) && r != svc)
      && size >= 0 && (size == 0 <==> OnlyCarries(p, svc))
  {
    hide RemoveService, Without, Carried, Plains, MapSeq, CrdServiceSelector;
    CrdSelectorsName();
    RemoveEffect(CrdLabels, CrdServiceSelector, p.spec.selectors, svc);
    var q := PeerRemoveService(p, svc).2;
    var a, b := ServicesIn(p.spec), ServicesIn(q.spec);
    WithoutCounts(a, svc);
    InMultiset(a);
    InMultiset(b);
    if |b| > 0 {
      assert b[0] in b && Carrying(p, b[0]);
    }
  }

  /** The same peer up to services: only the selectors of services differ. */
  ghost predicate SamePlain(p: BGPPeer, o: BGPPeer) {
    p == o.(spec := o.spec.(selectors := p.spec.selectors)) && Plains(CrdLabels, p.spec.selectors) == Plains(CrdLabels, o.spec.selectors)
  }

  lemma AddKeepsPlain(p: BGPPeer, svc: Resource)
    requires IsFull(svc)
    ensures SamePlain(PeerAddService(p, svc).1, p)
  {
    hide AddService, Carried, Plains;
    CrdSelectorsName();
    AddEffect(CrdLabels, CrdServiceSelector, p.spec.selectors, svc);
  }

  lemma RemoveKeepsPlain(p: BGPPeer, svc: Resource)
    requires IsFull(svc)
    ensures SamePlain(PeerRemoveService(p, svc).2, p)
  {
    hide RemoveService, Carried, Plains, Without;
    CrdSelectorsName();
    RemoveEffect(CrdLabels, CrdServiceSelector, p.spec.selectors, svc);
  }

  lemma ReleasedMeans(o: BGPPeer, svc: Resource)
    requires IsFull(svc)
    ensures Released(o, svc).Some? ==> SamePlain(Released(o, svc).value, o)
    ensures var r := Released(o, svc);
      && (r == None <==> Carrying(o, svc) && OnlyCarries(o, svc))
      && (r.Some? ==> r.value.managed == o.managed && forall t :: Carrying(r.value, t) <==> Carrying(o, t) && t != svc)
      && (!Carrying(o, svc) ==> r == Some(o))
  {
    hide PeerRemoveService, Carrying, OnlyCarries, Plains;
    RemoveMeans(o, svc);
    RemoveKeepsPlain(o, svc);
  }

  lemma UpdatedMeans(o: BGPPeer, want: PeerSpec, svc: Resource)
    requires IsFull(svc)
    ensures var p := Updated(o, want, svc);
      && SpecEqual(p.spec, want) && p.managed == o.managed
      && (!SpecEqual(o.spec, want) ==> p.spec == want)
      && (SpecEqual(o.spec, want) ==> SamePlain(p, o) && forall t :: Carrying(p, t) <==> Carrying(o, t) || t == svc)
      && (p == o <==> SpecEqual(o.spec, want) && Carrying(o, svc))
  {
    hide PeerAddService, Carrying, Plains;
    AddMeans(o, svc);
    AddKeepsPlain(o, svc);
  }

  /** Field by field: an update overrules a stored peer exactly if it differs in one of seven fields. */
  lemma UpdatedFields(o: BGPPeer, parse: string -> int, p: Peer, svc: Resource)
    requires IsFull(svc)
    ensures var q := Updated(o, ConvertPeer(parse, p), svc);
      && ComparedAs(q.spec, parse, p)
      && (ComparedAs(o.spec, parse, p) ==> SamePlain(q, o))
      && (!ComparedAs(o.spec, parse, p) ==> CopiedAs(q.spec, parse, p))
  {
    hide PeerAddService, Carrying, Plains;
    UpdatedMeans(o, ConvertPeer(parse, p), svc);
  }

  /** A new peer has all the fields of the request, and its selectors ahead of the service's. */
  lemma CreatedFields(parse: string -> int, p: Peer, svc: Resource)
    requires IsFull(svc)
    ensures CopiedAs(Bare(ConvertPeer(parse, p)).spec, parse, p)
    ensures var q := Created(ConvertPeer(parse, p), svc);
      q.managed && CopiedAs(q.spec, parse, p) && SamePlain(q, Bare(ConvertPeer(parse, p)))
  {
    hide PeerAddService, Plains;
    AddKeepsPlain(Bare(ConvertPeer(parse, p)), svc);
  }

  /** A peer that is not managed is left alone. */
  lemma UnmanagedStay(s: PeerStore, w: Request, svc: Resource, n: string)
    requires n in s && !s[n].managed && (HasManaged(s) || n !in w.first)
    ensures Lookup(UpdatePeers(s, w, svc), n) == Some(s[n]) && Lookup(ReleasePeers(s, svc), n) == Some(s[n])
  {
    hide Updated, Released, Created;
  }

  // ---- the store ----

  ghost predicate Managed(s: PeerStore, n: string) { n in s && s[n].managed }

  predicate HasManaged(s: PeerStore) { exists n :: n in s && s[n].managed }

  /**
    The requested peers by name. When a name is requested twice, the update of a stored peer
    takes the first request and the creation of a peer the last.
   */
  datatype Request = Request(first: map<string, PeerSpec>, last: map<string, PeerSpec>)

  ghost predicate ValidRequest(w: Request) { w.first.Keys == w.last.Keys }

  ghost function Lookup(s: PeerStore, n: string): Option<BGPPeer> { if n in s then Some(s[n]) else None }

  /** What becomes of name n in a store that has managed peers. */
  ghost function Outcome(s: PeerStore, w: Request, svc: Resource, n: string): Option<BGPPeer> {
    if n in s then
      if !s[n].managed then Some(s[n])
      else if n in w.first then Some(Updated(s[n], w.first[n], svc))
      else Released(s[n], svc)
    else if n in w.last then Some(Created(w.last[n], svc))
    else None
  }

  ghost function UpdatePeers(s: PeerStore, w: Request, svc: Resource): PeerStore {
    if HasManaged(s) then
      map n | n in s.Keys + w.last.Keys && Outcome(s, w, svc, n).Some? :: Outcome(s, w, svc, n).value
    else
      s + map n | n in w.first :: Bare(w.first[n])
  }

  ghost function ReleasePeers(s: PeerStore, svc: Resource): PeerStore {
    map n | n in s && (s[n].managed ==> Released(s[n], svc).Some?) ::
      if s[n].managed then Released(s[n], svc).value else s[n]
  }

  /** A requested name is taken by a peer that is not managed: creating it fails. */
  ghost predicate Collides(s: PeerStore, w: Request) { exists n :: n in w.first && n in s && !s[n].managed }

  // ---- convergence ----

  ghost predicate Converged(s: PeerStore, w: Request, svc: Resource) {
    && (forall n :: n in w.first ==> Managed(s, n) && SpecEqual(s[n].spec, w.first[n]) && Carrying(s[n], svc))
    && (forall n :: Managed(s, n) && n !in w.first ==> !Carrying(s[n], svc))
  }

  /** After one call every requested peer is there with the requested fields, and no other managed peer carries the service. */
  ghost predicate Prepared(s: PeerStore, w: Request, svc: Resource) {
    && (forall n :: n in w.first ==> Managed(s, n) && SpecEqual(s[n].spec, w.first[n]))
    && (forall n :: Managed(s, n) && n !in w.first ==> !Carrying(s[n], svc))
  }

  lemma OutcomeMeans(s: PeerStore, w: Request, svc: Resource, n: string)
    requires IsFull(svc) && w.first == w.last && !Collides(s, w)
    ensures var r := Outcome(s, w, svc, n);
      && (n in w.first ==> r.Some? && r.value.managed && SpecEqual(r.value.spec, w.first[n]))
      && (n in w.first && (n in s ==> SpecEqual(s[n].spec, w.first[n])) ==> Carrying(r.value, svc))
      && (n !in w.first && r.Some? && r.value.managed ==> !Carrying(r.value, svc))
  {
    hide Updated, Released, Carrying, PeerAddService;
    if n in s {
      ReleasedMeans(s[n], svc);
      if n in w.first {
        UpdatedMeans(s[n], w.first[n], svc);
      }
    } else if n in w.last {
      AddMeans(Bare(w.last[n]), svc);
    }
  }

  lemma UpdateLookup(s: PeerStore, w: Request, svc: Resource, n: string)
    requires HasManaged(s)
    ensures Lookup(UpdatePeers(s, w, svc), n) == Outcome(s, w, svc, n)
  {
    hide Updated, Released, Created;
  }

  lemma FirstCall(s: PeerStore, w: Request, svc: Resource)
    requires IsFull(svc) && w.first == w.last && !Collides(s, w)
    ensures Prepared(UpdatePeers(s, w, svc), w, svc)
    ensures !Collides(UpdatePeers(s, w, svc), w)
  {
    hide Outcome, SpecEqual, Carrying;
    var t := UpdatePeers(s, w, svc);
    if HasManaged(s) {
      forall n ensures Lookup(t, n) == Outcome(s, w, svc, n) { UpdateLookup(s, w, svc, n); }
      forall n
        ensures n in w.first ==> Managed(t, n) && SpecEqual(t[n].spec, w.first[n])
        ensures Managed(t, n) && n !in w.first ==> !Carrying(t[n], svc)
      {
        OutcomeMeans(s, w, svc, n);
        assert Lookup(t, n) == Outcome(s, w, svc, n);
      }
    } else {
      forall n | n in w.first ensures SpecEqual(t[n].spec, w.first[n]) { SpecEqualRefl(w.first[n]); }
      assert forall n :: Managed(t, n) ==> n in w.first;
    }
    assert forall n :: n in w.first ==> Managed(t, n);
  }

  lemma SpecEqualRefl(p: PeerSpec)
    ensures SpecEqual(p, p)
  {
  }

  lemma SecondCall(s: PeerStore, w: Request, svc: Resource)
    requires IsFull(svc) && w.first == w.last && !Collides(s, w) && Prepared(s, w, svc)
    ensures Converged(UpdatePeers(s, w, svc), w, svc)
  {
    hide Outcome, SpecEqual, Carrying;
    FirstCall(s, w, svc);
    var t := UpdatePeers(s, w, svc);
    forall n | n in w.first ensures Carrying(t[n], svc) {
      assert Managed(s, n);
      UpdateLookup(s, w, svc, n);
      OutcomeMeans(s, w, svc, n);
    }
  }

  lemma FixedPoint(s: PeerStore, w: Request, svc: Resource)
    requires IsFull(svc) && w.first == w.last && Converged(s, w, svc)
    ensures UpdatePeers(s, w, svc) == s
  {
    hide Updated, Released, SpecEqual, Carrying;
    var t := UpdatePeers(s, w, svc);
    if HasManaged(s) {
      forall n ensures Lookup(t, n) == Lookup(s, n) {
        UpdateLookup(s, w, svc, n);
        if n in s && s[n].managed {
          if n in w.first {
            UpdatedMeans(s[n], w.first[n], svc);
          } else {
            assert Managed(s, n);
            ReleasedMeans(s[n], svc);
          }
        } else {
          assert n in w.first ==> Managed(s, n);
        }
      }
      SameLookups(s, t);
    } else {
      assert forall n :: n in w.first ==> Managed(s, n);
    }
  }

  lemma SameLookups(s: PeerStore, t: PeerStore)
    requires forall n :: Lookup(t, n) == Lookup(s, n)
    ensures s == t
  {
    forall n ensures n in s <==> n in t
             ensures n in s ==> s[n] == t[n]
    {
      assert Lookup(t, n) == Lookup(s, n);
    }
  }

  /**
    From any store, two identical updates lead to a store where every requested peer exists,
    agrees on the compared fields and carries the service, no other managed peer carries it,
    and further updates change nothing.
   */
  lemma Convergence(s: PeerStore, w: Request, svc: Resource)
    requires IsFull(svc) && w.first == w.last && !Collides(s, w)
    ensures var s2 := UpdatePeers(UpdatePeers(s, w, svc), w, svc);
      Converged(s2, w, svc) && UpdatePeers(s2, w, svc) == s2
  {
    hide UpdatePeers, Converged, Prepared, Collides;
    FirstCall(s, w, svc);
    SecondCall(UpdatePeers(s, w, svc), w, svc);
    FixedPoint(UpdatePeers(UpdatePeers(s, w, svc), w, svc), w, svc);
  }

  /**
    Exactly when one call is enough for a requested peer to carry the service: the request
    carries it already, or the store had managed peers and the peer was new or unchanged.
   */
  lemma OneCallExactly(s: PeerStore, w: Request, svc: Resource, n: string)
    requires IsFull(svc) && w.first == w.last && !Collides(s, w) && n in w.first
    ensures var t := UpdatePeers(s, w, svc);
      && n in t
      && var kept := n in s ==> SpecEqual(s[n].spec, w.first[n]);
         (Carrying(t[n], svc) <==> Carrying(Bare(w.first[n]), svc) || (HasManaged(s) && kept))
  {
    hide Carrying, Updated, PeerAddService;
    if HasManaged(s) {
      UpdateLookup(s, w, svc, n);
      OutcomeMeans(s, w, svc, n);
      if n in s {
        UpdatedMeans(s[n], w.first[n], svc);
        SameSpecCarries(Updated(s[n], w.first[n], svc), Bare(w.first[n]), svc);
      } else {
        AddMeans(Bare(w.first[n]), svc);
      }
    }
  }

  lemma SameSpecCarries(p: BGPPeer, q: BGPPeer, svc: Resource)
    ensures p.spec == q.spec ==> (Carrying(p, svc) <==> Carrying(q, svc))
  {
  }

  // ---- frame and reference counting ----

  ghost function Carriers(s: PeerStore, t: Resource): set<string> {
    set n | n in s && s[n].managed && Carrying(s[n], t)
  }

  /** The request changes no compared field of a stored peer, and asks for no service of its own. */
  ghost predicate Stable(s: PeerStore, w: Request) {
    && (forall n :: n in w.first && Managed(s, n) ==> SpecEqual(s[n].spec, w.first[n]))
    && (forall n, t :: n in w.first ==> !Carrying(Bare(w.first[n]), t))
    && (forall n, t :: n in w.last ==> !Carrying(Bare(w.last[n]), t))
  }

  lemma OutcomeFrame(s: PeerStore, w: Request, svc: Resource, n: string, t: Resource)
    requires IsFull(svc) && ValidRequest(w) && Stable(s, w) && t != svc
    ensures var r := Outcome(s, w, svc, n);
      (r.Some? && r.value.managed && Carrying(r.value, t)) <==> (Managed(s, n) && Carrying(s[n], t))
  {
    hide Updated, Released, Carrying, PeerAddService, SpecEqual;
    if n in s {
      ReleasedMeans(s[n], svc);
      if n in w.first && s[n].managed {
        assert Managed(s, n);
        UpdatedMeans(s[n], w.first[n], svc);
      }
    } else if n in w.last {
      AddMeans(Bare(w.last[n]), svc);
    }
  }

  /** An update for one service leaves the peers of every other service alone, and deletes only peers of this service alone. */
  lemma UpdateFrame(s: PeerStore, w: Request, svc: Resource, t: Resource)
    requires IsFull(svc) && ValidRequest(w) && Stable(s, w) && t != svc
    ensures Carriers(UpdatePeers(s, w, svc), t) == Carriers(s, t)
  {
    hide Outcome, Carrying, SpecEqual;
    var u := UpdatePeers(s, w, svc);
    forall n ensures n in Carriers(u, t) <==> n in Carriers(s, t) {
      if HasManaged(s) {
        UpdateLookup(s, w, svc, n);
        OutcomeFrame(s, w, svc, n, t);
      } else {
        assert n in w.first ==> !Carrying(Bare(w.first[n]), t);
      }
    }
  }

  lemma DeletedOnlyByLast(s: PeerStore, w: Request, svc: Resource, n: string)
    requires IsFull(svc) && n in s
    ensures n !in UpdatePeers(s, w, svc) <==>
      s[n].managed && n !in w.first && Carrying(s[n], svc) && OnlyCarries(s[n], svc)
    ensures n !in ReleasePeers(s, svc) <==>
      s[n].managed && Carrying(s[n], svc) && OnlyCarries(s[n], svc)
  {
    hide Updated, Released, Carrying;
    ReleasedMeans(s[n], svc);
    if HasManaged(s) {
      UpdateLookup(s, w, svc, n);
    }
  }

  lemma RemoveFrame(s: PeerStore, svc: Resource, t: Resource)
    requires IsFull(svc)
    ensures Carriers(ReleasePeers(s, svc), t) == if t == svc then {} else Carriers(s, t)
  {
    hide Released, Carrying;
    var u := ReleasePeers(s, svc);
    forall n | n in s ensures n in Carriers(u, t) <==> n in Carriers(s, t) && t != svc { ReleasedMeans(s[n], svc); }
  }

  datatype Call = Update(request: Request, svc: Resource) | Remove(svc: Resource)

  ghost function Apply(s: PeerStore, c: Call): PeerStore {
    match c
    case Update(w, svc) => UpdatePeers(s, w, svc)
    case Remove(svc) => ReleasePeers(s, svc)
  }

  ghost function Run(s: PeerStore, calls: seq<Call>): PeerStore
    decreases |calls|
  {
    if calls == [] then s else Run(Apply(s, calls[0]), calls[1..])
  }

  /** Along the run no request changes a compared field. */
  ghost predicate StableRun(s: PeerStore, calls: seq<Call>)
    decreases |calls|
  {
    calls != [] ==>
      && IsFull(calls[0].svc)
      && (calls[0].Update? ==> ValidRequest(calls[0].request) && Stable(s, calls[0].request))
      && StableRun(Apply(s, calls[0]), calls[1..])
  }

  /** Runs for other services never change which peers carry t. */
  lemma {:induction false} RunFrame(s: PeerStore, calls: seq<Call>, t: Resource)
    requires StableRun(s, calls) && forall i :: 0 <= i < |calls| ==> calls[i].svc != t
    ensures Carriers(Run(s, calls), t) == Carriers(s, t)
    decreases |calls|
  {
    hide Carriers, Stable, UpdatePeers, ReleasePeers;
    if calls != [] {
      match calls[0] {
        case Update(w, svc) => UpdateFrame(s, w, svc, t);
        case Remove(svc) => RemoveFrame(s, svc, t);
      }
      RunFrame(Apply(s, calls[0]), calls[1..], t);
    }
  }
}
