/** Peers of the MetalLB configuration, and the relation (peer identity, service) their list stands for. */
module Peers {
  import opened Order
  import opened Selectors
  import opened SelectorLists
  import opened Services
  import opened Relation

  datatype Peer = Peer(
    myASN: nat, asn: nat, addr: string, port: nat, srcAddr: string, holdTime: string, routerID: string,
    selectors: seq<NodeSelector>, password: string, ebgpMultiHop: bool, name: string)

  function ServiceSelector(r: Resource): NodeSelector { NodeSelector(Some(ServiceLabels(r)), None) }

  lemma SelectorsName()
    ensures Makes(LabelsOf, ServiceSelector)
  {
    forall r ensures ServiceIn(LabelsOf(ServiceSelector(r))) == r { ServiceLabelsRead(r); }
  }

  // ---- equality ----

  /** The fields both equalities compare; the source address, multi-hop flag and name are not among them. */
  predicate SameFields(p: Peer, o: Peer) {
    && p.myASN == o.myASN && p.asn == o.asn && p.addr == o.addr && p.port == o.port
    && p.holdTime == o.holdTime && p.password == o.password && p.routerID == o.routerID
  }

  predicate PeerEqual(p: Peer, o: Peer) { SameFields(p, o) && SelectorsEqual(p.selectors, o.selectors) }

  /** The selectors that the comparison ignoring services leaves out. */
  predicate IsServiceSelector(s: NodeSelector) {
    |LabelsOf(s)| <= 2 && |ExprsOf(s)| == 0 && !IsBlank(ServiceIn(LabelsOf(s)))
  }

  /** At most two labels, no expression, and at least one of the two service labels. */
  lemma IsServiceSelectorMeans(s: NodeSelector)
    ensures IsServiceSelector(s) <==>
      && s.exprs in {None, Some([])} && (s.labels.Some? && |s.labels.value| <= 2)
      && (|| Given(s.labels.value, "nomatch.cherryservers.com/service-name")
          || Given(s.labels.value, "nomatch.cherryservers.com/service-namespace"))
  {
    ServiceLabelsMean(LabelsOf(s), Resource("", ""));
  }

  function NonService(s: seq<NodeSelector>): seq<NodeSelector> {
    if s == [] then [] else (if IsServiceSelector(s[0]) then [] else [s[0]]) + NonService(s[1..])
  }

  predicate PeerEqualIgnoreService(p: Peer, o: Peer) {
    SameFields(p, o) && SelectorsEqual(NonService(p.selectors), NonService(o.selectors))
  }

  /** `Peer.Equal` is an equivalence that does not see the order of selectors. */
  lemma PeerEqualMeans(p: Peer, o: Peer)
    requires AllComparable(p.selectors) && Uncrossed(p.selectors) && AllComparable(o.selectors) && Uncrossed(o.selectors)
    ensures PeerEqual(p, o) <==> SameFields(p, o) && ShortForms(p.selectors) == ShortForms(o.selectors)
  {
    SelectorsEqualIsMultisetEqual(p.selectors, o.selectors);
  }

  // ---- what a peer stands for ----

  /** A plain selector of labels with values and at most one expression, or the selector of a service. */
  ghost predicate GoodSelector(s: NodeSelector) {
    var r := ServiceIn(LabelsOf(s));
    if IsBlank(r) then Comparable(s) else IsFull(r) && s == ServiceSelector(r)
  }

  ghost predicate Good(p: Peer) { GoodSelectors(p.selectors) && Uncrossed(PlainSelectors(p)) }

  ghost predicate GoodSelectors(s: seq<NodeSelector>) { forall i :: 0 <= i < |s| ==> GoodSelector(s[i]) }

  function PlainSelectors(p: Peer): seq<NodeSelector> { Plains(LabelsOf, p.selectors) }

  function ServicesOf(p: Peer): seq<Resource> { Carried(LabelsOf, p.selectors) }

  /** What makes two entries the same peer: the compared fields and the plain selectors, in any order. */
  datatype Identity = Identity(
    myASN: nat, asn: nat, addr: string, port: nat, holdTime: string, password: string, routerID: string,
    forms: multiset<ShortForm>)

  ghost function IdOf(p: Peer): Identity {
    Identity(p.myASN, p.asn, p.addr, p.port, p.holdTime, p.password, p.routerID,
             ShortForms(PlainSelectors(p)))
  }

  lemma {:induction false} GoodFilters(s: seq<NodeSelector>)
    requires GoodSelectors(s)
    ensures NonService(s) == Plains(LabelsOf, s)
    ensures AllComparable(Plains(LabelsOf, s))
  {
    hide Comparable;
    if s != [] {
      GoodFilters(s[1..]);
      var r := ServiceIn(LabelsOf(s[0]));
      assert GoodSelector(s[0]);
      if !IsBlank(r) {
        ServiceLabelsRead(r);
      }
    }
  }

  lemma EqualIgnoreServiceIsIdentity(p: Peer, o: Peer)
    requires Good(p) && Good(o)
    ensures PeerEqualIgnoreService(p, o) <==> IdOf(p) == IdOf(o)
  {
    GoodFilters(p.selectors);
    GoodFilters(o.selectors);
    SelectorsEqualIsMultisetEqual(PlainSelectors(p), PlainSelectors(o));
  }

  function WithService(p: Peer, svc: Resource): Peer {
    p.(selectors := AddService(LabelsOf, ServiceSelector, p.selectors, svc).1)
  }

  function WithoutService(p: Peer, svc: Resource): (bool, nat, Peer) {
    var (found, size, s) := RemoveService(LabelsOf, ServiceSelector, p.selectors, svc);
    (found, size, p.(selectors := s))
  }

  /** Every field is the same, and so are the plain selectors in their order. */
  ghost predicate SameButServices(p: Peer, q: Peer) {
    p == q.(selectors := p.selectors) && PlainSelectors(p) == PlainSelectors(q)
  }

  lemma RebuiltGood(plains: seq<NodeSelector>, rs: seq<Resource>)
    requires GoodSelectors(plains) && AllFull(rs)
    ensures GoodSelectors(plains + MapSeq(ServiceSelector, rs))
  {
    var s := plains + MapSeq(ServiceSelector, rs);
    forall i | 0 <= i < |s| ensures GoodSelector(s[i]) {
      if i >= |plains| {
        ServiceLabelsRead(rs[i - |plains|]);
      }
    }
  }

  lemma {:induction false} PlainsGood(s: seq<NodeSelector>)
    requires GoodSelectors(s)
    ensures GoodSelectors(Plains(LabelsOf, s))
  {
    if s != [] {
      assert GoodSelector(s[0]);
      PlainsGood(s[1..]);
    }
  }

  lemma WithServiceMeans(p: Peer, svc: Resource)
    requires Good(p) && IsFull(svc)
    ensures var q := WithService(p, svc);
      Good(q) && IdOf(q) == IdOf(p) && SameButServices(q, p) && multiset(ServicesOf(q)) == With(multiset(ServicesOf(p)), svc)
  {
    hide GoodSelectors, Plains, Carried, With, SortBy, ServiceSelector;
    SelectorsName();
    AddEffect(LabelsOf, ServiceSelector, p.selectors, svc);
    if svc !in ServicesOf(p) {
      PlainsGood(p.selectors);
      SortStaysFull([svc] + ServicesOf(p));
      RebuiltGood(PlainSelectors(p), SortBy(ResourceLess, [svc] + ServicesOf(p)));
    }
  }

  lemma WithoutServiceMeans(p: Peer, svc: Resource)
    requires Good(p) && IsFull(svc)
    ensures var (found, size, q) := WithoutService(p, svc);
      && Good(q) && IdOf(q) == IdOf(p) && SameButServices(q, p)
      && (found <==> svc in ServicesOf(p)) && size == |ServicesOf(q)|
      && multiset(ServicesOf(q)) == multiset(Without(ServicesOf(p), svc))
  {
    hide GoodSelectors, Plains, Carried, Without, SortBy, ServiceSelector;
    SelectorsName();
    RemoveEffect(LabelsOf, ServiceSelector, p.selectors, svc);
    PlainsGood(p.selectors);
    SortStaysFull(Without(ServicesOf(p), svc));
    RebuiltGood(PlainSelectors(p), SortBy(ResourceLess, Without(ServicesOf(p), svc)));
  }

  // ---- the list ----

  /** An entry carries at least one service, and none twice. */
  ghost predicate Entry(p: Peer) { Good(p) && ServicesOf(p) != [] && Distinct(ServicesOf(p)) }

  ghost predicate Carries(p: Peer, svc: Resource) { svc in ServicesOf(p) }

  /** One entry per identity. */
  ghost predicate Valid(peers: seq<Peer>) { ValidList(Entry, IdOf, peers) }

  /** The list relates identity id to service svc. */
  ghost predicate Has(peers: seq<Peer>, id: Identity, svc: Resource) { Relates(IdOf, Carries, peers, id, svc) }

  ghost predicate Incoming(p: Peer) { Good(p) && ServicesOf(p) == [] }

  function AddIfSame(p: Peer, add: Peer, svc: Resource): Peer {
    if PeerEqualIgnoreService(p, add) then WithService(p, svc) else p
  }

  function AddToMatching(peers: seq<Peer>, add: Peer, svc: Resource): seq<Peer> {
    seq(|peers|, i requires 0 <= i < |peers| => AddIfSame(peers[i], add, svc))
  }

  predicate Matches(peers: seq<Peer>, add: Peer) {
    exists i :: 0 <= i < |peers| && PeerEqualIgnoreService(peers[i], add)
  }

  function AddPeerByService(peers: seq<Peer>, add: Peer, svc: Resource): seq<Peer> {
    AddToMatching(peers, add, svc) + (if Matches(peers, add) then [] else [WithService(add, svc)])
  }

  /** What the removal loop keeps of an entry. */
  function Keep(p: Peer, svc: Resource): seq<Peer> {
    var (found, size, q) := WithoutService(p, svc);
    if !found || size >= 1 then [q] else []
  }

  function KeepAll(peers: seq<Peer>, svc: Resource): seq<seq<Peer>> {
    seq(|peers|, i requires 0 <= i < |peers| => Keep(peers[i], svc))
  }

  function RemovePeersByService(peers: seq<Peer>, svc: Resource): seq<Peer> { Flatten(KeepAll(peers, svc)) }

  /** Whether the removal of svc from p sets the loop's flag. */
  predicate Flags(p: Peer, svc: Resource) { var (found, size, _) := WithoutService(p, svc); found || size <= 0 }

  predicate RemoveChanges(peers: seq<Peer>, svc: Resource) {
    exists i :: 0 <= i < |peers| && Flags(peers[i], svc)
  }

  // ---- refinement ----

  lemma InMultiset<T>(s: seq<T>)
    ensures forall x :: x in s <==> x in multiset(s)
    ensures s == [] <==> multiset(s) == multiset{}
  {
    assert |multiset(s)| == |s|;
  }

  lemma AddCounts(a: seq<Resource>, b: seq<Resource>, svc: Resource)
    requires Distinct(a) && multiset(b) == With(multiset(a), svc)
    ensures b != [] && Distinct(b) && forall r :: r in b <==> r in a || r == svc
  {
    InMultiset(a);
    InMultiset(b);
  }

  lemma RemoveCounts(a: seq<Resource>, b: seq<Resource>, svc: Resource)
    requires Distinct(a) && multiset(b) == multiset(Without(a, svc))
    ensures Distinct(b) && forall r :: r in b <==> r in a && r != svc
  {
    WithoutCounts(a, svc);
    InMultiset(a);
    InMultiset(b);
  }

  lemma AddedEntry(p: Peer, add: Peer, svc: Resource)
    requires Entry(p) && Incoming(add) && IsFull(svc)
    ensures Gained(Entry, IdOf, Carries, p, AddIfSame(p, add, svc), IdOf(add), svc)
  {
    hide Good, IdOf, ServicesOf, PeerEqualIgnoreService, WithService, With, Distinct;
    EqualIgnoreServiceIsIdentity(p, add);
    if IdOf(p) == IdOf(add) {
      WithServiceMeans(p, svc);
      AddCounts(ServicesOf(p), ServicesOf(WithService(p, svc)), svc);
    }
  }

  lemma NewEntry(add: Peer, svc: Resource)
    requires Incoming(add) && IsFull(svc)
    ensures Fresh(Entry, IdOf, Carries, WithService(add, svc), IdOf(add), svc)
  {
    hide Good, IdOf, ServicesOf, WithService, With;
    WithServiceMeans(add, svc);
    AddCounts(ServicesOf(add), ServicesOf(WithService(add, svc)), svc);
  }

  lemma MatchesIsIdentity(peers: seq<Peer>, add: Peer)
    requires Incoming(add) && Valid(peers)
    ensures Matches(peers, add) <==> exists i :: 0 <= i < |peers| && IdOf(peers[i]) == IdOf(add)
  {
    forall i | 0 <= i < |peers| ensures PeerEqualIgnoreService(peers[i], add) <==> IdOf(peers[i]) == IdOf(add) {
      EqualIgnoreServiceIsIdentity(peers[i], add);
    }
  }

  /** Entries keep their places and change in services only; a new one comes last. */
  lemma AddKeepsEntries(peers: seq<Peer>, add: Peer, svc: Resource)
    requires Valid(peers) && Incoming(add) && IsFull(svc)
    ensures var r := AddPeerByService(peers, add, svc);
      && |peers| <= |r| <= |peers| + 1
      && (forall i :: 0 <= i < |peers| ==> SameButServices(r[i], peers[i]))
      && (forall i :: 0 <= i < |peers| && IdOf(peers[i]) != IdOf(add) ==> r[i] == peers[i])
      && (|r| > |peers| ==> SameButServices(r[|peers|], add))
  {
    hide IdOf, PeerEqualIgnoreService, WithService, Good, Matches, ServicesOf, PlainSelectors;
    var r := AddPeerByService(peers, add, svc);
    WithServiceMeans(add, svc);
    forall i | 0 <= i < |peers|
      ensures SameButServices(r[i], peers[i]) && (IdOf(peers[i]) != IdOf(add) ==> r[i] == peers[i])
    {
      assert Entry(peers[i]);
      EqualIgnoreServiceIsIdentity(peers[i], add);
      WithServiceMeans(peers[i], svc);
    }
  }

  /** Adding a peer for a service adds exactly that pair to the relation. */
  lemma AddRefines(peers: seq<Peer>, add: Peer, svc: Resource)
    requires Valid(peers) && Incoming(add) && IsFull(svc)
    ensures Valid(AddPeerByService(peers, add, svc))
    ensures forall id, r ::
      Has(AddPeerByService(peers, add, svc), id, r) <==> Has(peers, id, r) || (id == IdOf(add) && r == svc)
  {
    hide Entry, IdOf, Carries, Incoming, Gained, Fresh, AddIfSame, Matches;
    var q := AddPeerByService(peers, add, svc);
    forall i | 0 <= i < |peers| ensures Gained(Entry, IdOf, Carries, peers[i], q[i], IdOf(add), svc) {
      AddedEntry(peers[i], add, svc);
    }
    NewEntry(add, svc);
    MatchesIsIdentity(peers, add);
    ListGains(Entry, IdOf, Carries, peers, q, IdOf(add), svc);
  }

  lemma KeptEntry(p: Peer, svc: Resource)
    requires Entry(p) && IsFull(svc)
    ensures Lost(Entry, IdOf, Carries, p, Keep(p, svc), None, svc)
    ensures Flags(p, svc) <==> Carries(p, svc)
  {
    hide Good, IdOf, ServicesOf, WithoutService, Without, Distinct;
    var (found, size, q) := WithoutService(p, svc);
    WithoutServiceMeans(p, svc);
    RemoveCounts(ServicesOf(p), ServicesOf(q), svc);
    if !Carries(p, svc) {
      assert ServicesOf(p)[0] in ServicesOf(q);
    }
  }

  /** What is kept of an entry is the entry, changed in services only. */
  lemma KeepIsEntry(p: Peer, svc: Resource)
    requires Good(p) && IsFull(svc)
    ensures var q := Keep(p, svc); |q| <= 1 && (q != [] ==> SameButServices(q[0], p))
  {
    hide Good, WithoutService, SameButServices;
    WithoutServiceMeans(p, svc);
  }

  /** Removing a service removes its pairs, and reports whether there were any. */
  lemma RemoveRefines(peers: seq<Peer>, svc: Resource)
    requires Valid(peers) && IsFull(svc)
    ensures Valid(RemovePeersByService(peers, svc))
    ensures forall id, r :: Has(RemovePeersByService(peers, svc), id, r) <==> Has(peers, id, r) && r != svc
    ensures RemoveChanges(peers, svc) <==> exists id :: Has(peers, id, svc)
  {
    hide Entry, IdOf, Carries, Lost, Keep, Flags;
    forall i | 0 <= i < |peers|
      ensures Lost(Entry, IdOf, Carries, peers[i], KeepAll(peers, svc)[i], None, svc)
      ensures Flags(peers[i], svc) <==> Carries(peers[i], svc)
    {
      KeptEntry(peers[i], svc);
    }
    ListLoses(Entry, IdOf, Carries, peers, KeepAll(peers, svc), None, svc);
    if RemoveChanges(peers, svc) {
      var i :| 0 <= i < |peers| && Flags(peers[i], svc);
      assert Has(peers, IdOf(peers[i]), svc);
    }
  }

  // ---- runs ----

  datatype Call = AddPeer(peer: Peer, svc: Resource) | RemovePeers(svc: Resource)

  ghost predicate Legal(c: Call) { IsFull(c.svc) && (c.AddPeer? ==> Incoming(c.peer)) }

  function Run(calls: seq<Call>): seq<Peer> {
    if calls == [] then []
    else
      var peers := Run(calls[..|calls| - 1]);
      match calls[|calls| - 1]
      case AddPeer(peer, svc) => AddPeerByService(peers, peer, svc)
      case RemovePeers(svc) => RemovePeersByService(peers, svc)
  }

  ghost function OpOf(c: Call): Op<Identity, Resource> {
    match c
    case AddPeer(peer, svc) => Add(IdOf(peer), svc)
    case RemovePeers(svc) => Remove(None, svc)
  }

  ghost function OpsOf(calls: seq<Call>): (ops: seq<Op<Identity, Resource>>) {
    if calls == [] then [] else OpsOf(calls[..|calls| - 1]) + [OpOf(calls[|calls| - 1])]
  }

  /**
    After any run from the empty list: one entry per identity, no entry without a service,
    and each entry carries exactly the services added for it and not removed since.
   */
  lemma {:induction false} RunRefines(calls: seq<Call>)
    requires forall i :: 0 <= i < |calls| ==> Legal(calls[i])
    ensures Valid(Run(calls))
    ensures forall id, r :: Has(Run(calls), id, r) <==> Live(OpsOf(calls), id, r)
  {
    if calls != [] {
      var front, last := calls[..|calls| - 1], calls[|calls| - 1];
      RunRefines(front);
      assert Legal(last);
      match last {
        case AddPeer(peer, svc) => AddRefines(Run(front), peer, svc);
        case RemovePeers(svc) => RemoveRefines(Run(front), svc);
      }
      forall id, r ensures Has(Run(calls), id, r) <==> Live(OpsOf(calls), id, r) {
        LiveSnoc(OpsOf(front), OpOf(last), id, r);
      }
    }
  }
}
