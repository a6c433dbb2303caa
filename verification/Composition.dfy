/** The builders' peers meet what the two configurers ask of the peers they are given. */
module Composition {
  import opened Order
  import opened Text
  import opened Selectors
  import opened SelectorLists
  import opened Services
  import opened Peers
  import opened CrdPeers
  import opened Crd
  import opened Builders

  lemma HostLabels(node: LbNode)
    ensures IsBlank(ServiceIn(map[HOSTNAME_KEY := node.name]))
  {
    assert HOSTNAME_KEY[0] != SERVICE_NAME_KEY[0] && HOSTNAME_KEY[0] != SERVICE_NAMESPACE_KEY[0];
  }

  lemma OneIncoming(p: Peer, x: NodeSelector)
    requires p.selectors == [x] && IsBlank(ServiceIn(LabelsOf(x))) && Comparable(x)
    ensures Incoming(p)
  {
    hide ServiceIn, Comparable, ShortFormOf, ExprsCmp;
    FiltersOfPlains(LabelsOf, [x]);
    assert PlainSelectors(p) == [x] && ServicesOf(p) == [];
    assert Uncrossed([x]);
  }

  /** A native peer of a named node is one that the configuration file can refine into its relation. */
  lemma NativeIsIncoming(node: LbNode, i: nat)
    requires i < |node.peers| && node.name != ""
    ensures Incoming(NativePeer(node, i))
  {
    hide ServiceIn, Incoming;
    HostLabels(node);
    OneIncoming(NativePeer(node, i), NodeSelector(Some(map[HOSTNAME_KEY := node.name]), None));
  }

  lemma NativeCarriesNothing(parse: string -> int, node: LbNode, i: nat, t: Resource)
    requires i < |node.peers|
    ensures !Carrying(Bare(ConvertPeer(parse, NativePeer(node, i))), t)
  {
    hide ServiceIn;
    HostLabels(node);
    var s := MapSeq(ConvertSelector, NativePeer(node, i).selectors);
    assert CrdLabels(s[0]) == map[HOSTNAME_KEY := node.name];
    assert s[1..] == [];
    assert Carried(CrdLabels, s) == [];
  }

  lemma {:induction false} FirstAmong(news: News, n: string) returns (i: nat)
    requires n in FirstOf(news)
    ensures i < |news| && news[i].0 == n && FirstOf(news)[n] == news[i].1
  {
    if news[0].0 == n {
      i := 0;
    } else {
      i := FirstAmong(news[1..], n);
      i := i + 1;
    }
  }

  ghost function NativeRequest(parse: string -> int, nodes: seq<LbNode>): Request {
    RequestOf(ConvertAll(parse, Native(nodes)))
  }

  /** The request built for nodes with distinct names is unambiguous, and asks for no service of its own. */
  lemma NativeRequestFits(parse: string -> int, nodes: seq<LbNode>)
    requires DistinctNodes(nodes)
    ensures var w := NativeRequest(parse, nodes);
      && w.first == w.last && ValidRequest(w)
      && (forall n, t :: n in w.first ==> !Carrying(Bare(w.first[n]), t))
  {
    hide ConvertAll, FirstOf, LastOf, Native, ConvertPeer, Carrying, NativePeer;
    var peers := Native(nodes);
    var news := ConvertAll(parse, peers);
    NativeNamesDistinct(nodes);
    ConvertAt(parse, peers);
    assert Crd.DistinctNames(news);
    RequestNames(news);
    forall n, t | n in FirstOf(news) ensures !Carrying(Bare(FirstOf(news)[n]), t) {
      var k := FirstAmong(news, n);
      var j, i := NativeOrigin(nodes, k);
      NativeCarriesNothing(parse, nodes[j], i, t);
    }
  }

  /** While no stored peer of a node changes its fields, an update with native peers leaves the peers of other services alone. */
  lemma NativeKeepsOthers(parse: string -> int, s: PeerStore, nodes: seq<LbNode>, svc: Resource, t: Resource)
    requires IsFull(svc) && DistinctNodes(nodes) && t != svc
    requires forall n :: n in NativeRequest(parse, nodes).first && Managed(s, n) ==> SpecEqual(s[n].spec, NativeRequest(parse, nodes).first[n])
    ensures Carriers(UpdatePeers(s, NativeRequest(parse, nodes), svc), t) == Carriers(s, t)
  {
    hide Native, ConvertAll, FirstOf, LastOf, UpdatePeers, SpecEqual, Carrying, Carriers;
    NativeRequestFits(parse, nodes);
    UpdateFrame(s, NativeRequest(parse, nodes), svc, t);
  }

  // ---- two updates ----

  /** What two identical updates leave under the name of a requested peer; s is the store before them. */
  ghost predicate Settled(s: PeerStore, w: Request, svc: Resource, parse: string -> int, p: Peer, now: PeerStore) {
    && Managed(now, p.name) && Carrying(now[p.name], svc) && ComparedAs(now[p.name].spec, parse, p)
    && (p.name !in s ==> CopiedAs(now[p.name].spec, parse, p)
                         && Plains(CrdLabels, now[p.name].spec.selectors) == Plains(CrdLabels, ConvertPeer(parse, p).selectors))
    && UpdatePeers(now, w, svc) == now
  }

  lemma NewThenKept(s: PeerStore, w: Request, svc: Resource, parse: string -> int, p: Peer)
    requires IsFull(svc) && w.first == w.last && !Collides(s, w) && p.name in w.first && w.first[p.name] == ConvertPeer(parse, p)
    requires p.name !in s
    ensures var s1 := UpdatePeers(s, w, svc);
      Managed(s1, p.name) && CopiedAs(s1[p.name].spec, parse, p) && SamePlain(s1[p.name], Bare(ConvertPeer(parse, p)))
  {
    hide ConvertPeer, Created, Updated, Released, Plains, CopiedAs;
    CreatedFields(parse, p, svc);
    CreatedIsManaged(ConvertPeer(parse, p), svc);
    if HasManaged(s) {
      UpdateLookup(s, w, svc, p.name);
    }
  }

  lemma CreatedIsManaged(want: PeerSpec, svc: Resource)
    ensures Created(want, svc).managed
  {
  }

  lemma KeptFields(s: PeerStore, w: Request, svc: Resource, parse: string -> int, p: Peer)
    requires IsFull(svc) && p.name in w.first && w.first[p.name] == ConvertPeer(parse, p)
    requires Managed(s, p.name) && ComparedAs(s[p.name].spec, parse, p)
    ensures var t := UpdatePeers(s, w, svc); p.name in t && SamePlain(t[p.name], s[p.name])
  {
    hide ConvertPeer, Created, Updated, Released, SamePlain, ComparedAs, CopiedAs;
    assert HasManaged(s);
    UpdateLookup(s, w, svc, p.name);
    UpdatedFields(s[p.name], parse, p, svc);
  }

  lemma TwiceSettles(s: PeerStore, w: Request, svc: Resource, parse: string -> int, p: Peer)
    requires IsFull(svc) && w.first == w.last && !Collides(s, w) && p.name in w.first && w.first[p.name] == ConvertPeer(parse, p)
    ensures Settled(s, w, svc, parse, p, UpdatePeers(UpdatePeers(s, w, svc), w, svc))
  {
    hide ConvertPeer, UpdatePeers, Carrying, Plains, Collides;
    var s1 := UpdatePeers(s, w, svc);
    var s2 := UpdatePeers(s1, w, svc);
    Convergence(s, w, svc);
    FirstCall(s, w, svc);
    StoredAs(s1, w, parse, p, svc);
    if p.name !in s {
      NewThenKept(s, w, svc, parse, p);
      KeptFields(s1, w, svc, parse, p);
    }
  }

  lemma RequestAt(parse: string -> int, peers: seq<Peer>, k: nat)
    requires k < |peers| && Crd.DistinctNames(ConvertAll(parse, peers))
    ensures var w := RequestOf(ConvertAll(parse, peers));
      w.first == w.last && peers[k].name in w.first && w.first[peers[k].name] == ConvertPeer(parse, peers[k])
  {
    hide ConvertAll, FirstOf, LastOf, ConvertPeer, Requested, Crd.DistinctNames;
    var news := ConvertAll(parse, peers);
    ConvertAt(parse, peers);
    RequestNames(news);
    FirstAt(news, k);
  }

  /** A stored peer has the fields of BGP peer i of a node, as far as specs are compared. */
  ghost predicate ForNode(spec: PeerSpec, parse: string -> int, node: LbNode, i: nat, password: string)
    requires i < |node.peers|
  {
    && spec.myASN == node.localASN % 0x1_0000_0000 && spec.asn == node.peerASN % 0x1_0000_0000
    && spec.address == node.peers[i].address && spec.port == node.peers[i].port % 0x1_0000
    && spec.holdTime == parse("30s") && spec.password == password && spec.routerID == ""
  }

  /**
    From any store, two updates with the native peers of the nodes make every BGP peer of every node carry the
    service, under its own name and with its own fields, and a third changes nothing.
   */
  lemma NativeConverges(parse: string -> int, s: PeerStore, nodes: seq<LbNode>, svc: Resource, j: nat, i: nat)
    requires IsFull(svc) && DistinctNodes(nodes) && j < |nodes| && i < |nodes[j].peers|
    requires !Collides(s, NativeRequest(parse, nodes))
    ensures var w, node := NativeRequest(parse, nodes), nodes[j];
      var s2 := UpdatePeers(UpdatePeers(s, w, svc), w, svc);
      var name := node.name + "-" + Itoa(i);
      && Managed(s2, name) && Carrying(s2[name], svc) && ForNode(s2[name].spec, parse, node, i, node.password)
      && (name !in s ==>
            && s2[name].spec.srcAddress == node.sourceIP && !s2[name].spec.ebgpMultiHop
            && Plains(CrdLabels, s2[name].spec.selectors) == [CrdSelector(map["kubernetes.io/hostname" := node.name], [])])
      && UpdatePeers(s2, w, svc) == s2
  {
    var w := NativeRequest(parse, nodes);
    var k := NativeAt(nodes, j, i);
    NativeNamed(parse, nodes);
    RequestAt(parse, Native(nodes), k);
    hide Native, UpdatePeers, Carrying, Plains, Itoa;
    TwiceSettles(s, w, svc, parse, NativePeer(nodes[j], i));
    NativePlain(parse, nodes[j], i);
  }

  lemma NativeNamed(parse: string -> int, nodes: seq<LbNode>)
    requires DistinctNodes(nodes)
    ensures Crd.DistinctNames(ConvertAll(parse, Native(nodes)))
  {
    hide ConvertAll, Native, ConvertPeer;
    NativeNamesDistinct(nodes);
    ConvertAt(parse, Native(nodes));
  }

  lemma NativePlain(parse: string -> int, node: LbNode, i: nat)
    requires i < |node.peers|
    ensures Plains(CrdLabels, ConvertPeer(parse, NativePeer(node, i)).selectors)
         == [CrdSelector(map["kubernetes.io/hostname" := node.name], [])]
  {
    hide ServiceIn;
    HostLabels(node);
    OnePlain(ConvertPeer(parse, NativePeer(node, i)).selectors[0]);
    assert ConvertPeer(parse, NativePeer(node, i)).selectors == [CrdSelector(map[HOSTNAME_KEY := node.name], [])];
  }

  lemma OnePlain(x: CrdSelector)
    requires IsBlank(ServiceIn(x.labels))
    ensures Plains(CrdLabels, [x]) == [x]
  {
    FiltersOfPlains(CrdLabels, [x]);
  }

  ghost function FrrRequest(parse: string -> int, labels: Labels, exprs: seq<Requirement>, nodes: seq<LbNode>): Request {
    RequestOf(ConvertAll(parse, Frr(labels, exprs, nodes)))
  }

  lemma FrrNamesDistinct(parse: string -> int, labels: Labels, exprs: seq<Requirement>, nodes: seq<LbNode>)
    ensures Crd.DistinctNames(ConvertAll(parse, Frr(labels, exprs, nodes)))
  {
    hide ConvertAll, Frr, ConvertPeer, StringCmp;
    var peers := Frr(labels, exprs, nodes);
    FrrSorted(labels, exprs, nodes);
    ConvertAt(parse, peers);
    StringTotal();
    forall i, j | 0 <= i < j < |peers| ensures peers[i].name != peers[j].name {
      assert StringLess(peers[i].name, peers[j].name);
    }
  }

  /**
    The same of FRR peers, for any nodes: each name lower(region)-i is that of the last node that writes under it.
    Configured labels that do not name a service are kept, and the region is added.
   */
  lemma FrrConverges(parse: string -> int, labels: Labels, exprs: seq<Requirement>, s: PeerStore, nodes: seq<LbNode>,
                     svc: Resource, n: nat, i: nat)
    requires IsFull(svc) && n < |nodes| && i < |nodes[n].peers|
    requires LastWriter(nodes, ToLower(nodes[n].region) + "-" + Itoa(i)) == n
    requires !Collides(s, FrrRequest(parse, labels, exprs, nodes))
    ensures var w, node := FrrRequest(parse, labels, exprs, nodes), nodes[n];
      var s2 := UpdatePeers(UpdatePeers(s, w, svc), w, svc);
      var name := ToLower(node.region) + "-" + Itoa(i);
      && Managed(s2, name) && Carrying(s2[name], svc) && ForNode(s2[name].spec, parse, node, i, "")
      && (name !in s ==> s2[name].spec.srcAddress == "" && s2[name].spec.ebgpMultiHop)
      && (name !in s && IsBlank(ServiceIn(labels)) ==>
            Plains(CrdLabels, s2[name].spec.selectors)
              == [CrdSelector(labels["topology.kubernetes.io/region" := node.region], exprs)])
      && UpdatePeers(s2, w, svc) == s2
  {
    var w := FrrRequest(parse, labels, exprs, nodes);
    FrrNameIs(nodes[n].region, i);
    hide LastWriter;
    var k := FrrHolds(labels, exprs, nodes, n, i);
    FrrNamesDistinct(parse, labels, exprs, nodes);
    RequestAt(parse, Frr(labels, exprs, nodes), k);
    hide Frr, UpdatePeers, Carrying, Plains, Itoa, ToLower, FrrName;
    TwiceSettles(s, w, svc, parse, FrrPeer(labels, exprs, nodes[n], i));
    if IsBlank(ServiceIn(labels)) {
      FrrPlain(parse, labels, exprs, nodes[n], i);
    }
  }

  lemma RegionLabels(labels: Labels, region: string)
    ensures ServiceIn(labels["topology.kubernetes.io/region" := region]) == ServiceIn(labels)
    ensures REGION_KEY == "topology.kubernetes.io/region"
  {
    assert REGION_KEY[0] != SERVICE_NAME_KEY[0] && REGION_KEY[0] != SERVICE_NAMESPACE_KEY[0];
  }

  lemma FrrPlain(parse: string -> int, labels: Labels, exprs: seq<Requirement>, node: LbNode, i: nat)
    requires i < |node.peers| && IsBlank(ServiceIn(labels))
    ensures Plains(CrdLabels, ConvertPeer(parse, FrrPeer(labels, exprs, node, i)).selectors)
         == [CrdSelector(labels["topology.kubernetes.io/region" := node.region], exprs)]
  {
    hide ServiceIn, FrrName;
    RegionLabels(labels, node.region);
    var x := CrdSelector(labels[REGION_KEY := node.region], exprs);
    OnePlain(x);
    assert ConvertPeer(parse, FrrPeer(labels, exprs, node, i)).selectors == [x];
  }

  /** An FRR peer is one that the configuration file can refine into its relation, with at most one configured expression. */
  lemma FrrIsIncoming(labels: Labels, exprs: seq<Requirement>, node: LbNode, i: nat)
    requires i < |node.peers| && node.region != "" && ValuesNonEmpty(labels) && IsBlank(ServiceIn(labels)) && |exprs| <= 1
    ensures Incoming(FrrPeer(labels, exprs, node, i))
  {
    hide ServiceIn, FrrName;
    RegionLabels(labels, node.region);
    hide Incoming;
    OneIncoming(FrrPeer(labels, exprs, node, i), NodeSelector(Some(labels[REGION_KEY := node.region]), Some(exprs)));
  }
}
