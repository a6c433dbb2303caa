/** How the BGP peers of the nodes become MetalLB peers, in native and in FRR mode. */
module Builders {
  import opened Order
  import opened Text
  import opened Selectors
  import opened Peers

  const HOSTNAME_KEY := "kubernetes.io/hostname"
  const REGION_KEY := "topology.kubernetes.io/region"
  const HOLD_TIME := "30s"

  datatype BgpPeer = BgpPeer(address: string, port: int)

  datatype LbNode = LbNode(
    name: string, sourceIP: string, localASN: int, peerASN: int, password: string, peers: seq<BgpPeer>, region: string)

  /** Go's conversions of an int to uint32 and uint16. */
  function Uint32(n: int): nat { n % 0x1_0000_0000 }

  function Uint16(n: int): nat { n % 0x1_0000 }

  function Indexed(name: string, i: nat): string { name + "-" + Itoa(i) }

  lemma IndexedInjective(a: string, i: nat, b: string, j: nat)
    requires Indexed(a, i) == Indexed(b, j)
    ensures a == b && i == j
  {
    NoDash(i);
    NoDash(j);
    LastSplitUnique(a, Itoa(i), b, Itoa(j), '-');
    ItoaInjective(i, j);
  }

  lemma NoDash(i: nat)
    ensures '-' !in Itoa(i)
  {
    assert AllDigits(Digits(i));
  }

  // ---- native mode ----

  function NativePeer(node: LbNode, i: nat): Peer
    requires i < |node.peers|
  {
    Peer(Uint32(node.localASN), Uint32(node.peerASN), node.peers[i].address, Uint16(node.peers[i].port), node.sourceIP,
         HOLD_TIME, "", [NodeSelector(Some(map[HOSTNAME_KEY := node.name]), None)], node.password, false,
         Indexed(node.name, i))
  }

  function NativeOf(node: LbNode): (r: seq<Peer>)
    ensures |r| == |node.peers| && forall i :: 0 <= i < |r| ==> r[i] == NativePeer(node, i)
  {
    seq(|node.peers|, i requires 0 <= i < |node.peers| => NativePeer(node, i))
  }

  function Native(nodes: seq<LbNode>): seq<Peer> {
    if nodes == [] then [] else Native(nodes[..|nodes| - 1]) + NativeOf(nodes[|nodes| - 1])
  }

  method PeersFromNodesNative(nodes: seq<LbNode>) returns (peers: seq<Peer>)
    ensures peers == Native(nodes)
  {
    peers := [];
    for k := 0 to |nodes|
      invariant peers == Native(nodes[..k])
    {
      var node := nodes[k];
      ghost var before := peers;
      for i := 0 to |node.peers|
        invariant peers == before + NativeOf(node)[..i]
      {
        peers := peers + [NativePeer(node, i)];
      }
      assert NativeOf(node)[..|node.peers|] == NativeOf(node);
      assert nodes[..k + 1][..k] == nodes[..k] && nodes[..k + 1][k] == node;
    }
    assert nodes[..|nodes|] == nodes;
  }

  ghost predicate DistinctNodes(nodes: seq<LbNode>) { forall j, k :: 0 <= j < k < |nodes| ==> nodes[j].name != nodes[k].name }

  ghost predicate DistinctPeerNames(peers: seq<Peer>) { forall j, k :: 0 <= j < k < |peers| ==> peers[j].name != peers[k].name }

  /** How many BGP peers the first j nodes have. */
  ghost function PeersBefore(nodes: seq<LbNode>, j: nat): nat
    requires j <= |nodes|
  {
    if j == 0 then 0 else PeersBefore(nodes, j - 1) + |nodes[j - 1].peers|
  }

  lemma {:induction false} PeersBeforePrefix(nodes: seq<LbNode>, front: seq<LbNode>, j: nat)
    requires j <= |front| <= |nodes| && front == nodes[..|front|]
    ensures PeersBefore(front, j) == PeersBefore(nodes, j)
  {
    if j > 0 {
      PeersBeforePrefix(nodes, front, j - 1);
    }
  }

  lemma {:induction false} NativeLength(nodes: seq<LbNode>)
    ensures |Native(nodes)| == PeersBefore(nodes, |nodes|)
  {
    hide NativePeer;
    if nodes != [] {
      var front := nodes[..|nodes| - 1];
      NativeLength(front);
      PeersBeforePrefix(nodes, front, |front|);
    }
  }

  /** One peer per node and BGP peer, in their order. */
  lemma {:induction false} NativeAt(nodes: seq<LbNode>, j: nat, i: nat) returns (k: nat)
    requires j < |nodes| && i < |nodes[j].peers|
    ensures k == PeersBefore(nodes, j) + i && k < |Native(nodes)| && Native(nodes)[k] == NativePeer(nodes[j], i)
  {
    hide NativePeer;
    var front := nodes[..|nodes| - 1];
    PeersBeforePrefix(nodes, front, if j < |front| then j else |front|);
    if j < |front| {
      k := NativeAt(front, j, i);
    } else {
      NativeLength(front);
      k := |Native(front)| + i;
    }
  }

  lemma {:induction false} NativeOrigin(nodes: seq<LbNode>, k: nat) returns (n: nat, i: nat)
    requires k < |Native(nodes)|
    ensures n < |nodes| && i < |nodes[n].peers| && Native(nodes)[k] == NativePeer(nodes[n], i)
  {
    var front := nodes[..|nodes| - 1];
    if k < |Native(front)| {
      n, i := NativeOrigin(front, k);
    } else {
      n, i := |nodes| - 1, k - |Native(front)|;
    }
  }

  /** Nodes with distinct names get peers with distinct names, each selecting only its node. */
  lemma {:induction false} NativeNamesDistinct(nodes: seq<LbNode>)
    requires DistinctNodes(nodes)
    ensures DistinctPeerNames(Native(nodes))
  {
    if nodes != [] {
      var front, last := nodes[..|nodes| - 1], nodes[|nodes| - 1];
      NativeNamesDistinct(front);
      var a, b := Native(front), NativeOf(last);
      forall j, k | 0 <= j < |a| && 0 <= k < |b| ensures a[j].name != b[k].name {
        var n, i := NativeOrigin(front, j);
        assert front[n].name != last.name;
        if Indexed(front[n].name, i) == Indexed(last.name, k) {
          IndexedInjective(front[n].name, i, last.name, k);
        }
      }
      forall j, k | 0 <= j < k < |b| ensures b[j].name != b[k].name {
        if Indexed(last.name, j) == Indexed(last.name, k) {
          IndexedInjective(last.name, j, last.name, k);
        }
      }
    }
  }

  // ---- FRR mode ----

  function LowerChar(c: char): char { if 'A' <= c <= 'Z' then (c as int + 32) as char else c }

  function ToLower(s: string): string { MapSeq(LowerChar, s) }

  /** Capital letters become small ones, everything else stays. */
  lemma ToLowerMeans(s: string)
    ensures |ToLower(s)| == |s|
    ensures forall i :: 0 <= i < |s| ==> if 'A' <= s[i] <= 'Z' then ToLower(s)[i] as int == s[i] as int + 32 else ToLower(s)[i] == s[i]
    ensures ToLower(ToLower(s)) == ToLower(s)
  {
    var r := ToLower(s);
    assert forall i :: 0 <= i < |s| ==> ToLower(r)[i] == r[i];
  }

  function FrrName(region: string, i: nat): string { ToLower(Indexed(region, i)) }

  lemma FrrNameIs(region: string, i: nat)
    ensures FrrName(region, i) == Indexed(ToLower(region), i)
  {
    MapConcat(LowerChar, region + "-", Itoa(i));
    MapConcat(LowerChar, region, "-");
    assert ToLower("-") == "-";
    assert AllDigits(Digits(i));
    assert ToLower(Itoa(i)) == Itoa(i);
  }

  /** The configured selector with the node's region. */
  function FrrPeer(labels: Labels, exprs: seq<Requirement>, node: LbNode, i: nat): Peer
    requires i < |node.peers|
  {
    Peer(Uint32(node.localASN), Uint32(node.peerASN), node.peers[i].address, Uint16(node.peers[i].port), "",
         HOLD_TIME, "", [NodeSelector(Some(labels[REGION_KEY := node.region]), Some(exprs))], "", true,
         FrrName(node.region, i))
  }

  /** The peers of one node, from index i on, written over m. */
  function FrrOf(m: map<string, Peer>, labels: Labels, exprs: seq<Requirement>, node: LbNode, i: nat): map<string, Peer>
    requires i <= |node.peers|
    decreases |node.peers| - i
  {
    if i == |node.peers| then m
    else FrrOf(m[FrrName(node.region, i) := FrrPeer(labels, exprs, node, i)], labels, exprs, node, i + 1)
  }

  function FrrMap(labels: Labels, exprs: seq<Requirement>, nodes: seq<LbNode>): map<string, Peer> {
    if nodes == [] then map[]
    else FrrOf(FrrMap(labels, exprs, nodes[..|nodes| - 1]), labels, exprs, nodes[|nodes| - 1], 0)
  }

  function InOrder(m: map<string, Peer>, keys: seq<string>): (r: seq<Peer>)
    requires forall i :: 0 <= i < |keys| ==> keys[i] in m
    ensures |r| == |keys| && forall i :: 0 <= i < |keys| ==> r[i] == m[keys[i]]
  {
    seq(|keys|, i requires 0 <= i < |keys| => m[keys[i]])
  }

  function Frr(labels: Labels, exprs: seq<Requirement>, nodes: seq<LbNode>): seq<Peer> {
    var m := FrrMap(labels, exprs, nodes);
    InOrder(m, SortedKeys(m.Keys))
  }

  ghost predicate FrrNamed(nodes: seq<LbNode>, name: string) {
    exists n, i :: 0 <= n < |nodes| && 0 <= i < |nodes[n].peers| && name == FrrName(nodes[n].region, i)
  }

  ghost predicate KeyedByName(m: map<string, Peer>) { forall k :: k in m ==> m[k].name == k }

  lemma {:induction false} FrrOfMeans(m: map<string, Peer>, labels: Labels, exprs: seq<Requirement>, node: LbNode, i: nat, k: string)
    requires i <= |node.peers| && KeyedByName(m)
    ensures var r := FrrOf(m, labels, exprs, node, i);
      && KeyedByName(r)
      && (k in r <==> k in m || exists j :: i <= j < |node.peers| && k == FrrName(node.region, j))
      && ((forall j :: i <= j < |node.peers| ==> k != FrrName(node.region, j)) && k in m ==> r[k] == m[k])
      && (forall j :: i <= j < |node.peers| && k == FrrName(node.region, j) ==> r[k] == FrrPeer(labels, exprs, node, j))
    decreases |node.peers| - i
  {
    hide FrrName, FrrPeer;
    if i < |node.peers| {
      var name := FrrName(node.region, i);
      FrrPeerName(labels, exprs, node, i);
      FrrOfMeans(m[name := FrrPeer(labels, exprs, node, i)], labels, exprs, node, i + 1, k);
      forall j | i < j < |node.peers| ensures FrrName(node.region, j) != name { FrrNamesDiffer(node.region, i, j); }
    }
  }

  lemma FrrPeerName(labels: Labels, exprs: seq<Requirement>, node: LbNode, i: nat)
    requires i < |node.peers|
    ensures FrrPeer(labels, exprs, node, i).name == FrrName(node.region, i)
  {
  }

  lemma FrrNamesDiffer(region: string, i: nat, j: nat)
    requires i != j
    ensures FrrName(region, i) != FrrName(region, j)
  {
    FrrNameIs(region, i);
    FrrNameIs(region, j);
    if FrrName(region, i) == FrrName(region, j) {
      IndexedInjective(ToLower(region), i, ToLower(region), j);
    }
  }

  lemma {:induction false} FrrMapMeans(labels: Labels, exprs: seq<Requirement>, nodes: seq<LbNode>, k: string)
    ensures KeyedByName(FrrMap(labels, exprs, nodes))
    ensures k in FrrMap(labels, exprs, nodes) <==> FrrNamed(nodes, k)
  {
    hide FrrOf, FrrName;
    if nodes != [] {
      var front, last := nodes[..|nodes| - 1], nodes[|nodes| - 1];
      FrrMapMeans(labels, exprs, front, k);
      FrrOfMeans(FrrMap(labels, exprs, front), labels, exprs, last, 0, k);
      if FrrNamed(front, k) {
        var n, i :| 0 <= n < |front| && 0 <= i < |front[n].peers| && k == FrrName(front[n].region, i);
        assert nodes[n] == front[n];
      }
      if FrrNamed(nodes, k) {
        var n, i :| 0 <= n < |nodes| && 0 <= i < |nodes[n].peers| && k == FrrName(nodes[n].region, i);
        if n < |front| {
          assert front[n] == nodes[n];
        }
      }
      if exists j :: 0 <= j < |last.peers| && k == FrrName(last.region, j) {
        var j :| 0 <= j < |last.peers| && k == FrrName(last.region, j);
        assert nodes[|nodes| - 1] == last;
      }
    }
  }

  /** The peers come in the order of the sorted names. */
  lemma FrrNames(labels: Labels, exprs: seq<Requirement>, nodes: seq<LbNode>)
    ensures var r, keys := Frr(labels, exprs, nodes), SortedKeys(FrrMap(labels, exprs, nodes).Keys);
      |r| == |keys| && forall i :: 0 <= i < |r| ==> r[i].name == keys[i]
  {
    hide FrrMap, SortedKeys;
    FrrMapMeans(labels, exprs, nodes, "");
  }

  lemma NamesListed(labels: Labels, exprs: seq<Requirement>, nodes: seq<LbNode>, name: string)
    ensures FrrNamed(nodes, name) <==> name in SortedKeys(FrrMap(labels, exprs, nodes).Keys)
  {
    hide FrrMap, FrrNamed, StringCmp;
    FrrMapMeans(labels, exprs, nodes, name);
  }

  /** The result is strictly sorted by name and has exactly the names lower(region)-i. */
  lemma FrrSorted(labels: Labels, exprs: seq<Requirement>, nodes: seq<LbNode>)
    ensures var r := Frr(labels, exprs, nodes);
      && (forall j, k :: 0 <= j < k < |r| ==> StringLess(r[j].name, r[k].name))
      && (forall k :: 0 <= k < |r| ==> FrrNamed(nodes, r[k].name))
      && (forall name :: FrrNamed(nodes, name) ==> exists k :: 0 <= k < |r| && r[k].name == name)
  {
    hide FrrMap, FrrNamed, StringLess, SortedKeys, Frr;
    var r, keys := Frr(labels, exprs, nodes), SortedKeys(FrrMap(labels, exprs, nodes).Keys);
    FrrNames(labels, exprs, nodes);
    KeysStrict(FrrMap(labels, exprs, nodes).Keys);
    forall k | 0 <= k < |r| ensures FrrNamed(nodes, r[k].name) { NamesListed(labels, exprs, nodes, keys[k]); }
    forall name | FrrNamed(nodes, name) ensures exists k :: 0 <= k < |r| && r[k].name == name {
      NamesListed(labels, exprs, nodes, name);
      var k :| 0 <= k < |keys| && keys[k] == name;
      assert r[k].name == name;
    }
  }

  lemma KeysStrict(s: set<string>)
    ensures forall j, k :: 0 <= j < k < |SortedKeys(s)| ==> StringLess(SortedKeys(s)[j], SortedKeys(s)[k])
  {
    hide SortedKeys, StringCmp;
    var keys := SortedKeys(s);
    StringTotal();
    SortedKeysAscending(s);
    SortedKeysPermute(s);
    forall j, k | 0 <= j < k < |keys| ensures StringLess(keys[j], keys[k]) {
      assert StringCmp(keys[j], keys[k]) <= 0;
      NotTwice(keys, s, j, k);
    }
  }

  lemma NotTwice(keys: seq<string>, s: set<string>, j: nat, k: nat)
    requires multiset(keys) == multiset(s) && j < k < |keys|
    ensures keys[j] != keys[k]
  {
    assert keys == keys[..j] + [keys[j]] + keys[j + 1..k] + [keys[k]] + keys[k + 1..];
    assert multiset(keys)[keys[j]] <= 1;
  }

  /** Nodes whose regions differ at most in case have the same region, ASNs and peers. */
  ghost predicate Agreeing(nodes: seq<LbNode>) {
    forall j, k :: 0 <= j < |nodes| && 0 <= k < |nodes| && ToLower(nodes[j].region) == ToLower(nodes[k].region) ==>
      AgreeOn(nodes[j], nodes[k])
  }

  ghost predicate AgreeOn(a: LbNode, b: LbNode) {
    a.region == b.region && a.localASN == b.localASN && a.peerASN == b.peerASN && a.peers == b.peers
  }

  lemma SameName(a: LbNode, i: nat, b: LbNode, j: nat)
    requires FrrName(a.region, i) == FrrName(b.region, j)
    ensures i == j && ToLower(a.region) == ToLower(b.region)
  {
    FrrNameIs(a.region, i);
    FrrNameIs(b.region, j);
    IndexedInjective(ToLower(a.region), i, ToLower(b.region), j);
  }

  /** With agreeing nodes, each entry is the peer of any node that has its name. */
  lemma {:induction false} FrrLookup(labels: Labels, exprs: seq<Requirement>, nodes: seq<LbNode>, n: nat, i: nat)
    requires Agreeing(nodes) && n < |nodes| && i < |nodes[n].peers|
    ensures var k := FrrName(nodes[n].region, i);
      k in FrrMap(labels, exprs, nodes) && FrrMap(labels, exprs, nodes)[k] == FrrPeer(labels, exprs, nodes[n], i)
  {
    hide FrrName, FrrPeer, FrrOf, ToLower;
    var k := FrrName(nodes[n].region, i);
    var front, last := nodes[..|nodes| - 1], nodes[|nodes| - 1];
    FrrMapMeans(labels, exprs, front, k);
    FrrOfMeans(FrrMap(labels, exprs, front), labels, exprs, last, 0, k);
    if exists j :: 0 <= j < |last.peers| && k == FrrName(last.region, j) {
      var j :| 0 <= j < |last.peers| && k == FrrName(last.region, j);
      SameName(nodes[n], i, last, j);
      assert AgreeOn(nodes[n], last);
      SamePeer(labels, exprs, nodes[n], last, i);
    } else {
      assert n < |front| && front[n] == nodes[n];
      assert Agreeing(front);
      FrrLookup(labels, exprs, front, n, i);
    }
  }

  lemma SamePeer(labels: Labels, exprs: seq<Requirement>, a: LbNode, b: LbNode, i: nat)
    requires AgreeOn(a, b) && i < |a.peers|
    ensures FrrPeer(labels, exprs, a, i) == FrrPeer(labels, exprs, b, i)
  {
  }

  /** Then the result depends neither on the order of the nodes nor on how often each comes. */
  lemma FrrOrderFree(labels: Labels, exprs: seq<Requirement>, nodes: seq<LbNode>, other: seq<LbNode>)
    requires Agreeing(nodes) && Agreeing(other) && forall n :: n in nodes <==> n in other
    ensures Frr(labels, exprs, nodes) == Frr(labels, exprs, other)
  {
    hide FrrMap, Agreeing;
    FrrSubmap(labels, exprs, nodes, other);
    FrrSubmap(labels, exprs, other, nodes);
    assert FrrMap(labels, exprs, nodes) == FrrMap(labels, exprs, other);
  }

  lemma FrrSubmap(labels: Labels, exprs: seq<Requirement>, nodes: seq<LbNode>, other: seq<LbNode>)
    requires Agreeing(nodes) && Agreeing(other) && forall n :: n in nodes ==> n in other
    ensures forall k :: k in FrrMap(labels, exprs, nodes) ==>
      k in FrrMap(labels, exprs, other) && FrrMap(labels, exprs, other)[k] == FrrMap(labels, exprs, nodes)[k]
  {
    hide FrrMap, Agreeing, FrrName, FrrPeer;
    forall k | k in FrrMap(labels, exprs, nodes)
      ensures k in FrrMap(labels, exprs, other) && FrrMap(labels, exprs, other)[k] == FrrMap(labels, exprs, nodes)[k]
    {
      FrrMapMeans(labels, exprs, nodes, k);
      var n, i :| 0 <= n < |nodes| && 0 <= i < |nodes[n].peers| && k == FrrName(nodes[n].region, i);
      assert nodes[n] in other;
      var p :| 0 <= p < |other| && other[p] == nodes[n];
      FrrLookup(labels, exprs, nodes, n, i);
      FrrLookup(labels, exprs, other, p, i);
    }
  }

  // ---- FRR mode on shared label maps ----

  /** A Go map of labels: assigning to it is seen wherever it is shared. */
  class LabelMap {
    var labels: Labels

    constructor (labels: Labels)
      ensures this.labels == labels
    {
      this.labels := labels;
    }
  }

  /** A peer whose selector refers to a label map. */
  datatype FrrEntry = FrrEntry(base: Peer, selects: LabelMap, exprs: seq<Requirement>)

  ghost function ViewOf(e: FrrEntry): Peer
    reads e.selects
  {
    e.base.(selectors := [NodeSelector(Some(e.selects.labels), Some(e.exprs))])
  }

  /** The map holds the peers of m, under the same names, as the heap is now. */
  ghost predicate Shows(entries: map<string, FrrEntry>, m: map<string, Peer>)
    reads set k | k in entries :: entries[k].selects
  {
    entries.Keys == m.Keys && forall k :: k in entries ==> ViewOf(entries[k]) == m[k]
  }

  lemma ShowsPut(entries: map<string, FrrEntry>, m: map<string, Peer>, name: string, e: FrrEntry, p: Peer)
    requires Shows(entries, m) && ViewOf(e) == p
    ensures Shows(entries[name := e], m[name := p])
  {
  }

  ghost predicate Writes(node: LbNode, name: string) {
    exists i :: 0 <= i < |node.peers| && name == FrrName(node.region, i)
  }

  /** The last node that writes under the name, or -1. */
  ghost function LastWriter(nodes: seq<LbNode>, name: string): (n: int)
    ensures -1 <= n < |nodes|
    ensures n >= 0 ==> Writes(nodes[n], name)
    ensures forall j :: n < j < |nodes| ==> !Writes(nodes[j], name)
  {
    if nodes == [] then -1
    else if Writes(nodes[|nodes| - 1], name) then |nodes| - 1
    else LastWriter(nodes[..|nodes| - 1], name)
  }

  /** Each name has the peer of the last node that writes under it. */
  lemma {:induction false} FrrLast(labels: Labels, exprs: seq<Requirement>, nodes: seq<LbNode>, n: nat, i: nat)
    requires n < |nodes| && i < |nodes[n].peers| && LastWriter(nodes, FrrName(nodes[n].region, i)) == n
    ensures var k := FrrName(nodes[n].region, i);
      k in FrrMap(labels, exprs, nodes) && FrrMap(labels, exprs, nodes)[k] == FrrPeer(labels, exprs, nodes[n], i)
  {
    hide FrrName, FrrPeer, FrrOf;
    var k := FrrName(nodes[n].region, i);
    var front, last := nodes[..|nodes| - 1], nodes[|nodes| - 1];
    FrrMapMeans(labels, exprs, front, k);
    FrrOfMeans(FrrMap(labels, exprs, front), labels, exprs, last, 0, k);
    if n < |front| {
      assert front[n] == nodes[n];
      assert !Writes(last, k);
      FrrLast(labels, exprs, front, n, i);
    }
  }

  /** And is in the result. */
  lemma FrrHolds(labels: Labels, exprs: seq<Requirement>, nodes: seq<LbNode>, n: nat, i: nat) returns (k: nat)
    requires n < |nodes| && i < |nodes[n].peers| && LastWriter(nodes, FrrName(nodes[n].region, i)) == n
    ensures k < |Frr(labels, exprs, nodes)| && Frr(labels, exprs, nodes)[k] == FrrPeer(labels, exprs, nodes[n], i)
  {
    hide FrrName, FrrPeer, FrrMap, LastWriter, StringCmp;
    FrrLast(labels, exprs, nodes, n, i);
    var m, name := FrrMap(labels, exprs, nodes), FrrName(nodes[n].region, i);
    var keys := SortedKeys(m.Keys);
    hide SortedKeys;
    assert name in keys;
    k :| 0 <= k < |keys| && keys[k] == name;
  }

  /** Entries share a label map exactly if the same node wrote them last. */
  ghost predicate SharedWithin(entries: map<string, FrrEntry>, nodes: seq<LbNode>) {
    forall j, k :: j in entries && k in entries ==>
      (entries[j].selects == entries[k].selects <==> LastWriter(nodes, j) == LastWriter(nodes, k))
  }

  /** The entries that the node writes now refer to its label map, the others are as before. */
  ghost predicate Rewritten(entries: map<string, FrrEntry>, now: map<string, FrrEntry>, node: LbNode, dup: LabelMap) {
    forall k :: k in now ==> if Writes(node, k) then now[k].selects == dup else k in entries && now[k] == entries[k]
  }

  lemma SharedSnoc(entries: map<string, FrrEntry>, now: map<string, FrrEntry>, nodes: seq<LbNode>, dup: LabelMap)
    requires nodes != [] && SharedWithin(entries, nodes[..|nodes| - 1])
    requires Rewritten(entries, now, nodes[|nodes| - 1], dup) && forall k :: k in entries ==> entries[k].selects != dup
    ensures SharedWithin(now, nodes)
  {
    hide Writes;
  }

  /**
    The loop of the builder: each node gets a duplicate of the configured labels before its region is
    written, so no node's region shows in the selectors of another, and the configured labels stay.
   */
  method BuildFrr(configured: LabelMap, exprs: seq<Requirement>, nodes: seq<LbNode>) returns (entries: map<string, FrrEntry>)
    ensures Shows(entries, FrrMap(configured.labels, exprs, nodes))
    ensures SharedWithin(entries, nodes)
    ensures forall k :: k in entries ==> fresh(entries[k].selects)
    ensures configured.labels == old(configured.labels)
  {
    hide FrrName, FrrPeer, FrrOf, Rewritten, SharedWithin, FrrMap;
    entries := map[];
    ghost var labels := configured.labels;
    NothingYet(labels, exprs);
    for n := 0 to |nodes|
      invariant configured.labels == labels
      invariant forall k :: k in entries ==> fresh(entries[k].selects)
      invariant Shows(entries, FrrMap(labels, exprs, nodes[..n])) && SharedWithin(entries, nodes[..n])
    {
      ghost var before, prefix := entries, nodes[..n + 1];
      assert prefix[..n] == nodes[..n] && prefix[n] == nodes[n];
      var dup := new LabelMap(configured.labels);
      dup.labels := dup.labels[REGION_KEY := nodes[n].region];
      entries := WriteNode(entries, dup, labels, exprs, nodes[n], FrrMap(labels, exprs, nodes[..n]));
      FrrMapSnoc(labels, exprs, prefix);
      SharedSnoc(before, entries, prefix, dup);
      FromDup(before, entries, nodes[n], dup);
    }
    assert nodes[..|nodes|] == nodes;
  }

  lemma NothingYet(labels: Labels, exprs: seq<Requirement>)
    ensures FrrMap(labels, exprs, []) == map[] && SharedWithin(map[], [])
  {
  }

  lemma FromDup(entries: map<string, FrrEntry>, now: map<string, FrrEntry>, node: LbNode, dup: LabelMap)
    requires Rewritten(entries, now, node, dup)
    ensures forall k :: k in now ==> now[k].selects == dup || (k in entries && now[k] == entries[k])
  {
    hide Writes;
  }

  lemma FrrMapSnoc(labels: Labels, exprs: seq<Requirement>, nodes: seq<LbNode>)
    requires nodes != []
    ensures FrrMap(labels, exprs, nodes)
         == FrrOf(FrrMap(labels, exprs, nodes[..|nodes| - 1]), labels, exprs, nodes[|nodes| - 1], 0)
  {
  }

  /** The peers of one node, all with its label map. */
  method WriteNode(entries: map<string, FrrEntry>, dup: LabelMap, ghost labels: Labels,
                   exprs: seq<Requirement>, node: LbNode, ghost before: map<string, Peer>)
    returns (r: map<string, FrrEntry>)
    requires Shows(entries, before) && dup.labels == labels[REGION_KEY := node.region]
    ensures Shows(r, FrrOf(before, labels, exprs, node, 0))
    ensures Rewritten(entries, r, node, dup)
  {
    hide FrrName, Shows;
    r := entries;
    ghost var m := before;
    for i := 0 to |node.peers|
      invariant FrrOf(m, labels, exprs, node, i) == FrrOf(before, labels, exprs, node, 0)
      invariant Shows(r, m)
      invariant forall k :: k in r ==> (Writes(node, k) && r[k].selects == dup) || (k in entries && r[k] == entries[k])
      invariant forall j :: 0 <= j < i ==> FrrName(node.region, j) in r && r[FrrName(node.region, j)].selects == dup
    {
      var name := FrrName(node.region, i);
      var base := Peer(Uint32(node.localASN), Uint32(node.peerASN), node.peers[i].address, Uint16(node.peers[i].port), "",
                       HOLD_TIME, "", [], "", true, name);
      var entry := FrrEntry(base, dup, exprs);
      ShowsPut(r, m, name, entry, FrrPeer(labels, exprs, node, i));
      r := r[name := entry];
      m := m[name := FrrPeer(labels, exprs, node, i)];
    }
  }
}
