/** Nodes of the cluster, and the filters that choose where the control-plane address may go. */
module FipNodes {
  import opened Order

  const MASTER_LABEL := "node-role.kubernetes.io/master"
  const CONTROL_PLANE_LABEL := "node-role.kubernetes.io/control-plane"

  datatype NodeAddress = NodeAddress(kind: string, address: string)

  datatype Node = Node(
    name: string, labels: set<string>, addresses: seq<NodeAddress>, unschedulable: bool, deleting: bool, providerID: string)

  predicate IsControlPlane(n: Node) { MASTER_LABEL in n.labels || CONTROL_PLANE_LABEL in n.labels }

  // ---- the filters on lists ----

  function Filter(keep: Node -> bool, nodes: seq<Node>): (r: seq<Node>) {
    if nodes == [] then [] else (if keep(nodes[0]) then [nodes[0]] else []) + Filter(keep, nodes[1..])
  }

  lemma {:induction false} FilterSnoc(keep: Node -> bool, nodes: seq<Node>, n: Node)
    ensures Filter(keep, nodes + [n]) == Filter(keep, nodes) + (if keep(n) then [n] else [])
  {
    if nodes == [] {
      assert (nodes + [n])[1..] == [];
    } else {
      FilterSnoc(keep, nodes[1..], n);
      assert (nodes + [n])[1..] == nodes[1..] + [n];
    }
  }

  method FilterLoop(keep: Node -> bool, nodes: seq<Node>) returns (r: seq<Node>)
    ensures r == Filter(keep, nodes)
  {
    r := [];
    for i := 0 to |nodes|
      invariant r == Filter(keep, nodes[..i])
    {
      assert nodes[..i + 1] == nodes[..i] + [nodes[i]];
      FilterSnoc(keep, nodes[..i], nodes[i]);
      if keep(nodes[i]) {
        r := r + [nodes[i]];
      }
    }
    assert nodes[..|nodes|] == nodes;
  }

  /** The nodes that pass, or all of them if none does. */
  method TryFilterLoop(keep: Node -> bool, nodes: seq<Node>) returns (r: seq<Node>)
    ensures r == TryFilter(keep, nodes)
  {
    r := FilterLoop(keep, nodes);
    if |r| == 0 {
      r := nodes;
    }
  }

  function TryFilter(keep: Node -> bool, nodes: seq<Node>): seq<Node> {
    var r := Filter(keep, nodes);
    if |r| > 0 then r else nodes
  }

  predicate Live(n: Node) { !n.deleting }

  predicate Schedulable(n: Node) { !n.unschedulable }

  function NotNamed(self: Node): Node -> bool { (n: Node) => n.name != self.name }

  /** The filters of a health check and, given a node to leave, of a move away from it. */
  function Pipeline(self: Option<Node>, nodes: seq<Node>): seq<Node> {
    var r := TryFilter(Schedulable, Filter(Live, nodes));
    if self.Some? then TryFilter(NotNamed(self.value), r) else r
  }

  // ---- the same on sets ----

  ghost function Keep(keep: Node -> bool, s: set<Node>): set<Node> { set n | n in s && keep(n) }

  ghost function TryKeep(keep: Node -> bool, s: set<Node>): set<Node> {
    if Keep(keep, s) != {} then Keep(keep, s) else s
  }

  ghost function Candidates(self: Option<Node>, s: set<Node>): set<Node> {
    var r := TryKeep(Schedulable, Keep(Live, s));
    if self.Some? then TryKeep(NotNamed(self.value), r) else r
  }

  ghost function Elements(nodes: seq<Node>): set<Node> { set n | n in nodes }

  lemma {:induction false} FilterIsKeep(keep: Node -> bool, nodes: seq<Node>)
    ensures Elements(Filter(keep, nodes)) == Keep(keep, Elements(nodes))
    ensures Filter(keep, nodes) == [] <==> Keep(keep, Elements(nodes)) == {}
  {
    if nodes != [] {
      FilterIsKeep(keep, nodes[1..]);
      assert nodes == [nodes[0]] + nodes[1..];
      assert Elements(nodes) == {nodes[0]} + Elements(nodes[1..]);
      var h := if keep(nodes[0]) then [nodes[0]] else [];
      assert Elements(h + Filter(keep, nodes[1..])) == Elements(h) + Elements(Filter(keep, nodes[1..]));
      assert keep(nodes[0]) ==> nodes[0] in Keep(keep, Elements(nodes));
    }
  }

  lemma TryFilterIsTryKeep(keep: Node -> bool, nodes: seq<Node>)
    ensures Elements(TryFilter(keep, nodes)) == TryKeep(keep, Elements(nodes))
  {
    FilterIsKeep(keep, nodes);
  }

  /** In whatever order the nodes come, the filters leave the same set. */
  lemma PipelineIsCandidates(self: Option<Node>, nodes: seq<Node>)
    ensures Elements(Pipeline(self, nodes)) == Candidates(self, Elements(nodes))
  {
    hide Filter, TryFilter, TryKeep, Keep, Elements;
    FilterIsKeep(Live, nodes);
    TryFilterIsTryKeep(Schedulable, Filter(Live, nodes));
    if self.Some? {
      TryFilterIsTryKeep(NotNamed(self.value), TryFilter(Schedulable, Filter(Live, nodes)));
    }
  }

  /** Node n passes the filters for live and, if there is one, schedulable nodes. */
  ghost predicate Preferred(n: Node, s: set<Node>) {
    && n in s && !n.deleting
    && (n.unschedulable ==> forall m :: m in s && !m.deleting ==> m.unschedulable)
  }

  /**
    Exactly the candidates: live nodes of the set, unschedulable only if every live node is, and the node to
    leave only if nothing else is left. There are some whenever a live node exists.
   */
  lemma CandidatesMeans(self: Option<Node>, s: set<Node>)
    ensures forall n :: n in Candidates(self, s) <==>
      && Preferred(n, s)
      && (self.Some? && n.name == self.value.name ==> forall m :: Preferred(m, s) ==> m.name == self.value.name)
    ensures Candidates(self, s) == {} <==> forall n :: n in s ==> n.deleting
  {
    var live := Keep(Live, s);
    var sched := TryKeep(Schedulable, live);
    forall n ensures n in sched <==> Preferred(n, s) {
      if Keep(Schedulable, live) == {} {
        forall m | m in s && !m.deleting ensures m.unschedulable {
          assert m in live;
          assert m !in Keep(Schedulable, live);
        }
      } else {
        var m :| m in Keep(Schedulable, live);
        assert m in s && !m.deleting && !m.unschedulable;
      }
    }
    assert live == {} <==> forall n :: n in s ==> n.deleting by {
      forall n | n in s && !n.deleting ensures n in live { }
    }
    assert sched == {} <==> live == {};
    if self.Some? {
      var rest := Keep(NotNamed(self.value), sched);
      forall n | n in sched && n.name != self.value.name ensures n in rest { }
    }
  }

  // ---- node sets ----

  type NodeSet = map<string, Node>

  /** Each node is stored under its name. */
  ghost predicate ByName(m: NodeSet) { forall k :: k in m ==> m[k].name == k }

  ghost function NodesOf(m: NodeSet): set<Node> { m.Values }

  /** The first node of a name stays. */
  function AddAll(m: NodeSet, nodes: seq<Node>): NodeSet
    decreases |nodes|
  {
    if nodes == [] then m
    else AddAll(if nodes[0].name in m then m else m[nodes[0].name := nodes[0]], nodes[1..])
  }

  method AddNodeList(m: NodeSet, nodes: seq<Node>) returns (r: NodeSet)
    ensures r == AddAll(m, nodes)
  {
    r := m;
    assert nodes == nodes[0..];
    for i := 0 to |nodes|
      invariant AddAll(r, nodes[i..]) == AddAll(m, nodes)
    {
      assert nodes[i..][1..] == nodes[i + 1..] && nodes[i..][0] == nodes[i];
      if nodes[i].name !in r {
        r := r[nodes[i].name := nodes[i]];
      }
    }
  }

  lemma {:induction false} AddAllMeans(m: NodeSet, nodes: seq<Node>)
    requires ByName(m)
    ensures var r := AddAll(m, nodes);
      && ByName(r)
      && (forall n :: n in NodesOf(r) ==> n in NodesOf(m) || n in nodes)
      && (forall n :: n in nodes ==> n.name in r)
      && (forall k :: k in m ==> k in r && r[k] == m[k])
    decreases |nodes|
  {
    if nodes != [] {
      var m1 := if nodes[0].name in m then m else m[nodes[0].name := nodes[0]];
      AddAllMeans(m1, nodes[1..]);
      assert forall n :: n in NodesOf(m1) ==> n in NodesOf(m) || n == nodes[0];
      assert nodes == [nodes[0]] + nodes[1..];
    }
  }

  ghost predicate DistinctNames(nodes: seq<Node>) { forall i, j :: 0 <= i < j < |nodes| ==> nodes[i].name != nodes[j].name }

  /** `toList`: the nodes in any order. */
  method ToList(m: NodeSet) returns (nodes: seq<Node>)
    requires ByName(m)
    ensures Elements(nodes) == NodesOf(m) && DistinctNames(nodes)
  {
    nodes := [];
    var rest := m.Keys;
    while rest != {}
      invariant rest <= m.Keys
      invariant Elements(nodes) == set k | k in m && k !in rest :: m[k]
      invariant DistinctNames(nodes)
      invariant forall i :: 0 <= i < |nodes| ==> nodes[i].name !in rest
      decreases rest
    {
      var k :| k in rest;
      ghost var before := nodes;
      nodes := nodes + [m[k]];
      rest := rest - {k};
      assert Elements(nodes) == Elements(before) + {m[k]};
      assert forall j :: j in m && j !in rest ==> j == k || j !in rest + {k};
    }
    assert Elements(nodes) == set k | k in m :: m[k];
  }

  lemma {:induction false} AddDistinct(m: NodeSet, nodes: seq<Node>)
    requires ByName(m) && DistinctNames(nodes) && forall i :: 0 <= i < |nodes| ==> nodes[i].name !in m
    ensures NodesOf(AddAll(m, nodes)) == NodesOf(m) + Elements(nodes)
    decreases |nodes|
  {
    if nodes != [] {
      var n := nodes[0];
      var m1 := m[n.name := n];
      AddDistinct(m1, nodes[1..]);
      assert NodesOf(m1) == NodesOf(m) + {n} by {
        assert forall k :: k in m ==> k in m1 && m1[k] == m[k];
        assert m1[n.name] == n;
      }
      assert nodes == [n] + nodes[1..];
      assert Elements(nodes) == {n} + Elements(nodes[1..]);
    }
  }

  lemma {:induction false} FilterDistinct(keep: Node -> bool, nodes: seq<Node>)
    requires DistinctNames(nodes)
    ensures DistinctNames(Filter(keep, nodes))
  {
    if nodes != [] {
      FilterDistinct(keep, nodes[1..]);
      FilterIsKeep(keep, nodes[1..]);
      forall n | n in Filter(keep, nodes[1..]) ensures n.name != nodes[0].name {
        assert n in Elements(Filter(keep, nodes[1..]));
        assert n in nodes[1..];
      }
    }
  }

  lemma PipelineDistinct(self: Option<Node>, nodes: seq<Node>)
    requires DistinctNames(nodes)
    ensures DistinctNames(Pipeline(self, nodes))
  {
    hide Filter, DistinctNames;
    FilterDistinct(Live, nodes);
    FilterDistinct(Schedulable, Filter(Live, nodes));
    if self.Some? {
      FilterDistinct(NotNamed(self.value), TryFilter(Schedulable, Filter(Live, nodes)));
    }
  }

  /** `filter(...).toList()`: in whatever order the maps are ranged over, exactly the candidates, with distinct names. */
  method FilteredList(m: NodeSet, self: Option<Node>) returns (nodes: seq<Node>)
    requires ByName(m)
    ensures Elements(nodes) == Candidates(self, NodesOf(m)) && DistinctNames(nodes)
  {
    hide Filter, TryFilter, Candidates, AddAll, Elements, DistinctNames, NodesOf, ByName;
    var list := ToList(m);
    ghost var all := list;
    list := FilterLoop(Live, list);
    list := TryFilterLoop(Schedulable, list);
    if self.Some? {
      list := TryFilterLoop(NotNamed(self.value), list);
    }
    assert list == Pipeline(self, all);
    PipelineIsCandidates(self, all);
    PipelineDistinct(self, all);
    var kept := AddNodeList(map[], list);
    EmptySet();
    AddAllMeans(map[], list);
    AddDistinct(map[], list);
    nodes := ToList(kept);
  }

  lemma EmptySet()
    ensures ByName(map[]) && NodesOf(map[]) == {}
  {
  }
}
