/** The manager of the control-plane floating IP (FIP): it follows node events and moves the address to a healthy node. */
module Fip {
  import opened Api
  import opened Order
  import opened Text
  import opened FipNodes
  import opened ProviderId

  /** A health request: answered with 200, answered otherwise or not at all, or not even a request. */
  datatype Probe = Healthy | Unhealthy | NoRequest

  /**
    What a handler meets: whether the FIP reservation is found, the cluster's nodes at each of the two
    label-selector lists (None if the list fails), the health endpoints, and the fate of the FIP update.
   */
  datatype Env = Env(found: bool, first: Option<seq<Node>>, second: Option<seq<Node>>, probe: string -> Probe, update: Fault)

  function HealthURL(address: string, port: int): string { "https://" + address + ":" + Itoa(port) + "/healthz" }

  lemma URLParts(a: string, p: int)
    ensures var u := HealthURL(a, p);
      |u| >= 16 && u[..8] == "https://" && u[8..|u| - 8] == a + ":" + Itoa(p) && u[|u| - 8..] == "/healthz"
  {
    hide Itoa;
    var mid := a + ":" + Itoa(p);
    assert HealthURL(a, p) == "https://" + mid + "/healthz";
  }

  /** The URL tells address and port. */
  lemma HealthURLTells(a: string, p: int, b: string, q: int)
    ensures HealthURL(a, p) == HealthURL(b, q) <==> a == b && p == q
  {
    hide HealthURL, Itoa;
    URLParts(a, p);
    URLParts(b, q);
    if HealthURL(a, p) == HealthURL(b, q) {
      ItoaPlain(p, ':');
      ItoaPlain(q, ':');
      LastSplitUnique(a, Itoa(p), b, Itoa(q), ':');
      ItoaInjective(p, q);
    }
  }

  predicate Answers(a: NodeAddress, port: int, fipURL: string, probe: string -> Probe) {
    a.kind != "Hostname" && HealthURL(a.address, port) != fipURL && probe(HealthURL(a.address, port)) == Healthy
  }

  /** Some address of the node, not a host name and not the FIP's own URL, answers with 200. */
  ghost predicate HealthyNode(n: Node, port: int, fipURL: string, probe: string -> Probe) {
    exists i :: 0 <= i < |n.addresses| && n.addresses[i].kind != "Hostname"
      && HealthURL(n.addresses[i].address, port) != fipURL && probe(HealthURL(n.addresses[i].address, port)) == Healthy
  }

  lemma HealthyMeans(n: Node, port: int, fipURL: string, probe: string -> Probe)
    ensures HealthyNode(n, port, fipURL, probe) <==> exists i :: 0 <= i < |n.addresses| && Answers(n.addresses[i], port, fipURL, probe)
  {
    hide HealthURL;
  }

  ghost predicate ValidID(n: Node) { ServerIDFromProviderID(n.providerID).ServerID? }

  // ---- listing ----

  function HasLabel(key: string): Node -> bool { (n: Node) => key in n.labels }

  /** The control-plane nodes as listed, by name. */
  function Listed(first: seq<Node>, second: seq<Node>): NodeSet {
    AddAll(AddAll(map[], Filter(HasLabel(MASTER_LABEL), first)), Filter(HasLabel(CONTROL_PLANE_LABEL), second))
  }

  /**
    A name is listed exactly if a node of the name carries the master label in the first list, or the
    control-plane label in the second. Only control-plane nodes are listed, each under its name.
   */
  lemma ListedMeans(first: seq<Node>, second: seq<Node>)
    ensures var m := Listed(first, second);
      && ByName(m)
      && (forall n :: n in NodesOf(m) ==>
            || (n in first && "node-role.kubernetes.io/master" in n.labels)
            || (n in second && "node-role.kubernetes.io/control-plane" in n.labels))
      && (forall n :: n in first && "node-role.kubernetes.io/master" in n.labels ==> n.name in m)
      && (forall n :: n in second && "node-role.kubernetes.io/control-plane" in n.labels ==> n.name in m)
  {
    hide Filter, AddAll, Elements, NodesOf, ByName;
    var f, s := HasLabel(MASTER_LABEL), HasLabel(CONTROL_PLANE_LABEL);
    var a, b := Filter(f, first), Filter(s, second);
    EmptySet();
    FilterHolds(f, first);
    FilterHolds(s, second);
    AddAllMeans(map[], a);
    AddAllMeans(AddAll(map[], a), b);
    StaysListed(map[], a, b);
  }

  lemma ListedRun(first: seq<Node>, second: seq<Node>)
    ensures forall n :: n in NodesOf(Listed(first, second)) ==> IsControlPlane(n)
  {
    hide Listed, NodesOf;
    ListedMeans(first, second);
  }

  lemma FilterHolds(keep: Node -> bool, nodes: seq<Node>)
    ensures forall n :: n in Filter(keep, nodes) <==> n in nodes && keep(n)
  {
    hide Filter;
    FilterIsKeep(keep, nodes);
    forall n ensures n in Filter(keep, nodes) <==> n in nodes && keep(n) {
      assert n in Filter(keep, nodes) <==> n in Elements(Filter(keep, nodes));
    }
  }

  lemma StaysListed(m: NodeSet, a: seq<Node>, b: seq<Node>)
    requires ByName(m)
    ensures forall k :: k in AddAll(m, a) ==> k in AddAll(AddAll(m, a), b)
  {
    hide AddAll;
    AddAllMeans(m, a);
    AddAllMeans(AddAll(m, a), b);
  }

  ghost function ListedIn(env: Env): set<Node> {
    if env.first.Some? && env.second.Some? then NodesOf(Listed(env.first.value, env.second.value)) else {}
  }

  // ---- moves ----

  /** The FIP went to `target`, the server of `node`, found healthy at `address`; `listed` are the control-plane nodes. */
  datatype Move = Move(
    node: Node, address: NodeAddress, target: int, listed: set<Node>, port: int, fipURL: string, probe: string -> Probe)

  ghost predicate SafeMove(m: Move) {
    && m.node in m.listed && IsControlPlane(m.node) && !m.node.deleting
    && m.address in m.node.addresses && m.address.kind != "Hostname"
    && HealthURL(m.address.address, m.port) != m.fipURL && m.probe(HealthURL(m.address.address, m.port)) == Healthy
    && m.port != 0
    && (m.node.unschedulable ==> forall n :: n in m.listed && !n.deleting ==> n.unschedulable)
    && ServerIDFromProviderID(m.node.providerID) == ServerID(m.target)
  }

  ghost predicate AllSafe(moves: seq<Move>) { forall i :: 0 <= i < |moves| ==> SafeMove(moves[i]) }

  /** The manager between two events: the FIP's target, the two ports, and the moves made so far. */
  datatype State = State(target: int, port: int, fipPort: int, moves: seq<Move>)

  class Manager {
    var apiServerPort: int
    var nodeAPIServerPort: int
    var target: int
    const fipAddress: string
    const useHostIP: bool
    ghost var moves: seq<Move>

    constructor (apiServerPort: int, fipAddress: string, useHostIP: bool, target: int)
      ensures moves == [] && this.target == target && nodeAPIServerPort == 0 && this.apiServerPort == apiServerPort
      ensures this.fipAddress == fipAddress && this.useHostIP == useHostIP
    {
      this.apiServerPort, nodeAPIServerPort, this.target := apiServerPort, 0, target;
      this.fipAddress, this.useHostIP, moves := fipAddress, useHostIP, [];
    }

    ghost function Now(): State
      reads this
    {
      State(target, nodeAPIServerPort, apiServerPort, moves)
    }

    /** Nothing moved, or one safe move was made to the new target. */
    twostate predicate MovedSafely()
      reads this
    {
      || (moves == old(moves) && target == old(target))
      || (|moves| == |old(moves)| + 1 && moves[..|old(moves)|] == old(moves)
          && SafeMove(moves[|old(moves)|]) && moves[|old(moves)|].target == target)
    }

    /** One address of one node: asks for its health and, if it is healthy, moves the FIP there. */
    method TryAddress(node: Node, a: NodeAddress, fipURL: string, env: Env, ghost listed: set<Node>)
      returns (done: bool, ok: bool)
      requires nodeAPIServerPort != 0 && node in listed && IsControlPlane(node) && !node.deleting && a in node.addresses
      requires node.unschedulable ==> forall n :: n in listed && !n.deleting ==> n.unschedulable
      modifies this`target, this`moves
      ensures MovedSafely()
      ensures env.update == Lost ==> moves == old(moves) && target == old(target)
      ensures done <==> Answers(a, nodeAPIServerPort, fipURL, env.probe)
      ensures !done ==> moves == old(moves) && target == old(target)
      ensures done ==> (ok <==> ValidID(node) && env.update == Done)
      ensures ok && done ==> |moves| == |old(moves)| + 1
      ensures moves != old(moves) ==>
        moves[|moves| - 1] == Move(node, a, target, listed, nodeAPIServerPort, fipURL, env.probe)
      ensures done && !ok && env.update != Unacknowledged ==> moves == old(moves) && target == old(target)
    {
      hide ServerIDFromProviderID, HealthURL;
      if a.kind == "Hostname" {
        return false, false;
      }
      var url := HealthURL(a.address, nodeAPIServerPort);
      if url == fipURL {
        return false, false;
      }
      if env.probe(url) != Healthy {
        return false, false;
      }
      var id := ServerIDFromProviderID(node.providerID);
      if !id.ServerID? {
        return true, false;
      }
      if env.update != Lost {
        target := id.id;
        moves := moves + [Move(node, a, id.id, listed, nodeAPIServerPort, fipURL, env.probe)];
      }
      return true, env.update == Done;
    }

    /** The addresses of one node, in order, until one is healthy. */
    method TryNode(node: Node, fipURL: string, env: Env, ghost listed: set<Node>) returns (done: bool, ok: bool)
      requires nodeAPIServerPort != 0 && node in listed && IsControlPlane(node) && !node.deleting
      requires node.unschedulable ==> forall n :: n in listed && !n.deleting ==> n.unschedulable
      modifies this`target, this`moves
      ensures MovedSafely()
      ensures env.update == Lost ==> moves == old(moves) && target == old(target)
      ensures done <==> HealthyNode(node, nodeAPIServerPort, fipURL, env.probe)
      ensures !done ==> moves == old(moves) && target == old(target)
      ensures done ==> (ok <==> ValidID(node) && env.update == Done)
      ensures ok && done ==> |moves| == |old(moves)| + 1
      ensures moves != old(moves) ==> var m := moves[|moves| - 1];
        m.node == node && m.listed == listed && m.port == nodeAPIServerPort && m.fipURL == fipURL && m.probe == env.probe
      ensures done && !ok && env.update != Unacknowledged ==> moves == old(moves) && target == old(target)
    {
      hide SafeMove, Answers, ValidID, IsControlPlane, HealthyNode, HealthURL;
      HealthyMeans(node, nodeAPIServerPort, fipURL, env.probe);
      for j := 0 to |node.addresses|
        invariant moves == old(moves) && target == old(target)
        invariant forall k :: 0 <= k < j ==> !Answers(node.addresses[k], nodeAPIServerPort, fipURL, env.probe)
      {
        done, ok := TryAddress(node, node.addresses[j], fipURL, env, listed);
        if done {
          return;
        }
      }
      return false, false;
    }

    /** `reassign` */
    method Reassign(nodes: seq<Node>, fipURL: string, env: Env, ghost listed: set<Node>) returns (ok: bool)
      requires forall n :: n in nodes ==> n in listed && IsControlPlane(n) && !n.deleting
      requires forall n :: n in nodes && n.unschedulable ==> forall m :: m in listed && !m.deleting ==> m.unschedulable
      modifies this`target, this`moves
      ensures MovedSafely()
      ensures env.update == Lost ==> moves == old(moves) && target == old(target)
      ensures nodeAPIServerPort == 0 ==> !ok && moves == old(moves)
      ensures ok ==> |moves| == |old(moves)| + 1
      ensures moves != old(moves) ==> var m := moves[|moves| - 1];
        m.node in nodes && m.listed == listed && m.port == nodeAPIServerPort && m.fipURL == fipURL && m.probe == env.probe
      ensures !ok && env.update != Unacknowledged ==> moves == old(moves) && target == old(target)
      ensures nodeAPIServerPort != 0 && env.update == Done && (forall n :: n in nodes ==> ValidID(n)) ==>
        (ok <==> exists n :: n in nodes && HealthyNode(n, nodeAPIServerPort, fipURL, env.probe))
    {
      hide SafeMove, HealthyNode, ValidID, IsControlPlane, HealthURL;
      if nodeAPIServerPort == 0 {
        return false;
      }
      for i := 0 to |nodes|
        invariant moves == old(moves) && target == old(target)
        invariant forall k :: 0 <= k < i ==> !HealthyNode(nodes[k], nodeAPIServerPort, fipURL, env.probe)
      {
        assert nodes[i] in nodes;
        var done;
        done, ok := TryNode(nodes[i], fipURL, env, listed);
        if done {
          return;
        }
      }
      return false;
    }

    /** The API answers, the node port is known and the provider IDs are in order. */
    ghost predicate Works(env: Env, port: int) {
      && env.first.Some? && env.second.Some? && env.update == Done && port != 0
      && forall n :: n in ListedIn(env) ==> ValidID(n)
    }

    /** Some candidate answers at an address that is not the FIP. */
    ghost predicate CanMove(self: Option<Node>, env: Env, port: int, fipPort: int)
      requires env.first.Some? && env.second.Some?
    {
      exists n :: n in Candidates(self, ListedIn(env)) && HealthyNode(n, port, HealthURL(fipAddress, fipPort), env.probe)
    }

    /** The move went to a candidate among the nodes listed in this environment, by its health and the current ports. */
    ghost predicate MadeIn(m: Move, self: Option<Node>, env: Env, port: int, fipPort: int) {
      && m.listed == ListedIn(env) && m.node in Candidates(self, ListedIn(env))
      && m.port == port && m.fipURL == HealthURL(fipAddress, fipPort) && m.probe == env.probe
    }

    /** `tryReassign`, leaving node `self` out if there is another candidate. */
    method TryReassign(self: Option<Node>, env: Env) returns (ok: bool)
      modifies this`target, this`moves
      ensures MovedSafely()
      ensures env.update == Lost ==> moves == old(moves) && target == old(target)
      ensures !ok && env.update != Unacknowledged ==> moves == old(moves) && target == old(target)
      ensures ok ==> |moves| == |old(moves)| + 1
      ensures moves != old(moves) ==> MadeIn(moves[|moves| - 1], self, env, nodeAPIServerPort, apiServerPort)
      ensures Works(env, nodeAPIServerPort) ==> (ok <==> CanMove(self, env, nodeAPIServerPort, apiServerPort))
    {
      hide SafeMove, HealthyNode, ValidID, Candidates, Listed, IsControlPlane, HealthURL, AddAll, Filter, NodesOf;
      var fipURL := HealthURL(fipAddress, apiServerPort);
      if env.first == None {
        return false;
      }
      var list := FilterLoop(HasLabel(MASTER_LABEL), env.first.value);
      var nodeSet := AddNodeList(map[], list);
      if env.second == None {
        return false;
      }
      list := FilterLoop(HasLabel(CONTROL_PLANE_LABEL), env.second.value);
      nodeSet := AddNodeList(nodeSet, list);
      ListedIs(env.first.value, env.second.value);
      assert nodeSet == Listed(env.first.value, env.second.value);
      ListedMeans(env.first.value, env.second.value);
      ListedRun(env.first.value, env.second.value);
      ghost var all := NodesOf(nodeSet);
      var nodes := FilteredList(nodeSet, self);
      CandidatesMeans(self, all);
      CandidatesIn(nodes, self, all);
      ok := Reassign(nodes, fipURL, env, all);
    }

    // ---- handlers ----

    predicate ListsFip(node: Node) { exists i :: 0 <= i < |node.addresses| && node.addresses[i].address == fipAddress }

    /** `nodeIsAssigned` */
    method NodeIsAssigned(node: Node) returns (hasIP: bool)
      ensures hasIP == ListsFip(node)
    {
      for i := 0 to |node.addresses|
        invariant forall j :: 0 <= j < i ==> node.addresses[j].address != fipAddress
      {
        if node.addresses[i].address == fipAddress {
          return true;
        }
      }
      return false;
    }

    /** `tryReassignAwayFromSelf`: acts if the node has the FIP, or nobody has. */
    method MoveAway(self: Node, env: Env) returns (ok: bool)
      modifies this`target, this`moves
      ensures MovedSafely()
      ensures env.update == Lost ==> moves == old(moves) && target == old(target)
      ensures !env.found || (!ListsFip(self) && old(target) != 0) ==> moves == old(moves) && target == old(target) && ok == env.found
      ensures moves != old(moves) ==> MadeIn(moves[|moves| - 1], Some(self), env, nodeAPIServerPort, apiServerPort)
      ensures env.found && (ListsFip(self) || old(target) == 0) && Works(env, nodeAPIServerPort) ==>
        (ok <==> CanMove(Some(self), env, nodeAPIServerPort, apiServerPort)) && (moves != old(moves) <==> ok)
    {
      hide CanMove, Works, SafeMove, Candidates, ListedIn, MadeIn;
      if !env.found {
        return false;
      }
      var hasIP := NodeIsAssigned(self);
      if hasIP || target == 0 {
        WorksIsDone(env, nodeAPIServerPort);
        ok := TryReassign(Some(self), env);
      } else {
        ok := true;
      }
    }

    /** The URL at which the holder's health is checked: with `useHostIP`, its last external address that is not the FIP. */
    function CheckURL(addresses: seq<NodeAddress>, port: int, url: string): string {
      if addresses == [] then url
      else
        var a := addresses[0];
        CheckURL(addresses[1..], port,
                 if a.kind == "ExternalIP" && a.address != fipAddress then HealthURL(a.address, port) else url)
    }

    function HolderURL(node: Node, port: int, fipPort: int): string {
      var url := HealthURL(fipAddress, fipPort);
      if useHostIP then CheckURL(node.addresses, port, url) else url
    }

    /** An external address other than the FIP. */
    predicate HostAddress(a: NodeAddress) { a.kind == "ExternalIP" && a.address != fipAddress }

    /** i is the last such address of the node. */
    ghost predicate LastHostAddress(node: Node, i: nat) {
      && i < |node.addresses| && HostAddress(node.addresses[i])
      && forall j :: i < j < |node.addresses| ==> !HostAddress(node.addresses[j])
    }

    lemma {:induction false} CheckURLMeans(addresses: seq<NodeAddress>, port: int, url: string)
      ensures forall i :: 0 <= i < |addresses| && HostAddress(addresses[i]) && (forall j :: i < j < |addresses| ==> !HostAddress(addresses[j])) ==>
        CheckURL(addresses, port, url) == HealthURL(addresses[i].address, port)
      ensures (forall j :: 0 <= j < |addresses| ==> !HostAddress(addresses[j])) ==> CheckURL(addresses, port, url) == url
      decreases |addresses|
    {
      hide HealthURL;
      if addresses != [] {
        var a, rest := addresses[0], addresses[1..];
        var next := if HostAddress(a) then HealthURL(a.address, port) else url;
        CheckURLMeans(rest, port, next);
        assert CheckURL(addresses, port, url) == CheckURL(rest, port, next);
        forall i | 0 <= i < |addresses| && HostAddress(addresses[i]) && (forall j :: i < j < |addresses| ==> !HostAddress(addresses[j]))
          ensures CheckURL(addresses, port, url) == HealthURL(addresses[i].address, port)
        {
          assert forall j :: 0 <= j < |rest| ==> rest[j] == addresses[j + 1];
          if i > 0 {
            assert rest[i - 1] == addresses[i];
          }
        }
        assert forall j :: 0 <= j < |rest| ==> rest[j] == addresses[j + 1];
      }
    }

    /** Where the holder's health is asked for: at the FIP or, with `useHostIP`, at the node's last external address if there is one. */
    ghost predicate IsHolderURL(node: Node, port: int, fipPort: int, url: string) {
      if useHostIP && exists i: nat :: LastHostAddress(node, i)
      then exists i: nat :: LastHostAddress(node, i) && url == "https://" + node.addresses[i].address + ":" + Itoa(port) + "/healthz"
      else url == "https://" + fipAddress + ":" + Itoa(fipPort) + "/healthz"
    }

    lemma HolderURLMeans(node: Node, port: int, fipPort: int)
      ensures IsHolderURL(node, port, fipPort, HolderURL(node, port, fipPort))
    {
      hide CheckURL;
      CheckURLMeans(node.addresses, port, HealthURL(fipAddress, fipPort));
      if !exists i: nat :: LastHostAddress(node, i) {
        NoHostAddress(node, |node.addresses|);
      }
    }

    lemma {:induction false} NoHostAddress(node: Node, n: nat)
      requires n <= |node.addresses| && !exists i: nat :: LastHostAddress(node, i)
      requires forall j :: n <= j < |node.addresses| ==> !HostAddress(node.addresses[j])
      ensures forall j :: 0 <= j < |node.addresses| ==> !HostAddress(node.addresses[j])
      decreases n
    {
      if n > 0 {
        assert !LastHostAddress(node, n - 1);
        NoHostAddress(node, n - 1);
      }
    }

    method FindHolderURL(node: Node) returns (url: string)
      ensures url == HolderURL(node, nodeAPIServerPort, apiServerPort)
      ensures IsHolderURL(node, nodeAPIServerPort, apiServerPort, url)
    {
      hide HealthURL, IsHolderURL;
      HolderURLMeans(node, nodeAPIServerPort, apiServerPort);
      url := HealthURL(fipAddress, apiServerPort);
      if useHostIP {
        ghost var base := url;
        assert node.addresses == node.addresses[0..];
        for i := 0 to |node.addresses|
          invariant CheckURL(node.addresses[i..], nodeAPIServerPort, url) == CheckURL(node.addresses, nodeAPIServerPort, base)
        {
          assert node.addresses[i..][1..] == node.addresses[i + 1..] && node.addresses[i..][0] == node.addresses[i];
          var a := node.addresses[i];
          if a.kind == "ExternalIP" && a.address != fipAddress {
            url := HealthURL(a.address, nodeAPIServerPort);
          }
        }
      }
    }

    /** The health check of a node finds reason to move: nobody has the FIP, or the node has it and is unhealthy. */
    ghost predicate NeedsMove(node: Node, env: Env, target: int, port: int, fipPort: int) {
      target == 0 || (ListsFip(node) && Fails(node, env, port, fipPort))
    }

    /** The URL of the holder answers, but not with 200, or does not answer. */
    ghost predicate Fails(node: Node, env: Env, port: int, fipPort: int) {
      exists url :: IsHolderURL(node, port, fipPort, url) && env.probe(url) == Unhealthy
    }

    lemma FailsAt(node: Node, env: Env, port: int, fipPort: int)
      ensures Fails(node, env, port, fipPort) <==> env.probe(HolderURL(node, port, fipPort)) == Unhealthy
    {
      hide HolderURL, IsHolderURL;
      HolderURLMeans(node, port, fipPort);
      forall url | IsHolderURL(node, port, fipPort, url) ensures url == HolderURL(node, port, fipPort) {
        HolderURLUnique(node, port, fipPort, url, HolderURL(node, port, fipPort));
      }
    }

    lemma HolderURLUnique(node: Node, port: int, fipPort: int, a: string, b: string)
      requires IsHolderURL(node, port, fipPort, a) && IsHolderURL(node, port, fipPort, b)
      ensures a == b
    {
      hide Itoa;
      forall i: nat, j: nat | LastHostAddress(node, i) && LastHostAddress(node, j) ensures i == j { }
    }

    /** `doHealthCheck` */
    method HealthCheck(node: Node, env: Env) returns (ok: bool)
      modifies this`target, this`moves
      ensures MovedSafely()
      ensures env.update == Lost ==> moves == old(moves) && target == old(target)
      ensures !env.found || !NeedsMove(node, env, old(target), nodeAPIServerPort, apiServerPort) ==>
        moves == old(moves) && target == old(target)
      ensures moves != old(moves) ==> MadeIn(moves[|moves| - 1], None, env, nodeAPIServerPort, apiServerPort)
      ensures env.found && NeedsMove(node, env, old(target), nodeAPIServerPort, apiServerPort) && Works(env, nodeAPIServerPort) ==>
        (ok <==> CanMove(None, env, nodeAPIServerPort, apiServerPort)) && (moves != old(moves) <==> ok)
    {
      hide CanMove, Works, SafeMove, Candidates, ListedIn, HolderURL, MadeIn, Fails, IsHolderURL;
      if !env.found {
        return false;
      }
      WorksIsDone(env, nodeAPIServerPort);
      if target == 0 {
        ok := TryReassign(None, env);
        return;
      }
      var hasIP := NodeIsAssigned(node);
      FailsAt(node, env, nodeAPIServerPort, apiServerPort);
      if hasIP {
        var url := FindHolderURL(node);
        if env.probe(url) == NoRequest {
          return false;
        }
        if env.probe(url) != Healthy {
          ok := TryReassign(None, env);
          return;
        }
      }
      return true;
    }

    lemma WorksIsDone(env: Env, port: int)
      ensures Works(env, port) ==> env.update == Done
    {
    }

    /**
      `syncService`: the node port follows the service, the FIP port is only filled in. Both are set before the
      reservation is looked up and the external service and its status are applied, so they stay if that fails.
     */
    method SyncService(ports: seq<int>, found: bool, applied: bool, reported: bool) returns (ok: bool)
      modifies this`nodeAPIServerPort, this`apiServerPort
      ensures ports == [] ==> nodeAPIServerPort == old(nodeAPIServerPort) && apiServerPort == old(apiServerPort)
      ensures ports != [] ==> nodeAPIServerPort == ports[0]
                              && apiServerPort == if old(apiServerPort) == 0 then ports[0] else old(apiServerPort)
      ensures ok <==> ports != [] && found && applied && reported
    {
      if |ports| < 1 {
        return false;
      }
      nodeAPIServerPort := ports[0];
      if apiServerPort == 0 {
        apiServerPort := nodeAPIServerPort;
      }
      if !found {
        return false;
      }
      if !applied {
        return false;
      }
      return reported;
    }

    ghost function SyncedPorts(ports: seq<int>, port: int, fipPort: int): (int, int) {
      if ports == [] then (port, fipPort) else (ports[0], if fipPort == 0 then ports[0] else fipPort)
    }

    // ---- events ----

    /** The event filter: ports known, control-plane node. */
    predicate Passes(n: Node)
      reads this
    {
      apiServerPort != 0 && nodeAPIServerPort != 0 && IsControlPlane(n)
    }

    /** Leaving a node matters if it has the FIP, or nobody has. */
    ghost function Leave(n: Node, target: int): Option<Option<Node>> {
      if ListsFip(n) || target == 0 then Some(Some(n)) else None
    }

    /** What an event calls for: nothing, or a move, possibly away from a node. */
    ghost function Duty(event: Event, env: Env, target: int, port: int, fipPort: int): Option<Option<Node>> {
      if port == 0 || fipPort == 0 then None
      else
        match event
        case Updated(older, newer) =>
          if !IsControlPlane(older) then None
          else if !IsControlPlane(newer) then Leave(older, target)
          else if newer.unschedulable && !older.unschedulable then Leave(newer, target)
          else if NeedsMove(newer, env, target, port, fipPort) then Some(None)
          else None
        case Deleted(n) => if IsControlPlane(n) then Leave(n, target) else None
        case Ports(_, _, _) => None
    }

    ghost function PortsAfter(event: Event, port: int, fipPort: int): (int, int) {
      if event.Ports? then SyncedPorts(event.ports, port, fipPort) else (port, fipPort)
    }

    ghost predicate Stays(s: State, t: State) { t.moves == s.moves && t.target == s.target }

    /** One safe move was made, in this environment. */
    ghost predicate Moves(s: State, self: Option<Node>, env: Env, t: State) {
      && |t.moves| == |s.moves| + 1 && t.moves[..|s.moves|] == s.moves
      && var m := t.moves[|s.moves|];
         SafeMove(m) && m.target == t.target && MadeIn(m, self, env, s.port, s.fipPort)
    }

    /**
      What one event does. The FIP moves only if the event calls for it and the reservation is found; with a
      working API it then moves exactly if some candidate is healthy.
     */
    ghost predicate Handled(s: State, event: Event, env: Env, t: State) {
      var duty := Duty(event, env, s.target, s.port, s.fipPort);
      && (t.port, t.fipPort) == PortsAfter(event, s.port, s.fipPort)
      && (env.update == Lost ==> Stays(s, t))
      && (Stays(s, t) || (duty.Some? && env.found && Moves(s, duty.value, env, t)))
      && (duty.Some? && env.found && Works(env, s.port) ==>
            (t.moves != s.moves <==> CanMove(duty.value, env, s.port, s.fipPort)))
    }

    /**
      The informer's filtering handler: an update counts as an update if both versions pass, and as a
      deletion of the old version if only that one does.
     */
    method Handle(event: Event, env: Env)
      modifies this
      ensures Handled(old(Now()), event, env, Now())
    {
      hide SafeMove, Fails, IsControlPlane, CanMove, Works, Candidates, MadeIn;
      match event
      case Updated(older, newer) =>
        if Passes(newer) && Passes(older) {
          if older.unschedulable != newer.unschedulable && newer.unschedulable {
            var ok := MoveAway(newer, env);
          } else {
            var ok := HealthCheck(newer, env);
          }
        } else if Passes(older) {
          var ok := MoveAway(older, env);
        }
      case Deleted(n) =>
        if Passes(n) {
          var ok := MoveAway(n, env);
        }
      case Ports(ports, applied, reported) =>
        var ok := SyncService(ports, env.found, applied, reported);
    }

    /** The event's node, if it lists the FIP, is not leaving, not newly unschedulable and not found unhealthy. */
    ghost predicate Quiet(event: Event, env: Env, port: int, fipPort: int) {
      match event
      case Updated(older, newer) =>
        && (ListsFip(newer) && IsControlPlane(newer) ==>
              !(newer.unschedulable && !older.unschedulable) && !Fails(newer, env, port, fipPort))
        && (ListsFip(older) && IsControlPlane(older) ==> IsControlPlane(newer))
      case Deleted(n) => ListsFip(n) ==> !IsControlPlane(n)
      case Ports(_, _, _) => true
    }

    /** Every event of the sequence is quiet, with the ports as they are by then. */
    ghost predicate QuietRun(events: seq<(Event, Env)>, port: int, fipPort: int)
      decreases |events|
    {
      events != [] ==>
        var (event, env) := events[0];
        var (port', fipPort') := PortsAfter(event, port, fipPort);
        Quiet(event, env, port, fipPort) && QuietRun(events[1..], port', fipPort')
    }

    /** While the FIP has a target, a quiet event calls for nothing. */
    lemma QuietIsNoDuty(event: Event, env: Env, target: int, port: int, fipPort: int)
      requires target != 0 && Quiet(event, env, port, fipPort)
      ensures Duty(event, env, target, port, fipPort) == None
    {
      hide Fails, IsControlPlane;
    }

    predicate RunsControlPlane(n: Node) {
      "node-role.kubernetes.io/master" in n.labels || "node-role.kubernetes.io/control-plane" in n.labels
    }

    predicate HasFip(n: Node) { exists a :: a in n.addresses && a.address == fipAddress }

    /** The node is deleted or leaves the control plane. */
    predicate Leaves(event: Event) { event.Deleted? || (event.Updated? && !RunsControlPlane(event.newer)) }

    /** The node stays and becomes unschedulable. */
    predicate Cordons(event: Event) {
      event.Updated? && RunsControlPlane(event.newer) && event.newer.unschedulable && !event.older.unschedulable
    }

    /** The node that an event is about: as it is now or, if it leaves, as it was. */
    function Subject(event: Event): Node
      requires !event.Ports?
    {
      if event.Deleted? then event.node else if RunsControlPlane(event.newer) then event.newer else event.older
    }

    /**
      An event calls for a move exactly if the ports are known, its node was in the control plane, and nobody
      has the FIP or that node has it and leaves, becomes unschedulable or fails its check. The move is away
      from the node exactly if it leaves or becomes unschedulable.
     */
    lemma DutyMeans(event: Event, env: Env, target: int, port: int, fipPort: int)
      ensures var duty := Duty(event, env, target, port, fipPort);
        && (duty.Some? <==>
              && port != 0 && fipPort != 0 && !event.Ports?
              && RunsControlPlane(if event.Deleted? then event.node else event.older)
              && (target == 0 || (HasFip(Subject(event))
                                  && (Leaves(event) || Cordons(event) || Fails(Subject(event), env, port, fipPort)))))
        && (duty.Some? ==> duty.value == if Leaves(event) || Cordons(event) then Some(Subject(event)) else None)
    {
      hide Fails;
      if !event.Ports? {
        FipListed(Subject(event));
      }
    }

    lemma FipListed(n: Node)
      ensures ListsFip(n) <==> HasFip(n)
    {
    }

    /** One state before each event and one at the end. */
    ghost predicate Trace(trace: seq<State>, events: seq<(Event, Env)>) {
      && |trace| == |events| + 1
      && forall i :: 0 <= i < |events| ==> Handled(trace[i], events[i].0, events[i].1, trace[i + 1])
    }

    /** From the i-th state on, with a target and quiet events only, every state has the same target and moves. */
    lemma {:induction false} QuietTraceStays(trace: seq<State>, events: seq<(Event, Env)>)
      requires Trace(trace, events) && trace[0].target != 0 && QuietRun(events, trace[0].port, trace[0].fipPort)
      ensures forall i :: 0 <= i < |trace| ==> Stays(trace[0], trace[i])
      decreases |events|
    {
      hide Handled, Quiet;
      if events != [] {
        var (event, env) := events[0];
        assert Handled(trace[0], event, env, trace[0 + 1]);
        QuietStep(trace[0], event, env, trace[1]);
        TraceTail(trace, events);
        QuietTraceStays(trace[1..], events[1..]);
        forall i | 0 <= i < |trace| ensures Stays(trace[0], trace[i]) {
          if i > 0 {
            assert Stays(trace[1..][0], trace[1..][i - 1]);
          }
        }
      }
    }

    lemma QuietStep(s: State, event: Event, env: Env, t: State)
      requires s.target != 0 && Quiet(event, env, s.port, s.fipPort) && Handled(s, event, env, t)
      ensures Stays(s, t) && (t.port, t.fipPort) == PortsAfter(event, s.port, s.fipPort)
    {
      hide Quiet, Works, CanMove;
      QuietIsNoDuty(event, env, s.target, s.port, s.fipPort);
    }

    lemma TraceTail(trace: seq<State>, events: seq<(Event, Env)>)
      requires Trace(trace, events) && events != []
      ensures Trace(trace[1..], events[1..])
    {
      hide Handled;
      forall i | 0 <= i < |events[1..]| ensures Handled(trace[1..][i], events[1..][i].0, events[1..][i].1, trace[1..][i + 1]) {
        assert Handled(trace[i + 1], events[i + 1].0, events[i + 1].1, trace[i + 1 + 1]);
      }
    }

    /** Every move of the run is safe, and the target is where the last of them went. */
    ghost predicate Follows(s: State, t: State) {
      && |s.moves| <= |t.moves| && t.moves[..|s.moves|] == s.moves
      && AllSafe(t.moves[|s.moves|..])
      && t.target == if t.moves == s.moves then s.target else t.moves[|t.moves| - 1].target
    }

    lemma FollowsStep(s: State, t: State, event: Event, env: Env, u: State)
      requires Follows(s, t) && Handled(t, event, env, u)
      ensures Follows(s, u)
    {
      hide SafeMove, Duty, Works, CanMove, MadeIn, PortsAfter;
      if !Stays(t, u) {
        assert u.moves == t.moves + [u.moves[|t.moves|]];
        assert u.moves[|s.moves|..] == t.moves[|s.moves|..] + [u.moves[|t.moves|]];
      }
    }

    lemma {:induction false} TraceFollows(trace: seq<State>, events: seq<(Event, Env)>, i: nat)
      requires Trace(trace, events) && i < |trace|
      ensures Follows(trace[0], trace[i])
    {
      hide Handled, Follows;
      if i == 0 {
        FollowsSelf(trace[0]);
      } else {
        TraceFollows(trace, events, i - 1);
        assert Handled(trace[i - 1], events[i - 1].0, events[i - 1].1, trace[i - 1 + 1]);
        FollowsStep(trace[0], trace[i - 1], events[i - 1].0, events[i - 1].1, trace[i]);
      }
    }

    lemma FollowsSelf(s: State)
      ensures Follows(s, s)
    {
    }

    /**
      Over any sequence of events: at every moment the target is where it started or where the last move went,
      and every move is safe. If the FIP has a target and every event is quiet, it never moves.
     */
    method Run(events: seq<(Event, Env)>) returns (ghost trace: seq<State>)
      modifies this
      ensures Trace(trace, events) && trace[0] == old(Now()) && trace[|events|] == Now()
      ensures forall i :: 0 <= i < |trace| ==> Follows(old(Now()), trace[i])
      ensures old(target) != 0 && QuietRun(events, old(nodeAPIServerPort), old(apiServerPort)) ==>
        forall i :: 0 <= i < |trace| ==> Stays(old(Now()), trace[i])
    {
      hide Handled, Follows, QuietRun, Stays;
      trace := [Now()];
      for i := 0 to |events|
        invariant |trace| == i + 1 && trace[0] == old(Now()) && trace[i] == Now()
        invariant forall j :: 0 <= j < i ==> Handled(trace[j], events[j].0, events[j].1, trace[j + 1])
      {
        ghost var before := trace;
        Handle(events[i].0, events[i].1);
        trace := trace + [Now()];
        assert forall j :: 0 <= j <= i ==> trace[j] == before[j];
      }
      forall i | 0 <= i < |trace| ensures Follows(trace[0], trace[i]) { TraceFollows(trace, events, i); }
      if trace[0].target != 0 && QuietRun(events, trace[0].port, trace[0].fipPort) {
        QuietTraceStays(trace, events);
      }
    }
  }

  /** A node event, or a sync of the API server's service: its ports, and whether applying the external service and its status works. */
  datatype Event =
    | Updated(older: Node, newer: Node)
    | Deleted(node: Node)
    | Ports(ports: seq<int>, applied: bool, reported: bool)

  lemma ListedIs(first: seq<Node>, second: seq<Node>)
    ensures Listed(first, second) ==
      AddAll(AddAll(map[], Filter(HasLabel(MASTER_LABEL), first)), Filter(HasLabel(CONTROL_PLANE_LABEL), second))
  {
  }

  lemma CandidatesIn(nodes: seq<Node>, self: Option<Node>, all: set<Node>)
    requires Elements(nodes) == Candidates(self, all)
    ensures forall n :: n in nodes <==> n in Candidates(self, all)
    ensures forall n :: n in nodes ==> n in all && !n.deleting
  {
    hide Candidates;
    CandidatesMeans(self, all);
    assert forall n :: n in nodes <==> n in Elements(nodes);
  }
}
