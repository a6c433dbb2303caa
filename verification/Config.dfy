/** The MetalLB configuration file in memory, and the configurer that edits it. */
module Config {
  import opened Order
  import opened Text
  import opened Relation
  import opened Selectors
  import opened Services
  import opened Peers
  import Pools

  // ---- comparing peers ----

  lemma {:induction false} NonServiceSnoc(s: seq<NodeSelector>, x: NodeSelector)
    ensures NonService(s + [x]) == NonService(s) + (if IsServiceSelector(x) then [] else [x])
  {
    hide IsServiceSelector;
    if s == [] {
      assert (s + [x])[1..] == [];
    } else {
      NonServiceSnoc(s[1..], x);
      assert (s + [x])[1..] == s[1..] + [x];
    }
  }

  method DropServiceSelectors(s: seq<NodeSelector>) returns (r: seq<NodeSelector>)
    ensures r == NonService(s)
  {
    hide IsServiceSelector;
    r := [];
    for i := 0 to |s|
      invariant r == NonService(s[..i])
    {
      assert s[..i + 1] == s[..i] + [s[i]];
      NonServiceSnoc(s[..i], s[i]);
      if !IsServiceSelector(s[i]) {
        r := r + [s[i]];
      }
    }
    assert s[..|s|] == s;
  }

  /** `Peer.EqualIgnoreService`: only the filtered copies are sorted, so the peers stay as they are. */
  method EqualIgnoreService(p: Peer, o: Peer) returns (eq: bool)
    ensures eq == PeerEqualIgnoreService(p, o)
  {
    hide SelectorsEqual, NonService;
    if !SameFields(p, o) {
      return false;
    }
    var ns1 := DropServiceSelectors(p.selectors);
    var os1 := DropServiceSelectors(o.selectors);
    var n1 := new NodeSelector[|ns1|](i requires 0 <= i < |ns1| => ns1[i]);
    var o1 := new NodeSelector[|os1|](i requires 0 <= i < |os1| => os1[i]);
    assert n1[..] == ns1 && o1[..] == os1;
    eq := NodeSelectorsEqual(n1, o1);
  }

  // ---- address pools ----

  /** `addresses` is a slice: comparing two pools sorts it in place. */
  datatype AddressPool = AddressPool(
    protocol: string, name: string, addresses: array<string>, avoidBuggyIPs: bool, autoAssign: bool)

  /** What a pool stands for: the order of its addresses is forgotten. */
  ghost function PoolOf(p: AddressPool): Pools.Pool
    reads p.addresses
  {
    Pools.Pool(Pools.Body(p.protocol, p.avoidBuggyIPs, p.autoAssign, multiset(p.addresses[..])), p.name)
  }

  function Slices(ps: seq<AddressPool>): set<object> { set i | 0 <= i < |ps| :: ps[i].addresses }

  ghost function PoolsOf(ps: seq<AddressPool>): (r: seq<Pools.Pool>)
    reads Slices(ps)
    ensures |r| == |ps| && forall i :: 0 <= i < |ps| ==> r[i] == PoolOf(ps[i])
  {
    seq(|ps|, i requires 0 <= i < |ps| reads Slices(ps) => PoolOf(ps[i]))
  }

  ghost predicate SameBody(a: AddressPool, o: AddressPool)
    reads a.addresses, o.addresses
  {
    && a.protocol == o.protocol && a.avoidBuggyIPs == o.avoidBuggyIPs && a.autoAssign == o.autoAssign
    && multiset(a.addresses[..]) == multiset(o.addresses[..])
  }

  /** `AddressPool.EqualIgnoreName`: sorts the addresses of both; no pool of any list is another pool for it. */
  method EqualIgnoreName(a: AddressPool, o: AddressPool, ghost ps: seq<AddressPool>) returns (eq: bool)
    modifies a.addresses, o.addresses
    ensures eq <==> PoolOf(a).body == PoolOf(o).body
    ensures eq <==> SameBody(a, o)
    ensures PoolOf(a) == old(PoolOf(a)) && PoolOf(o) == old(PoolOf(o))
    ensures PoolsOf(ps) == old(PoolsOf(ps))
  {
    hide SortStrings;
    if a.protocol != o.protocol || a.avoidBuggyIPs != o.avoidBuggyIPs || a.autoAssign != o.autoAssign {
      return false;
    }
    if a.addresses.Length != o.addresses.Length {
      assert |multiset(a.addresses[..])| != |multiset(o.addresses[..])|;
      return false;
    }
    eq := SortAndCompareStrings(a.addresses, o.addresses);
  }

  method SortAndCompareStrings(n: array<string>, o: array<string>) returns (eq: bool)
    requires n.Length == o.Length
    modifies n, o
    ensures eq <==> old(multiset(n[..])) == old(multiset(o[..]))
    ensures multiset(n[..]) == old(multiset(n[..])) && multiset(o[..]) == old(multiset(o[..]))
  {
    hide SortBy, StringCmp;
    ghost var a, b := n[..], o[..];
    var same := (x: string, y: string) => x == y;
    eq := SortAndCompare(n, o, StringLess, same);
    assert Pointwise(same, SortStrings(a), SortStrings(b)) <==> SortStrings(a) == SortStrings(b);
    SortStringsUnique(a, b);
  }

  // ---- the configuration file ----

  class ConfigFile {
    var peers: seq<Peer>
    var pools: seq<AddressPool>

    constructor ()
      ensures peers == [] && pools == []
    {
      peers, pools := [], [];
    }

    /** Also returns the peer it was given, which the method changes when no peer matches. */
    method AddPeerByService(add: Option<Peer>, svc: Resource) returns (changed: bool, added: Option<Peer>)
      modifies this`peers
      ensures add == None ==> !changed && peers == old(peers) && added == None
      ensures add.Some? ==> changed && peers == Peers.AddPeerByService(old(peers), add.value, svc)
      ensures add.Some? ==> added == Some(if Matches(old(peers), add.value) then add.value
                                          else WithService(add.value, svc))
    {
      hide WithService, PeerEqualIgnoreService;
      if add == None {
        return false, None;
      }
      var list, found := AddToEach(peers, add.value, svc);
      peers := list;
      if found {
        return true, add;
      }
      var _, sel := AddServiceLoop(LabelsOf, ServiceSelector, add.value.selectors, svc);
      var p := add.value.(selectors := sel);
      WithServiceIs(add.value, svc);
      peers := peers + [p];
      return true, Some(p);
    }

    method RemovePeersByService(svc: Resource) returns (changed: bool)
      modifies this`peers
      ensures peers == Peers.RemovePeersByService(old(peers), svc)
      ensures changed == RemoveChanges(old(peers), svc)
    {
      peers, changed := RemoveFromEach(peers, svc);
    }

    method AddAddressPool(add: Option<AddressPool>) returns (changed: bool)
      modifies this`pools, Slices(pools), if add.Some? then {add.value.addresses} else {}
      ensures add == None ==> !changed && pools == old(pools)
      ensures add.Some? ==>
        (changed, PoolsOf(pools)) == Pools.AddAddressPool(old(PoolsOf(pools)), old(PoolOf(add.value)))
      ensures Slices(pools) <= old(Slices(pools)) + if add.Some? then {add.value.addresses} else {}
    {
      hide Pools.Merge, Pools.Names, Pools.AddAddressPool;
      if add == None {
        return false;
      }
      var a := add.value;
      ghost var before, new' := PoolsOf(pools), PoolOf(a);
      var i, m := MergeFirst(pools, a);
      match m
      case Other =>
        AddMiss(before, new');
        pools := pools + [a];
        assert PoolsOf(pools) == before + [new'];
        return true;
      case Present =>
        AddHit(before, new', i);
        return false;
      case Merged(pool) =>
        AddHit(before, new', i);
        pools := pools[i := pool];
        assert PoolsOf(pools) == before[i := Pools.Merge(before[i], a.name)];
        return true;
    }

    method RemoveAddressPool(remove: Option<AddressPool>)
      modifies this`pools, Slices(pools), if remove.Some? then {remove.value.addresses} else {}
      ensures remove == None ==> pools == old(pools)
      ensures remove.Some? ==>
        PoolsOf(pools) == Pools.RemoveAddressPool(old(PoolsOf(pools)), old(PoolOf(remove.value)))
      ensures Slices(pools) <= old(Slices(pools))
    {
      hide Pools.RemoveAddressPool;
      if remove == None {
        return;
      }
      var rm := remove.value;
      pools := KeepPools(pools, rm);
    }
  }

  /** The removal loop. */
  method KeepPools(pools: seq<AddressPool>, rm: AddressPool) returns (kept: seq<AddressPool>)
    modifies Slices(pools), rm.addresses
    ensures PoolsOf(kept) == Pools.RemoveAddressPool(old(PoolsOf(pools)), old(PoolOf(rm)))
    ensures Slices(kept) <= Slices(pools)
  {
    hide Pools.Keep;
    ghost var before, gone := PoolsOf(pools), PoolOf(rm);
    kept := [];
    for i := 0 to |pools|
      invariant Slices(kept) <= Slices(pools)
      invariant PoolsOf(pools) == before && PoolOf(rm) == gone
      invariant PoolsOf(kept) == Flatten(Pools.KeepAll(before[..i], gone))
    {
      assert before[i] == PoolOf(pools[i]) && pools[i].addresses in Slices(pools);
      KeepAllSnoc(before, i, gone);
      ListsKeep(pools, kept);
      var q := KeepPool(pools[i], rm, pools + kept);
      ListsKeep(pools, kept);
      assert PoolsOf(kept) == PoolsOf(pools + kept)[|pools|..];
      assert PoolsOf(pools) == PoolsOf(pools + kept)[..|pools|];
      ListsKeep(kept, q);
      kept := kept + q;
    }
    assert before[..|before|] == before;
  }

  datatype Merging = Other | Present | Merged(pool: AddressPool)

  /** The body of the insertion loop: the pool is another one, has the name already, or takes it on. */
  method MergeInto(pool: AddressPool, a: AddressPool, ghost ps: seq<AddressPool>) returns (m: Merging)
    modifies pool.addresses, a.addresses
    ensures PoolOf(pool) == old(PoolOf(pool)) && PoolOf(a) == old(PoolOf(a)) && PoolsOf(ps) == old(PoolsOf(ps))
    ensures m.Other? <==> PoolOf(pool).body != PoolOf(a).body
    ensures !m.Other? ==> (m.Present? <==> a.name == pool.name || a.name in Pools.Names(PoolOf(pool)))
    ensures m.Merged? ==>
      m.pool.addresses == pool.addresses && PoolOf(m.pool) == Pools.Merge(PoolOf(pool), a.name)
  {
    hide SameBody;
    var eq := EqualIgnoreName(pool, a, ps);
    if eq && pool.name == a.name {
      return Present;
    }
    eq := EqualIgnoreName(pool, a, ps);
    if !eq {
      return Other;
    }
    var existing := Split(pool.name, Pools.NAME_JOINER);
    for i := 0 to |existing|
      invariant a.name !in existing[..i]
    {
      if existing[i] == a.name {
        return Present;
      }
    }
    existing := existing + [a.name];
    existing := SortStrings(existing);
    return Merged(pool.(name := Join(existing, Pools.NAME_JOINER)));
  }

  /** The search of the insertion loop: the first pool with the body of the given one. */
  method MergeFirst(pools: seq<AddressPool>, a: AddressPool) returns (i: nat, m: Merging)
    modifies Slices(pools), a.addresses
    ensures PoolsOf(pools) == old(PoolsOf(pools)) && PoolOf(a) == old(PoolOf(a))
    ensures i <= |pools| && forall j :: 0 <= j < i ==> PoolsOf(pools)[j].body != PoolOf(a).body
    ensures m.Other? <==> i == |pools|
    ensures i < |pools| ==> var p := PoolsOf(pools)[i];
      p.body == PoolOf(a).body && (m.Present? <==> a.name == p.name || a.name in Pools.Names(p))
    ensures m.Merged? ==>
      m.pool.addresses == pools[i].addresses && PoolOf(m.pool) == Pools.Merge(PoolsOf(pools)[i], a.name)
  {
    hide Pools.Merge, Pools.Names;
    ghost var before, new' := PoolsOf(pools), PoolOf(a);
    i := 0;
    while i < |pools|
      invariant i <= |pools|
      invariant PoolsOf(pools) == before && PoolOf(a) == new'
      invariant forall j :: 0 <= j < i ==> before[j].body != new'.body
    {
      assert before[i] == PoolOf(pools[i]) && pools[i].addresses in Slices(pools);
      m := MergeInto(pools[i], a, pools);
      if !m.Other? {
        return;
      }
      i := i + 1;
    }
    m := Other;
  }

  /** The body of the removal loop: what is kept of one pool. */
  method KeepPool(pool: AddressPool, rm: AddressPool, ghost ps: seq<AddressPool>) returns (q: seq<AddressPool>)
    modifies pool.addresses, rm.addresses
    ensures PoolsOf(q) == Pools.Keep(old(PoolOf(pool)), PoolOf(rm))
    ensures forall i :: 0 <= i < |q| ==> q[i].addresses == pool.addresses
    ensures PoolOf(rm) == old(PoolOf(rm)) && PoolsOf(ps) == old(PoolsOf(ps))
  {
    hide SameBody, Split, SortStrings, Join;
    var eq := EqualIgnoreName(pool, rm, ps);
    if eq && pool.name == rm.name {
      return [];
    }
    eq := EqualIgnoreName(pool, rm, ps);
    q := [pool];
    if eq {
      var names := DropName(Split(pool.name, Pools.NAME_JOINER), rm.name);
      q := [pool.(name := Join(SortStrings(names), Pools.NAME_JOINER))];
    }
    assert PoolsOf(q) == [PoolOf(q[0])];
  }

  // ---- steps of the pool loops ----

  lemma {:induction false} AddHit(pools: seq<Pools.Pool>, add: Pools.Pool, i: nat)
    requires i < |pools| && pools[i].body == add.body
    requires forall j :: 0 <= j < i ==> pools[j].body != add.body
    ensures Pools.AddAddressPool(pools, add) ==
      if add.name == pools[i].name || add.name in Pools.Names(pools[i]) then (false, pools)
      else (true, pools[i := Pools.Merge(pools[i], add.name)])
  {
    hide Pools.Names, Pools.Merge;
    var m := Pools.Merge(pools[i], add.name);
    if i > 0 {
      AddHit(pools[1..], add, i - 1);
      assert pools[1..][i - 1] == pools[i];
      assert pools[i := m] == [pools[0]] + pools[1..][i - 1 := m];
    } else {
      assert pools[0 := m] == [m] + pools[1..];
    }
    assert pools == [pools[0]] + pools[1..];
  }

  lemma {:induction false} AddMiss(pools: seq<Pools.Pool>, add: Pools.Pool)
    requires forall j :: 0 <= j < |pools| ==> pools[j].body != add.body
    ensures Pools.AddAddressPool(pools, add) == (true, pools + [add])
  {
    if pools != [] {
      AddMiss(pools[1..], add);
      assert pools + [add] == [pools[0]] + (pools[1..] + [add]);
    } else {
      assert pools + [add] == [add];
    }
  }

  lemma ListsKeep(a: seq<AddressPool>, b: seq<AddressPool>)
    ensures PoolsOf(a + b) == PoolsOf(a) + PoolsOf(b)
  {
  }

  lemma WithServiceIs(p: Peer, svc: Resource)
    ensures WithService(p, svc) == p.(selectors := AddService(LabelsOf, ServiceSelector, p.selectors, svc).1)
  {
  }

  lemma {:induction false} KeepAllConcat(a: seq<Pools.Pool>, p: Pools.Pool, gone: Pools.Pool)
    ensures Pools.KeepAll(a + [p], gone) == Pools.KeepAll(a, gone) + [Pools.Keep(p, gone)]
  {
    hide Pools.Keep;
    if a == [] {
      assert (a + [p])[1..] == [];
    } else {
      KeepAllConcat(a[1..], p, gone);
      assert (a + [p])[1..] == a[1..] + [p];
    }
  }

  lemma KeepAllSnoc(pools: seq<Pools.Pool>, i: nat, gone: Pools.Pool)
    requires i < |pools|
    ensures Flatten(Pools.KeepAll(pools[..i + 1], gone))
         == Flatten(Pools.KeepAll(pools[..i], gone)) + Pools.Keep(pools[i], gone)
  {
    hide Pools.Keep;
    assert pools[..i + 1] == pools[..i] + [pools[i]];
    KeepAllConcat(pools[..i], pools[i], gone);
    FlattenSnoc(Pools.KeepAll(pools[..i], gone), Pools.Keep(pools[i], gone));
  }

  lemma {:induction false} WithoutNameSnoc(a: seq<string>, x: string, name: string)
    ensures Pools.WithoutName(a + [x], name) == Pools.WithoutName(a, name) + (if x == name then [] else [x])
  {
    if a == [] {
      assert (a + [x])[1..] == [];
    } else {
      WithoutNameSnoc(a[1..], x, name);
      assert (a + [x])[1..] == a[1..] + [x];
    }
  }

  method DropName(existing: seq<string>, name: string) returns (names: seq<string>)
    ensures names == Pools.WithoutName(existing, name)
  {
    names := [];
    for i := 0 to |existing|
      invariant names == Pools.WithoutName(existing[..i], name)
    {
      assert existing[..i + 1] == existing[..i] + [existing[i]];
      WithoutNameSnoc(existing[..i], existing[i], name);
      if existing[i] != name {
        names := names + [existing[i]];
      }
    }
    assert existing[..|existing|] == existing;
  }

  // ---- the loops over peers ----

  lemma {:induction false} AddToMatchingSnoc(a: seq<Peer>, p: Peer, add: Peer, svc: Resource)
    ensures AddToMatching(a + [p], add, svc) == AddToMatching(a, add, svc) + [AddIfSame(p, add, svc)]
  {
    hide AddIfSame;
    var l, r := AddToMatching(a + [p], add, svc), AddToMatching(a, add, svc) + [AddIfSame(p, add, svc)];
    assert forall i :: 0 <= i < |l| ==> l[i] == r[i];
  }

  method AddToEach(list: seq<Peer>, add: Peer, svc: Resource) returns (r: seq<Peer>, found: bool)
    ensures r == AddToMatching(list, add, svc)
    ensures found == Matches(list, add)
  {
    hide PeerEqualIgnoreService, WithService;
    r, found := [], false;
    for i := 0 to |list|
      invariant r == AddToMatching(list[..i], add, svc)
      invariant found == exists j :: 0 <= j < i && PeerEqualIgnoreService(list[j], add)
    {
      assert list[..i + 1] == list[..i] + [list[i]];
      AddToMatchingSnoc(list[..i], list[i], add, svc);
      var peer := list[i];
      var same := EqualIgnoreService(peer, add);
      if same {
        found := true;
        var _, sel := AddServiceLoop(LabelsOf, ServiceSelector, peer.selectors, svc);
        WithServiceIs(peer, svc);
        peer := peer.(selectors := sel);
      }
      r := r + [peer];
    }
    assert list[..|list|] == list;
  }

  lemma {:induction false} KeepPeersSnoc(a: seq<Peer>, p: Peer, svc: Resource)
    ensures Peers.RemovePeersByService(a + [p], svc) == Peers.RemovePeersByService(a, svc) + Keep(p, svc)
  {
    hide Keep;
    var l, r := KeepAll(a + [p], svc), KeepAll(a, svc) + [Keep(p, svc)];
    assert forall i :: 0 <= i < |l| ==> l[i] == r[i];
    assert l == r;
    FlattenSnoc(KeepAll(a, svc), Keep(p, svc));
  }

  lemma KeepIs(p: Peer, svc: Resource)
    ensures var (found, size, s) := RemoveService(LabelsOf, ServiceSelector, p.selectors, svc);
      && Keep(p, svc) == (if !found || size >= 1 then [p.(selectors := s)] else [])
      && (Flags(p, svc) <==> found || size <= 0)
  {
    hide RemoveService;
  }

  method RemoveFromEach(list: seq<Peer>, svc: Resource) returns (r: seq<Peer>, changed: bool)
    ensures r == Peers.RemovePeersByService(list, svc)
    ensures changed == RemoveChanges(list, svc)
  {
    hide Keep, Flags, Peers.RemovePeersByService, RemoveService;
    r, changed := [], false;
    NoPeers(svc);
    for i := 0 to |list|
      invariant r == Peers.RemovePeersByService(list[..i], svc)
      invariant changed == exists j :: 0 <= j < i && Flags(list[j], svc)
    {
      assert list[..i + 1] == list[..i] + [list[i]];
      KeepPeersSnoc(list[..i], list[i], svc);
      KeepIs(list[i], svc);
      var found, size, sel := RemoveServiceLoop(LabelsOf, ServiceSelector, list[i].selectors, svc);
      if !found || size >= 1 {
        r := r + [list[i].(selectors := sel)];
      }
      if found || size <= 0 {
        changed := true;
      }
    }
    assert list[..|list|] == list;
  }

  lemma NoPeers(svc: Resource)
    ensures Peers.RemovePeersByService([], svc) == []
  {
  }

  // ---- the configurer ----

  /** Adding a list of peers one after the other. */
  function AddAll(peers: seq<Peer>, adds: seq<Peer>, svc: Resource): seq<Peer> {
    if adds == [] then peers
    else Peers.AddPeerByService(AddAll(peers, adds[..|adds| - 1], svc), adds[|adds| - 1], svc)
  }

  class CMConfigurer {
    const config: ConfigFile

    constructor (config: ConfigFile)
      ensures this.config == config
    {
      this.config := config;
    }

    /** Edits the list in loops of its own; the effect is that of `ConfigFile.AddPeerByService` on each peer. */
    method UpdatePeersByService(adds: seq<Peer>, svc: Resource) returns (changed: bool)
      modifies config`peers
      ensures config.peers == AddAll(old(config.peers), adds, svc)
      ensures changed == (adds != [])
    {
      hide WithService, PeerEqualIgnoreService, AddToMatching, Matches;
      changed := false;
      for k := 0 to |adds|
        invariant config.peers == AddAll(old(config.peers), adds[..k], svc)
        invariant changed == (k > 0)
      {
        assert adds[..k + 1][..k] == adds[..k] && adds[..k + 1][k] == adds[k];
        var list, found := AddToEach(config.peers, adds[k], svc);
        config.peers := list;
        if !found {
          var _, sel := AddServiceLoop(LabelsOf, ServiceSelector, adds[k].selectors, svc);
          WithServiceIs(adds[k], svc);
          config.peers := config.peers + [adds[k].(selectors := sel)];
          found := true;
        }
        if !changed {
          changed := found;
        }
      }
      assert adds[..|adds|] == adds;
    }

    method RemovePeersByService(svc: Resource) returns (changed: bool)
      modifies config`peers
      ensures config.peers == Peers.RemovePeersByService(old(config.peers), svc)
      ensures changed == RemoveChanges(old(config.peers), svc)
    {
      config.peers, changed := RemoveFromEach(config.peers, svc);
    }
  }

  ghost predicate AnyWithId(adds: seq<Peer>, id: Identity) { exists i :: 0 <= i < |adds| && IdOf(adds[i]) == id }

  lemma AnyWithIdSnoc(adds: seq<Peer>, last: Peer, id: Identity)
    ensures AnyWithId(adds + [last], id) <==> AnyWithId(adds, id) || IdOf(last) == id
  {
    hide IdOf;
    var all := adds + [last];
    if AnyWithId(adds, id) {
      var i :| 0 <= i < |adds| && IdOf(adds[i]) == id;
      assert all[i] == adds[i];
    }
    assert all[|adds|] == last;
  }

  lemma AddAllSnoc(peers: seq<Peer>, adds: seq<Peer>, last: Peer, svc: Resource)
    ensures AddAll(peers, adds + [last], svc) == Peers.AddPeerByService(AddAll(peers, adds, svc), last, svc)
  {
    hide Peers.AddPeerByService;
    var all := adds + [last];
    assert all[..|all| - 1] == adds;
  }

  /** The configurer's update adds, for each given peer, the pair of its identity and the service. */
  lemma {:induction false} AddAllRefines(peers: seq<Peer>, adds: seq<Peer>, svc: Resource)
    requires Valid(peers) && IsFull(svc)
    requires forall i :: 0 <= i < |adds| ==> Incoming(adds[i])
    ensures Valid(AddAll(peers, adds, svc))
    ensures forall id, r :: Has(AddAll(peers, adds, svc), id, r) <==> Has(peers, id, r) || (r == svc && AnyWithId(adds, id))
  {
    hide Valid, Has, IdOf, Peers.AddPeerByService, Incoming, AnyWithId;
    if adds == [] {
      assert forall id :: !AnyWithId(adds, id) by { NoneWithId(); }
    } else {
      hide AddAll;
      var front, last := adds[..|adds| - 1], adds[|adds| - 1];
      assert adds == front + [last];
      AddAllRefines(peers, front, svc);
      AddAllSnoc(peers, front, last, svc);
      AddRefines(AddAll(peers, front, svc), last, svc);
      forall id ensures AnyWithId(adds, id) <==> AnyWithId(front, id) || IdOf(last) == id { AnyWithIdSnoc(front, last, id); }
    }
  }

  lemma NoneWithId()
    ensures forall id :: !AnyWithId([], id)
  {
  }
}
