/**
  The configurer that keeps MetalLB's custom resources, with the API server as maps by name.
  Any API call may fail: before it has an effect, or after it while the answer gets lost.
 */
module Crd {
  import opened Api
  import opened Order
  import opened Selectors
  import opened Services
  import opened Peers
  import opened CrdPeers
  import P = CrdPools

  /** Each name of the current store is as before, or as after. */
  ghost predicate Between(before: PeerStore, after: PeerStore, now: PeerStore) {
    forall n :: Lookup(now, n) == Lookup(before, n) || Lookup(now, n) == Lookup(after, n)
  }

  /** A listing of the managed peers: each once, in any order. */
  ghost predicate PeerListing(names: seq<string>, s: PeerStore) {
    && (forall i :: 0 <= i < |names| ==> Managed(s, names[i]))
    && (forall n :: Managed(s, n) ==> n in names)
    && (forall i, j :: 0 <= i < j < |names| ==> names[i] != names[j])
  }

  /** The names that come first in the listing are as after, the others as before. */
  ghost predicate Through(before: PeerStore, after: PeerStore, now: PeerStore, done: set<string>) {
    forall n :: Lookup(now, n) == if n in done then Lookup(after, n) else Lookup(before, n)
  }

  /** The store once name n is as r says. */
  ghost function Put(s: PeerStore, n: string, r: Option<BGPPeer>): PeerStore {
    if r.Some? then s[n := r.value] else s - {n}
  }

  lemma ThroughStep(before: PeerStore, after: PeerStore, now: PeerStore, done: set<string>, n: string)
    requires Through(before, after, now, done)
    ensures Through(before, after, Put(now, n, Lookup(after, n)), done + {n})
    ensures Between(before, after, now) && Between(before, after, Put(now, n, Lookup(after, n)))
  {
  }

  lemma ThroughEnd(before: PeerStore, after: PeerStore, now: PeerStore, done: set<string>)
    requires Through(before, after, now, done)
    requires forall n :: n !in done ==> Lookup(after, n) == Lookup(before, n)
    ensures now == after
  {
    SameLookups(now, after);
  }

  ghost predicate Differs(before: PeerStore, after: PeerStore, n: string) { Lookup(after, n) != Lookup(before, n) }

  // ---- requests ----

  type News = seq<(string, PeerSpec)>

  function ConvertAll(parse: string -> int, adds: seq<Peer>): News {
    if adds == [] then [] else [(adds[0].name, ConvertPeer(parse, adds[0]))] + ConvertAll(parse, adds[1..])
  }

  lemma {:induction false} ConvertAt(parse: string -> int, adds: seq<Peer>)
    ensures |ConvertAll(parse, adds)| == |adds|
    ensures forall i :: 0 <= i < |adds| ==> ConvertAll(parse, adds)[i] == (adds[i].name, ConvertPeer(parse, adds[i]))
  {
    hide ConvertPeer;
    if adds != [] {
      ConvertAt(parse, adds[1..]);
    }
  }

  function FirstOf(news: News): map<string, PeerSpec> {
    if news == [] then map[] else FirstOf(news[1..])[news[0].0 := news[0].1]
  }

  function LastOf(news: News): map<string, PeerSpec> {
    if news == [] then map[] else map[news[0].0 := news[0].1] + LastOf(news[1..])
  }

  ghost function RequestOf(news: News): Request { Request(FirstOf(news), LastOf(news)) }

  ghost predicate DistinctNames(news: News) { forall i, j :: 0 <= i < j < |news| ==> news[i].0 != news[j].0 }

  ghost predicate Requested(news: News, n: string) { exists i :: 0 <= i < |news| && news[i].0 == n }

  lemma RequestedCons(news: News, n: string)
    requires news != []
    ensures Requested(news, n) <==> news[0].0 == n || Requested(news[1..], n)
  {
    if Requested(news, n) {
      var i :| 0 <= i < |news| && news[i].0 == n;
      assert i > 0 ==> news[1..][i - 1].0 == n;
    }
    if Requested(news[1..], n) {
      var i :| 0 <= i < |news[1..]| && news[1..][i].0 == n;
      assert news[i + 1].0 == n;
    }
  }

  lemma {:induction false} RequestNames(news: News)
    ensures forall n :: n in FirstOf(news) <==> Requested(news, n)
    ensures FirstOf(news).Keys == LastOf(news).Keys
    ensures DistinctNames(news) ==> FirstOf(news) == LastOf(news)
  {
    hide Requested;
    if news == [] {
      assert forall n :: !Requested(news, n) by { NoneRequested(); }
    } else {
      RequestNames(news[1..]);
      forall n ensures n in FirstOf(news) <==> Requested(news, n) { RequestedCons(news, n); }
      if DistinctNames(news) {
        assert DistinctNames(news[1..]);
        HeadNotAgain(news);
      }
    }
  }

  lemma NoneRequested()
    ensures forall n :: !Requested([], n)
  {
  }

  lemma HeadNotAgain(news: News)
    requires news != [] && DistinctNames(news)
    ensures !Requested(news[1..], news[0].0)
  {
  }

  lemma {:induction false} FirstSnoc(news: News, x: (string, PeerSpec))
    ensures FirstOf(news + [x]) == if x.0 in FirstOf(news) then FirstOf(news) else FirstOf(news)[x.0 := x.1]
  {
    if news == [] {
      assert (news + [x])[1..] == [];
    } else {
      FirstSnoc(news[1..], x);
      assert (news + [x])[1..] == news[1..] + [x];
    }
  }

  lemma {:induction false} FirstPrefix(news: News, i: nat)
    requires i <= |news|
    ensures forall n :: n in FirstOf(news[..i]) ==> n in FirstOf(news) && FirstOf(news)[n] == FirstOf(news[..i])[n]
    decreases |news| - i
  {
    if i < |news| {
      assert news[..i + 1] == news[..i] + [news[i]];
      FirstSnoc(news[..i], news[i]);
      FirstPrefix(news, i + 1);
    } else {
      assert news[..i] == news;
    }
  }

  /** Request i is the first for its name, or its name was requested before. */
  lemma FirstAt(news: News, i: nat)
    requires i < |news|
    ensures var (n, spec) := news[i];
      && n in FirstOf(news)
      && (n !in FirstOf(news[..i]) ==> FirstOf(news)[n] == spec)
      && FirstOf(news[..i + 1]).Keys == FirstOf(news[..i]).Keys + {n}
      && (DistinctNames(news) ==> n !in FirstOf(news[..i]))
  {
    hide FirstOf, LastOf, DistinctNames, Requested;
    assert news[..i + 1] == news[..i] + [news[i]];
    FirstSnoc(news[..i], news[i]);
    FirstPrefix(news, i + 1);
    RequestNames(news[..i]);
    if DistinctNames(news) {
      NotBefore(news, i);
    }
  }

  /** The last request for a name wins in `LastOf`, the first in `FirstOf`. */
  lemma {:induction false} LastAt(news: News, i: nat)
    requires i < |news| && !Requested(news[i + 1..], news[i].0)
    ensures news[i].0 in LastOf(news) && LastOf(news)[news[i].0] == news[i].1
  {
    if i == 0 {
      RequestNames(news[1..]);
    } else {
      assert news[1..][i - 1] == news[i] && news[1..][i..] == news[i + 1..];
      LastAt(news[1..], i - 1);
    }
  }

  /** Every requested peer is stored after the call with the fields that are compared, and a new one with all of them. */
  ghost predicate Stored(before: PeerStore, now: PeerStore, parse: string -> int, p: Peer) {
    && Managed(now, p.name) && ComparedAs(now[p.name].spec, parse, p)
    && (p.name !in before ==> CopiedAs(now[p.name].spec, parse, p))
  }

  lemma StoredAs(s: PeerStore, w: Request, parse: string -> int, p: Peer, svc: Resource)
    requires IsFull(svc) && !Collides(s, w) && w.last == w.first && p.name in w.first && w.first[p.name] == ConvertPeer(parse, p)
    ensures Stored(s, UpdatePeers(s, w, svc), parse, p)
  {
    hide ConvertPeer, Updated, Created, Released, ComparedAs, CopiedAs;
    var want := ConvertPeer(parse, p);
    CreatedFields(parse, p, svc);
    CopiedIsCompared(Created(want, svc).spec, parse, p);
    CopiedIsCompared(Bare(want).spec, parse, p);
    if HasManaged(s) {
      UpdateLookup(s, w, svc, p.name);
      if p.name in s {
        UpdatedFields(s[p.name], parse, p, svc);
        UpdatedMeans(s[p.name], want, svc);
      }
    }
  }

  /**
    The same for a whole request: of several peers with one name the first decides if the name is stored, and
    the last if it is not.
   */
  ghost predicate AllStored(before: PeerStore, now: PeerStore, parse: string -> int, adds: seq<Peer>) {
    forall i :: 0 <= i < |adds| ==>
      && Managed(now, adds[i].name)
      && (adds[i].name in before && (forall j :: 0 <= j < i ==> adds[j].name != adds[i].name) ==>
            ComparedAs(now[adds[i].name].spec, parse, adds[i]))
      && (adds[i].name !in before && (forall j :: i < j < |adds| ==> adds[j].name != adds[i].name) ==>
            CopiedAs(now[adds[i].name].spec, parse, adds[i]))
  }

  lemma StoredOld(s: PeerStore, w: Request, parse: string -> int, p: Peer, svc: Resource)
    requires IsFull(svc) && !Collides(s, w) && p.name in w.first && w.first[p.name] == ConvertPeer(parse, p) && p.name in s
    ensures var now := UpdatePeers(s, w, svc); Managed(now, p.name) && ComparedAs(now[p.name].spec, parse, p)
  {
    hide ConvertPeer, Updated, Created, Released, ComparedAs, CopiedAs;
    UpdateLookup(s, w, svc, p.name);
    UpdatedFields(s[p.name], parse, p, svc);
    UpdatedMeans(s[p.name], ConvertPeer(parse, p), svc);
  }

  lemma StoredNew(s: PeerStore, w: Request, parse: string -> int, p: Peer, svc: Resource)
    requires IsFull(svc) && p.name in w.last && w.last[p.name] == ConvertPeer(parse, p) && p.name !in s
    requires HasManaged(s) || w.first == w.last
    ensures var now := UpdatePeers(s, w, svc); Managed(now, p.name) && CopiedAs(now[p.name].spec, parse, p)
  {
    hide ConvertPeer, Updated, Created, Released, ComparedAs, CopiedAs;
    CreatedFields(parse, p, svc);
    if HasManaged(s) {
      UpdateLookup(s, w, svc, p.name);
    }
  }

  lemma StoredManaged(s: PeerStore, w: Request, svc: Resource, n: string)
    requires IsFull(svc) && ValidRequest(w) && !Collides(s, w) && n in w.first
    ensures Managed(UpdatePeers(s, w, svc), n)
  {
    hide Updated, Released, SpecEqual, Carrying;
    if HasManaged(s) {
      UpdateLookup(s, w, svc, n);
      if n in s {
        UpdatedMeans(s[n], w.first[n], svc);
      } else {
        AddMeans(Bare(w.last[n]), svc);
      }
    }
  }

  lemma EveryStored(s: PeerStore, parse: string -> int, adds: seq<Peer>, svc: Resource)
    requires IsFull(svc) && !Collides(s, RequestOf(ConvertAll(parse, adds)))
    requires HasManaged(s) || DistinctNames(ConvertAll(parse, adds))
    ensures AllStored(s, UpdatePeers(s, RequestOf(ConvertAll(parse, adds)), svc), parse, adds)
  {
    hide ConvertAll, FirstOf, LastOf, UpdatePeers, ConvertPeer, Collides, DistinctNames, Requested, ComparedAs, CopiedAs, HasManaged;
    var news := ConvertAll(parse, adds);
    var w := RequestOf(news);
    ConvertAt(parse, adds);
    RequestNames(news);
    forall i | 0 <= i < |adds|
      ensures Managed(UpdatePeers(s, w, svc), adds[i].name)
      ensures adds[i].name in s && (forall j :: 0 <= j < i ==> adds[j].name != adds[i].name) ==>
        ComparedAs(UpdatePeers(s, w, svc)[adds[i].name].spec, parse, adds[i])
      ensures adds[i].name !in s && (forall j :: i < j < |adds| ==> adds[j].name != adds[i].name) ==>
        CopiedAs(UpdatePeers(s, w, svc)[adds[i].name].spec, parse, adds[i])
    {
      FirstAt(news, i);
      StoredManaged(s, w, svc, adds[i].name);
      if adds[i].name in s && forall j :: 0 <= j < i ==> adds[j].name != adds[i].name {
        NoneEarlier(news, i);
        StoredOld(s, w, parse, adds[i], svc);
      }
      if adds[i].name !in s && forall j :: i < j < |adds| ==> adds[j].name != adds[i].name {
        NoneLater(news, i);
        LastAt(news, i);
        StoredNew(s, w, parse, adds[i], svc);
      }
    }
  }

  lemma DistinctSnoc(news: News, i: nat)
    requires i < |news| && DistinctNames(news[..i]) && news[i].0 !in FirstOf(news[..i])
    ensures DistinctNames(news[..i + 1])
  {
    hide FirstOf;
    RequestNames(news[..i]);
    forall j | 0 <= j < i ensures news[j].0 != news[i].0 { assert news[..i][j] == news[j]; }
    assert news[..i + 1] == news[..i] + [news[i]];
  }

  lemma NoneEarlier(news: News, i: nat)
    requires i < |news| && forall j :: 0 <= j < i ==> news[j].0 != news[i].0
    ensures news[i].0 !in FirstOf(news[..i])
  {
    hide FirstOf;
    RequestNames(news[..i]);
  }

  lemma NoneLater(news: News, i: nat)
    requires i < |news| && forall j :: i < j < |news| ==> news[j].0 != news[i].0
    ensures !Requested(news[i + 1..], news[i].0)
  {
  }

  lemma CopiedIsCompared(spec: PeerSpec, parse: string -> int, p: Peer)
    requires CopiedAs(spec, parse, p)
    ensures ComparedAs(spec, parse, p)
  {
  }

  lemma NotBefore(news: News, i: nat)
    requires i < |news| && DistinctNames(news)
    ensures !Requested(news[..i], news[i].0)
  {
  }

  /** The search loop: the first request for a name. */
  method FindFirst(news: News, name: string) returns (spec: Option<PeerSpec>)
    ensures spec == if name in FirstOf(news) then Some(FirstOf(news)[name]) else None
  {
    assert news == news[0..];
    for i := 0 to |news|
      invariant name in FirstOf(news) <==> name in FirstOf(news[i..])
      invariant name in FirstOf(news) ==> FirstOf(news)[name] == FirstOf(news[i..])[name]
    {
      assert news[i..][1..] == news[i + 1..];
      if news[i].0 == name {
        return Some(news[i].1);
      }
    }
    return None;
  }

  class CRDConfigurer {
    var peers: PeerStore
    var config: P.State
    var calls: nat
    const faults: nat -> Fault
    const parse: string -> int

    constructor (faults: nat -> Fault, parse: string -> int)
      ensures peers == map[] && config == P.State(map[], map[]) && calls == 0
      ensures this.faults == faults && this.parse == parse
    {
      peers, config, calls := map[], P.State(map[], map[]), 0;
      this.faults, this.parse := faults, parse;
    }

    ghost predicate Reliable() { forall k :: faults(k) == Done }

    // ---- the API ----

    /** The next call's fate; `ok` is what the caller is told. */
    method Call() returns (fault: Fault)
      modifies this`calls
      ensures fault == faults(old(calls)) && calls == old(calls) + 1
    {
      fault := faults(calls);
      calls := calls + 1;
    }

    method CreatePeer(name: string, p: BGPPeer) returns (ok: bool)
      modifies this`calls, this`peers
      ensures ok ==> name !in old(peers) && peers == Put(old(peers), name, Some(p))
      ensures peers == old(peers) || (name !in old(peers) && peers == Put(old(peers), name, Some(p)))
      ensures Reliable() && name !in old(peers) ==> ok
    {
      var fault := Call();
      if name in peers {
        return false;
      }
      if fault != Lost {
        peers := peers[name := p];
      }
      return fault == Done;
    }

    method PatchPeer(name: string, p: BGPPeer) returns (ok: bool)
      requires name in peers
      modifies this`calls, this`peers
      ensures peers == old(peers)[name := p] || (!ok && peers == old(peers))
      ensures Reliable() ==> ok
    {
      var fault := Call();
      if fault != Lost {
        peers := peers[name := p];
      }
      return fault == Done;
    }

    method DeletePeer(name: string) returns (ok: bool)
      requires name in peers
      modifies this`calls, this`peers
      ensures peers == old(peers) - {name} || (!ok && peers == old(peers))
      ensures Reliable() ==> ok
    {
      var fault := Call();
      if fault != Lost {
        peers := peers - {name};
      }
      return fault == Done;
    }

    method ListPeers() returns (ok: bool, names: seq<string>)
      modifies this`calls
      ensures ok ==> PeerListing(names, peers)
      ensures Reliable() ==> ok
    {
      var fault := Call();
      names := [];
      if fault != Done {
        return false, [];
      }
      var rest := set n | n in peers && peers[n].managed;
      while rest != {}
        invariant rest <= set n | n in peers && peers[n].managed
        invariant forall n :: Managed(peers, n) <==> n in rest || n in names
        invariant forall i :: 0 <= i < |names| ==> names[i] !in rest
        invariant forall i, j :: 0 <= i < j < |names| ==> names[i] != names[j]
        decreases rest
      {
        var n :| n in rest;
        names := names + [n];
        rest := rest - {n};
      }
      return true, names;
    }

    // ---- peers ----

    /** One stored peer that is requested. */
    method UpdateOne(name: string, want: PeerSpec, svc: Resource) returns (ok: bool, changed: bool)
      requires name in peers
      modifies this`calls, this`peers
      ensures var after := Put(old(peers), name, Some(Updated(old(peers)[name], want, svc)));
        (ok ==> peers == after) && (peers == after || peers == old(peers))
      ensures IsFull(svc) ==> (changed <==> Updated(old(peers)[name], want, svc) != old(peers)[name])
      ensures Reliable() ==> ok
    {
      hide AddService, Carrying;
      var o := peers[name];
      if IsFull(svc) {
        UpdatedMeans(o, want, svc);
        AddMeans(o, svc);
      }
      var added, sel := AddServiceLoop(CrdLabels, CrdServiceSelector, o.spec.selectors, svc);
      o := o.(spec := o.spec.(selectors := sel));
      assert (added, o) == PeerAddService(old(peers)[name], svc);
      changed := added;
      if !SpecEqual(o.spec, want) {
        o := o.(spec := want);
        changed := true;
      }
      if changed {
        ok := PatchPeer(name, o);
      } else {
        assert o == Updated(peers[name], want, svc);
        UnchangedSelectors(peers[name], svc);
        assert peers == peers[name := o];
        ok := true;
      }
    }

    /** `updateOrDeletePeerByService` */
    method UpdateOrDelete(name: string, svc: Resource) returns (ok: bool, changed: bool)
      requires name in peers
      modifies this`calls, this`peers
      ensures var after := Put(old(peers), name, Released(old(peers)[name], svc));
        (ok ==> peers == after) && (peers == after || peers == old(peers))
      ensures ok && IsFull(svc) ==> (changed <==> Released(old(peers)[name], svc) != Some(old(peers)[name]))
      ensures Reliable() ==> ok
    {
      hide RemoveService, Carrying;
      var o := peers[name];
      if IsFull(svc) {
        ReleasedMeans(o, svc);
        RemoveMeans(o, svc);
      }
      var found, size, sel := RemoveServiceLoop(CrdLabels, CrdServiceSelector, o.spec.selectors, svc);
      var p := o.(spec := o.spec.(selectors := sel));
      assert (found, size, p) == PeerRemoveService(o, svc);
      if found {
        if size > 0 {
          ok := PatchPeer(name, p);
        } else {
          ok := DeletePeer(name);
        }
        return ok, ok;
      }
      assert peers == peers[name := o];
      return true, false;
    }

    /** The loop over the stored peers: requested ones are updated, the others lose the service. */
    method Reconcile(names: seq<string>, news: News, svc: Resource)
      returns (ok: bool, changed: bool, toAdd: map<string, PeerSpec>)
      requires PeerListing(names, peers) && HasManaged(peers)
      modifies this`calls, this`peers
      ensures var after := UpdatePeers(old(peers), RequestOf(news), svc);
        && (ok ==> Through(old(peers), after, peers, NameSet(names)))
        && Between(old(peers), after, peers)
        && (ok && IsFull(svc) ==> (changed <==> exists n :: n in names && Differs(old(peers), after, n)))
      ensures ok ==> toAdd == LastOf(news) - NameSet(names)
      ensures Reliable() ==> ok
    {
      hide Updated, Released, Put, Differs, Between, UpdatePeers, FirstOf, LastOf, Through;
      ghost var before, after, done := peers, UpdatePeers(peers, RequestOf(news), svc), {};
      changed, toAdd := false, LastOf(news);
      ThroughStart(before, after);
      RequestNames(news);
      for i := 0 to |names|
        invariant Through(before, after, peers, done) && done == NameSet(names[..i])
        invariant toAdd == LastOf(news) - done
        invariant IsFull(svc) ==> (changed <==> exists n :: n in names[..i] && Differs(before, after, n))
      {
        var n := names[i];
        assert Managed(before, n);
        UpdateLookup(before, RequestOf(news), svc, n);
        NotYet(names, i, before, after, peers, done);
        ThroughStep(before, after, peers, done, n);
        var want := FindFirst(news, n);
        var touched: bool;
        if want.Some? {
          toAdd := toAdd - {n};
          ok, touched := UpdateOne(n, want.value, svc);
        } else {
          ok, touched := UpdateOrDelete(n, svc);
        }
        if !ok {
          return;
        }
        DiffersIs(before, after, n);
        assert names[..i + 1] == names[..i] + [n];
        done := done + {n};
        changed := changed || touched;
      }
      assert names[..|names|] == names;
      ThroughBetween(before, after, peers, done);
      ok := true;
    }

    /** Creates the requested peers that were not stored, in any order, with the service. */
    method CreateMissing(toAdd: map<string, PeerSpec>, svc: Resource, ghost before: PeerStore, ghost after: PeerStore,
                         ghost seen: set<string>) returns (ok: bool)
      requires Through(before, after, peers, seen) && toAdd.Keys !! seen
      requires forall n :: n in toAdd && n !in before ==> Lookup(after, n) == Some(Created(toAdd[n], svc))
      modifies this`calls, this`peers
      ensures ok ==> Through(before, after, peers, seen + toAdd.Keys) && toAdd.Keys !! before.Keys
      ensures Between(before, after, peers)
      ensures Reliable() && toAdd.Keys !! before.Keys ==> ok
    {
      hide Created, Put, Between, Through;
      var rest := toAdd.Keys;
      ghost var done := seen;
      ThroughBetween(before, after, peers, done);
      while rest != {}
        invariant rest <= toAdd.Keys && done == seen + (toAdd.Keys - rest)
        invariant Through(before, after, peers, done)
        invariant Between(before, after, peers)
        invariant (toAdd.Keys - rest) !! before.Keys
        decreases rest
      {
        var n :| n in rest;
        var _, sel := AddServiceLoop(CrdLabels, CrdServiceSelector, toAdd[n].selectors, svc);
        var p := BGPPeer(true, toAdd[n].(selectors := sel));
        CreatedIs(toAdd[n], svc);
        ThroughStep(before, after, peers, done, n);
        ThroughLookup(before, after, peers, done, n);
        ok := CreatePeer(n, p);
        if !ok {
          return;
        }
        rest := rest - {n};
        done := done + {n};
        assert toAdd.Keys - rest == (toAdd.Keys - (rest + {n})) + {n};
      }
      assert toAdd.Keys - rest == toAdd.Keys;
      ok := true;
    }

    /** With no managed peer stored, creates the requested peers as they are: without the service. */
    method CreateAll(news: News) returns (ok: bool)
      requires !HasManaged(peers)
      modifies this`calls, this`peers
      ensures var after := old(peers) + map n | n in FirstOf(news) :: Bare(FirstOf(news)[n]);
        (ok ==> peers == after) && Between(old(peers), after, peers)
      ensures ok ==> FirstOf(news).Keys !! old(peers).Keys && DistinctNames(news)
      ensures Reliable() && DistinctNames(news) && FirstOf(news).Keys !! old(peers).Keys ==> ok
    {
      hide Bare, FirstOf, Put, Between, Through;
      ghost var before, first := peers, FirstOf(news);
      ghost var after, done := before + map n | n in first :: Bare(first[n]), {};
      ThroughStart(before, after);
      ThroughBetween(before, after, peers, done);
      FirstNone();
      for i := 0 to |news|
        invariant Through(before, after, peers, done) && done == FirstOf(news[..i]).Keys && done !! before.Keys
        invariant Between(before, after, peers) && DistinctNames(news[..i])
      {
        var (n, spec) := news[i];
        FirstAt(news, i);
        ThroughStep(before, after, peers, done, n);
        ThroughLookup(before, after, peers, done, n);
        BareIs(spec);
        assert n !in done ==> Lookup(after, n) == Some(BGPPeer(true, spec));
        assert n in done ==> n in peers;
        ok := CreatePeer(n, BGPPeer(true, spec));
        if !ok {
          return;
        }
        done := done + {n};
        DistinctSnoc(news, i);
      }
      assert news[..|news|] == news;
      ThroughEnd(before, after, peers, done);
      ok := true;
    }

    /**
      Whatever API call fails, each peer is as before the call or as after it. If none fails, no
      unmanaged peer has a requested name, and a store without managed peers gets no name twice,
      the update succeeds.
     */
    method UpdatePeersByService(adds: seq<Peer>, svc: Resource) returns (ok: bool, changed: bool)
      modifies this`calls, this`peers
      ensures var news := ConvertAll(parse, adds);
        var after := UpdatePeers(old(peers), RequestOf(news), svc);
        && (ok ==> peers == after)
        && Between(old(peers), after, peers)
        && (ok && IsFull(svc) ==> (changed <==> !HasManaged(old(peers)) || peers != old(peers)))
        && (Reliable() && !Collides(old(peers), RequestOf(news)) ==> ok || !(HasManaged(old(peers)) || DistinctNames(news)))
        && (ok ==> !Collides(old(peers), RequestOf(news)))
        && (ok && IsFull(svc) ==> AllStored(old(peers), peers, parse, adds))
    {
      hide Between, Through, Created, Updated, Released, ConvertAll, FirstOf, LastOf, Differs;
      ghost var before := peers;
      var news := ConvertAll(parse, adds);
      ghost var w := RequestOf(news);
      ghost var after := UpdatePeers(before, w, svc);
      ThroughStart(before, after);
      ThroughBetween(before, after, before, {});
      RequestNames(news);
      var listed, names := ListPeers();
      if !listed {
        return false, false;
      }
      if names == [] {
        NoneListed(before);
        ok := CreateAll(news);
        changed := true;
        if ok && IsFull(svc) {
          EveryStored(before, parse, adds, svc);
        }
        return;
      }
      assert Managed(before, names[0]);
      var toAdd;
      ok, changed, toAdd := Reconcile(names, news, svc);
      if !ok {
        return;
      }
      forall n | n in toAdd && n !in before ensures Lookup(after, n) == Some(Created(toAdd[n], svc)) {
        UpdateLookup(before, w, svc, n);
      }
      Uncollided(before, w, names, toAdd.Keys);
      ok := CreateMissing(toAdd, svc, before, after, NameSet(names));
      if !ok {
        return;
      }
      AllVisited(before, w, svc, names, toAdd.Keys);
      ThroughEnd(before, after, peers, NameSet(names) + toAdd.Keys);
      WhetherChanged(before, after, names, toAdd.Keys);
      if IsFull(svc) {
        EveryStored(before, parse, adds, svc);
      }
      changed := changed || toAdd.Keys != {};
    }

    /** Succeeds when no API call fails, and then reports a change in any case. */
    method RemovePeersByService(svc: Resource) returns (ok: bool, changed: bool)
      modifies this`calls, this`peers
      ensures var after := ReleasePeers(old(peers), svc);
        (ok ==> peers == after) && Between(old(peers), after, peers)
      ensures changed == ok
      ensures Reliable() ==> ok
    {
      hide Released, Put, Between, Through, ReleasePeers;
      ghost var before, after, done := peers, ReleasePeers(peers, svc), {};
      ThroughStart(before, after);
      ThroughBetween(before, after, before, {});
      var listed, names := ListPeers();
      if !listed {
        return false, false;
      }
      for i := 0 to |names|
        invariant Through(before, after, peers, done) && done == NameSet(names[..i])
        invariant Between(before, after, peers)
      {
        var n := names[i];
        assert Managed(before, n);
        RemoveLookup(before, svc, n);
        NotYet(names, i, before, after, peers, done);
        ThroughStep(before, after, peers, done, n);
        var removed;
        ok, removed := UpdateOrDelete(n, svc);
        if !ok {
          return false, false;
        }
        done := done + {n};
      }
      assert names[..|names|] == names;
      forall n | n !in done ensures Lookup(after, n) == Lookup(before, n) { RemoveLookup(before, svc, n); }
      ThroughEnd(before, after, peers, done);
      return true, true;
    }

    // ---- address pools ----

    method ListPools() returns (ok: bool, names: seq<string>)
      modifies this`calls
      ensures ok ==> P.Listing(names, config.pools)
      ensures ok <==> faults(old(calls)) == Done
    {
      hide P.PoolManaged;
      var fault := Call();
      names := [];
      if fault != Done {
        return false, [];
      }
      var rest := P.ManagedNames(config.pools);
      while rest != {}
        invariant rest <= P.ManagedNames(config.pools)
        invariant forall n :: P.Managed(config.pools, n) ==> n in rest || n in names
        invariant P.AllManaged(names, config.pools) && P.NoDuplicates(names)
        invariant forall i :: 0 <= i < |names| ==> names[i] !in rest
        decreases rest
      {
        var n :| n in rest;
        names := names + [n];
        rest := rest - {n};
      }
      return true, names;
    }

    /** Create or patch a pool. */
    method WritePool(name: string, p: P.IPPool, create: bool) returns (ok: bool)
      modifies this`calls, this`config
      ensures var after := old(config).(pools := old(config.pools)[name := p]);
        (ok ==> config == after) && (config == after || config == old(config))
      ensures create && name in old(config.pools) ==> config == old(config) && !ok
      ensures Reliable() && !(create && name in old(config.pools)) ==> ok
    {
      var fault := Call();
      if create && name in config.pools {
        return false;
      }
      if fault != Lost {
        config := config.(pools := config.pools[name := p]);
      }
      return fault == Done;
    }

    method DeletePool(name: string) returns (ok: bool)
      modifies this`calls, this`config
      ensures var after := old(config).(pools := old(config.pools) - {name});
        (ok ==> config == after) && (config == after || config == old(config))
      ensures Reliable() ==> ok
    {
      var fault := Call();
      if fault != Lost {
        config := config.(pools := config.pools - {name});
      }
      return fault == Done;
    }

    /** Create, patch or, with None, delete the default advertisement. */
    method WriteAdvertisement(adv: Option<P.Advertisement>, create: bool) returns (ok: bool)
      modifies this`calls, this`config
      ensures var advs := old(config.advs);
        var after := old(config).(advs := if adv.Some? then advs[P.DEFAULT_ADVERTISEMENT := adv.value]
                                          else advs - {P.DEFAULT_ADVERTISEMENT});
        (ok ==> config == after) && (config == after || config == old(config))
      ensures create && P.DEFAULT_ADVERTISEMENT in old(config.advs) ==> config == old(config) && !ok
      ensures Reliable() && !(create && P.DEFAULT_ADVERTISEMENT in old(config.advs)) ==> ok
    {
      var fault := Call();
      if create && P.DEFAULT_ADVERTISEMENT in config.advs {
        return false;
      }
      if fault != Lost {
        config := config.(advs := if adv.Some? then config.advs[P.DEFAULT_ADVERTISEMENT := adv.value]
                                  else config.advs - {P.DEFAULT_ADVERTISEMENT});
      }
      return fault == Done;
    }

    /** The scan of the managed pools, in the order of their listing. */
    method ScanLoop(listing: seq<string>, name: string, add: P.IPPool, svc: Resource) returns (r: P.Scan)
      requires P.AllManaged(listing, config.pools)
      ensures r == P.ScanPools(listing, config.pools, name, add, svc)
    {
      hide P.Patched, P.PoolManaged;
      for i := 0 to |listing|
        invariant P.ScanPools(listing, config.pools, name, add, svc)
               == P.ScanPools(listing[i..], config.pools, name, add, svc)
      {
        assert listing[i..][1..] == listing[i + 1..] && listing[i..][0] == listing[i];
        var n := listing[i];
        var o := config.pools[n];
        var updateLabels, updateAddresses := false, false;
        if n == name {
          if P.ServiceLabelKey(svc) in o.labels {
            return P.AlreadyThere;
          }
          updateLabels := true;
        }
        for k := 0 to |add.addresses|
          invariant updateAddresses ==> P.Overlaps(o, add)
          invariant !updateAddresses ==> forall j :: 0 <= j < k ==> add.addresses[j] !in o.addresses
        {
          if add.addresses[k] in o.addresses {
            updateAddresses := true;
          }
        }
        assert updateAddresses == P.Overlaps(o, add);
        if updateLabels || updateAddresses {
          return P.Patch(n, P.Patched(o, n == name, add, svc));
        }
      }
      return P.Absent;
    }

    /**
      When every call succeeds the result is `AddPool` of the listing that was used. If one fails, nothing
      was done, or the pool was written and not advertised, or everything was done.
     */
    method AddAddressPool(name: string, add: P.IPPool, svc: Resource)
      returns (ok: bool, changed: bool, ghost listing: seq<string>)
      modifies this`calls, this`config
      ensures ok ==> P.Listing(listing, old(config.pools))
      ensures ok ==> (changed, config) == P.AddPool(old(config), listing, name, add, svc)
      ensures config == old(config)
        || (P.Listing(listing, old(config.pools)) && P.PartlyAdded(old(config), listing, name, add, svc, config))
      ensures Reliable() && (name in old(config.pools) ==> P.Managed(old(config.pools), name))
              && (P.DEFAULT_ADVERTISEMENT in old(config.advs) ==> old(config.advs)[P.DEFAULT_ADVERTISEMENT].managed)
              ==> ok
    {
      hide P.PoolManaged, P.ScanPools, P.Patched;
      changed := false;
      var names;
      ok, names := ListPools();
      listing := names;
      if !ok {
        return;
      }
      P.ScanMeans(names, config.pools, name, add, svc);
      var scan := ScanLoop(names, name, add, svc);
      match scan
      case AlreadyThere =>
        return true, false, names;
      case Patch(n, p) =>
        ok := WritePool(n, p, false);
        changed := ok;
        return;
      case Absent =>
        ok := WritePool(name, add, true);
        if !ok {
          return;
        }
        ok := AdvertisePool(name);
        changed := ok;
    }

    method AdvertisePool(name: string) returns (ok: bool)
      modifies this`calls, this`config
      ensures var after := old(config).(advs := P.Advertise(old(config.advs), name));
        (ok ==> config == after) && (config == after || config == old(config))
      ensures Reliable()
              && (P.DEFAULT_ADVERTISEMENT in old(config.advs) ==> old(config.advs)[P.DEFAULT_ADVERTISEMENT].managed)
              ==> ok
    {
      var fault := Call();
      if fault != Done {
        return false;
      }
      var managed := set a | a in config.advs && config.advs[a].managed;
      if managed == {} {
        assert forall a :: a in config.advs && config.advs[a].managed ==> a in managed;
        ok := WriteAdvertisement(Some(P.Advertisement(true, [name])), true);
      } else {
        assert exists a :: a in config.advs && config.advs[a].managed by { var a :| a in managed; }
        if P.DEFAULT_ADVERTISEMENT in managed {
          var adv := config.advs[P.DEFAULT_ADVERTISEMENT];
          ok := WriteAdvertisement(Some(adv.(pools := adv.pools + [name])), false);
        } else {
          ok := true;
        }
      }
    }

    /** The pool goes first, then its entries in the default advertisement; wherever a call fails, that is as far as it got. */
    method RemoveAddressPool(pool: string) returns (ok: bool)
      modifies this`calls, this`config
      ensures ok ==> config == P.RemovePool(old(config), pool)
      ensures P.PartlyRemoved(old(config), pool, config)
      ensures pool != "" && faults(old(calls)) != Done ==> !ok && config == old(config)
      ensures Reliable() ==> ok
    {
      hide P.PoolManaged, P.Stopped, P.RangeDelete;
      if pool == "" {
        return true;
      }
      var names;
      ok, names := ListPools();
      if !ok {
        return;
      }
      assert pool in names <==> P.Managed(config.pools, pool) by { assert pool in names ==> P.Managed(config.pools, pool); }
      for i := 0 to |names|
        invariant config == old(config).(pools := if pool in names[..i] then old(config.pools) - {pool} else old(config.pools))
      {
        assert names[..i + 1] == names[..i] + [names[i]];
        if names[i] == pool {
          ok := DeletePool(pool);
          if !ok {
            return;
          }
        }
      }
      assert names[..|names|] == names;
      var fault := Call();
      if fault != Done {
        return false;
      }
      if P.DEFAULT_ADVERTISEMENT in config.advs && config.advs[P.DEFAULT_ADVERTISEMENT].managed {
        ok := DeleteWhileRanging(config.advs[P.DEFAULT_ADVERTISEMENT], pool);
      } else {
        ok := true;
      }
    }

    /**
      The loop ranges over the slice it deletes from. The range was taken before the first deletion:
      it keeps its length, sees the elements that moved down, and blanks at the end.
     */
    method DeleteWhileRanging(adv: P.Advertisement, pool: string) returns (ok: bool)
      requires P.DEFAULT_ADVERTISEMENT in config.advs && config.advs[P.DEFAULT_ADVERTISEMENT] == adv
      requires adv.managed && pool != ""
      modifies this`calls, this`config
      ensures ok ==> config == old(config).(advs := P.Withdraw(old(config.advs), pool))
      ensures config.pools == old(config.pools) && P.Withdrawing(old(config.advs), pool, config.advs)
      ensures Reliable() ==> ok
    {
      hide P.RangeDelete, Ranging, P.Stopped, P.Withdrawing, P.Withdraw, P.Relisted;
      ghost var s, j := adv.pools, 0;
      var n := |adv.pools|;
      var a := new string[n](i requires 0 <= i < n => adv.pools[i]);
      var len := n;
      assert a[..] == s;
      RangingStart(s, pool);
      OnTheWay(config.advs, adv, pool);
      for i := 0 to n
        invariant len <= n && (i == 0 ==> len == n && a[..] == s)
        invariant s != [pool] || i == 0 ==> Ranging(a[..], s, pool, i, j, len)
        invariant config.pools == old(config.pools) && P.Withdrawing(old(config.advs), pool, config.advs)
        invariant s != [pool] ==> config.advs == P.Relisted(old(config.advs), adv, a[..len])
        invariant s == [pool] ==> config.advs == if i == 0 then old(config.advs) else old(config.advs) - {P.DEFAULT_ADVERTISEMENT}
      {
        ghost var was := a[..len];
        if a[i] == pool {
          RangingHit(a[..], s, pool, i, j, len);
          if len > 1 {
            ShiftDown(a, i, len);
            len := len - 1;
            j := if j + 1 < n then j + 2 else j + 1;
            RangingStopped(a[..], s, pool, i + 1, j, len);
            StoppedOnTheWay(old(config.advs), adv, pool, a[..len]);
            ok := Relist(adv, a[..len], old(config.advs), was);
          } else {
            ok := WriteAdvertisement(None, false);
          }
          if !ok {
            return;
          }
        } else {
          RangingMiss(a[..], s, pool, i, j, len);
          j := j + 1;
        }
      }
      if s != [pool] {
        RangingEnd(a[..], s, pool, n, j, len);
      }
      ok := true;
    }

    /** Patches the list of the default advertisement. */
    method Relist(adv: P.Advertisement, list: seq<string>, ghost advs: map<string, P.Advertisement>, ghost was: seq<string>)
      returns (ok: bool)
      requires config.advs == P.Relisted(advs, adv, was)
      modifies this`calls, this`config
      ensures config.pools == old(config.pools)
      ensures config.advs == P.Relisted(advs, adv, list) || (!ok && config.advs == old(config.advs))
      ensures Reliable() ==> ok
    {
      ok := WriteAdvertisement(Some(adv.(pools := list)), false);
    }
  }

  ghost function Shifted(arr: seq<string>, i: nat, len: nat): seq<string>
    requires i < len <= |arr|
  {
    arr[..i] + arr[i + 1..len] + [""] + arr[len..]
  }

  /**
    The range loop at index i, with arr the array behind the list and len the length of the list:
    the first j elements of s have been dealt with.
   */
  ghost predicate Ranging(arr: seq<string>, s: seq<string>, pool: string, i: nat, j: nat, len: nat) {
    && |arr| == |s| && len <= |s|
    && (forall k :: len <= k < |s| ==> arr[k] == "")
    && (i <= len ==> j <= |s| && len == i + (|s| - j) && arr[i..len] == s[j..])
    && (i <= len ==> P.RangeDelete(s, pool) == arr[..i] + P.RangeDelete(s[j..], pool))
    && (i > len ==> arr[..len] == P.RangeDelete(s, pool))
  }

  lemma RangingStart(s: seq<string>, pool: string)
    ensures Ranging(s, s, pool, 0, 0, |s|)
  {
    assert s[0..] == s;
  }

  lemma RangingMiss(arr: seq<string>, s: seq<string>, pool: string, i: nat, j: nat, len: nat)
    requires Ranging(arr, s, pool, i, j, len) && i < |s| && arr[i] != pool
    ensures Ranging(arr, s, pool, i + 1, j + 1, len)
  {
    hide P.RangeDelete;
    if i < len {
      assert arr[i..len][0] == s[j..][0];
      RangeStep(s, j, pool);
      assert arr[..i + 1] == arr[..i] + [arr[i]];
      assert arr[i + 1..len] == arr[i..len][1..] == s[j + 1..];
    } else if i == len {
      RangeNone(pool);
      assert s[j..] == [];
    }
  }

  lemma RangingHit(arr: seq<string>, s: seq<string>, pool: string, i: nat, j: nat, len: nat)
    requires Ranging(arr, s, pool, i, j, len) && i < |s| && arr[i] == pool && pool != ""
    ensures i < len && j < |s|
    ensures len == 1 ==> i == 0 && j == |s| - 1
    ensures Ranging(Shifted(arr, i, len), s, pool, i + 1, if j + 1 < |s| then j + 2 else j + 1, len - 1)
  {
    hide P.RangeDelete;
    assert i < len;
    assert arr[i..len][0] == s[j..][0];
    RangeStep(s, j, pool);
    var t := Shifted(arr, i, len);
    assert t[..i] == arr[..i];
    if j + 1 < |s| {
      assert arr[i..len][1] == s[j..][1] == s[j + 1];
      assert t[i] == s[j + 1];
      assert t[..i + 1] == arr[..i] + [s[j + 1]];
      assert t[i + 1..len - 1] == arr[i..len][2..] == s[j..][2..] == s[j + 2..];
    } else {
      assert t[..len - 1] == arr[..i];
    }
  }

  lemma RangingEnd(arr: seq<string>, s: seq<string>, pool: string, i: nat, j: nat, len: nat)
    requires Ranging(arr, s, pool, i, j, len) && i == |s|
    ensures arr[..len] == P.RangeDelete(s, pool)
  {
    hide P.RangeDelete;
    if i == len {
      RangeNone(pool);
      assert s[j..] == [];
    }
  }

  lemma OnTheWay(advs: map<string, P.Advertisement>, adv: P.Advertisement, pool: string)
    requires P.DEFAULT_ADVERTISEMENT in advs && advs[P.DEFAULT_ADVERTISEMENT] == adv && adv.managed
    ensures P.Withdrawing(advs, pool, advs) && P.Relisted(advs, adv, adv.pools) == advs
    ensures adv.pools == [pool] ==>
      P.Withdraw(advs, pool) == advs - {P.DEFAULT_ADVERTISEMENT} && P.Withdrawing(advs, pool, advs - {P.DEFAULT_ADVERTISEMENT})
    ensures adv.pools != [pool] ==>
      P.Withdraw(advs, pool) == P.Relisted(advs, adv, P.RangeDelete(adv.pools, pool))
  {
    hide P.RangeDelete, P.Stopped;
  }

  lemma StoppedOnTheWay(advs: map<string, P.Advertisement>, adv: P.Advertisement, pool: string, list: seq<string>)
    requires P.DEFAULT_ADVERTISEMENT in advs && advs[P.DEFAULT_ADVERTISEMENT] == adv && adv.managed
    requires adv.pools != [pool] && P.Stopped(adv.pools, pool, list)
    ensures P.Withdrawing(advs, pool, P.Relisted(advs, adv, list))
  {
    hide P.RangeDelete, P.Stopped;
  }

  /** Wherever the loop stops, the list is a beginning of the result and the untouched rest. */
  lemma RangingStopped(arr: seq<string>, s: seq<string>, pool: string, i: nat, j: nat, len: nat)
    requires Ranging(arr, s, pool, i, j, len) && i <= |s|
    ensures P.Stopped(s, pool, arr[..len])
  {
    hide P.RangeDelete;
    RangeNone(pool);
    var r := P.RangeDelete(s, pool);
    if i <= len {
      assert r[..i] == arr[..i] && arr[..len] == arr[..i] + arr[i..len];
      assert P.StoppedAt(s, pool, arr[..len], i, j);
    } else {
      assert s[|s|..] == [] && arr[..len] == r[..|r|] + s[|s|..];
      assert P.StoppedAt(s, pool, arr[..len], |r|, |s|);
    }
  }

  lemma RangeNone(pool: string)
    ensures P.RangeDelete([], pool) == []
  {
  }

  /** `slices.Delete(s, i, i + 1)`: moves the rest down in place and clears the slot left over. */
  method ShiftDown(a: array<string>, i: nat, len: nat)
    requires i < len <= a.Length
    modifies a
    ensures a[..] == Shifted(old(a[..]), i, len)
  {
    for k := i to len - 1
      invariant forall m :: 0 <= m < i ==> a[m] == old(a[m])
      invariant forall m :: i <= m < k ==> a[m] == old(a[m + 1])
      invariant forall m :: k <= m < a.Length ==> a[m] == old(a[m])
    {
      a[k] := a[k + 1];
    }
    a[len - 1] := "";
    ghost var t := Shifted(old(a[..]), i, len);
    assert forall m :: 0 <= m < a.Length ==> a[m] == t[m];
  }

  /** One step of `RangeDelete` from position j. */
  lemma RangeStep(s: seq<string>, j: nat, pool: string)
    requires j < |s|
    ensures P.RangeDelete(s[j..], pool) ==
      if s[j] != pool then [s[j]] + P.RangeDelete(s[j + 1..], pool)
      else if j + 1 == |s| then []
      else [s[j + 1]] + P.RangeDelete(s[j + 2..], pool)
  {
    assert s[j..][0] == s[j] && s[j..][1..] == s[j + 1..];
    if j + 1 < |s| {
      assert s[j..][1] == s[j + 1] && s[j..][2..] == s[j + 2..];
    }
  }

  lemma RemoveLookup(s: PeerStore, svc: Resource, n: string)
    ensures Lookup(ReleasePeers(s, svc), n) ==
      if Managed(s, n) then Released(s[n], svc) else Lookup(s, n)
  {
    hide Released;
  }

  lemma NoneListed(s: PeerStore)
    requires PeerListing([], s)
    ensures !HasManaged(s)
  {
    assert forall n :: !Managed(s, n);
    if HasManaged(s) {
      var n :| n in s && s[n].managed;
      assert Managed(s, n);
    }
  }

  lemma FirstNone()
    ensures FirstOf([]) == map[]
  {
  }

  lemma BareIs(spec: PeerSpec)
    ensures Bare(spec) == BGPPeer(true, spec)
  {
  }

  lemma CreatedIs(want: PeerSpec, svc: Resource)
    ensures Created(want, svc) ==
      BGPPeer(true, want.(selectors := AddService(CrdLabels, CrdServiceSelector, want.selectors, svc).1))
  {
    hide AddService;
  }

  lemma ThroughLookup(before: PeerStore, after: PeerStore, now: PeerStore, done: set<string>, n: string)
    requires Through(before, after, now, done)
    ensures n !in done ==> (n in now <==> n in before)
    ensures n in done ==> (n in now <==> n in after)
  {
    assert Lookup(now, n) == if n in done then Lookup(after, n) else Lookup(before, n);
  }

  /** If no unmanaged peer has a requested name, the names left to create are not stored. */
  lemma Uncollided(before: PeerStore, w: Request, names: seq<string>, left: set<string>)
    requires PeerListing(names, before) && left == w.last.Keys - NameSet(names) && ValidRequest(w)
    ensures !Collides(before, w) <==> left !! before.Keys
  {
    if !Collides(before, w) {
      forall n | n in left ensures n !in before {
        assert n in w.first;
        assert Managed(before, n) ==> n in names;
      }
    }
  }

  lemma AllVisited(before: PeerStore, w: Request, svc: Resource, names: seq<string>, left: set<string>)
    requires PeerListing(names, before) && HasManaged(before)
    requires left == w.last.Keys - NameSet(names)
    ensures forall n :: n !in NameSet(names) + left ==>
              Lookup(UpdatePeers(before, w, svc), n) == Lookup(before, n)
  {
    hide Updated, Released, Created, UpdatePeers;
    forall n | n !in NameSet(names) + left
      ensures Lookup(UpdatePeers(before, w, svc), n) == Lookup(before, n)
    {
      UpdateLookup(before, w, svc, n);
      assert Managed(before, n) ==> n in names;
    }
  }

  lemma WhetherChanged(before: PeerStore, after: PeerStore, names: seq<string>, left: set<string>)
    requires forall n :: n !in NameSet(names) + left ==> Lookup(after, n) == Lookup(before, n)
    requires left !! before.Keys && left <= after.Keys
    ensures after != before <==> (exists n :: n in names && Differs(before, after, n)) || left != {}
  {
    if n :| n in left {
      assert n in after && n !in before;
    }
    if after != before && !(exists n :: n in names && Differs(before, after, n)) && left == {} {
      forall n ensures Lookup(after, n) == Lookup(before, n) {
        assert n in names ==> !Differs(before, after, n);
      }
      SameLookups(before, after);
    }
    if n :| n in names && Differs(before, after, n) {
      assert Lookup(after, n) != Lookup(before, n);
    }
  }

  ghost function NameSet(names: seq<string>): set<string> { set n | n in names }

  lemma ThroughStart(before: PeerStore, after: PeerStore)
    ensures Through(before, after, before, {}) && NameSet([]) == {}
  {
  }

  lemma ThroughBetween(before: PeerStore, after: PeerStore, now: PeerStore, done: set<string>)
    requires Through(before, after, now, done)
    ensures Between(before, after, now)
  {
  }

  /** A listed name that has not been visited is as it was. */
  lemma NotYet(names: seq<string>, i: nat, before: PeerStore, after: PeerStore, now: PeerStore, done: set<string>)
    requires PeerListing(names, before) && i < |names| && done == NameSet(names[..i])
    requires Through(before, after, now, done)
    ensures names[i] in now && now[names[i]] == before[names[i]]
    ensures NameSet(names[..i + 1]) == done + {names[i]}
  {
    assert names[i] !in done;
    assert Lookup(now, names[i]) == Lookup(before, names[i]);
    assert Managed(before, names[i]);
    assert names[..i + 1] == names[..i] + [names[i]];
  }

  lemma DiffersIs(before: PeerStore, after: PeerStore, n: string)
    ensures Differs(before, after, n) <==> Lookup(after, n) != Lookup(before, n)
  {
  }

  lemma UnchangedSelectors(p: BGPPeer, svc: Resource)
    ensures var (changed, q) := PeerAddService(p, svc); !changed ==> q == p
  {
  }
}
