/**
  IPAddressPool and BGPAdvertisement custom resources: one pool per service, and one default
  advertisement that lists the pools.
 */
module CrdPools {
  import opened Order
  import opened Text
  import opened Services

  const DEFAULT_ADVERTISEMENT := "equinix-metal-bgp-adv"
  const MANAGED_KEY := "cloud-provider"
  const MANAGED_VALUE := "equinix-metal"

  datatype IPPool = IPPool(labels: map<string, string>, addresses: seq<string>, autoAssign: bool, avoidBuggyIPs: bool)

  datatype Advertisement = Advertisement(managed: bool, pools: seq<string>)

  datatype State = State(pools: map<string, IPPool>, advs: map<string, Advertisement>)

  predicate PoolManaged(p: IPPool) { MANAGED_KEY in p.labels && p.labels[MANAGED_KEY] == MANAGED_VALUE }

  predicate Managed(pools: map<string, IPPool>, n: string) { n in pools && PoolManaged(pools[n]) }

  function ManagedNames(pools: map<string, IPPool>): set<string> { set n | n in pools && PoolManaged(pools[n]) }

  function ServiceLabelKey(svc: Resource): string { "service-" + svc.name }

  function ServiceLabelValue(svc: Resource): string { "namespace-" + svc.namespace }

  /** `convertToIPAddr` */
  function NewPool(addresses: seq<string>, autoAssign: bool, avoidBuggyIPs: bool, svc: Resource): IPPool {
    IPPool(map[MANAGED_KEY := MANAGED_VALUE, ServiceLabelKey(svc) := ServiceLabelValue(svc)],
           addresses, autoAssign, avoidBuggyIPs)
  }

  lemma ServiceKeyIsNotManagedKey(svc: Resource)
    ensures ServiceLabelKey(svc) != MANAGED_KEY
  {
    assert ServiceLabelKey(svc)[0] == 's' && MANAGED_KEY[0] == 'c';
  }

  // ---- pool names ----

  predicate NameChar(c: char) { 'a' <= c <= 'z' || 'A' <= c <= 'Z' || '0' <= c <= '9' || c == '-' }

  /** What is left of a name when the characters outside [a-zA-Z0-9-] are dropped. */
  function Strip(s: string): (r: string)
    ensures forall i :: 0 <= i < |r| ==> NameChar(r[i])
  {
    if s == "" then "" else (if NameChar(s[0]) then [s[0]] else "") + Strip(s[1..])
  }

  function PoolName(svc: Resource): string { Strip(svc.namespace) + "." + Strip(svc.name) }

  /** A DNS label in the sense of section 2.1 of RFC 1123: letters, digits and hyphens, at least one. */
  predicate IsLabel(s: string) { s != "" && forall i :: 0 <= i < |s| ==> NameChar(s[i]) }

  predicate Labelled(svc: Resource) { IsLabel(svc.namespace) && IsLabel(svc.name) }

  lemma {:induction false} StripLabel(s: string)
    requires forall i :: 0 <= i < |s| ==> NameChar(s[i])
    ensures Strip(s) == s
  {
    if s != "" {
      StripLabel(s[1..]);
    }
  }

  /** Exactly the other characters are dropped, each on its own. */
  lemma {:induction false} StripConcat(s: string, t: string)
    ensures Strip(s + t) == Strip(s) + Strip(t)
    ensures |s| == 1 ==> Strip(s) == if NameChar(s[0]) then s else ""
  {
    hide NameChar;
    if s == "" {
      assert s + t == t;
    } else {
      StripConcat(s[1..], t);
      Behead(s, t);
      var h := if NameChar(s[0]) then [s[0]] else "";
      assert Strip(s) == h + Strip(s[1..]) && Strip(s + t) == h + Strip(s[1..] + t);
      hide Strip;
      Associate(h, Strip(s[1..]), Strip(t));
    }
  }

  /** Two services share a pool name exactly when they agree up to dropped characters: never, if they are DNS labels. */
  lemma PoolNameExact(a: Resource, b: Resource)
    ensures PoolName(a) == PoolName(b) <==> Strip(a.namespace) == Strip(b.namespace) && Strip(a.name) == Strip(b.name)
    ensures Labelled(a) && Labelled(b) && PoolName(a) == PoolName(b) ==> a == b
    ensures Labelled(a) ==> PoolName(a) == a.namespace + "." + a.name
  {
    if PoolName(a) == PoolName(b) {
      FirstSplitUnique(Strip(a.namespace), Strip(a.name), Strip(b.namespace), Strip(b.name), '.');
    }
    if Labelled(a) {
      StripLabel(a.namespace);
      StripLabel(a.name);
    }
    if Labelled(b) {
      StripLabel(b.namespace);
      StripLabel(b.name);
    }
  }

  // ---- adding a pool ----

  /** Drops repetitions in a sorted list. */
  function Compact(s: seq<string>): (r: seq<string>)
    ensures |r| <= |s|
  {
    if |s| <= 1 then s
    else if s[0] == s[1] then Compact(s[1..])
    else [s[0]] + Compact(s[1..])
  }

  /**
    The addresses of an overlapping pool: the sorted concatenation is compacted in place, which
    blanks what it drops at the end, and then stored at its full length.
   */
  function Overlapped(old': seq<string>, add: seq<string>): seq<string> {
    var all := SortStrings(old' + add);
    Compact(all) + seq(|all| - |Compact(all)|, _ => "")
  }

  lemma {:induction false} CompactMeans(s: seq<string>)
    requires Ascending(StringCmp, s)
    ensures var r := Compact(s);
      && (forall i, j :: 0 <= i < j < |r| ==> StringLess(r[i], r[j]))
      && (forall x :: x in r <==> x in s) && (s != [] ==> r != [] && r[0] == s[0])
  {
    hide StringCmp;
    StringTotal();
    if |s| > 1 {
      TailAscending(StringCmp, s);
      CompactMeans(s[1..]);
      assert s == [s[0]] + s[1..];
      if s[0] != s[1] {
        var t := Compact(s[1..]);
        forall j | 0 <= j < |t| ensures StringLess(s[0], t[j]) {
          assert StringLess(s[0], s[1]) && (j > 0 ==> StringLess(t[0], t[j]));
          assert Chain(StringCmp, s[0], t[0], t[j]);
        }
      }
    }
  }

  /**
    The addresses that both pools have between them, ascending and each once, and a blank for every
    repetition: the list is as long as the two together.
   */
  lemma OverlappedMeans(old': seq<string>, add: seq<string>) returns (k: nat)
    ensures var r := Overlapped(old', add);
      && |r| == |old'| + |add| && k <= |r|
      && (forall i, j :: 0 <= i < j < k ==> StringLess(r[i], r[j]))
      && (forall x :: x in r[..k] <==> x in old' || x in add)
      && (forall i :: k <= i < |r| ==> r[i] == "")
  {
    hide StringCmp, Compact;
    var all := SortStrings(old' + add);
    SortStringsAscending(old' + add);
    CompactMeans(all);
    var c := Compact(all);
    k := |c|;
    assert Overlapped(old', add)[..k] == c;
    forall x ensures x in all <==> x in old' || x in add {
      assert x in all <==> x in multiset(old' + add);
    }
  }

  datatype Scan = AlreadyThere | Patch(name: string, pool: IPPool) | Absent

  predicate Overlaps(o: IPPool, add: IPPool) { exists a :: a in add.addresses && a in o.addresses }

  /** A stored pool with the name or with an address of the new one. */
  function Patched(o: IPPool, sameName: bool, add: IPPool, svc: Resource): IPPool {
    o.(labels := if sameName then o.labels[ServiceLabelKey(svc) := ServiceLabelValue(svc)] else o.labels,
       addresses := if Overlaps(o, add) then Overlapped(o.addresses, add.addresses) else o.addresses)
  }

  /** Only the service's label is new, and only the addresses change, only if the pools share one. */
  lemma PatchedMeans(o: IPPool, sameName: bool, add: IPPool, svc: Resource)
    ensures var p := Patched(o, sameName, add, svc);
      && p.autoAssign == o.autoAssign && p.avoidBuggyIPs == o.avoidBuggyIPs
      && (forall k :: k in p.labels <==> k in o.labels || (sameName && k == "service-" + svc.name))
      && (forall k :: k in p.labels ==> p.labels[k] == if sameName && k == "service-" + svc.name then "namespace-" + svc.namespace else o.labels[k])
      && (p.addresses != o.addresses ==> exists a :: a in o.addresses && a in add.addresses)
      && ((exists a :: a in o.addresses && a in add.addresses) ==> p.addresses == Overlapped(o.addresses, add.addresses))
  {
    hide Overlapped;
  }

  ghost predicate AllManaged(listing: seq<string>, pools: map<string, IPPool>) {
    forall i :: 0 <= i < |listing| ==> Managed(pools, listing[i])
  }

  /** The loop over the managed pools, in the order of the listing. */
  function ScanPools(listing: seq<string>, pools: map<string, IPPool>, name: string, add: IPPool, svc: Resource): Scan
    requires AllManaged(listing, pools)
  {
    if listing == [] then Absent
    else
      var n, o := listing[0], pools[listing[0]];
      if n == name && ServiceLabelKey(svc) in o.labels then AlreadyThere
      else if n == name || Overlaps(o, add) then Patch(n, Patched(o, n == name, add, svc))
      else ScanPools(listing[1..], pools, name, add, svc)
  }

  /** A listing of the managed pools: each once, in any order. */
  ghost predicate Listing(listing: seq<string>, pools: map<string, IPPool>) {
    && AllManaged(listing, pools) && NoDuplicates(listing)
    && (forall n :: Managed(pools, n) ==> n in listing)
  }

  function Advertise(advs: map<string, Advertisement>, name: string): map<string, Advertisement> {
    if !exists a :: a in advs && advs[a].managed then
      advs[DEFAULT_ADVERTISEMENT := Advertisement(true, [name])]
    else if DEFAULT_ADVERTISEMENT in advs && advs[DEFAULT_ADVERTISEMENT].managed then
      var adv := advs[DEFAULT_ADVERTISEMENT];
      advs[DEFAULT_ADVERTISEMENT := adv.(pools := adv.pools + [name])]
    else advs
  }

  /** With managed advertisements but no managed default one, nothing is advertised; with none, the default one is made. */
  lemma AdvertiseMeans(advs: map<string, Advertisement>, name: string, other: string)
    ensures other in advs && advs[other].managed && !(DEFAULT_ADVERTISEMENT in advs && advs[DEFAULT_ADVERTISEMENT].managed) ==>
      Advertise(advs, name) == advs
    ensures (forall a :: a in advs ==> !advs[a].managed) ==>
      Advertise(advs, name) == advs["equinix-metal-bgp-adv" := Advertisement(true, [name])]
  {
  }

  /** Whether anything changed, and the new state, when every API call succeeds. */
  function AddPool(st: State, listing: seq<string>, name: string, add: IPPool, svc: Resource): (bool, State)
    requires AllManaged(listing, st.pools)
  {
    match ScanPools(listing, st.pools, name, add, svc)
    case AlreadyThere => (false, st)
    case Patch(n, p) => (true, st.(pools := st.pools[n := p]))
    case Absent => (true, State(st.pools[name := add], Advertise(st.advs, name)))
  }

  /** No listed pool but the named one shares an address with the new pool. */
  ghost predicate ApartFrom(listing: seq<string>, pools: map<string, IPPool>, name: string, add: IPPool) {
    forall n :: n in listing && n in pools && n != name ==> !Overlaps(pools[n], add)
  }

  lemma {:induction false} ScanMeans(listing: seq<string>, pools: map<string, IPPool>, name: string, add: IPPool, svc: Resource)
    requires AllManaged(listing, pools)
    ensures var r := ScanPools(listing, pools, name, add, svc);
      && (r == AlreadyThere ==> name in listing && ServiceLabelKey(svc) in pools[name].labels)
      && (r.Patch? ==> r.name in listing && PoolManaged(r.pool))
      && (r == Absent ==> name !in listing && forall n :: n in listing ==> !Overlaps(pools[n], add))
      && (ApartFrom(listing, pools, name, add) && name in listing ==>
            (r == AlreadyThere <==> ServiceLabelKey(svc) in pools[name].labels))
      && (ApartFrom(listing, pools, name, add) && name !in listing ==> r == Absent)
  {
    ServiceKeyIsNotManagedKey(svc);
    if listing != [] {
      ScanMeans(listing[1..], pools, name, add, svc);
      assert listing == [listing[0]] + listing[1..];
    }
  }

  /** The first listed pool with the name or an address of the new one decides. */
  lemma {:induction false} ScanFirst(listing: seq<string>, pools: map<string, IPPool>, name: string, add: IPPool, svc: Resource, i: nat)
    requires AllManaged(listing, pools) && i <= |listing|
    requires forall j :: 0 <= j < i ==> listing[j] != name && forall a :: a in add.addresses ==> a !in pools[listing[j]].addresses
    ensures var r := ScanPools(listing, pools, name, add, svc);
      if i == |listing| then r == Absent
      else
        var n, o := listing[i], pools[listing[i]];
        && (n == name && "service-" + svc.name in o.labels ==> r == AlreadyThere)
        && (n == name && "service-" + svc.name !in o.labels ==> r == Patch(n, Patched(o, true, add, svc)))
        && (n != name && (exists a :: a in add.addresses && a in o.addresses) ==> r == Patch(n, Patched(o, false, add, svc)))
  {
    hide Patched, PoolManaged;
    if i > 0 {
      ScanFirst(listing[1..], pools, name, add, svc, i - 1);
    }
  }

  // ---- removing a pool ----

  /**
    What is left of a list when the loop that ranges over it deletes from it: the element
    behind a deleted one moves into its place and is not looked at.
   */
  function RangeDelete(s: seq<string>, pool: string): seq<string> {
    if s == [] then []
    else if s[0] != pool then [s[0]] + RangeDelete(s[1..], pool)
    else if |s| == 1 then []
    else [s[1]] + RangeDelete(s[2..], pool)
  }

  predicate AdjacentPair(s: seq<string>, pool: string) {
    exists i :: 0 <= i < |s| - 1 && s[i] == pool && s[i + 1] == pool
  }

  /** The loop removes every occurrence exactly when no two of them are adjacent. */
  lemma {:induction false} RangeDeleteExact(s: seq<string>, pool: string)
    ensures pool !in RangeDelete(s, pool) <==> !AdjacentPair(s, pool)
    ensures forall x :: x != pool ==> (x in RangeDelete(s, pool) <==> x in s)
    decreases |s|
  {
    if s != [] {
      if s[0] != pool {
        RangeDeleteExact(s[1..], pool);
        ShiftPair(s, 1, pool);
        assert s == [s[0]] + s[1..];
      } else if |s| > 1 {
        RangeDeleteExact(s[2..], pool);
        assert s == [s[0], s[1]] + s[2..];
        if s[1] == pool {
          assert s[0] == pool && s[0 + 1] == pool;
        } else {
          ShiftPair(s, 2, pool);
        }
      }
    }
  }

  lemma ShiftPair(s: seq<string>, k: nat, pool: string)
    requires 0 < k <= |s| && forall i :: 0 <= i < k - 1 ==> !(s[i] == pool && s[i + 1] == pool)
    requires s[k - 1] != pool
    ensures AdjacentPair(s, pool) <==> AdjacentPair(s[k..], pool)
  {
    if AdjacentPair(s[k..], pool) {
      var i :| 0 <= i < |s[k..]| - 1 && s[k..][i] == pool && s[k..][i + 1] == pool;
      assert s[k + i] == pool && s[k + i + 1] == pool;
    }
    if AdjacentPair(s, pool) {
      var i :| 0 <= i < |s| - 1 && s[i] == pool && s[i + 1] == pool;
      if i >= k {
        assert s[k..][i - k] == pool && s[k..][i - k + 1] == pool;
      }
    }
  }

  ghost predicate NoDuplicates(s: seq<string>) { forall i, j :: 0 <= i < j < |s| ==> s[i] != s[j] }

  lemma {:induction false} RangeDeleteDistinct(s: seq<string>, pool: string)
    requires NoDuplicates(s)
    ensures NoDuplicates(RangeDelete(s, pool))
    decreases |s|
  {
    if s != [] {
      var rest := if s[0] != pool then s[1..] else if |s| == 1 then [] else s[2..];
      RangeDeleteDistinct(rest, pool);
      RangeDeleteExact(rest, pool);
      var r := RangeDelete(rest, pool);
      forall x | x in r ensures x in rest { RangeDeleteSound(rest, pool, x); }
      if s[0] != pool {
        ConsDistinct(s[0], r);
      } else if |s| > 1 {
        ConsDistinct(s[1], r);
      }
    }
  }

  lemma ConsDistinct(x: string, s: seq<string>)
    requires NoDuplicates(s) && x !in s
    ensures NoDuplicates([x] + s)
  {
  }

  lemma {:induction false} RangeDeleteSound(s: seq<string>, pool: string, x: string)
    requires x in RangeDelete(s, pool)
    ensures x in s
    decreases |s|
  {
    if s[0] != pool {
      if x != s[0] {
        RangeDeleteSound(s[1..], pool, x);
      }
    } else if x != s[1] {
      RangeDeleteSound(s[2..], pool, x);
    }
  }

  lemma {:induction false} RangeDeleteSplit(s: seq<string>, j: nat, pool: string)
    requires j <= |s| && pool !in s[..j]
    ensures RangeDelete(s, pool) == s[..j] + RangeDelete(s[j..], pool)
  {
    if j == 0 {
      assert s[0..] == s;
    } else {
      assert s[0] in s[..j] && s[..j] == [s[0]] + s[1..][..j - 1];
      RangeDeleteSplit(s[1..], j - 1, pool);
      assert s[1..][j - 1..] == s[j..];
    }
  }

  lemma RangeDeleteNothing(s: seq<string>, pool: string)
    requires pool !in s
    ensures RangeDelete(s, pool) == s
  {
    assert s[..|s|] == s && s[|s|..] == [];
    RangeDeleteSplit(s, |s|, pool);
  }

  /** The loop over s stopped: i elements of its result, and the elements of s from j on that it has yet to look at. */
  ghost predicate StoppedAt(s: seq<string>, pool: string, now: seq<string>, i: nat, j: nat) {
    var r := RangeDelete(s, pool);
    i <= |r| && j <= |s| && now == r[..i] + s[j..] && r[i..] == RangeDelete(s[j..], pool)
  }

  ghost predicate Stopped(s: seq<string>, pool: string, now: seq<string>) { exists i: nat, j: nat :: StoppedAt(s, pool, now, i, j) }

  /** In a list without duplicates the loop makes one change, so wherever it stops the list is the old one or the new one. */
  lemma StoppedIsEither(s: seq<string>, pool: string, now: seq<string>)
    requires NoDuplicates(s) && Stopped(s, pool, now)
    ensures now == s || now == RangeDelete(s, pool)
  {
    var i: nat, j: nat :| StoppedAt(s, pool, now, i, j);
    var r := RangeDelete(s, pool);
    if pool in s[j..] {
      assert pool !in s[..j];
      RangeDeleteSplit(s, j, pool);
      assert |r[i..]| == |RangeDelete(s[j..], pool)|;
      assert i == j && r[..i] == s[..j];
      assert now == s[..j] + s[j..] == s;
    } else {
      RangeDeleteNothing(s[j..], pool);
      assert now == r[..i] + r[i..] == r;
    }
  }

  function Withdraw(advs: map<string, Advertisement>, pool: string): map<string, Advertisement> {
    if DEFAULT_ADVERTISEMENT in advs && advs[DEFAULT_ADVERTISEMENT].managed then
      var adv := advs[DEFAULT_ADVERTISEMENT];
      if adv.pools == [pool] then advs - {DEFAULT_ADVERTISEMENT}
      else advs[DEFAULT_ADVERTISEMENT := adv.(pools := RangeDelete(adv.pools, pool))]
    else advs
  }

  function RemovePool(st: State, pool: string): State {
    if pool == "" then st
    else State(if Managed(st.pools, pool) then st.pools - {pool} else st.pools, Withdraw(st.advs, pool))
  }

  /** Neither call touches another pool, a pool of others, or another advertisement. */
  lemma PoolFrame(st: State, listing: seq<string>, name: string, add: IPPool, svc: Resource, n: string)
    requires AllManaged(listing, st.pools)
    ensures var t := AddPool(st, listing, name, add, svc).1;
      && (n in st.pools ==> n in t.pools)
      && (n in st.pools && n != name && (n in listing ==> !Overlaps(st.pools[n], add)) ==> t.pools[n] == st.pools[n])
      && (n in t.pools && n !in st.pools ==> n == name && t.pools[n] == add)
      && (n != DEFAULT_ADVERTISEMENT ==> (n in t.advs <==> n in st.advs) && (n in st.advs ==> t.advs[n] == st.advs[n]))
    ensures var t := RemovePool(st, name);
      && (n in t.pools <==> n in st.pools && !(n == name && name != "" && Managed(st.pools, n)))
      && (n in t.pools ==> t.pools[n] == st.pools[n])
      && (n != DEFAULT_ADVERTISEMENT ==> (n in t.advs <==> n in st.advs) && (n in st.advs ==> t.advs[n] == st.advs[n]))
  {
    hide ScanPools, PoolManaged, RangeDelete, Overlaps;
    ScanOnly(listing, st.pools, name, add, svc);
  }

  lemma {:induction false} ScanOnly(listing: seq<string>, pools: map<string, IPPool>, name: string, add: IPPool, svc: Resource)
    requires AllManaged(listing, pools)
    ensures var r := ScanPools(listing, pools, name, add, svc);
      r.Patch? ==> r.name in listing && (r.name == name || Overlaps(pools[r.name], add))
    ensures ScanPools(listing, pools, name, add, svc) == Absent ==> name !in listing
  {
    hide Overlaps, Patched;
    if listing != [] {
      ScanOnly(listing[1..], pools, name, add, svc);
      assert listing == [listing[0]] + listing[1..];
    }
  }

  // ---- the advertisement invariant ----

  /** Only the default advertisement is managed; it exists iff a managed pool does, and lists each of them once. */
  ghost predicate AdvInv(st: State) {
    && (forall a :: a in st.advs && st.advs[a].managed ==> a == DEFAULT_ADVERTISEMENT)
    && (DEFAULT_ADVERTISEMENT in st.advs ==> st.advs[DEFAULT_ADVERTISEMENT].managed)
    && (DEFAULT_ADVERTISEMENT in st.advs <==> ManagedNames(st.pools) != {})
    && (DEFAULT_ADVERTISEMENT in st.advs ==> Lists(st.advs[DEFAULT_ADVERTISEMENT].pools, ManagedNames(st.pools)))
  }

  ghost predicate Lists(s: seq<string>, names: set<string>) {
    NoDuplicates(s) && forall n :: n in s <==> n in names
  }

  lemma AddKeepsAdvInv(st: State, listing: seq<string>, name: string, add: IPPool, svc: Resource)
    requires AdvInv(st) && Listing(listing, st.pools) && PoolManaged(add)
    requires name in st.pools ==> PoolManaged(st.pools[name])
    ensures AdvInv(AddPool(st, listing, name, add, svc).1)
  {
    hide ScanPools, PoolManaged;
    ScanMeans(listing, st.pools, name, add, svc);
    var t := AddPool(st, listing, name, add, svc).1;
    match ScanPools(listing, st.pools, name, add, svc)
    case AlreadyThere =>
    case Patch(n, p) =>
      assert n in listing;
      assert ManagedNames(t.pools) == ManagedNames(st.pools);
    case Absent =>
      assert name !in st.pools;
      assert ManagedNames(t.pools) == ManagedNames(st.pools) + {name};
      AdvertiseLists(st.advs, ManagedNames(st.pools), name);
  }

  lemma AdvertiseLists(advs: map<string, Advertisement>, names: set<string>, name: string)
    requires forall a :: a in advs && advs[a].managed ==> a == DEFAULT_ADVERTISEMENT
    requires DEFAULT_ADVERTISEMENT in advs ==>
      advs[DEFAULT_ADVERTISEMENT].managed && Lists(advs[DEFAULT_ADVERTISEMENT].pools, names)
    requires DEFAULT_ADVERTISEMENT in advs <==> names != {}
    requires name !in names
    ensures var t := Advertise(advs, name);
      && DEFAULT_ADVERTISEMENT in t && t[DEFAULT_ADVERTISEMENT].managed
      && Lists(t[DEFAULT_ADVERTISEMENT].pools, names + {name})
      && t[DEFAULT_ADVERTISEMENT].pools == (if DEFAULT_ADVERTISEMENT in advs then advs[DEFAULT_ADVERTISEMENT].pools else []) + [name]
      && (forall a :: a in t && t[a].managed ==> a == DEFAULT_ADVERTISEMENT)
  {
    var t := Advertise(advs, name);
    if DEFAULT_ADVERTISEMENT in advs {
      var s := advs[DEFAULT_ADVERTISEMENT].pools;
      assert advs[DEFAULT_ADVERTISEMENT].managed;
      assert name !in s;
      assert t[DEFAULT_ADVERTISEMENT].pools == s + [name];
    }
  }

  lemma RemoveKeepsAdvInv(st: State, pool: string)
    requires AdvInv(st)
    ensures AdvInv(RemovePool(st, pool))
  {
    hide PoolManaged;
    if pool != "" {
      var t := RemovePool(st, pool);
      assert ManagedNames(t.pools) == ManagedNames(st.pools) - {pool};
      if DEFAULT_ADVERTISEMENT in st.advs {
        WithdrawLists(st.advs[DEFAULT_ADVERTISEMENT].pools, ManagedNames(st.pools), pool);
      } else {
        assert ManagedNames(t.pools) == {};
      }
    }
  }

  lemma WithdrawLists(s: seq<string>, names: set<string>, pool: string)
    requires Lists(s, names)
    ensures s == [pool] ==> names == {pool}
    ensures s != [pool] && names != {} ==> names - {pool} != {}
    ensures Lists(RangeDelete(s, pool), names - {pool})
  {
    RangeDeleteExact(s, pool);
    RangeDeleteDistinct(s, pool);
    assert !AdjacentPair(s, pool);
    if s == [pool] {
      assert forall n :: n in names ==> n in s;
      assert pool in s;
    } else if names - {pool} == {} && names != {} {
      assert names == {pool} && pool in s;
      OnlyElement(s, pool);
      assert false;
    }
  }

  lemma OnlyElement(s: seq<string>, x: string)
    requires NoDuplicates(s) && x in s && forall y :: y in s ==> y == x
    ensures s == [x]
  {
    assert s[0] in s && s[|s| - 1] in s;
  }

  // ---- calls that fail half way ----

  ghost function HalfAdded(st: State, listing: seq<string>, name: string, add: IPPool, svc: Resource): State
    requires AllManaged(listing, st.pools)
  {
    st.(pools := AddPool(st, listing, name, add, svc).1.pools)
  }

  /** What an addition can leave when it fails: nothing, the pool without its advertisement, or both. */
  ghost predicate PartlyAdded(st: State, listing: seq<string>, name: string, add: IPPool, svc: Resource, now: State)
    requires AllManaged(listing, st.pools)
  {
    now == st || now == HalfAdded(st, listing, name, add, svc) || now == AddPool(st, listing, name, add, svc).1
  }

  /** Adding a pool that is there does nothing to the advertisements: in line or not, they stay so. */
  lemma KnownPoolIsNotRepaired(st: State, listing: seq<string>, name: string, add: IPPool, svc: Resource)
    requires Listing(listing, st.pools) && Managed(st.pools, name)
    ensures AdvInv(AddPool(st, listing, name, add, svc).1) <==> AdvInv(st)
  {
    hide ScanPools, PoolManaged;
    ScanMeans(listing, st.pools, name, add, svc);
    var t := AddPool(st, listing, name, add, svc).1;
    assert t.advs == st.advs;
    assert ManagedNames(t.pools) == ManagedNames(st.pools);
  }

  /** The failed call left a pool that was not there and the advertisements as they were. */
  ghost predicate Unadvertised(st: State, now: State, name: string) {
    Managed(now.pools, name) && !Managed(st.pools, name) && now.advs == st.advs
  }

  lemma HalfAddedIsOut(st: State, listing: seq<string>, name: string, add: IPPool, svc: Resource, now: State)
    requires AdvInv(st) && Listing(listing, st.pools) && PoolManaged(add)
    requires name in st.pools ==> PoolManaged(st.pools[name])
    requires PartlyAdded(st, listing, name, add, svc, now)
    ensures AdvInv(now) <==> !Unadvertised(st, now, name)
  {
    hide ScanPools, PoolManaged;
    AddKeepsAdvInv(st, listing, name, add, svc);
    ScanMeans(listing, st.pools, name, add, svc);
    if Unadvertised(st, now, name) {
      assert name in ManagedNames(now.pools) && name !in ManagedNames(st.pools);
    }
  }

  /**
    Trying again after a failure puts the advertisements in line exactly if the failed call did not leave
    a pool that is not advertised.
   */
  lemma AddAgainExactly(st: State, listing: seq<string>, name: string, add: IPPool, svc: Resource, now: State, again: seq<string>)
    requires AdvInv(st) && Listing(listing, st.pools) && PoolManaged(add)
    requires name in st.pools ==> PoolManaged(st.pools[name])
    requires PartlyAdded(st, listing, name, add, svc, now) && Listing(again, now.pools)
    ensures AdvInv(AddPool(now, again, name, add, svc).1) <==> !Unadvertised(st, now, name)
  {
    hide AddPool, AdvInv, PoolManaged;
    HalfAddedIsOut(st, listing, name, add, svc, now);
    if Unadvertised(st, now, name) {
      KnownPoolIsNotRepaired(now, again, name, add, svc);
    } else {
      NamesStayManaged(st, listing, name, add, svc, now);
      AddKeepsAdvInv(now, again, name, add, svc);
    }
  }

  lemma NamesStayManaged(st: State, listing: seq<string>, name: string, add: IPPool, svc: Resource, now: State)
    requires Listing(listing, st.pools) && PoolManaged(add) && (name in st.pools ==> PoolManaged(st.pools[name]))
    requires PartlyAdded(st, listing, name, add, svc, now)
    ensures name in now.pools ==> PoolManaged(now.pools[name])
  {
    hide ScanPools, PoolManaged;
    ScanMeans(listing, st.pools, name, add, svc);
  }

  ghost function Relisted(advs: map<string, Advertisement>, adv: Advertisement, pools: seq<string>): map<string, Advertisement> {
    advs[DEFAULT_ADVERTISEMENT := adv.(pools := pools)]
  }

  /** The advertisements while the loop over the list of the default one is under way. */
  ghost predicate Withdrawing(advs: map<string, Advertisement>, pool: string, now: map<string, Advertisement>) {
    || now == advs
    || now == Withdraw(advs, pool)
    || (&& DEFAULT_ADVERTISEMENT in advs && advs[DEFAULT_ADVERTISEMENT].managed
        && var adv := advs[DEFAULT_ADVERTISEMENT];
           adv.pools != [pool] && exists list :: Stopped(adv.pools, pool, list) && now == Relisted(advs, adv, list))
  }

  /** What a removal can leave when it fails: the pool goes first, then its entries in the advertisement one by one. */
  ghost predicate PartlyRemoved(st: State, pool: string, now: State) {
    || now == st
    || (now.pools == RemovePool(st, pool).pools && pool != "" && Withdrawing(st.advs, pool, now.advs))
  }

  lemma WithdrawingIs(advs: map<string, Advertisement>, pool: string, now: map<string, Advertisement>)
    requires DEFAULT_ADVERTISEMENT in advs && NoDuplicates(advs[DEFAULT_ADVERTISEMENT].pools)
    requires Withdrawing(advs, pool, now)
    ensures now == advs || now == Withdraw(advs, pool)
  {
    hide Stopped, RangeDelete;
    var adv := advs[DEFAULT_ADVERTISEMENT];
    if list :| Stopped(adv.pools, pool, list) && now == Relisted(advs, adv, list) {
      StoppedIsEither(adv.pools, pool, list);
      assert list == adv.pools ==> now == advs;
    }
  }

  /** While the advertisement is in line, a removal that fails has done nothing, half of it, or all of it. */
  lemma PartlyRemovedIs(st: State, pool: string, now: State)
    requires AdvInv(st) && PartlyRemoved(st, pool, now)
    ensures now == st || now == st.(pools := RemovePool(st, pool).pools) || now == RemovePool(st, pool)
  {
    hide PoolManaged, Stopped, RangeDelete;
    if now != st && DEFAULT_ADVERTISEMENT in st.advs {
      WithdrawingIs(st.advs, pool, now.advs);
    }
  }

  /** So it can be resumed: trying again completes it, wherever it failed. */
  lemma RemoveAgain(st: State, pool: string, now: State)
    requires AdvInv(st) && PartlyRemoved(st, pool, now)
    ensures RemovePool(now, pool) == RemovePool(st, pool)
  {
    hide PoolManaged, RangeDelete;
    PartlyRemovedIs(st, pool, now);
    if now.advs != st.advs {
      var s := st.advs[DEFAULT_ADVERTISEMENT].pools;
      WithdrawLists(s, ManagedNames(st.pools), pool);
      RangeDeleteNothing(RangeDelete(s, pool), pool);
    }
  }

  datatype Call = Add(listing: seq<string>, name: string, pool: IPPool, svc: Resource) | Remove(name: string)

  /** The listing is one of the current pools, the pool is a managed one, and no unmanaged pool has its name. */
  ghost predicate Legal(st: State, c: Call) {
    && (c.Add? ==> Listing(c.listing, st.pools) && PoolManaged(c.pool))
    && (c.Add? && c.name in st.pools ==> PoolManaged(st.pools[c.name]))
  }

  ghost function Apply(st: State, c: Call): State
    requires Legal(st, c)
  {
    match c
    case Add(listing, name, pool, svc) => AddPool(st, listing, name, pool, svc).1
    case Remove(name) => RemovePool(st, name)
  }

  ghost predicate LegalRun(st: State, calls: seq<Call>)
    decreases |calls|
  {
    calls != [] ==> Legal(st, calls[0]) && LegalRun(Apply(st, calls[0]), calls[1..])
  }

  ghost function Run(st: State, calls: seq<Call>): State
    requires LegalRun(st, calls)
    decreases |calls|
  {
    if calls == [] then st else Run(Apply(st, calls[0]), calls[1..])
  }

  /** Over every run of successful additions and removals. */
  lemma {:induction false} RunKeepsAdvInv(st: State, calls: seq<Call>)
    requires AdvInv(st) && LegalRun(st, calls)
    ensures AdvInv(Run(st, calls))
    decreases |calls|
  {
    hide AdvInv;
    if calls != [] {
      match calls[0] {
        case Add(listing, name, pool, svc) => AddKeepsAdvInv(st, listing, name, pool, svc);
        case Remove(name) => RemoveKeepsAdvInv(st, name);
      }
      RunKeepsAdvInv(Apply(st, calls[0]), calls[1..]);
    }
  }

  lemma AdvInvFromEmpty(calls: seq<Call>)
    requires LegalRun(State(map[], map[]), calls)
    ensures AdvInv(Run(State(map[], map[]), calls))
  {
    assert ManagedNames(map[]) == {};
    assert AdvInv(State(map[], map[]));
    RunKeepsAdvInv(State(map[], map[]), calls);
  }
}
