/**
  Address pools of the MetalLB configuration. MetalLB cannot handle two pools that differ
  only in name, so the names of all pools with one body are joined into one name; the list
  of pools stands for the relation (body, name).
 */
module Pools {
  import opened Order
  import opened Text
  import opened Relation

  const NAME_JOINER := ","

  /** Everything but the name; the order of addresses does not matter. */
  datatype Body = Body(protocol: string, avoidBuggyIPs: bool, autoAssign: bool, addresses: multiset<string>)

  datatype Pool = Pool(body: Body, name: string)

  function Names(p: Pool): seq<string> { Split(p.name, NAME_JOINER) }

  function WithoutName(names: seq<string>, name: string): (r: seq<string>) {
    if names == [] then [] else (if names[0] == name then [] else [names[0]]) + WithoutName(names[1..], name)
  }

  ghost function BodyOf(p: Pool): Body { p.body }

  /** A pool once `add`, a pool with the same body and another name, has been merged into it. */
  function Merge(p: Pool, name: string): Pool { p.(name := Join(SortStrings(Names(p) + [name]), NAME_JOINER)) }

  /** The first pool with the same body decides; without one the new pool is appended. */
  ghost function AddAddressPool(pools: seq<Pool>, add: Pool): (bool, seq<Pool>) {
    if pools == [] then (true, [add])
    else if pools[0].body == add.body then
      if add.name in [pools[0].name] + Names(pools[0]) then (false, pools)
      else (true, [Merge(pools[0], add.name)] + pools[1..])
    else
      var (changed, rest) := AddAddressPool(pools[1..], add);
      (changed, [pools[0]] + rest)
  }

  ghost function Keep(p: Pool, remove: Pool): seq<Pool> {
    if p == remove then []
    else if p.body == remove.body then
      [p.(name := Join(SortStrings(WithoutName(Names(p), remove.name)), NAME_JOINER))]
    else [p]
  }

  ghost function KeepAll(pools: seq<Pool>, remove: Pool): (r: seq<seq<Pool>>)
    ensures |r| == |pools| && forall i :: 0 <= i < |pools| ==> r[i] == Keep(pools[i], remove)
  {
    if pools == [] then [] else [Keep(pools[0], remove)] + KeepAll(pools[1..], remove)
  }

  ghost function RemoveAddressPool(pools: seq<Pool>, remove: Pool): seq<Pool> { Flatten(KeepAll(pools, remove)) }

  // ---- entries ----

  /** In ascending order, no name twice, no name with a comma. */
  ghost predicate GoodNames(names: seq<string>) {
    Ascending(StringCmp, names) && Distinct(names) && FreeOf(',', names)
  }

  ghost predicate Entry(p: Pool) { GoodNames(Names(p)) }

  ghost predicate HasName(p: Pool, name: string) { name in Names(p) }

  ghost predicate Valid(pools: seq<Pool>) { ValidList(Entry, BodyOf, pools) }

  ghost predicate Has(pools: seq<Pool>, body: Body, name: string) { Relates(BodyOf, HasName, pools, body, name) }

  lemma CommaFree(name: string)
    requires ',' !in name
    ensures Split(name, NAME_JOINER) == [name]
    ensures GoodNames([name])
  {
    IndexOfNone(name, NAME_JOINER);
  }

  /** Names in good order, joined, split into the same names. */
  lemma JoinedNames(p: Pool, names: seq<string>)
    requires FreeOf(',', names) && names != []
    ensures Names(p.(name := Join(SortStrings(names), NAME_JOINER))) == SortStrings(names)
    ensures FreeOf(',', SortStrings(names))
  {
    var s := SortStrings(names);
    forall i | 0 <= i < |s| ensures ',' !in s[i] { assert s[i] in multiset(names); }
    SplitJoin(s, NAME_JOINER);
  }

  lemma SortedGood(names: seq<string>)
    requires Distinct(names) && FreeOf(',', names) && names != []
    ensures GoodNames(SortStrings(names))
    ensures forall n :: n in SortStrings(names) <==> n in names
  {
    hide SortStrings, Ascending;
    var s := SortStrings(names);
    forall i | 0 <= i < |s| ensures ',' !in s[i] { assert s[i] in multiset(names); }
    SortStringsAscending(names);
    forall n ensures n in s <==> n in names {
      assert n in s <==> n in multiset(s);
      assert n in names <==> n in multiset(names);
    }
  }

  lemma MergedEntry(p: Pool, name: string)
    requires Entry(p) && ',' !in name && name !in Names(p)
    ensures Gained(Entry, BodyOf, HasName, p, Merge(p, name), p.body, name)
  {
    hide SortStrings, Split, Join;
    var names := Names(p) + [name];
    assert multiset(names) == multiset(Names(p)) + multiset{name};
    assert name !in multiset(Names(p));
    JoinedNames(p, names);
    SortedGood(names);
  }

  lemma {:induction false} WithoutNameCounts(names: seq<string>, name: string)
    ensures multiset(WithoutName(names, name)) == multiset(names)[name := 0]
    ensures forall n :: n in WithoutName(names, name) <==> n in names && n != name
  {
    if names != [] {
      WithoutNameCounts(names[1..], name);
      assert names == [names[0]] + names[1..];
    }
  }

  lemma KeptEntry(p: Pool, remove: Pool)
    requires Entry(p) && ',' !in remove.name
    ensures Lost(Entry, BodyOf, HasName, p, Keep(p, remove), Some(remove.body), remove.name)
  {
    hide SortStrings, Split, Join;
    if p == remove {
      CommaFree(p.name);
    } else if p.body == remove.body {
      var names := WithoutName(Names(p), remove.name);
      WithoutNameCounts(Names(p), remove.name);
      if names == [] {
        OnlyName(p, remove.name);
      }
      forall i | 0 <= i < |names| ensures ',' !in names[i] { assert names[i] in names; }
      JoinedNames(p, names);
      SortedGood(names);
    }
  }

  /** A pool all of whose names are one name has that name. */
  lemma OnlyName(p: Pool, name: string)
    requires Entry(p) && forall n :: n in Names(p) ==> n == name
    ensures p.name == name
  {
    var names := Names(p);
    JoinSplit(p.name, NAME_JOINER);
    assert names[0] in names;
    if |names| > 1 {
      assert names[1] in names;
      TwiceCounts(names);
      assert false;
    }
    assert names == [name];
  }

  lemma TwiceCounts(s: seq<string>)
    requires |s| > 1 && s[0] == s[1]
    ensures multiset(s)[s[0]] >= 2
  {
    assert s == [s[0], s[0]] + s[2..];
  }

  // ---- the list ----

  lemma {:induction false} AddedList(pools: seq<Pool>, add: Pool)
    requires Valid(pools) && ',' !in add.name
    ensures var t := AddAddressPool(pools, add).1;
      && |pools| <= |t| <= |pools| + 1
      && (forall k :: 0 <= k < |pools| ==> Gained(Entry, BodyOf, HasName, pools[k], t[k], add.body, add.name))
      && (|t| == |pools| <==> exists k :: 0 <= k < |pools| && BodyOf(pools[k]) == add.body)
      && (|t| == |pools| + 1 ==> Fresh(Entry, BodyOf, HasName, t[|pools|], add.body, add.name))
    ensures AddAddressPool(pools, add).0 <==> !Has(pools, add.body, add.name)
  {
    hide Entry, HasName, Merge, Names, ValidList;
    if pools == [] {
      FreshEntry(add);
    } else {
      var p, rest := pools[0], pools[1..];
      assert pools == [p] + rest;
      ValidTail(pools);
      AddedList(rest, add);
      RelatesCons(BodyOf, HasName, p, rest, add.body, add.name);
      FirstEntry(pools, add);
      var t := AddAddressPool(pools, add).1;
      var u := AddAddressPool(rest, add).1;
      if p.body != add.body {
        assert forall k :: 0 < k < |t| ==> t[k] == u[k - 1];
        if |u| == |rest| {
          var k :| 0 <= k < |rest| && BodyOf(rest[k]) == add.body;
          assert BodyOf(pools[k + 1]) == add.body;
        }
      }
    }
  }

  lemma ValidTail(pools: seq<Pool>)
    requires Valid(pools) && pools != []
    ensures Valid(pools[1..]) && Entry(pools[0])
    ensures forall k :: 0 < k < |pools| ==> Entry(pools[k]) && BodyOf(pools[k]) != BodyOf(pools[0])
  {
    hide Entry;
  }

  lemma FreshEntry(add: Pool)
    requires ',' !in add.name
    ensures Fresh(Entry, BodyOf, HasName, add, add.body, add.name)
  {
    CommaFree(add.name);
  }

  /** The first pool, if it has the body of the added one, gains the name; the others stay. */
  lemma FirstEntry(pools: seq<Pool>, add: Pool)
    requires Valid(pools) && pools != [] && ',' !in add.name
    ensures var p, (changed, t) := pools[0], AddAddressPool(pools, add);
      && (p.body == add.body ==> (changed <==> !HasName(p, add.name)))
      && (p.body == add.body ==> |t| == |pools| && !Has(pools[1..], add.body, add.name))
      && (p.body == add.body ==>
            forall k :: 0 <= k < |pools| ==> Gained(Entry, BodyOf, HasName, pools[k], t[k], add.body, add.name))
      && (p.body != add.body ==> t[0] == p && Gained(Entry, BodyOf, HasName, p, t[0], add.body, add.name))
  {
    hide Entry, Merge;
    var p := pools[0];
    ValidTail(pools);
    if p.body == add.body {
      if p.name == add.name {
        CommaFree(p.name);
      }
      if !HasName(p, add.name) {
        assert Entry(p);
        MergedEntry(p, add.name);
      }
    }
  }

  /** Adding a pool adds exactly the pair of its body and its name, and says whether that was new. */
  lemma AddRefines(pools: seq<Pool>, add: Pool)
    requires Valid(pools) && ',' !in add.name
    ensures var (changed, t) := AddAddressPool(pools, add);
      && Valid(t)
      && (changed <==> !Has(pools, add.body, add.name))
      && forall b, n :: Has(t, b, n) <==> Has(pools, b, n) || (b == add.body && n == add.name)
  {
    hide Entry, HasName, BodyOf;
    AddedList(pools, add);
    ListGains(Entry, BodyOf, HasName, pools, AddAddressPool(pools, add).1, add.body, add.name);
  }

  lemma RemoveRefines(pools: seq<Pool>, remove: Pool)
    requires Valid(pools) && ',' !in remove.name
    ensures Valid(RemoveAddressPool(pools, remove))
    ensures forall b, n :: Has(RemoveAddressPool(pools, remove), b, n)
                      <==> Has(pools, b, n) && !(b == remove.body && n == remove.name)
  {
    hide Entry, HasName, BodyOf, Lost, Keep;
    forall i | 0 <= i < |pools|
      ensures Lost(Entry, BodyOf, HasName, pools[i], KeepAll(pools, remove)[i], Some(remove.body), remove.name)
    {
      KeptEntry(pools[i], remove);
    }
    ListLoses(Entry, BodyOf, HasName, pools, KeepAll(pools, remove), Some(remove.body), remove.name);
  }

  // ---- runs ----

  datatype Call = AddPool(pool: Pool) | RemovePool(pool: Pool)

  ghost function Run(calls: seq<Call>): seq<Pool> {
    if calls == [] then []
    else
      var pools := Run(calls[..|calls| - 1]);
      match calls[|calls| - 1]
      case AddPool(pool) => AddAddressPool(pools, pool).1
      case RemovePool(pool) => RemoveAddressPool(pools, pool)
  }

  ghost function OpsOf(calls: seq<Call>): seq<Op<Body, string>> {
    if calls == [] then []
    else
      OpsOf(calls[..|calls| - 1]) +
      match calls[|calls| - 1]
      case AddPool(pool) => [Add(pool.body, pool.name)]
      case RemovePool(pool) => [Remove(Some(pool.body), pool.name)]
  }

  lemma {:induction false} RunRefines(calls: seq<Call>)
    requires forall i :: 0 <= i < |calls| ==> ',' !in calls[i].pool.name
    ensures Valid(Run(calls))
    ensures forall b, n :: Has(Run(calls), b, n) <==> Live(OpsOf(calls), b, n)
  {
    hide Has, Valid, Live;
    if calls == [] {
      EmptyList();
    } else {
      var front, last := calls[..|calls| - 1], calls[|calls| - 1];
      RunRefines(front);
      var op := if last.AddPool? then Add(last.pool.body, last.pool.name)
                else Remove(Some(last.pool.body), last.pool.name);
      assert OpsOf(calls) == OpsOf(front) + [op];
      if last.AddPool? {
        AddRefines(Run(front), last.pool);
      } else {
        RemoveRefines(Run(front), last.pool);
      }
      forall b, n ensures Has(Run(calls), b, n) <==> Live(OpsOf(calls), b, n) {
        LiveSnoc(OpsOf(front), op, b, n);
      }
    }
  }

  lemma EmptyList()
    ensures Valid([]) && forall b, n :: !Has([], b, n) && !Live([], b, n)
  {
  }

  /**
    After any run from the empty list, every pool is named by the comma-join of the names
    that are live for its body, in ascending order and each once; there is one pool per body.
   */
  lemma PoolNames(calls: seq<Call>, k: nat)
    requires forall i :: 0 <= i < |calls| ==> ',' !in calls[i].pool.name
    requires k < |Run(calls)|
    ensures var p := Run(calls)[k];
      && p.name == Join(Names(p), NAME_JOINER)
      && Ascending(StringCmp, Names(p)) && Distinct(Names(p))
      && (forall n :: n in Names(p) <==> Live(OpsOf(calls), p.body, n))
      && (forall j :: 0 <= j < |Run(calls)| && j != k ==> Run(calls)[j].body != p.body)
  {
    hide Names, Run, OpsOf, Live, Join;
    RunRefines(calls);
    var pools := Run(calls);
    var p := pools[k];
    NamesOf(pools, k);
    JoinSplit(p.name, NAME_JOINER);
    assert p.name == Join(Split(p.name, NAME_JOINER), NAME_JOINER);
    NamesAreSplit(p);
  }

  lemma NamesAreSplit(p: Pool)
    ensures Names(p) == Split(p.name, NAME_JOINER)
  {
  }

  lemma NamesOf(pools: seq<Pool>, k: nat)
    requires Valid(pools) && k < |pools|
    ensures Ascending(StringCmp, Names(pools[k])) && Distinct(Names(pools[k]))
    ensures forall n :: n in Names(pools[k]) <==> Has(pools, pools[k].body, n)
    ensures forall j :: 0 <= j < |pools| && j != k ==> pools[j].body != pools[k].body
  {
    hide Names, Distinct;
    assert Entry(pools[k]);
    assert forall j :: 0 <= j < |pools| && j != k ==> BodyOf(pools[j]) != BodyOf(pools[k]);
    forall n ensures n in Names(pools[k]) <==> Has(pools, pools[k].body, n) {
      if n in Names(pools[k]) {
        assert BodyOf(pools[k]) == pools[k].body && HasName(pools[k], n);
      }
    }
  }
}
