/**
  The services a peer works for, kept in its node selectors: one selector per service,
  holding the service's namespace and name under two reserved labels.

  config.go does this for its own selector type and crd.go, with the same code, for the
  custom-resource one, so the selector type S is a parameter here: `labels` reads the
  labels of a selector and `mk` makes the selector of a service.
 */
module Services {
  import opened Order
  import opened Selectors

  const SERVICE_NAME_KEY := "nomatch.cherryservers.com/service-name"
  const SERVICE_NAMESPACE_KEY := "nomatch.cherryservers.com/service-namespace"

  datatype Resource = Resource(namespace: string, name: string)

  predicate ResourceLess(a: Resource, b: Resource) {
    StringLess(a.namespace, b.namespace) || StringLess(a.name, b.name)
  }

  /** Namespaces and names are ordered oppositely. */
  predicate Opposed(a: Resource, b: Resource) {
    || (StringLess(a.namespace, b.namespace) && StringLess(b.name, a.name))
    || (StringLess(b.namespace, a.namespace) && StringLess(a.name, b.name))
  }

  /**
    Two services are each less than the other exactly when their namespaces and names are ordered
    oppositely. Within a namespace `Less` is the order of names.
   */
  lemma ResourceLessBothWays(a: Resource, b: Resource)
    ensures ResourceLess(a, b) && ResourceLess(b, a) <==> Opposed(a, b)
    ensures a != b <==> ResourceLess(a, b) || ResourceLess(b, a)
    ensures a.namespace == b.namespace ==> (ResourceLess(a, b) <==> StringLess(a.name, b.name))
  {
    hide StringCmp;
    StringTotal();
  }

  /** No pair of the services is opposed. */
  ghost predicate Unopposed(s: set<Resource>) { forall a, b :: a in s && b in s ==> !Opposed(a, b) }

  /** `Less` orders a set of services exactly when no two of them are opposed; so the order of a peer's services means nothing. */
  lemma ResourceLessOrdersExactly(s: set<Resource>)
    ensures StrictWeakOn(ResourceLess, multiset(s)) <==> Unopposed(s)
  {
    hide StringCmp, ResourceLess, Opposed;
    if Unopposed(s) {
      forall x, y, z | x in s && y in s && z in s ensures WeakAt(ResourceLess, x, y, z) {
        ResourceLessWeak(x, y, z);
      }
    }
    forall a, b | a in s && b in s && StrictWeakOn(ResourceLess, multiset(s)) ensures !Opposed(a, b) {
      ResourceLessBothWays(a, b);
      assert WeakAt(ResourceLess, a, b, a);
    }
  }

  lemma ResourceLessWeak(x: Resource, y: Resource, z: Resource)
    requires !Opposed(x, y)
    ensures WeakAt(ResourceLess, x, y, z)
  {
    hide StringCmp;
    StringTotal();
    ResourceLessBothWays(x, y);
    if !ResourceLess(y, x) && !ResourceLess(z, y) {
      CmpTransitive(StringCmp, x.namespace, y.namespace, z.namespace);
      CmpTransitive(StringCmp, x.name, y.name, z.name);
    }
  }

  lemma ResourceLessIsNoOrder()
    ensures var a, b := Resource("a", "b"), Resource("b", "a"); ResourceLess(a, b) && ResourceLess(b, a)
  {
    LexOne(CharCmp, 'a', 'b');
  }

  /** The service named in a label map; a part that is missing reads as "". */
  function ServiceIn(m: Labels): Resource { Resource(Get(m, SERVICE_NAMESPACE_KEY), Get(m, SERVICE_NAME_KEY)) }

  predicate IsBlank(r: Resource) { r.namespace == "" && r.name == "" }

  predicate IsFull(r: Resource) { r.namespace != "" && r.name != "" }

  ghost predicate AllFull(rs: seq<Resource>) { forall i :: 0 <= i < |rs| ==> IsFull(rs[i]) }

  ghost predicate AllPlain<S>(labels: S -> Labels, s: seq<S>) {
    forall i :: 0 <= i < |s| ==> IsBlank(ServiceIn(labels(s[i])))
  }

  function ServiceLabels(r: Resource): Labels {
    map[SERVICE_NAMESPACE_KEY := r.namespace, SERVICE_NAME_KEY := r.name]
  }

  lemma ServiceLabelsRead(r: Resource)
    ensures ServiceIn(ServiceLabels(r)) == r
    ensures |ServiceLabels(r)| == 2
  {
    assert |SERVICE_NAMESPACE_KEY| != |SERVICE_NAME_KEY|;
    assert ServiceLabels(r).Keys == {SERVICE_NAMESPACE_KEY, SERVICE_NAME_KEY};
  }

  /** The label is there, with a value. */
  predicate Given(m: Labels, k: string) { k in m && m[k] != "" }

  /** The two labels by name, and what they make of a selector. */
  lemma ServiceLabelsMean(m: Labels, r: Resource)
    ensures var name, namespace := "nomatch.cherryservers.com/service-name", "nomatch.cherryservers.com/service-namespace";
      && ServiceLabels(r) == map[name := r.name, namespace := r.namespace]
      && (IsBlank(ServiceIn(m)) <==> !Given(m, name) && !Given(m, namespace))
      && (IsFull(ServiceIn(m)) <==> Given(m, name) && Given(m, namespace))
      && (IsFull(r) ==> (ServiceIn(m) == r <==> name in m && namespace in m && m[name] == r.name && m[namespace] == r.namespace))
  {
    assert |SERVICE_NAMESPACE_KEY| != |SERVICE_NAME_KEY|;
  }

  /** Plain are exactly the selectors that name no part of a service, carried exactly the services named in both parts. */
  lemma {:induction false} FiltersMean<S>(labels: S -> Labels, s: seq<S>)
    ensures forall x :: x in Plains(labels, s) <==> x in s && IsBlank(ServiceIn(labels(x)))
    ensures forall r :: r in Carried(labels, s) <==> IsFull(r) && exists i :: 0 <= i < |s| && ServiceIn(labels(s[i])) == r
  {
    hide ServiceIn;
    if s != [] {
      FiltersMean(labels, s[1..]);
      var rest := s[1..];
      assert s == [s[0]] + rest;
      forall r ensures r in Carried(labels, s) <==> IsFull(r) && exists i :: 0 <= i < |s| && ServiceIn(labels(s[i])) == r {
        if exists i :: 0 <= i < |rest| && ServiceIn(labels(rest[i])) == r {
          var i :| 0 <= i < |rest| && ServiceIn(labels(rest[i])) == r;
          assert s[i + 1] == rest[i];
        }
        if exists i :: 0 <= i < |s| && ServiceIn(labels(s[i])) == r {
          var i :| 0 <= i < |s| && ServiceIn(labels(s[i])) == r;
          assert i > 0 ==> rest[i - 1] == s[i];
        }
      }
    }
  }

  /** `mk` makes selectors whose labels name the service. */
  ghost predicate Makes<S>(labels: S -> Labels, mk: Resource -> S) {
    forall r :: ServiceIn(labels(mk(r))) == r
  }

  /** The selectors that name no service. */
  function Plains<S>(labels: S -> Labels, s: seq<S>): (r: seq<S>)
    ensures AllPlain(labels, r)
  {
    if s == [] then []
    else (if IsBlank(ServiceIn(labels(s[0]))) then [s[0]] else []) + Plains(labels, s[1..])
  }

  /** The services named in full. */
  function Carried<S>(labels: S -> Labels, s: seq<S>): (r: seq<Resource>)
    ensures AllFull(r)
  {
    if s == [] then []
    else (if IsFull(ServiceIn(labels(s[0]))) then [ServiceIn(labels(s[0]))] else []) + Carried(labels, s[1..])
  }

  function Without(rs: seq<Resource>, svc: Resource): (r: seq<Resource>)
    ensures AllFull(rs) ==> AllFull(r)
  {
    if rs == [] then [] else (if rs[0] == svc then [] else [rs[0]]) + Without(rs[1..], svc)
  }

  function AddService<S>(labels: S -> Labels, mk: Resource -> S, s: seq<S>, svc: Resource): (bool, seq<S>) {
    if svc in Carried(labels, s) then (false, s)
    else (true, Plains(labels, s) + MapSeq(mk, SortBy(ResourceLess, [svc] + Carried(labels, s))))
  }

  /** Whether a selector of the service was there, how many services are left, and the new selectors. */
  function RemoveService<S>(labels: S -> Labels, mk: Resource -> S, s: seq<S>, svc: Resource): (bool, nat, seq<S>) {
    var left := SortBy(ResourceLess, Without(Carried(labels, s), svc));
    (Names(labels, s, svc), |left|, Plains(labels, s) + MapSeq(mk, left))
  }

  /** Some selector that is not plain names exactly svc. */
  predicate Names<S>(labels: S -> Labels, s: seq<S>, svc: Resource) {
    exists i :: 0 <= i < |s| && !IsBlank(ServiceIn(labels(s[i]))) && ServiceIn(labels(s[i])) == svc
  }

  // ---- the two filters ----

  lemma Behead<T>(s: seq<T>, t: seq<T>)
    requires s != []
    ensures (s + t)[0] == s[0] && (s + t)[1..] == s[1..] + t
  {
  }

  lemma Associate<T>(a: seq<T>, b: seq<T>, c: seq<T>)
    ensures a + (b + c) == (a + b) + c
  {
  }

  lemma {:induction false} PlainsConcat<S>(labels: S -> Labels, s: seq<S>, t: seq<S>)
    ensures Plains(labels, s + t) == Plains(labels, s) + Plains(labels, t)
  {
    hide ServiceIn, AllPlain;
    if s == [] {
      assert s + t == t;
    } else {
      var rest := s[1..];
      PlainsConcat(labels, rest, t);
      Behead(s, t);
      var h := if IsBlank(ServiceIn(labels(s[0]))) then [s[0]] else [];
      assert Plains(labels, s) == h + Plains(labels, rest);
      assert Plains(labels, s + t) == h + Plains(labels, rest + t);
      hide Plains;
      Associate(h, Plains(labels, rest), Plains(labels, t));
    }
  }

  lemma {:induction false} CarriedConcat<S>(labels: S -> Labels, s: seq<S>, t: seq<S>)
    ensures Carried(labels, s + t) == Carried(labels, s) + Carried(labels, t)
  {
    hide ServiceIn, AllFull;
    if s == [] {
      assert s + t == t;
    } else {
      var rest := s[1..];
      CarriedConcat(labels, rest, t);
      Behead(s, t);
      var h := if IsFull(ServiceIn(labels(s[0]))) then [ServiceIn(labels(s[0]))] else [];
      assert Carried(labels, s) == h + Carried(labels, rest);
      assert Carried(labels, s + t) == h + Carried(labels, rest + t);
      hide Carried;
      Associate(h, Carried(labels, rest), Carried(labels, t));
    }
  }

  lemma {:induction false} FiltersOfPlains<S>(labels: S -> Labels, s: seq<S>)
    requires AllPlain(labels, s)
    ensures Plains(labels, s) == s && Carried(labels, s) == []
  {
    if s != [] {
      FiltersOfPlains(labels, s[1..]);
    }
  }

  lemma {:induction false} FiltersOfMade<S>(labels: S -> Labels, mk: Resource -> S, rs: seq<Resource>)
    requires Makes(labels, mk)
    requires AllFull(rs)
    ensures Plains(labels, MapSeq(mk, rs)) == [] && Carried(labels, MapSeq(mk, rs)) == rs
  {
    if rs != [] {
      FiltersOfMade(labels, mk, rs[1..]);
      assert MapSeq(mk, rs)[1..] == MapSeq(mk, rs[1..]);
    }
  }

  /** A list rebuilt from plain selectors and services has just these. */
  lemma FiltersOfRebuilt<S>(labels: S -> Labels, mk: Resource -> S, plains: seq<S>, rs: seq<Resource>)
    requires Makes(labels, mk)
    requires AllPlain(labels, plains)
    requires AllFull(rs)
    ensures Plains(labels, plains + MapSeq(mk, rs)) == plains
    ensures Carried(labels, plains + MapSeq(mk, rs)) == rs
  {
    PlainsConcat(labels, plains, MapSeq(mk, rs));
    CarriedConcat(labels, plains, MapSeq(mk, rs));
    FiltersOfPlains(labels, plains);
    FiltersOfMade(labels, mk, rs);
  }

  lemma SortStaysFull(rs: seq<Resource>)
    requires AllFull(rs)
    ensures AllFull(SortBy(ResourceLess, rs))
  {
    var r := SortBy(ResourceLess, rs);
    forall i | 0 <= i < |r| ensures IsFull(r[i]) { assert r[i] in multiset(rs); }
  }

  /** Full services are named by selectors exactly when they are carried. */
  lemma {:induction false} NamesIsCarried<S>(labels: S -> Labels, s: seq<S>, svc: Resource)
    requires IsFull(svc)
    ensures Names(labels, s, svc) <==> svc in Carried(labels, s)
  {
    if s != [] {
      NamesIsCarried(labels, s[1..], svc);
      assert s == [s[0]] + s[1..];
      assert Names(labels, s, svc) <==> ServiceIn(labels(s[0])) == svc || Names(labels, s[1..], svc) by {
        if Names(labels, s[1..], svc) {
          var i :| 0 <= i < |s[1..]| && ServiceIn(labels(s[1..][i])) == svc;
          assert s[i + 1] == s[1..][i];
        }
        if Names(labels, s, svc) && ServiceIn(labels(s[0])) != svc {
          var i :| 0 <= i < |s| && ServiceIn(labels(s[i])) == svc;
          assert s[1..][i - 1] == s[i];
        }
      }
    }
  }

  // ---- what adding and removing do ----

  function With(m: multiset<Resource>, svc: Resource): multiset<Resource> {
    if svc in m then m else m + multiset{svc}
  }

  lemma AddEffect<S>(labels: S -> Labels, mk: Resource -> S, s: seq<S>, svc: Resource)
    requires Makes(labels, mk) && IsFull(svc)
    ensures var (changed, t) := AddService(labels, mk, s, svc);
      && (changed <==> svc !in Carried(labels, s))
      && Plains(labels, t) == Plains(labels, s)
      && multiset(Carried(labels, t)) == With(multiset(Carried(labels, s)), svc)
      && (!changed ==> t == s)
      && (changed ==> t == Plains(labels, s) + MapSeq(mk, Carried(labels, t)))
  {
    if svc !in Carried(labels, s) {
      var rs := [svc] + Carried(labels, s);
      SortStaysFull(rs);
      FiltersOfRebuilt(labels, mk, Plains(labels, s), SortBy(ResourceLess, rs));
    }
  }

  ghost predicate NoneOpposed(rs: seq<Resource>) { forall i, j :: 0 <= i < |rs| && 0 <= j < |rs| ==> !Opposed(rs[i], rs[j]) }

  lemma SortedServices(rs: seq<Resource>)
    requires NoneOpposed(rs)
    ensures Sorted(ResourceLess, SortBy(ResourceLess, rs))
  {
    hide Opposed, ResourceLess, SortBy;
    forall x, y, z | x in multiset(rs) && y in multiset(rs) && z in multiset(rs) ensures WeakAt(ResourceLess, x, y, z) {
      ResourceLessWeak(x, y, z);
    }
    SortBySorted(ResourceLess, rs);
  }

  /** As far as `Less` is an order, the services come in order. */
  lemma ServicesInOrder<S>(labels: S -> Labels, mk: Resource -> S, s: seq<S>, svc: Resource)
    requires Makes(labels, mk) && IsFull(svc) && NoneOpposed([svc] + Carried(labels, s))
    ensures var (changed, t) := AddService(labels, mk, s, svc); changed ==> Sorted(ResourceLess, Carried(labels, t))
    ensures Sorted(ResourceLess, Carried(labels, RemoveService(labels, mk, s, svc).2))
  {
    hide Opposed, ResourceLess, SortBy, Plains, Carried, Without, ServiceIn;
    var rs, left := [svc] + Carried(labels, s), Without(Carried(labels, s), svc);
    SortStaysFull(rs);
    FiltersOfRebuilt(labels, mk, Plains(labels, s), SortBy(ResourceLess, rs));
    SortedServices(rs);
    SortStaysFull(left);
    FiltersOfRebuilt(labels, mk, Plains(labels, s), SortBy(ResourceLess, left));
    WithoutStays(Carried(labels, s), svc);
    forall i, j | 0 <= i < |left| && 0 <= j < |left| ensures !Opposed(left[i], left[j]) {
      assert left[i] in rs && left[j] in rs;
    }
    SortedServices(left);
  }

  lemma {:induction false} WithoutStays(rs: seq<Resource>, svc: Resource)
    ensures forall r :: r in Without(rs, svc) ==> r in rs
  {
    if rs != [] {
      WithoutStays(rs[1..], svc);
    }
  }

  lemma RemoveEffect<S>(labels: S -> Labels, mk: Resource -> S, s: seq<S>, svc: Resource)
    requires Makes(labels, mk) && IsFull(svc)
    ensures var (found, size, t) := RemoveService(labels, mk, s, svc);
      && (found <==> svc in Carried(labels, s))
      && Plains(labels, t) == Plains(labels, s)
      && multiset(Carried(labels, t)) == multiset(Without(Carried(labels, s), svc))
      && size == |Carried(labels, t)| && t == Plains(labels, s) + MapSeq(mk, Carried(labels, t))
  {
    var rs := Without(Carried(labels, s), svc);
    SortStaysFull(rs);
    FiltersOfRebuilt(labels, mk, Plains(labels, s), SortBy(ResourceLess, rs));
    NamesIsCarried(labels, s, svc);
  }

  /** The same plain selectors in the same order, the same services in any order. */
  ghost predicate SameServices<S>(labels: S -> Labels, s: seq<S>, t: seq<S>) {
    && Plains(labels, s) == Plains(labels, t)
    && multiset(Carried(labels, s)) == multiset(Carried(labels, t))
  }

  lemma {:induction false} WithoutAbsent(rs: seq<Resource>, svc: Resource)
    requires svc !in rs
    ensures Without(rs, svc) == rs
  {
    if rs != [] {
      WithoutAbsent(rs[1..], svc);
    }
  }

  lemma {:induction false} WithoutCounts(rs: seq<Resource>, svc: Resource)
    ensures multiset(Without(rs, svc)) == multiset(rs)[svc := 0]
  {
    if rs != [] {
      WithoutCounts(rs[1..], svc);
      assert rs == [rs[0]] + rs[1..];
    }
  }

  lemma AddThenRemove<S>(labels: S -> Labels, mk: Resource -> S, s: seq<S>, svc: Resource)
    requires Makes(labels, mk) && IsFull(svc) && svc !in Carried(labels, s)
    ensures var t := AddService(labels, mk, s, svc).1;
            var (found, size, u) := RemoveService(labels, mk, t, svc);
            found && size == |Carried(labels, s)| && SameServices(labels, s, u)
  {
    var t := AddService(labels, mk, s, svc).1;
    AddEffect(labels, mk, s, svc);
    RemoveEffect(labels, mk, t, svc);
    var u := RemoveService(labels, mk, t, svc).2;
    WithThenWithout(Carried(labels, s), Carried(labels, t), svc);
    SameLength(Carried(labels, u), Carried(labels, s));
  }

  lemma WithThenWithout(a: seq<Resource>, b: seq<Resource>, svc: Resource)
    requires multiset(b) == With(multiset(a), svc) && svc !in a
    ensures multiset(Without(b, svc)) == multiset(a) && svc in b
  {
    WithoutCounts(b, svc);
    assert svc in multiset(b);
    assert With(multiset(a), svc)[svc := 0] == multiset(a);
  }

  lemma SameLength<T>(s: seq<T>, t: seq<T>)
    requires multiset(s) == multiset(t)
    ensures |s| == |t|
    ensures forall x :: x in s <==> x in t
  {
    assert |multiset(s)| == |s| && |multiset(t)| == |t|;
    assert forall x :: x in s <==> x in multiset(s);
    assert forall x :: x in t <==> x in multiset(t);
  }

  lemma AddIdempotent<S>(labels: S -> Labels, mk: Resource -> S, s: seq<S>, svc: Resource)
    requires Makes(labels, mk) && IsFull(svc)
    ensures var t := AddService(labels, mk, s, svc).1; AddService(labels, mk, t, svc) == (false, t)
  {
    AddEffect(labels, mk, s, svc);
    assert svc in multiset(Carried(labels, AddService(labels, mk, s, svc).1));
  }

  lemma AddsCommute<S>(labels: S -> Labels, mk: Resource -> S, s: seq<S>, a: Resource, b: Resource)
    requires Makes(labels, mk) && IsFull(a) && IsFull(b) && a != b
    ensures SameServices(labels, AddService(labels, mk, AddService(labels, mk, s, a).1, b).1,
                                 AddService(labels, mk, AddService(labels, mk, s, b).1, a).1)
  {
    var sa, sb := AddService(labels, mk, s, a).1, AddService(labels, mk, s, b).1;
    AddEffect(labels, mk, s, a);
    AddEffect(labels, mk, s, b);
    AddEffect(labels, mk, sa, b);
    AddEffect(labels, mk, sb, a);
    WithCommutes(multiset(Carried(labels, s)), a, b);
  }

  lemma WithCommutes(m: multiset<Resource>, a: Resource, b: Resource)
    ensures With(With(m, a), b) == With(With(m, b), a)
  {
  }

  // ---- converting selectors ----

  lemma {:induction false} FiltersConvert<S, T>(ls: S -> Labels, lt: T -> Labels, conv: S -> T, s: seq<S>)
    requires forall x :: x in s ==> lt(conv(x)) == ls(x)
    ensures Plains(lt, MapSeq(conv, s)) == MapSeq(conv, Plains(ls, s))
    ensures Carried(lt, MapSeq(conv, s)) == Carried(ls, s)
  {
    if s != [] {
      FiltersConvert(ls, lt, conv, s[1..]);
      assert MapSeq(conv, s)[1..] == MapSeq(conv, s[1..]);
      MapConcat(conv, if IsBlank(ServiceIn(ls(s[0]))) then [s[0]] else [], Plains(ls, s[1..]));
    }
  }

  lemma MapMap<A, B, C>(f: A -> B, g: B -> C, h: A -> C, s: seq<A>)
    requires forall x :: x in s ==> g(f(x)) == h(x)
    ensures MapSeq(g, MapSeq(f, s)) == MapSeq(h, s)
  {
    var l, r := MapSeq(g, MapSeq(f, s)), MapSeq(h, s);
    assert forall i :: 0 <= i < |s| ==> l[i] == r[i];
  }

  /** Converting the selectors commutes with adding and with removing a service. */
  lemma ConvertCommutes<S, T>(ls: S -> Labels, mks: Resource -> S, lt: T -> Labels, mkt: Resource -> T,
                              conv: S -> T, s: seq<S>, svc: Resource)
    requires forall x :: x in s ==> lt(conv(x)) == ls(x)
    requires forall r :: conv(mks(r)) == mkt(r)
    ensures var (changed, t) := AddService(ls, mks, s, svc);
            AddService(lt, mkt, MapSeq(conv, s), svc) == (changed, MapSeq(conv, t))
    ensures var (found, size, t) := RemoveService(ls, mks, s, svc);
            RemoveService(lt, mkt, MapSeq(conv, s), svc) == (found, size, MapSeq(conv, t))
  {
    FiltersConvert(ls, lt, conv, s);
    var plains := Plains(ls, s);
    var added, left := SortBy(ResourceLess, [svc] + Carried(ls, s)), SortBy(ResourceLess, Without(Carried(ls, s), svc));
    MapConcat(conv, plains, MapSeq(mks, added));
    MapConcat(conv, plains, MapSeq(mks, left));
    MapMap(mks, conv, mkt, added);
    MapMap(mks, conv, mkt, left);
    NamesConvert(ls, lt, conv, s, svc);
  }

  lemma NamesConvert<S, T>(ls: S -> Labels, lt: T -> Labels, conv: S -> T, s: seq<S>, svc: Resource)
    requires forall x :: x in s ==> lt(conv(x)) == ls(x)
    ensures Names(lt, MapSeq(conv, s), svc) <==> Names(ls, s, svc)
  {
    var t := MapSeq(conv, s);
    assert forall i :: 0 <= i < |s| ==> lt(t[i]) == ls(s[i]);
    if Names(ls, s, svc) {
      var i :| 0 <= i < |s| && !IsBlank(ServiceIn(ls(s[i]))) && ServiceIn(ls(s[i])) == svc;
      assert ServiceIn(lt(t[i])) == svc;
    }
  }

  // ---- the loops ----

  lemma Nothing<S>(labels: S -> Labels, svc: Resource)
    ensures Plains(labels, []) == [] && Carried(labels, []) == [] && Without([], svc) == []
    ensures !Names(labels, [], svc)
  {
  }

  /** One more selector: what it adds to the plain selectors, to the services and to the names. */
  lemma Step<S>(labels: S -> Labels, s: seq<S>, i: nat)
    requires i < |s|
    ensures var r := ServiceIn(labels(s[i]));
      var p, c := Plains(labels, s[..i]), Carried(labels, s[..i]);
      && Plains(labels, s[..i + 1]) == (if IsBlank(r) then p + [s[i]] else p)
      && Carried(labels, s[..i + 1]) == (if IsFull(r) then c + [r] else c)
  {
    assert s[..i + 1] == s[..i] + [s[i]] && [s[i]][1..] == [];
    PlainsConcat(labels, s[..i], [s[i]]);
    CarriedConcat(labels, s[..i], [s[i]]);
  }

  lemma NamesStep<S>(labels: S -> Labels, s: seq<S>, i: nat, svc: Resource)
    requires i < |s|
    ensures var r := ServiceIn(labels(s[i]));
      Names(labels, s[..i + 1], svc) <==> Names(labels, s[..i], svc) || (!IsBlank(r) && r == svc)
  {
    var a, b := s[..i], s[..i + 1];
    if Names(labels, a, svc) {
      var j :| 0 <= j < |a| && !IsBlank(ServiceIn(labels(a[j]))) && ServiceIn(labels(a[j])) == svc;
      assert b[j] == a[j];
    }
    if Names(labels, b, svc) && ServiceIn(labels(s[i])) != svc {
      var j :| 0 <= j < |b| && !IsBlank(ServiceIn(labels(b[j]))) && ServiceIn(labels(b[j])) == svc;
      assert a[j] == b[j];
    }
    assert b[i] == s[i];
  }

  lemma CarriedPrefix<S>(labels: S -> Labels, s: seq<S>, i: nat)
    requires i <= |s|
    ensures forall r :: r in Carried(labels, s[..i]) ==> r in Carried(labels, s)
  {
    assert s == s[..i] + s[i..];
    CarriedConcat(labels, s[..i], s[i..]);
  }

  /** `AddService`, as the code runs it. */
  method AddServiceLoop<S>(labels: S -> Labels, mk: Resource -> S, s: seq<S>, svc: Resource)
    returns (changed: bool, t: seq<S>)
    ensures (changed, t) == AddService(labels, mk, s, svc)
  {
    hide Plains, Carried, SortBy, ServiceIn, MapSeq;
    var services, selectors := [svc], [];
    Nothing(labels, svc);
    for i := 0 to |s|
      invariant services == [svc] + Carried(labels, s[..i])
      invariant selectors == Plains(labels, s[..i])
      invariant svc !in Carried(labels, s[..i])
    {
      Step(labels, s, i);
      var r := ServiceIn(labels(s[i]));
      if IsBlank(r) {
        selectors := selectors + [s[i]];
      }
      if IsFull(r) {
        if r == svc {
          CarriedPrefix(labels, s, i + 1);
          return false, s;
        }
        services := services + [r];
      }
    }
    assert s[..|s|] == s;
    t := AppendServices(mk, selectors, SortBy(ResourceLess, services));
    changed := true;
  }

  method AppendServices<S>(mk: Resource -> S, selectors: seq<S>, services: seq<Resource>) returns (t: seq<S>)
    ensures t == selectors + MapSeq(mk, services)
  {
    t := selectors;
    for j := 0 to |services|
      invariant t == selectors + MapSeq(mk, services[..j])
    {
      assert services[..j + 1] == services[..j] + [services[j]];
      MapConcat(mk, services[..j], [services[j]]);
      assert MapSeq(mk, [services[j]]) == [mk(services[j])];
      t := t + [mk(services[j])];
    }
    assert services[..|services|] == services;
  }

  lemma {:induction false} WithoutSnoc(a: seq<Resource>, x: Resource, svc: Resource)
    ensures Without(a + [x], svc) == Without(a, svc) + (if x == svc then [] else [x])
  {
    if a == [] {
      assert a + [x] == [x];
    } else {
      WithoutSnoc(a[1..], x, svc);
      assert (a + [x])[1..] == a[1..] + [x];
      var h, t := if a[0] == svc then [] else [a[0]], if x == svc then [] else [x];
      assert h + (Without(a[1..], svc) + t) == h + Without(a[1..], svc) + t;
    }
  }

  /** `RemoveService`, as the code runs it. */
  method RemoveServiceLoop<S>(labels: S -> Labels, mk: Resource -> S, s: seq<S>, svc: Resource)
    returns (found: bool, size: nat, t: seq<S>)
    ensures (found, size, t) == RemoveService(labels, mk, s, svc)
  {
    hide Plains, Carried, SortBy, ServiceIn, MapSeq, Without, Names;
    found := false;
    var services, selectors := [], [];
    Nothing(labels, svc);
    for i := 0 to |s|
      invariant services == Without(Carried(labels, s[..i]), svc)
      invariant selectors == Plains(labels, s[..i])
      invariant found == Names(labels, s[..i], svc)
    {
      var r := ServiceIn(labels(s[i]));
      Step(labels, s, i);
      NamesStep(labels, s, i, svc);
      WithoutSnoc(Carried(labels, s[..i]), r, svc);
      if IsBlank(r) {
        selectors := selectors + [s[i]];
      } else if r == svc {
        found := true;
      } else if IsFull(r) {
        services := services + [r];
      }
    }
    assert s[..|s|] == s;
    services := SortBy(ResourceLess, services);
    size := |services|;
    t := AppendServices(mk, selectors, services);
  }
}
