/**
  Lists that stand for a relation. Each entry p has an identity id(p) and relates it to
  the values r with has(p, r); a valid list has one entry per identity.
 */
module Relation {
  import opened Order

  ghost predicate ValidList<P, I>(entry: P -> bool, id: P -> I, s: seq<P>) {
    && (forall k :: 0 <= k < |s| ==> entry(s[k]))
    && (forall j, k :: 0 <= j < k < |s| ==> id(s[j]) != id(s[k]))
  }

  ghost predicate Relates<P, I, R>(id: P -> I, has: (P, R) -> bool, s: seq<P>, i: I, r: R) {
    exists k :: 0 <= k < |s| && id(s[k]) == i && has(s[k], r)
  }

  /** q is p after value r0 was added if p is the entry of identity i0. */
  ghost predicate Gained<P, I, R(!new)>(entry: P -> bool, id: P -> I, has: (P, R) -> bool, p: P, q: P, i0: I, r0: R) {
    && entry(q) && id(q) == id(p)
    && forall r :: has(q, r) <==> has(p, r) || (id(p) == i0 && r == r0)
  }

  ghost predicate Fresh<P, I, R(!new)>(entry: P -> bool, id: P -> I, has: (P, R) -> bool, q: P, i0: I, r0: R) {
    entry(q) && id(q) == i0 && forall r :: has(q, r) <==> r == r0
  }

  lemma ListGains<P, I(!new), R(!new)>(
    entry: P -> bool, id: P -> I, has: (P, R) -> bool, s: seq<P>, t: seq<P>, i0: I, r0: R)
    requires ValidList(entry, id, s)
    requires |s| <= |t| <= |s| + 1
    requires forall k :: 0 <= k < |s| ==> Gained(entry, id, has, s[k], t[k], i0, r0)
    requires |t| == |s| <==> exists k :: 0 <= k < |s| && id(s[k]) == i0
    requires |t| == |s| + 1 ==> Fresh(entry, id, has, t[|s|], i0, r0)
    ensures ValidList(entry, id, t)
    ensures forall i, r :: Relates(id, has, t, i, r) <==> Relates(id, has, s, i, r) || (i == i0 && r == r0)
  {
    assert forall k :: 0 <= k < |s| ==> id(t[k]) == id(s[k]) && entry(t[k]);
    forall i, r ensures Relates(id, has, t, i, r) <==> Relates(id, has, s, i, r) || (i == i0 && r == r0) {
      if Relates(id, has, s, i, r) {
        var k :| 0 <= k < |s| && id(s[k]) == i && has(s[k], r);
        assert has(t[k], r);
      } else if i == i0 && r == r0 {
        if |t| == |s| {
          var k :| 0 <= k < |s| && id(s[k]) == i0;
          assert has(t[k], r);
        } else {
          assert has(t[|s|], r);
        }
      }
    }
  }

  /** A removal is meant for one identity or, with None, for all. */
  ghost predicate Hits<I>(scope: Option<I>, i: I) { scope == None || scope == Some(i) }

  /** q is what is left of p after value r0 was removed from it if it is in scope: nothing if r0 was all it had. */
  ghost predicate Lost<P, I, R(!new)>(
    entry: P -> bool, id: P -> I, has: (P, R) -> bool, p: P, q: seq<P>, scope: Option<I>, r0: R)
  {
    && |q| <= 1
    && (q == [] ==> forall r :: has(p, r) ==> Hits(scope, id(p)) && r == r0)
    && (q != [] ==> entry(q[0]) && id(q[0]) == id(p))
    && (q != [] ==> forall r :: has(q[0], r) <==> has(p, r) && !(Hits(scope, id(p)) && r == r0))
  }

  /** Each entry is replaced by what is left of it. */
  function Flatten<P>(qs: seq<seq<P>>): seq<P> { if qs == [] then [] else qs[0] + Flatten(qs[1..]) }

  lemma {:induction false} FlattenSnoc<P>(qs: seq<seq<P>>, q: seq<P>)
    ensures Flatten(qs + [q]) == Flatten(qs) + q
  {
    if qs == [] {
      assert (qs + [q])[1..] == [];
    } else {
      FlattenSnoc(qs[1..], q);
      assert (qs + [q])[1..] == qs[1..] + [q];
    }
  }

  ghost predicate Identified<P, I>(id: P -> I, s: seq<P>, i: I) { exists j :: 0 <= j < |s| && id(s[j]) == i }

  lemma {:induction false} ListLoses<P, I(!new), R(!new)>(
    entry: P -> bool, id: P -> I, has: (P, R) -> bool, s: seq<P>, qs: seq<seq<P>>, scope: Option<I>, r0: R)
    requires ValidList(entry, id, s) && |qs| == |s|
    requires forall k :: 0 <= k < |s| ==> Lost(entry, id, has, s[k], qs[k], scope, r0)
    ensures ValidList(entry, id, Flatten(qs))
    ensures forall k :: 0 <= k < |Flatten(qs)| ==> Identified(id, s, id(Flatten(qs)[k]))
    ensures forall i, r :: Relates(id, has, Flatten(qs), i, r)
                      <==> Relates(id, has, s, i, r) && !(Hits(scope, i) && r == r0)
  {
    if s != [] {
      var s1, qs1 := s[1..], qs[1..];
      ListLoses(entry, id, has, s1, qs1, scope, r0);
      assert Lost(entry, id, has, s[0], qs[0], scope, r0);
      var t1 := Flatten(qs1);
      assert Flatten(qs) == qs[0] + t1 && s == [s[0]] + s1;
      hide Lost, Flatten;
      LosesFirst(entry, id, has, s[0], s1, qs[0], t1, scope, r0);
    }
  }

  /** What is left of one entry, in front of what is left of the others. */
  lemma LosesFirst<P, I(!new), R(!new)>(
    entry: P -> bool, id: P -> I, has: (P, R) -> bool, p: P, s: seq<P>, q: seq<P>, t: seq<P>, scope: Option<I>, r0: R)
    requires ValidList(entry, id, [p] + s) && Lost(entry, id, has, p, q, scope, r0) && ValidList(entry, id, t)
    requires forall k :: 0 <= k < |t| ==> Identified(id, s, id(t[k]))
    requires forall i, r :: Relates(id, has, t, i, r) <==> Relates(id, has, s, i, r) && !(Hits(scope, i) && r == r0)
    ensures ValidList(entry, id, q + t)
    ensures forall k :: 0 <= k < |q + t| ==> Identified(id, [p] + s, id((q + t)[k]))
    ensures forall i, r :: Relates(id, has, q + t, i, r)
                      <==> Relates(id, has, [p] + s, i, r) && !(Hits(scope, i) && r == r0)
  {
    var all := [p] + s;
    forall k | 0 <= k < |t| ensures id(t[k]) != id(p) && Identified(id, all, id(t[k])) {
      var j :| 0 <= j < |s| && id(s[j]) == id(t[k]);
      assert all[j + 1] == s[j] && all[0] == p;
    }
    forall k | 0 <= k < |q + t| ensures Identified(id, all, id((q + t)[k])) {
      if k < |q| {
        assert (q + t)[k] == q[0] && id(all[0]) == id(q[0]);
      } else {
        assert (q + t)[k] == t[k - |q|];
      }
    }
    assert q == [] || q == [q[0]];
    assert q == [] ==> q + t == t;
    forall i, r ensures Relates(id, has, q + t, i, r) <==> Relates(id, has, all, i, r) && !(Hits(scope, i) && r == r0) {
      RelatesCons(id, has, p, s, i, r);
      if q != [] {
        RelatesCons(id, has, q[0], t, i, r);
      }
    }
  }

  lemma RelatesCons<P, I, R>(id: P -> I, has: (P, R) -> bool, p: P, s: seq<P>, i: I, r: R)
    ensures Relates(id, has, [p] + s, i, r) <==> (id(p) == i && has(p, r)) || Relates(id, has, s, i, r)
  {
    var t := [p] + s;
    if Relates(id, has, s, i, r) {
      var k :| 0 <= k < |s| && id(s[k]) == i && has(s[k], r);
      assert t[k + 1] == s[k];
    }
    if Relates(id, has, t, i, r) {
      var k :| 0 <= k < |t| && id(t[k]) == i && has(t[k], r);
      if k > 0 {
        assert s[k - 1] == t[k];
      }
    }
    assert t[0] == p;
  }

  // ---- runs ----

  datatype Op<I, R> = Add(id: I, value: R) | Remove(scope: Option<I>, value: R)

  ghost predicate Undoes<I, R>(op: Op<I, R>, i: I, r: R) { op.Remove? && Hits(op.scope, i) && op.value == r }

  /** The pair was added, and not removed since. */
  ghost predicate Live<I, R>(ops: seq<Op<I, R>>, i: I, r: R) {
    exists k :: 0 <= k < |ops| && ops[k] == Add(i, r) && forall j :: k < j < |ops| ==> !Undoes(ops[j], i, r)
  }

  lemma LiveSnoc<I, R>(ops: seq<Op<I, R>>, op: Op<I, R>, i: I, r: R)
    ensures Live(ops + [op], i, r) <==> op == Add(i, r) || (Live(ops, i, r) && !Undoes(op, i, r))
  {
    var all := ops + [op];
    if op == Add(i, r) {
      assert all[|ops|] == Add(i, r);
    }
    if Live(ops, i, r) && !Undoes(op, i, r) {
      var k :| 0 <= k < |ops| && ops[k] == Add(i, r) && forall j :: k < j < |ops| ==> !Undoes(ops[j], i, r);
      assert all[k] == Add(i, r);
    }
    if Live(all, i, r) {
      var k :| 0 <= k < |all| && all[k] == Add(i, r) && forall j :: k < j < |all| ==> !Undoes(all[j], i, r);
      if k < |ops| {
        assert !Undoes(all[|ops|], i, r);
        assert ops[k] == Add(i, r) && forall j :: k < j < |ops| ==> all[j] == ops[j];
      }
    }
  }
}
