/**
  Three-way comparisons, the orders Go builds from them, and sorting.

  Go's sort package is deterministic in its input; `SortBy` is the insertion sort it runs
  on short slices.  For a comparison that is an order, clients only rely on the result being
  a sorted permutation: that holds of every sorting algorithm, and `SortedUnique` shows that
  it fixes the result.  `SortTwo` and `SortTwins` look at insertion sort itself, to show what
  goes wrong for comparisons that are not orders.
 */
module Order {

  datatype Option<+T> = None | Some(value: T)

  /** Transitivity at three points; a predicate of its own, so that it is used where it is named. */
  ghost predicate Chain<T>(cmp: (T, T) -> int, a: T, b: T, c: T) {
    cmp(a, b) < 0 && cmp(b, c) < 0 ==> cmp(a, c) < 0
  }

  /** A three-way comparison that is a total order on its type. */
  ghost predicate TotalCmp<T(!new)>(cmp: (T, T) -> int) {
    && (forall a, b :: cmp(a, b) == 0 <==> a == b)
    && (forall a, b :: cmp(a, b) < 0 <==> cmp(b, a) > 0)
    && (forall a, b, c :: Chain(cmp, a, b, c))
  }

  lemma CmpTransitive<T(!new)>(cmp: (T, T) -> int, a: T, b: T, c: T)
    requires TotalCmp(cmp)
    requires cmp(a, b) <= 0 && cmp(b, c) <= 0
    ensures cmp(a, c) <= 0
    ensures cmp(a, c) == 0 ==> cmp(a, b) == 0 && cmp(b, c) == 0
  {
    assert Chain(cmp, a, b, c);
    if cmp(a, b) == 0 {
      assert a == b;
    } else if cmp(b, c) == 0 {
      assert b == c;
    }
    if cmp(a, c) == 0 {
      assert a == c;
      assert cmp(b, a) <= 0;
    }
  }

  // ---- lexicographic comparison ----

  function LexCmp<T>(cmp: (T, T) -> int, a: seq<T>, b: seq<T>): int {
    if |a| == 0 then
      if |b| == 0 then 0 else -1
    else if |b| == 0 then
      1
    else
      var c := cmp(a[0], b[0]);
      if c != 0 then c else LexCmp(cmp, a[1..], b[1..])
  }

  lemma {:induction false} LexZero<T(!new)>(cmp: (T, T) -> int, a: seq<T>, b: seq<T>)
    requires TotalCmp(cmp)
    ensures LexCmp(cmp, a, b) == 0 <==> a == b
  {
    if |a| > 0 && |b| > 0 {
      LexZero(cmp, a[1..], b[1..]);
      assert a == [a[0]] + a[1..];
      assert b == [b[0]] + b[1..];
    }
  }

  lemma {:induction false} LexFlip<T(!new)>(cmp: (T, T) -> int, a: seq<T>, b: seq<T>)
    requires TotalCmp(cmp)
    ensures LexCmp(cmp, a, b) < 0 <==> LexCmp(cmp, b, a) > 0
  {
    if |a| > 0 && |b| > 0 {
      LexFlip(cmp, a[1..], b[1..]);
      assert cmp(a[0], b[0]) == 0 <==> cmp(b[0], a[0]) == 0;
    }
  }

  lemma {:induction false} LexTrans<T(!new)>(cmp: (T, T) -> int, a: seq<T>, b: seq<T>, c: seq<T>)
    requires TotalCmp(cmp)
    requires LexCmp(cmp, a, b) < 0 && LexCmp(cmp, b, c) < 0
    ensures LexCmp(cmp, a, c) < 0
  {
    if |a| > 0 && |b| > 0 && |c| > 0 {
      if cmp(a[0], b[0]) == 0 && cmp(b[0], c[0]) == 0 {
        LexTrans(cmp, a[1..], b[1..], c[1..]);
      }
      CmpTransitive(cmp, a[0], b[0], c[0]);
    }
  }

  lemma LexTotal<T(!new)>(cmp: (T, T) -> int)
    requires TotalCmp(cmp)
    ensures forall a, b :: LexCmp(cmp, a, b) == 0 <==> a == b
    ensures forall a, b :: LexCmp(cmp, a, b) < 0 <==> LexCmp(cmp, b, a) > 0
    ensures forall a, b, c :: LexCmp(cmp, a, b) < 0 && LexCmp(cmp, b, c) < 0 ==> LexCmp(cmp, a, c) < 0
  {
    forall a, b ensures LexCmp(cmp, a, b) == 0 <==> a == b { LexZero(cmp, a, b); }
    forall a, b ensures LexCmp(cmp, a, b) < 0 <==> LexCmp(cmp, b, a) > 0 { LexFlip(cmp, a, b); }
    forall a, b, c | LexCmp(cmp, a, b) < 0 && LexCmp(cmp, b, c) < 0 ensures LexCmp(cmp, a, c) < 0 {
      LexTrans(cmp, a, b, c);
    }
  }

  /** Shorter sequences first, equal lengths lexicographically. */
  function ShortLexCmp<T>(cmp: (T, T) -> int, a: seq<T>, b: seq<T>): int {
    if |a| != |b| then |a| - |b| else LexCmp(cmp, a, b)
  }

  lemma ShortLexTotal<T(!new)>(cmp: (T, T) -> int)
    requires TotalCmp(cmp)
    ensures forall a, b :: ShortLexCmp(cmp, a, b) == 0 <==> a == b
    ensures forall a, b :: ShortLexCmp(cmp, a, b) < 0 <==> ShortLexCmp(cmp, b, a) > 0
    ensures forall a, b, c :: ShortLexCmp(cmp, a, b) < 0 && ShortLexCmp(cmp, b, c) < 0 ==> ShortLexCmp(cmp, a, c) < 0
  {
    LexTotal(cmp);
  }

  lemma LexOne<T>(cmp: (T, T) -> int, x: T, y: T)
    ensures LexCmp(cmp, [x], [y]) == cmp(x, y)
    ensures ShortLexCmp(cmp, [x], [y]) == cmp(x, y)
  {
    assert [x][1..] == [] && [y][1..] == [];
  }

  /** Nothing before something. */
  function OptionCmp<T>(cmp: (T, T) -> int, a: Option<T>, b: Option<T>): int {
    match (a, b)
    case (None, None) => 0
    case (None, Some(_)) => -1
    case (Some(_), None) => 1
    case (Some(x), Some(y)) => cmp(x, y)
  }

  lemma OptionTotal<T(!new)>(cmp: (T, T) -> int)
    requires TotalCmp(cmp)
    ensures forall a, b :: OptionCmp(cmp, a, b) == 0 <==> a == b
    ensures forall a, b :: OptionCmp(cmp, a, b) < 0 <==> OptionCmp(cmp, b, a) > 0
    ensures forall a, b, c :: OptionCmp(cmp, a, b) < 0 && OptionCmp(cmp, b, c) < 0 ==> OptionCmp(cmp, a, c) < 0
  {
    forall a, b, c | OptionCmp(cmp, a, b) < 0 && OptionCmp(cmp, b, c) < 0 ensures OptionCmp(cmp, a, c) < 0 {
      if a.Some? && b.Some? && c.Some? {
        assert Chain(cmp, a.value, b.value, c.value);
      }
    }
  }

  /** By the first component, then by the second. */
  function PairCmp<A, B>(f: (A, A) -> int, g: (B, B) -> int, p: (A, B), q: (A, B)): int {
    var c := f(p.0, q.0);
    if c != 0 then c else g(p.1, q.1)
  }

  lemma PairTotal<A(!new), B(!new)>(f: (A, A) -> int, g: (B, B) -> int)
    requires TotalCmp(f) && TotalCmp(g)
    ensures forall a, b :: PairCmp(f, g, a, b) == 0 <==> a == b
    ensures forall a, b :: PairCmp(f, g, a, b) < 0 <==> PairCmp(f, g, b, a) > 0
    ensures forall a, b, c :: PairCmp(f, g, a, b) < 0 && PairCmp(f, g, b, c) < 0 ==> PairCmp(f, g, a, c) < 0
  {
    forall a, b, c | PairCmp(f, g, a, b) < 0 && PairCmp(f, g, b, c) < 0 ensures PairCmp(f, g, a, c) < 0 {
      CmpTransitive(f, a.0, b.0, c.0);
      assert Chain(g, a.1, b.1, c.1);
    }
  }

  lemma {:induction false} MinExists<T(!new)>(cmp: (T, T) -> int, s: set<T>)
    requires TotalCmp(cmp) && s != {}
    ensures exists x :: x in s && forall y :: y in s ==> cmp(x, y) <= 0
  {
    var x :| x in s;
    var t := s - {x};
    if t == {} {
      assert s == {x} && cmp(x, x) == 0;
    } else {
      MinExists(cmp, t);
      var m :| m in t && forall y :: y in t ==> cmp(m, y) <= 0;
      var w := if cmp(x, m) < 0 then x else m;
      forall y | y in s ensures cmp(w, y) <= 0 {
        if y in t && w == x {
          CmpTransitive(cmp, x, m, y);
        }
      }
    }
  }

  lemma MinUnique<T(!new)>(cmp: (T, T) -> int, s: set<T>, x: T, y: T)
    requires TotalCmp(cmp)
    requires x in s && forall z :: z in s ==> cmp(x, z) <= 0
    requires y in s && forall z :: z in s ==> cmp(y, z) <= 0
    ensures x == y
  {
    assert cmp(x, y) <= 0 && cmp(y, x) <= 0;
  }

  // ---- strings ----

  function CharCmp(a: char, b: char): int { a as int - b as int }

  /** Go's string order; on valid UTF-8 the byte order is the code-point order. */
  function StringCmp(a: string, b: string): int { LexCmp(CharCmp, a, b) }

  predicate StringLess(a: string, b: string) { StringCmp(a, b) < 0 }

  lemma StringTotal()
    ensures TotalCmp(StringCmp)
  {
    assert TotalCmp(CharCmp);
    LexTotal(CharCmp);
  }

  /** a comes before b at position i: b goes on, or has the larger character there. */
  predicate BeforeAt(a: string, b: string, i: nat) {
    i <= |a| && i < |b| && a[..i] == b[..i] && (i == |a| || a[i] < b[i])
  }

  lemma {:induction false} StringLessMeans(a: string, b: string)
    ensures StringLess(a, b) <==> exists i: nat :: BeforeAt(a, b, i)
  {
    if b == "" {
    } else if a == "" {
      assert BeforeAt(a, b, 0);
    } else {
      StringLessMeans(a[1..], b[1..]);
      if a[0] < b[0] {
        assert BeforeAt(a, b, 0);
      }
      if a[0] == b[0] && StringLess(a[1..], b[1..]) {
        var i: nat :| BeforeAt(a[1..], b[1..], i);
        assert a[..i + 1] == [a[0]] + a[1..][..i] && b[..i + 1] == [b[0]] + b[1..][..i];
        assert BeforeAt(a, b, i + 1);
      }
      if i: nat :| BeforeAt(a, b, i) {
        if i > 0 {
          assert a[..i][0] == b[..i][0];
          assert a[1..][..i - 1] == a[..i][1..] && b[1..][..i - 1] == b[..i][1..];
          assert BeforeAt(a[1..], b[1..], i - 1);
        }
      }
    }
  }

  // ---- mapping a sequence ----

  function MapSeq<A, B>(f: A -> B, s: seq<A>): (r: seq<B>)
    ensures |r| == |s|
    ensures forall i :: 0 <= i < |s| ==> r[i] == f(s[i])
  {
    if s == [] then [] else [f(s[0])] + MapSeq(f, s[1..])
  }

  lemma {:induction false} MapConcat<A, B>(f: A -> B, s: seq<A>, t: seq<A>)
    ensures MapSeq(f, s + t) == MapSeq(f, s) + MapSeq(f, t)
  {
    var l, r := MapSeq(f, s + t), MapSeq(f, s) + MapSeq(f, t);
    assert forall i :: 0 <= i < |l| ==> l[i] == r[i];
  }

  lemma Splice<A>(l: seq<A>, x: A, r: seq<A>)
    ensures multiset(l + [x] + r) == multiset{x} + multiset(l + r)
  {
  }

  lemma MapSplice<A, B>(f: A -> B, l: seq<A>, x: A, r: seq<A>)
    ensures multiset(MapSeq(f, l + [x] + r)) == multiset{f(x)} + multiset(MapSeq(f, l + r))
  {
    MapConcat(f, l + [x], r);
    MapConcat(f, l, [x]);
    MapConcat(f, l, r);
    assert MapSeq(f, [x]) == [f(x)];
    Splice(MapSeq(f, l), f(x), MapSeq(f, r));
  }

  lemma TailsPermute<K>(x: K, s: seq<K>, t: seq<K>)
    ensures multiset([x] + s) == multiset([x] + t) <==> multiset(s) == multiset(t)
  {
    assert multiset([x] + s) == multiset{x} + multiset(s);
    assert multiset([x] + t) == multiset{x} + multiset(t);
    assert multiset(s) == multiset([x] + s) - multiset{x};
    assert multiset(t) == multiset([x] + t) - multiset{x};
  }

  /** In a permutation of [x] + s, cutting one x out leaves a permutation of s. */
  lemma CutOut<A>(x: A, s: seq<A>, t: seq<A>) returns (l: seq<A>, r: seq<A>)
    requires multiset([x] + s) == multiset(t)
    ensures t == l + [x] + r
    ensures multiset(s) == multiset(l + r)
  {
    assert multiset([x] + s) == multiset{x} + multiset(s);
    assert x in multiset(t);
    var i :| 0 <= i < |t| && t[i] == x;
    l, r := t[..i], t[i + 1..];
    assert t == l + [x] + r;
    Splice(l, x, r);
    assert multiset([x] + (l + r)) == multiset{x} + multiset(l + r);
    TailsPermute(x, s, l + r);
  }

  /** Mapping a permutation permutes the image. */
  lemma {:induction false} MapPermutes<A, B>(f: A -> B, s: seq<A>, t: seq<A>)
    requires multiset(s) == multiset(t)
    ensures multiset(MapSeq(f, s)) == multiset(MapSeq(f, t))
  {
    if s == [] {
      assert |multiset(t)| == 0;
    } else {
      var x, rest := s[0], s[1..];
      assert s == [x] + rest;
      var l, r := CutOut(x, rest, t);
      MapPermutes(f, rest, l + r);
      MapSplice(f, l, x, r);
      MapSplice(f, [], x, rest);
      assert [] + [x] + rest == s && [] + rest == rest;
    }
  }

  /** No element comes twice. */
  ghost predicate Distinct<T>(s: seq<T>) { forall x :: x in multiset(s) ==> multiset(s)[x] == 1 }

  // ---- sorting ----

  /** Where x comes to rest when it moves left, from the right end, past every element it is less than. */
  function InsertPos<T>(less: (T, T) -> bool, s: seq<T>, x: T): (k: nat)
    ensures k <= |s|
    ensures forall i :: k <= i < |s| ==> less(x, s[i])
    ensures k > 0 ==> !less(x, s[k - 1])
  {
    if |s| > 0 && less(x, s[|s| - 1]) then InsertPos(less, s[..|s| - 1], x) else |s|
  }

  function InsertLast<T>(less: (T, T) -> bool, s: seq<T>, x: T): (r: seq<T>)
    ensures multiset(r) == multiset(s) + multiset{x}
    ensures |r| == |s| + 1
  {
    var k := InsertPos(less, s, x);
    assert s == s[..k] + s[k..];
    s[..k] + [x] + s[k..]
  }

  function SortBy<T>(less: (T, T) -> bool, s: seq<T>): (r: seq<T>)
    ensures multiset(r) == multiset(s)
    ensures |r| == |s|
  {
    if |s| == 0 then
      []
    else
      assert s == s[..|s| - 1] + [s[|s| - 1]];
      InsertLast(less, SortBy(less, s[..|s| - 1]), s[|s| - 1])
  }

  /** On the elements of s, `less` is the strict part of the order of their keys. */
  ghost predicate Agrees<T, K>(less: (T, T) -> bool, key: T -> K, cmp: (K, K) -> int, s: multiset<T>) {
    forall a, b :: a in s && b in s ==> (less(a, b) <==> cmp(key(a), key(b)) < 0)
  }

  ghost predicate Sorted<T>(less: (T, T) -> bool, s: seq<T>) {
    forall i, j :: 0 <= i < j < |s| ==> !less(s[j], s[i])
  }

  lemma SpliceSorted<T>(less: (T, T) -> bool, s: seq<T>, k: nat, x: T)
    requires k <= |s| && Sorted(less, s)
    requires forall i :: 0 <= i < k ==> !less(x, s[i])
    requires forall i :: k <= i < |s| ==> !less(s[i], x)
    ensures Sorted(less, s[..k] + [x] + s[k..])
  {
    var r := s[..k] + [x] + s[k..];
    forall i, j | 0 <= i < j < |r| ensures !less(r[j], r[i]) {
      var i', j' := if i < k then i else i - 1, if j < k then j else j - 1;
      assert i != k && j != k ==> r[i] == s[i'] && r[j] == s[j'];
    }
  }

  /** The laws of a strict weak order at three points. */
  ghost predicate WeakAt<T>(less: (T, T) -> bool, x: T, y: T, z: T) {
    && (less(x, y) ==> !less(y, x))
    && (!less(y, x) && !less(z, y) ==> !less(z, x))
  }

  ghost predicate StrictWeakOn<T>(less: (T, T) -> bool, s: multiset<T>) {
    forall x, y, z {:trigger WeakAt(less, x, y, z)} :: x in s && y in s && z in s ==> WeakAt(less, x, y, z)
  }

  lemma AgreesIsStrictWeak<T, K(!new)>(less: (T, T) -> bool, key: T -> K, cmp: (K, K) -> int, s: multiset<T>)
    requires TotalCmp(cmp) && Agrees(less, key, cmp, s)
    ensures StrictWeakOn(less, s)
  {
    forall x, y, z | x in s && y in s && z in s ensures WeakAt(less, x, y, z) {
      if !less(y, x) && !less(z, y) {
        CmpTransitive(cmp, key(x), key(y), key(z));
      }
    }
  }

  lemma InsertLastSorted<T>(less: (T, T) -> bool, s: seq<T>, x: T)
    requires StrictWeakOn(less, multiset(s) + multiset{x})
    requires Sorted(less, s)
    ensures Sorted(less, InsertLast(less, s, x))
  {
    var k := InsertPos(less, s, x);
    forall i | 0 <= i < k ensures !less(x, s[i]) {
      assert WeakAt(less, s[i], s[k - 1], x);
    }
    forall i | k <= i < |s| ensures !less(s[i], x) {
      assert WeakAt(less, x, s[i], x);
    }
    SpliceSorted(less, s, k, x);
  }

  /** Sorting by a strict weak order leaves no inversion. */
  lemma {:induction false} SortBySorted<T>(less: (T, T) -> bool, s: seq<T>)
    requires StrictWeakOn(less, multiset(s))
    ensures Sorted(less, SortBy(less, s))
  {
    if |s| > 0 {
      var front, x := s[..|s| - 1], s[|s| - 1];
      assert s == front + [x];
      SortBySorted(less, front);
      InsertLastSorted(less, SortBy(less, front), x);
    }
  }

  ghost predicate Ascending<K>(cmp: (K, K) -> int, s: seq<K>) {
    forall i, j :: 0 <= i < j < |s| ==> cmp(s[i], s[j]) <= 0
  }

  lemma TailAscending<K>(cmp: (K, K) -> int, s: seq<K>)
    requires s != [] && Ascending(cmp, s)
    ensures Ascending(cmp, s[1..])
  {
  }

  lemma PrependAscending<K>(cmp: (K, K) -> int, x: K, s: seq<K>)
    requires Ascending(cmp, s)
    requires forall i :: 0 <= i < |s| ==> cmp(x, s[i]) <= 0
    ensures Ascending(cmp, [x] + s)
  {
    var r := [x] + s;
    forall i, j | 0 <= i < j < |r| ensures cmp(r[i], r[j]) <= 0 {
      assert r[j] == s[j - 1] && (i > 0 ==> r[i] == s[i - 1]);
    }
  }

  lemma HeadsEqual<K(!new)>(cmp: (K, K) -> int, a: seq<K>, b: seq<K>)
    requires TotalCmp(cmp)
    requires Ascending(cmp, a) && Ascending(cmp, b)
    requires a != [] && b != [] && a[0] in b && b[0] in a
    ensures a[0] == b[0]
  {
    var i :| 0 <= i < |b| && b[i] == a[0];
    var j :| 0 <= j < |a| && a[j] == b[0];
    assert cmp(b[0], b[i]) <= 0 && cmp(a[0], a[j]) <= 0;
  }

  /** A sequence is fixed by its elements and by being in ascending order. */
  lemma {:induction false} SortedUnique<K(!new)>(cmp: (K, K) -> int, a: seq<K>, b: seq<K>)
    requires TotalCmp(cmp)
    requires Ascending(cmp, a) && Ascending(cmp, b)
    requires multiset(a) == multiset(b)
    ensures a == b
  {
    assert |multiset(a)| == |a| && |multiset(b)| == |b|;
    if a != [] {
      assert a[0] in multiset(b) && b[0] in multiset(a);
      HeadsEqual(cmp, a, b);
      var x, s, t := a[0], a[1..], b[1..];
      assert a == [x] + s && b == [x] + t;
      TailsPermute(x, s, t);
      TailAscending(cmp, a);
      TailAscending(cmp, b);
      SortedUnique(cmp, s, t);
    }
  }

  /**
    Sort both, then compare pointwise: the two sorted sequences show the same canonical
    forms exactly when the inputs hold the same canonical forms with multiplicity.
    `less` orders by `key`; the canonical form may be coarser than the key, as long as
    a smaller form is never sorted behind a larger one.
   */
  lemma {:induction false} SortThenCompare<T, K(!new), C(!new)>(
    less: (T, T) -> bool, key: T -> K, cmp: (K, K) -> int,
    canon: T -> C, ccmp: (C, C) -> int, a: seq<T>, b: seq<T>)
    requires TotalCmp(cmp) && TotalCmp(ccmp)
    requires Agrees(less, key, cmp, multiset(a)) && Agrees(less, key, cmp, multiset(b))
    requires forall x, y :: x in multiset(a) && y in multiset(a) && ccmp(canon(x), canon(y)) < 0 ==> less(x, y)
    requires forall x, y :: x in multiset(b) && y in multiset(b) && ccmp(canon(x), canon(y)) < 0 ==> less(x, y)
    ensures MapSeq(canon, SortBy(less, a)) == MapSeq(canon, SortBy(less, b))
       <==> multiset(MapSeq(canon, a)) == multiset(MapSeq(canon, b))
  {
    var sa, sb := SortBy(less, a), SortBy(less, b);
    MapPermutes(canon, a, sa);
    MapPermutes(canon, b, sb);
    CanonAscending(less, key, cmp, canon, ccmp, a);
    CanonAscending(less, key, cmp, canon, ccmp, b);
    if multiset(MapSeq(canon, a)) == multiset(MapSeq(canon, b)) {
      SortedUnique(ccmp, MapSeq(canon, sa), MapSeq(canon, sb));
    }
  }

  lemma CanonAscending<T, K(!new), C(!new)>(
    less: (T, T) -> bool, key: T -> K, cmp: (K, K) -> int,
    canon: T -> C, ccmp: (C, C) -> int, a: seq<T>)
    requires TotalCmp(cmp) && TotalCmp(ccmp)
    requires Agrees(less, key, cmp, multiset(a))
    requires forall x, y :: x in multiset(a) && y in multiset(a) && ccmp(canon(x), canon(y)) < 0 ==> less(x, y)
    ensures Ascending(ccmp, MapSeq(canon, SortBy(less, a)))
  {
    var sa := SortBy(less, a);
    AgreesIsStrictWeak(less, key, cmp, multiset(a));
    SortBySorted(less, a);
    forall i, j | 0 <= i < j < |sa| ensures ccmp(canon(sa[i]), canon(sa[j])) <= 0 {
      assert sa[i] in multiset(sa) && sa[j] in multiset(sa);
      assert !less(sa[j], sa[i]);
      assert !(ccmp(canon(sa[j]), canon(sa[i])) < 0);
    }
  }

  lemma SortTwo<T>(less: (T, T) -> bool, x: T, y: T)
    ensures SortBy(less, [x]) == [x]
    ensures SortBy(less, [x, y]) == if less(y, x) then [y, x] else [x, y]
  {
    var s := [x];
    assert s[..0] == [] && s[0] == x;
    assert SortBy(less, s[..0]) == [];
    assert InsertPos(less, [], x) == 0;
    assert SortBy(less, s) == [x];
    var t := [x, y];
    assert t[..1] == s && s[..1] == s;
    var k := InsertPos(less, s, y);
    assert k == if less(y, x) then 0 else 1;
    assert SortBy(less, t) == s[..k] + [y] + s[k..];
  }

  lemma InsertPosIs<T>(less: (T, T) -> bool, s: seq<T>, x: T, k: nat)
    requires k <= |s| && (k > 0 ==> !less(x, s[k - 1]))
    requires forall i :: k <= i < |s| ==> less(x, s[i])
    ensures InsertPos(less, s, x) == k
    ensures InsertLast(less, s, x) == s[..k] + [x] + s[k..]
  {
    var p := InsertPos(less, s, x);
  }

  ghost predicate Alike<T>(less: (T, T) -> bool, a: T, b: T, s: seq<T>) {
    !less(a, b) && !less(b, a) && forall i :: 0 <= i < |s| ==> (less(a, s[i]) <==> less(b, s[i]))
  }

  lemma AlikePos<T>(less: (T, T) -> bool, s: seq<T>, a: T, b: T, k: nat)
    requires Alike(less, a, b, s) && k == InsertPos(less, s, a)
    ensures k == InsertPos(less, s, b)
  {
    assert k > 0 ==> !less(a, s[k - 1]);
    assert forall i :: k <= i < |s| ==> less(a, s[i]);
    InsertPosIs(less, s, b, k);
  }

  lemma InsertBehind<T>(less: (T, T) -> bool, l: seq<T>, a: T, r: seq<T>, b: T)
    requires !less(b, a) && forall i :: 0 <= i < |r| ==> less(b, r[i])
    ensures InsertLast(less, l + [a] + r, b)[|l|] == a
  {
    hide InsertPos, InsertLast;
    var t := l + [a] + r;
    assert t[|l|] == a;
    assert forall i :: |l| + 1 <= i < |t| ==> t[i] == r[i - |l| - 1];
    InsertPosIs(less, t, b, |l| + 1);
    assert (t[..|l| + 1] + [b] + t[|l| + 1..])[|l|] == t[|l|];
  }

  lemma InsertLastIs<T>(less: (T, T) -> bool, s: seq<T>, x: T, k: nat)
    requires k == InsertPos(less, s, x)
    ensures k <= |s| && InsertLast(less, s, x) == s[..k] + [x] + s[k..]
    ensures forall i :: 0 <= i < |s[k..]| ==> less(x, s[k..][i])
  {
    hide InsertPos;
  }

  /** What `less` cannot tell apart comes to rest side by side, in the order of arrival. */
  lemma InsertTwins<T>(less: (T, T) -> bool, s: seq<T>, a: T, b: T, k: nat)
    requires Alike(less, a, b, s) && k == InsertPos(less, s, a)
    ensures k == InsertPos(less, s, b)
    ensures InsertLast(less, InsertLast(less, s, a), b)[k] == a
  {
    hide InsertPos, InsertLast;
    AlikePos(less, s, a, b, k);
    InsertLastIs(less, s, a, k);
    InsertLastIs(less, s, b, k);
    InsertBehind(less, s[..k], a, s[k..], b);
  }

  lemma SortAppend<T>(less: (T, T) -> bool, s: seq<T>, x: T)
    ensures SortBy(less, s + [x]) == InsertLast(less, SortBy(less, s), x)
  {
    hide InsertLast;
    var t := s + [x];
    assert t[..|t| - 1] == s;
  }

  lemma SortAppendTwo<T>(less: (T, T) -> bool, s: seq<T>, x: T, y: T)
    ensures SortBy(less, s + [x, y]) == InsertLast(less, InsertLast(less, SortBy(less, s), x), y)
  {
    hide InsertLast, SortBy;
    SortAppend(less, s, x);
    SortAppend(less, s + [x], y);
    assert s + [x] + [y] == s + [x, y];
  }

  /** Two elements that `less` cannot tell apart, at the end of a list in either order, stay in that order. */
  lemma SortTwins<T>(less: (T, T) -> bool, s: seq<T>, a: T, b: T) returns (k: nat)
    requires Alike(less, a, b, s)
    ensures k < |s| + 2
    ensures SortBy(less, s + [a, b])[k] == a && SortBy(less, s + [b, a])[k] == b
  {
    hide SortBy, InsertLast, InsertPos;
    var t := SortBy(less, s);
    AlikeSorted(less, a, b, s);
    k := InsertPos(less, t, a);
    InsertTwins(less, t, a, b, k);
    InsertTwins(less, t, b, a, k);
    SortAppendTwo(less, s, a, b);
    SortAppendTwo(less, s, b, a);
  }

  lemma AlikeSorted<T>(less: (T, T) -> bool, a: T, b: T, s: seq<T>)
    requires Alike(less, a, b, s)
    ensures Alike(less, a, b, SortBy(less, s))
  {
    hide SortBy;
    var t := SortBy(less, s);
    forall i | 0 <= i < |t| ensures less(a, t[i]) <==> less(b, t[i]) {
      assert t[i] in multiset(s);
    }
  }

  lemma PullOut<T>(s: seq<T>, x: T) returns (rest: seq<T>)
    requires x in s
    ensures multiset(s) == multiset{x} + multiset(rest)
  {
    var i :| 0 <= i < |s| && s[i] == x;
    rest := s[..i] + s[i + 1..];
    assert s == s[..i] + [x] + s[i + 1..];
    Splice(s[..i], x, s[i + 1..]);
  }

  /** Two different elements can be brought to the end. */
  lemma BringToEnd<T>(s: seq<T>, a: T, b: T) returns (rest: seq<T>)
    requires a in s && b in s && a != b
    ensures multiset(rest + [a, b]) == multiset(s) && multiset(rest + [b, a]) == multiset(s)
  {
    var t := PullOut(s, a);
    assert b in multiset(s) && b in multiset(t);
    rest := PullOut(t, b);
  }

  /** The comparison loop that answers true on the first negative comparison. */
  predicate AnyNegative<T>(cmp: (T, T) -> int, a: seq<T>, b: seq<T>)
    requires |a| == |b|
  {
    exists i :: 0 <= i < |a| && cmp(a[i], b[i]) < 0
  }

  lemma OneNegative<T, K>(less: (T, T) -> bool, cmp: (T, T) -> int, key: T -> K, kcmp: (K, K) -> int, x: T, y: T)
    requires cmp(x, y) < 0 <==> kcmp(key(x), key(y)) < 0
    ensures AnyNegative(cmp, SortBy(less, [x]), SortBy(less, [y])) <==> ShortLexCmp(kcmp, [key(x)], [key(y)]) < 0
  {
    SortTwo(less, x, x);
    SortTwo(less, y, y);
    LexOne(kcmp, key(x), key(y));
    assert AnyNegative(cmp, [x], [y]) <==> cmp([x][0], [y][0]) < 0;
  }

  /** Crossed pairs make that loop answer true in both directions. */
  lemma CrossedPairs<T>(less: (T, T) -> bool, cmp: (T, T) -> int, a: T, b: T, c: T, d: T)
    requires !less(d, a) && !less(c, b) && cmp(a, b) < 0 && cmp(c, d) < 0
    ensures AnyNegative(cmp, SortBy(less, [a, d]), SortBy(less, [b, c]))
    ensures AnyNegative(cmp, SortBy(less, [b, c]), SortBy(less, [a, d]))
  {
    SortTwo(less, a, d);
    SortTwo(less, b, c);
    assert cmp([a, d][0], [b, c][0]) < 0 && cmp([b, c][1], [a, d][1]) < 0;
  }

  // ---- sorting strings ----

  function SortStrings(s: seq<string>): (r: seq<string>)
    ensures multiset(r) == multiset(s)
    ensures |r| == |s|
  {
    SortBy(StringLess, s)
  }

  lemma SortStringsAscending(s: seq<string>)
    ensures Ascending(StringCmp, SortStrings(s))
  {
    StringTotal();
    AgreesIsStrictWeak(StringLess, (x: string) => x, StringCmp, multiset(s));
    SortBySorted(StringLess, s);
  }

  lemma SortStringsUnique(s: seq<string>, t: seq<string>)
    ensures SortStrings(s) == SortStrings(t) <==> multiset(s) == multiset(t)
  {
    StringTotal();
    SortStringsAscending(s);
    SortStringsAscending(t);
    if multiset(s) == multiset(t) {
      SortedUnique(StringCmp, SortStrings(s), SortStrings(t));
    }
  }

  /** `sort.Sort` and `sort.Strings` reorder the slice they are given. */
  method SortInPlace<T>(a: array<T>, less: (T, T) -> bool)
    modifies a
    ensures a[..] == SortBy(less, old(a[..]))
  {
    hide SortBy;
    var s := SortBy(less, a[..]);
    for i := 0 to a.Length
      invariant forall j :: 0 <= j < i ==> a[j] == s[j]
    {
      a[i] := s[i];
    }
  }

  predicate Pointwise<T>(eq: (T, T) -> bool, a: seq<T>, b: seq<T>)
    requires |a| == |b|
  {
    forall i :: 0 <= i < |a| ==> eq(a[i], b[i])
  }

  /** Sort two slices in place, then compare them element by element. The two may be one slice. */
  method SortAndCompare<T(!new)>(n: array<T>, o: array<T>, less: (T, T) -> bool, eq: (T, T) -> bool) returns (r: bool)
    requires n.Length == o.Length
    requires n == o ==> forall x :: eq(x, x)
    modifies n, o
    ensures r == Pointwise(eq, SortBy(less, old(n[..])), SortBy(less, old(o[..])))
    ensures multiset(n[..]) == old(multiset(n[..])) && multiset(o[..]) == old(multiset(o[..]))
    ensures n != o ==> n[..] == SortBy(less, old(n[..])) && o[..] == SortBy(less, old(o[..]))
  {
    SortInPlace(n, less);
    SortInPlace(o, less);
    r := CompareSlices(n, o, eq);
  }

  method CompareSlices<T>(n: array<T>, o: array<T>, eq: (T, T) -> bool) returns (r: bool)
    requires n.Length == o.Length
    ensures r == Pointwise(eq, n[..], o[..])
  {
    for i := 0 to n.Length
      invariant forall j :: 0 <= j < i ==> eq(n[j], o[j])
    {
      if !eq(n[i], o[i]) {
        assert !eq(n[..][i], o[..][i]);
        return false;
      }
    }
    return true;
  }
}
