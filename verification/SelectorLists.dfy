/** Equality of lists of node selectors: sorted, then compared element by element. */
module SelectorLists {
  import opened Order
  import opened Selectors

  /** Labels, and expressions with value order and their own order forgotten: what equality can see of a selector. */
  type Form = (Labels, multiset<Requirement>)

  function FormOf(s: NodeSelector): Form { (LabelsOf(s), multiset(MapSeq(Normal, ExprsOf(s)))) }

  /** With any number of expressions, lists that compare equal hold the same forms. */
  lemma SelectorsEqualSound(n: seq<NodeSelector>, o: seq<NodeSelector>)
    requires SelectorsEqual(n, o) && forall i :: 0 <= i < |n| ==> ValuesNonEmpty(LabelsOf(n[i]))
    ensures multiset(MapSeq(FormOf, n)) == multiset(MapSeq(FormOf, o))
  {
    hide SortBy, SelectorLess, SelectorEqual, Normal;
    var a, b := SortBy(SelectorLess, n), SortBy(SelectorLess, o);
    forall i | 0 <= i < |a| ensures FormOf(a[i]) == FormOf(b[i]) {
      assert a[i] in multiset(n);
      SelectorEqualSound(a[i], b[i]);
    }
    assert MapSeq(FormOf, a) == MapSeq(FormOf, b);
    MapPermutes(FormOf, n, a);
    MapPermutes(FormOf, o, b);
  }

  // ---- at most one expression ----

  /** The same, in a form that can be ordered. */
  type ShortForm = (Labels, seq<Requirement>)

  function ShortFormOf(s: NodeSelector): ShortForm { (LabelsOf(s), MapSeq(Normal, ExprsOf(s))) }

  function ShortFormCmp(a: ShortForm, b: ShortForm): int { PairCmp(LabelsCmp, ExprsCmp, a, b) }

  lemma ShortFormTotal()
    ensures TotalCmp(ShortFormCmp) && TotalCmp(ExprsCmp)
  {
    hide LabelsCmp, RequirementCmp;
    LabelsTotal();
    RequirementTotal();
    ShortLexTotal(RequirementCmp);
    assert TotalCmp(ExprsCmp);
    PairTotal(LabelsCmp, ExprsCmp);
  }

  ghost predicate Comparable(s: NodeSelector) { AtMostOneExpr(s) && ValuesNonEmpty(LabelsOf(s)) }

  ghost predicate AllComparable(n: seq<NodeSelector>) { forall i :: 0 <= i < |n| ==> Comparable(n[i]) }

  /** One has a nil label map, the other an empty one, and the expressions are in the opposite order. */
  ghost predicate Crossed(x: NodeSelector, y: NodeSelector) {
    x.labels == None && y.labels == Some(map[]) && ExprsCmp(ShortFormOf(y).1, ShortFormOf(x).1) < 0
  }

  ghost predicate Uncrossed(n: seq<NodeSelector>) {
    forall i, j :: 0 <= i < |n| && 0 <= j < |n| ==> !Crossed(n[i], n[j])
  }

  lemma AtMostOne<T>(x: seq<T>, y: seq<T>)
    requires |x| <= 1 && |y| <= 1
    ensures multiset(x) == multiset(y) <==> x == y
  {
    if multiset(x) == multiset(y) {
      assert |multiset(x)| == |x| && |multiset(y)| == |y|;
      if |x| == 1 {
        assert x == [x[0]] && y == [y[0]];
        assert x[0] in multiset(y);
      }
    }
  }

  lemma SameShortForm(a: NodeSelector, b: NodeSelector)
    requires Comparable(a) && Comparable(b)
    ensures SelectorEqual(a, b) <==> ShortFormOf(a) == ShortFormOf(b)
    ensures FormOf(a) == FormOf(b) <==> ShortFormOf(a) == ShortFormOf(b)
  {
    hide SelectorEqual, Normal, Unmixed;
    OneIsUnmixed(ExprsOf(a));
    SelectorEqualMeans(a, b);
    AtMostOne(MapSeq(Normal, ExprsOf(a)), MapSeq(Normal, ExprsOf(b)));
  }

  lemma OneIsUnmixed(s: seq<Requirement>)
    requires |s| <= 1
    ensures Unmixed(s)
  {
  }

  lemma NoLabelsFirst(m: Labels)
    ensures LabelsCmp(m, map[]) >= 0
  {
    LabelsTotal();
    assert |Entries(map[])| == 0;
  }

  /** `Less` follows the forms, unless the two selectors are crossed. */
  lemma FormLess(x: NodeSelector, y: NodeSelector)
    requires AtMostOneExpr(x) && AtMostOneExpr(y) && !Crossed(y, x)
    requires ShortFormCmp(ShortFormOf(x), ShortFormOf(y)) < 0
    ensures SelectorLess(x, y)
  {
    hide SelectorLess, Normal, LabelsCmp, ShortLexCmp, RequirementCmp;
    LessIsKeyOrder(x, y);
    LabelsTotal();
    NoLabelsFirst(LabelsOf(x));
    ShortFormTotal();
    if x.labels.Some? == y.labels.Some? {
      ExprsFollow(x.exprs, y.exprs);
    }
  }

  lemma ExprsFollow(a: Option<seq<Requirement>>, b: Option<seq<Requirement>>)
    ensures var x, y := if a.Some? then a.value else [], if b.Some? then b.value else [];
      ExprsCmp(MapSeq(Normal, x), MapSeq(Normal, y)) < 0 ==> MaybeExprsCmp(NormalExprs(a), NormalExprs(b)) < 0
  {
    hide Normal, RequirementCmp;
    ShortFormTotal();
  }

  lemma SelectorsAgree(n: seq<NodeSelector>)
    requires AllComparable(n)
    ensures Agrees(SelectorLess, KeyOf, KeyCmp, multiset(n))
    ensures StrictWeakOn(SelectorLess, multiset(n))
  {
    hide SelectorLess, KeyOf, KeyCmp;
    KeyTotal();
    forall x, y | x in multiset(n) && y in multiset(n) ensures SelectorLess(x, y) <==> KeyCmp(KeyOf(x), KeyOf(y)) < 0 {
      LessIsKeyOrder(x, y);
    }
    AgreesIsStrictWeak(SelectorLess, KeyOf, KeyCmp, multiset(n));
  }

  lemma FormsFollow(n: seq<NodeSelector>)
    requires AllComparable(n) && Uncrossed(n)
    ensures forall x, y :: x in multiset(n) && y in multiset(n) && ShortFormCmp(ShortFormOf(x), ShortFormOf(y)) < 0
              ==> SelectorLess(x, y)
  {
    hide SelectorLess, ShortFormCmp, ShortFormOf, Crossed;
    forall x, y | x in multiset(n) && y in multiset(n) && ShortFormCmp(ShortFormOf(x), ShortFormOf(y)) < 0
      ensures SelectorLess(x, y)
    {
      FormLess(x, y);
    }
  }

  lemma SortStaysComparable(n: seq<NodeSelector>)
    requires AllComparable(n)
    ensures AllComparable(SortBy(SelectorLess, n))
  {
    hide SortBy, SelectorLess, Comparable;
    var n1 := SortBy(SelectorLess, n);
    forall i | 0 <= i < |n1| ensures Comparable(n1[i]) {
      assert n1[i] in multiset(n);
    }
  }

  /** Two lists are equal iff their sorted forms agree. */
  lemma EqualIsSortedForms(n: seq<NodeSelector>, o: seq<NodeSelector>)
    requires AllComparable(n) && AllComparable(o)
    ensures SelectorsEqual(n, o)
       <==> MapSeq(ShortFormOf, SortBy(SelectorLess, n)) == MapSeq(ShortFormOf, SortBy(SelectorLess, o))
  {
    hide SortBy, SelectorLess, SelectorEqual, ShortFormOf, Comparable;
    var a, b := SortBy(SelectorLess, n), SortBy(SelectorLess, o);
    SortStaysComparable(n);
    SortStaysComparable(o);
    var x, y := MapSeq(ShortFormOf, a), MapSeq(ShortFormOf, b);
    if |n| == |o| {
      forall i | 0 <= i < |a| ensures SelectorEqual(a[i], b[i]) <==> x[i] == y[i] { SameShortForm(a[i], b[i]); }
      assert x == y <==> forall i :: 0 <= i < |x| ==> x[i] == y[i];
    }
  }

  ghost function ShortForms(n: seq<NodeSelector>): multiset<ShortForm> { multiset(MapSeq(ShortFormOf, n)) }

  /** `NodeSelectors.Equal`: sorted and compared pointwise, two lists are equal iff they hold the same forms. */
  lemma SelectorsEqualIsMultisetEqual(n: seq<NodeSelector>, o: seq<NodeSelector>)
    requires AllComparable(n) && AllComparable(o) && Uncrossed(n) && Uncrossed(o)
    ensures SelectorsEqual(n, o) <==> ShortForms(n) == ShortForms(o)
  {
    hide SelectorsEqual, SortBy, SelectorLess, Uncrossed, AllComparable, KeyCmp, KeyOf, ShortFormCmp, ShortFormOf;
    EqualIsSortedForms(n, o);
    KeyTotal();
    ShortFormTotal();
    SelectorsAgree(n);
    SelectorsAgree(o);
    FormsFollow(n);
    FormsFollow(o);
    SortThenCompare(SelectorLess, KeyOf, KeyCmp, ShortFormOf, ShortFormCmp, n, o);
  }

  lemma EqualImpliesForms(n: seq<NodeSelector>, o: seq<NodeSelector>)
    requires AllComparable(n) && AllComparable(o) && SelectorsEqual(n, o)
    ensures ShortForms(n) == ShortForms(o)
  {
    hide SelectorsEqual, SortBy, SelectorLess, ShortFormOf, AllComparable;
    EqualIsSortedForms(n, o);
    MapPermutes(ShortFormOf, n, SortBy(SelectorLess, n));
    MapPermutes(ShortFormOf, o, SortBy(SelectorLess, o));
  }

  // ---- exactly when equality of lists is faithful ----

  /** All selectors without labels have the same expressions. */
  ghost predicate UnlabelledAlike(n: seq<NodeSelector>) {
    forall i, j :: 0 <= i < |n| && 0 <= j < |n| && LabelsOf(n[i]) == map[] && LabelsOf(n[j]) == map[] ==>
      ShortFormOf(n[i]) == ShortFormOf(n[j])
  }

  lemma AlikeIsUncrossed(n: seq<NodeSelector>)
    requires UnlabelledAlike(n)
    ensures Uncrossed(n)
  {
    hide ExprsCmp, Normal;
    ShortFormTotal();
    forall i, j | 0 <= i < |n| && 0 <= j < |n| ensures !Crossed(n[i], n[j]) {
      if n[i].labels == None && n[j].labels == Some(map[]) {
        assert ShortFormOf(n[i]) == ShortFormOf(n[j]);
      }
    }
  }

  lemma AlikeForms(n: seq<NodeSelector>, o: seq<NodeSelector>)
    requires UnlabelledAlike(n) && ShortForms(n) == ShortForms(o)
    ensures UnlabelledAlike(o)
  {
    hide Normal, MapSeq;
    forall i | 0 <= i < |o| ensures exists k :: 0 <= k < |n| && ShortFormOf(n[k]) == ShortFormOf(o[i]) {
      assert MapSeq(ShortFormOf, o)[i] in ShortForms(n);
    }
  }

  /** Selectors without labels get a nil label map if their expressions are `first`, and an empty one otherwise. */
  function Relabelled(s: NodeSelector, first: seq<Requirement>): NodeSelector {
    if LabelsOf(s) == map[] then s.(labels := if ShortFormOf(s).1 == first then None else Some(map[])) else s
  }

  function NilLabelled(s: NodeSelector): NodeSelector { if LabelsOf(s) == map[] then s.(labels := None) else s }

  lemma SameForms(n: seq<NodeSelector>, o: seq<NodeSelector>)
    requires |n| == |o| && forall i :: 0 <= i < |n| ==> ShortFormOf(o[i]) == ShortFormOf(n[i])
    ensures ShortForms(o) == ShortForms(n)
  {
    hide ShortFormOf;
    assert MapSeq(ShortFormOf, o) == MapSeq(ShortFormOf, n);
  }

  lemma RelabelledForms(n: seq<NodeSelector>, first: seq<Requirement>) returns (o: seq<NodeSelector>)
    requires AllComparable(n)
    ensures |o| == |n| && forall i :: 0 <= i < |n| ==> o[i] == Relabelled(n[i], first)
    ensures AllComparable(o) && ShortForms(o) == ShortForms(n)
  {
    hide Normal;
    o := seq(|n|, i requires 0 <= i < |n| => Relabelled(n[i], first));
    SameForms(n, o);
  }

  lemma NilLabelledForms(n: seq<NodeSelector>) returns (o: seq<NodeSelector>)
    requires AllComparable(n)
    ensures AllComparable(o) && ShortForms(o) == ShortForms(n) && Uncrossed(o)
  {
    hide Normal;
    o := seq(|n|, i requires 0 <= i < |n| => NilLabelled(n[i]));
    SameForms(n, o);
  }

  /** Of two crossed selectors the one with the larger form comes first. */
  lemma CrossedLess(x: NodeSelector, y: NodeSelector)
    requires Crossed(x, y)
    ensures SelectorLess(x, y) && ShortFormCmp(ShortFormOf(x), ShortFormOf(y)) > 0
  {
    hide ExprsCmp, Normal, LabelsCmp;
    LabelsTotal();
    ShortFormTotal();
  }

  lemma SwappedForms(o: seq<NodeSelector>, i: nat, j: nat)
    requires AllComparable(o) && i < |o| && j < |o| && Crossed(o[i], o[j])
    ensures !Ascending(ShortFormCmp, MapSeq(ShortFormOf, SortBy(SelectorLess, o)))
  {
    hide SortBy, SelectorLess, ShortFormCmp, ShortFormOf, Crossed, AllComparable, KeyCmp, KeyOf;
    var t := SortBy(SelectorLess, o);
    SelectorsAgree(o);
    SortBySorted(SelectorLess, o);
    CrossedLess(o[i], o[j]);
    assert o[i] in multiset(t) && o[j] in multiset(t);
    var a :| 0 <= a < |t| && t[a] == o[i];
    var b :| 0 <= b < |t| && t[b] == o[j];
    assert a != b by { assert WeakAt(SelectorLess, o[i], o[j], o[i]); }
    assert a < b;
    var f := MapSeq(ShortFormOf, t);
    assert ShortFormCmp(f[a], f[b]) > 0;
  }

  lemma AscendingForms(n: seq<NodeSelector>)
    requires AllComparable(n) && Uncrossed(n)
    ensures Ascending(ShortFormCmp, MapSeq(ShortFormOf, SortBy(SelectorLess, n)))
  {
    hide SortBy, SelectorLess, ShortFormCmp, ShortFormOf, AllComparable, Uncrossed, KeyCmp, KeyOf;
    KeyTotal();
    ShortFormTotal();
    SelectorsAgree(n);
    FormsFollow(n);
    CanonAscending(SelectorLess, KeyOf, KeyCmp, ShortFormOf, ShortFormCmp, n);
  }

  lemma RelabelledCross(x: NodeSelector, y: NodeSelector)
    requires LabelsOf(x) == map[] && LabelsOf(y) == map[] && ExprsCmp(ShortFormOf(y).1, ShortFormOf(x).1) < 0
    ensures var first := ShortFormOf(x).1; Crossed(Relabelled(x, first), Relabelled(y, first))
  {
    hide ExprsCmp, Normal;
    ShortFormTotal();
  }

  /** One of two lists with the same forms is unequal to n. */
  lemma CrossedIsUnequal(n: seq<NodeSelector>, i: nat, j: nat) returns (o: seq<NodeSelector>)
    requires AllComparable(n) && i < |n| && j < |n| && LabelsOf(n[i]) == map[] && LabelsOf(n[j]) == map[]
    requires ExprsCmp(ShortFormOf(n[j]).1, ShortFormOf(n[i]).1) < 0
    ensures AllComparable(o) && ShortForms(o) == ShortForms(n) && !SelectorsEqual(n, o)
  {
    hide SelectorsEqual, SortBy, SelectorLess, ShortFormCmp, ShortFormOf, AllComparable, Uncrossed, Crossed, Relabelled, Ascending;
    var x := RelabelledForms(n, ShortFormOf(n[i]).1);
    var y := NilLabelledForms(n);
    RelabelledCross(n[i], n[j]);
    SwappedForms(x, i, j);
    AscendingForms(y);
    EqualIsSortedForms(n, x);
    EqualIsSortedForms(n, y);
    o := if SelectorsEqual(n, x) then y else x;
  }

  /** The same two forms, on a nil and an empty label map or on two nil ones: the lists compare unequal. */
  lemma CrossedBreaksEquality()
    ensures var a, b := Some([Keyed("a")]), Some([Keyed("b")]);
      var n, o := [NodeSelector(None, b), NodeSelector(Some(map[]), a)], [NodeSelector(None, b), NodeSelector(None, a)];
      ShortForms(n) == ShortForms(o) && !SelectorsEqual(n, o)
  {
    hide SelectorsEqual, SortBy, SelectorLess, ShortFormCmp, ShortFormOf, Uncrossed, Ascending, Crossed, AllComparable;
    var x, y, z := NodeSelector(None, Some([Keyed("b")])), NodeSelector(Some(map[]), Some([Keyed("a")])), NodeSelector(None, Some([Keyed("a")]));
    KeyedCrossed(x, y, z);
    SameForms([x, y], [x, z]);
    SwappedForms([x, y], 0, 1);
    NilIsUncrossed([x, z]);
    AscendingForms([x, z]);
    EqualIsSortedForms([x, y], [x, z]);
  }

  lemma KeyedCrossed(x: NodeSelector, y: NodeSelector, z: NodeSelector)
    requires x == NodeSelector(None, Some([Keyed("b")])) && y == NodeSelector(Some(map[]), Some([Keyed("a")]))
    requires z == NodeSelector(None, Some([Keyed("a")]))
    ensures Crossed(x, y) && ShortFormOf(y) == ShortFormOf(z) && AllComparable([x, y]) && AllComparable([x, z])
  {
    hide Normal, ExprsCmp;
    KeyedForms();
  }

  lemma NilIsUncrossed(n: seq<NodeSelector>)
    requires forall i :: 0 <= i < |n| ==> n[i].labels == None
    ensures Uncrossed(n)
  {
  }

  lemma KeyedForms()
    ensures ExprsCmp(MapSeq(Normal, [Keyed("a")]), MapSeq(Normal, [Keyed("b")])) < 0
  {
    hide Normal, RequirementCmp;
    KeyedCompare('a', 'b');
    CompareSign(Keyed("a"), Keyed("b"));
    assert MapSeq(Normal, [Keyed("a")]) == [Normal(Keyed("a"))] && MapSeq(Normal, [Keyed("b")]) == [Normal(Keyed("b"))];
    LexOne(RequirementCmp, Normal(Keyed("a")), Normal(Keyed("b")));
  }

  /** Exactly the lists whose selectors without labels have the same expressions are told from all others by their forms. */
  lemma SelectorsEqualExactly(n: seq<NodeSelector>)
    requires AllComparable(n)
    ensures UnlabelledAlike(n) <==> forall o :: AllComparable(o) ==> (SelectorsEqual(n, o) <==> ShortForms(n) == ShortForms(o))
  {
    hide SelectorsEqual, AllComparable, ShortForms, ShortFormOf;
    if UnlabelledAlike(n) {
      forall o | AllComparable(o) ensures SelectorsEqual(n, o) <==> ShortForms(n) == ShortForms(o) {
        if ShortForms(n) == ShortForms(o) {
          AlikeForms(n, o);
          AlikeIsUncrossed(n);
          AlikeIsUncrossed(o);
          SelectorsEqualIsMultisetEqual(n, o);
        } else if SelectorsEqual(n, o) {
          EqualImpliesForms(n, o);
        }
      }
    } else {
      var i, j :| 0 <= i < |n| && 0 <= j < |n| && LabelsOf(n[i]) == map[] && LabelsOf(n[j]) == map[]
                  && ShortFormOf(n[i]) != ShortFormOf(n[j]);
      DifferentExprs(n[i], n[j]);
      if ExprsCmp(ShortFormOf(n[j]).1, ShortFormOf(n[i]).1) < 0 {
        var o := CrossedIsUnequal(n, i, j);
      } else {
        var o := CrossedIsUnequal(n, j, i);
      }
    }
  }

  lemma DifferentExprs(a: NodeSelector, b: NodeSelector)
    requires LabelsOf(a) == LabelsOf(b) && ShortFormOf(a) != ShortFormOf(b)
    ensures ExprsCmp(ShortFormOf(a).1, ShortFormOf(b).1) < 0 || ExprsCmp(ShortFormOf(b).1, ShortFormOf(a).1) < 0
  {
    hide ExprsCmp, Normal;
    ShortFormTotal();
  }
}
