/** Orders and equality of selector requirements and node selectors. */
module Selectors {
  import opened Order

  // ---- selector requirements ----

  /** `values` is None for a nil slice. */
  datatype Requirement = Requirement(key: string, operator: string, values: Option<seq<string>>)

  function Values(r: Requirement): seq<string> { if r.values.Some? then r.values.value else [] }

  /** The sign of a comparison, as `strings.Compare` returns it. */
  function Sign(n: int): int { if n < 0 then -1 else if n > 0 then 1 else 0 }

  function Compare(s: Requirement, o: Requirement): int {
    if s.key != o.key then Sign(StringCmp(s.key, o.key))
    else if s.operator != o.operator then Sign(StringCmp(s.operator, o.operator))
    else
      match (s.values, o.values)
      case (None, None) => 0
      case (None, Some(_)) => -1
      case (Some(_), None) => 1
      case (Some(a), Some(b)) =>
        if |a| < |b| then -1
        else if |a| > |b| then 1
        else CompareValues(SortStrings(a), SortStrings(b))
  }

  function CompareValues(a: seq<string>, b: seq<string>): int
    requires |a| == |b|
  {
    if a == [] then 0
    else if a[0] != b[0] then Sign(StringCmp(a[0], b[0]))
    else CompareValues(a[1..], b[1..])
  }

  function RequirementLess(a: Requirement, b: Requirement): bool {
    if a.key != b.key then StringLess(a.key, b.key)
    else if a.operator != b.operator then StringLess(a.operator, b.operator)
    else if |Values(a)| != |Values(b)| then |Values(a)| < |Values(b)|
    else CompareValues(SortStrings(Values(a)), SortStrings(Values(b))) < 0
  }

  predicate RequirementsEqual(s: seq<Requirement>, o: seq<Requirement>) {
    && |s| == |o|
    && var s1, o1 := SortBy(RequirementLess, s), SortBy(RequirementLess, o);
       forall i :: 0 <= i < |s| ==> Compare(s1[i], o1[i]) == 0
  }

  /** The requirement with its values in order: what is left when value order is forgotten. */
  function Normal(r: Requirement): Requirement {
    r.(values := if r.values.Some? then Some(SortStrings(r.values.value)) else None)
  }

  function StringsCmp(a: seq<string>, b: seq<string>): int { ShortLexCmp(StringCmp, a, b) }

  function MaybeStringsCmp(a: Option<seq<string>>, b: Option<seq<string>>): int { OptionCmp(StringsCmp, a, b) }

  type Tail = (string, Option<seq<string>>)

  function TailCmp(a: Tail, b: Tail): int { PairCmp(StringCmp, MaybeStringsCmp, a, b) }

  /** By key, by operator, then nil before non-nil, by number of values, by the values. */
  function RequirementCmp(a: Requirement, b: Requirement): int {
    PairCmp(StringCmp, TailCmp, (a.key, (a.operator, a.values)), (b.key, (b.operator, b.values)))
  }

  lemma TailTotal()
    ensures TotalCmp(TailCmp)
  {
    StringTotal();
    ShortLexTotal(StringCmp);
    assert TotalCmp(StringsCmp);
    OptionTotal(StringsCmp);
    assert TotalCmp(MaybeStringsCmp);
    PairTotal(StringCmp, MaybeStringsCmp);
  }

  lemma RequirementTotal()
    ensures TotalCmp(RequirementCmp)
  {
    StringTotal();
    TailTotal();
    PairTotal(StringCmp, TailCmp);
  }

  lemma {:induction false} CompareValuesSign(a: seq<string>, b: seq<string>)
    requires |a| == |b|
    ensures Sign(CompareValues(a, b)) == Sign(StringsCmp(a, b))
  {
    StringTotal();
    if a != [] {
      CompareValuesSign(a[1..], b[1..]);
    }
  }

  lemma CompareSign(a: Requirement, b: Requirement)
    ensures Sign(Compare(a, b)) == Sign(RequirementCmp(Normal(a), Normal(b)))
  {
    StringTotal();
    if a.key == b.key && a.operator == b.operator && a.values.Some? && b.values.Some? {
      var x, y := SortStrings(a.values.value), SortStrings(b.values.value);
      if |x| == |y| {
        CompareValuesSign(x, y);
      }
    }
  }

  ghost predicate SameUpToValueOrder(a: Requirement, b: Requirement) {
    && a.key == b.key && a.operator == b.operator
    && a.values.Some? == b.values.Some? && multiset(Values(a)) == multiset(Values(b))
  }

  lemma NormalEqual(a: Requirement, b: Requirement)
    ensures Normal(a) == Normal(b)
       <==> SameUpToValueOrder(a, b)
  {
    SortStringsUnique(Values(a), Values(b));
  }

  /** `Compare` is a total preorder, and calls equal what differs only in value order. */
  lemma ComparePreorder(a: Requirement, b: Requirement, c: Requirement)
    ensures Compare(a, a) == 0
    ensures Compare(a, b) < 0 <==> Compare(b, a) > 0
    ensures Compare(a, b) <= 0 && Compare(b, c) <= 0 ==> Compare(a, c) <= 0
    ensures Compare(a, b) == 0
       <==> SameUpToValueOrder(a, b)
  {
    RequirementTotal();
    CompareSign(a, a);
    CompareSign(a, b);
    CompareSign(b, a);
    CompareSign(b, c);
    CompareSign(a, c);
    NormalEqual(a, b);
    if Compare(a, b) <= 0 && Compare(b, c) <= 0 {
      CmpTransitive(RequirementCmp, Normal(a), Normal(b), Normal(c));
    }
  }

  /** The same key and operator, with a nil and an empty value list. */
  ghost predicate Twins(a: Requirement, b: Requirement) {
    a.key == b.key && a.operator == b.operator && a.values == None && b.values == Some([])
  }

  /** `Less` is the strict part of `Compare`, except that it cannot tell nil from empty values. */
  lemma LessIsStrictPart(a: Requirement, b: Requirement)
    ensures (RequirementLess(a, b) <==> Compare(a, b) < 0)
       <==> !Twins(a, b)
  {
    StringTotal();
  }

  /** No nil and empty value list on the same key and operator; so in particular if no value list is nil. */
  ghost predicate Unmixed(s: seq<Requirement>) {
    forall a, b :: a in multiset(s) && b in multiset(s) ==> !Twins(a, b)
  }

  lemma RequirementsAgree(s: seq<Requirement>)
    requires Unmixed(s)
    ensures Agrees(RequirementLess, Normal, RequirementCmp, multiset(s))
  {
    forall a, b | a in multiset(s) && b in multiset(s)
      ensures RequirementLess(a, b) <==> RequirementCmp(Normal(a), Normal(b)) < 0
    {
      LessIsStrictPart(a, b);
      CompareSign(a, b);
    }
  }

  lemma PointwiseCompare(s: seq<Requirement>, o: seq<Requirement>)
    requires |s| == |o|
    ensures (forall i :: 0 <= i < |s| ==> Compare(s[i], o[i]) == 0) <==> MapSeq(Normal, s) == MapSeq(Normal, o)
  {
    RequirementTotal();
    forall i | 0 <= i < |s| ensures Compare(s[i], o[i]) == 0 <==> Normal(s[i]) == Normal(o[i]) {
      CompareSign(s[i], o[i]);
    }
    if MapSeq(Normal, s) == MapSeq(Normal, o) {
      assert forall i :: 0 <= i < |s| ==> MapSeq(Normal, s)[i] == MapSeq(Normal, o)[i];
    }
  }

  /** Sort both and compare pointwise: multiset equality, value order forgotten. */
  lemma RequirementsEqualIsMultisetEqual(s: seq<Requirement>, o: seq<Requirement>)
    ensures RequirementsEqual(s, o) ==> multiset(MapSeq(Normal, s)) == multiset(MapSeq(Normal, o))
    ensures Unmixed(s) && Unmixed(o) && multiset(MapSeq(Normal, s)) == multiset(MapSeq(Normal, o))
        ==> RequirementsEqual(s, o)
  {
    var s1, o1 := SortBy(RequirementLess, s), SortBy(RequirementLess, o);
    MapPermutes(Normal, s, s1);
    MapPermutes(Normal, o, o1);
    if |s| == |o| {
      PointwiseCompare(s1, o1);
    }
    if Unmixed(s) && Unmixed(o) && multiset(MapSeq(Normal, s)) == multiset(MapSeq(Normal, o)) {
      assert |multiset(MapSeq(Normal, s))| == |s| && |multiset(MapSeq(Normal, o))| == |o|;
      RequirementTotal();
      RequirementsAgree(s);
      RequirementsAgree(o);
      SortThenCompare(RequirementLess, Normal, RequirementCmp, Normal, RequirementCmp, s, o);
    }
  }

  /** With a nil and an empty value list on the same key, the same two requirements can compare unequal. */
  lemma NilValuesBreakEquality()
    ensures var a, b := Requirement("k", "Exists", None), Requirement("k", "Exists", Some([]));
            multiset([a, b]) == multiset([b, a]) && !RequirementsEqual([a, b], [b, a])
  {
    var a, b := Requirement("k", "Exists", None), Requirement("k", "Exists", Some([]));
    SortTwo(RequirementLess, a, b);
    SortTwo(RequirementLess, b, a);
    assert Compare(a, b) == -1;
    assert Compare([a, b][0], [b, a][0]) != 0;
  }

  /** `Less` treats a nil and an empty value list alike. */
  lemma TwinsCompareAlike(a: Requirement, b: Requirement, x: Requirement)
    requires Twins(a, b)
    ensures RequirementLess(a, x) <==> RequirementLess(b, x)
    ensures !RequirementLess(a, b) && !RequirementLess(b, a)
  {
  }

  /** A list with a nil and an empty value list on the same key is unequal to one of its own permutations. */
  lemma MixedIsUnequal(s: seq<Requirement>, a: Requirement, b: Requirement) returns (o: seq<Requirement>)
    requires a in s && b in s && Twins(a, b)
    ensures multiset(o) == multiset(s) && !RequirementsEqual(s, o)
  {
    hide RequirementLess, Compare;
    var rest := BringToEnd(s, a, b);
    forall i | 0 <= i < |rest| ensures RequirementLess(a, rest[i]) <==> RequirementLess(b, rest[i]) {
      TwinsCompareAlike(a, b, rest[i]);
    }
    TwinsCompareAlike(a, b, a);
    var k := SortTwins(RequirementLess, rest, a, b);
    var x := SortBy(RequirementLess, s)[k];
    ComparePreorder(x, a, b);
    ComparePreorder(x, b, a);
    o := if Compare(x, a) != 0 then rest + [a, b] else rest + [b, a];
  }

  lemma UnmixedForms(s: seq<Requirement>, o: seq<Requirement>)
    requires Unmixed(s) && multiset(MapSeq(Normal, s)) == multiset(MapSeq(Normal, o))
    ensures Unmixed(o)
  {
    hide Normal, Twins;
    forall x | x in o ensures exists y :: y in s && Normal(x) == Normal(y) { SameForm(s, o, x); }
    forall a, b | a in o && b in o ensures !Twins(a, b) {
      var a' :| a' in s && Normal(a) == Normal(a');
      var b' :| b' in s && Normal(b) == Normal(b');
      assert !Twins(a', b');
      TwinForms(a, b, a', b');
    }
  }

  lemma TwinForms(a: Requirement, b: Requirement, c: Requirement, d: Requirement)
    requires Normal(a) == Normal(c) && Normal(b) == Normal(d)
    ensures Twins(a, b) <==> Twins(c, d)
  {
  }

  lemma SameForm(s: seq<Requirement>, o: seq<Requirement>, x: Requirement)
    requires multiset(MapSeq(Normal, s)) == multiset(MapSeq(Normal, o)) && x in o
    ensures exists y :: y in s && Normal(x) == Normal(y)
  {
    hide Normal;
    var forms := MapSeq(Normal, s);
    var i :| 0 <= i < |o| && o[i] == x;
    assert MapSeq(Normal, o)[i] in multiset(forms);
    var j :| 0 <= j < |forms| && forms[j] == Normal(x);
    assert s[j] in s;
  }

  /** Exactly the lists without such a pair are told from all others by their requirements, value order forgotten. */
  lemma RequirementsEqualExactly(s: seq<Requirement>)
    ensures Unmixed(s) <==>
      forall o :: RequirementsEqual(s, o) <==> multiset(MapSeq(Normal, s)) == multiset(MapSeq(Normal, o))
  {
    hide RequirementsEqual, Normal;
    if Unmixed(s) {
      forall o ensures RequirementsEqual(s, o) <==> multiset(MapSeq(Normal, s)) == multiset(MapSeq(Normal, o)) {
        RequirementsEqualIsMultisetEqual(s, o);
        if multiset(MapSeq(Normal, s)) == multiset(MapSeq(Normal, o)) {
          UnmixedForms(s, o);
        }
      }
    } else {
      var a, b :| a in multiset(s) && b in multiset(s) && Twins(a, b);
      var o := MixedIsUnequal(s, a, b);
      MapPermutes(Normal, s, o);
    }
  }

  // ---- the keys of a label map, in order ----

  type Labels = map<string, string>

  ghost predicate IsMin(s: set<string>, x: string) { x in s && forall y :: y in s ==> StringCmp(x, y) <= 0 }

  function Min(s: set<string>): (x: string)
    requires s != {}
    ensures IsMin(s, x)
  {
    StringTotal();
    MinExists(StringCmp, s);
    assert forall x, y :: IsMin(s, x) && IsMin(s, y) ==> x == y by {
      forall x, y | IsMin(s, x) && IsMin(s, y) ensures x == y { MinUnique(StringCmp, s, x, y); }
    }
    var x :| x in s && forall y :: y in s ==> StringCmp(x, y) <= 0;
    x
  }

  function SortedKeys(s: set<string>): (r: seq<string>)
    ensures |r| == |s|
    ensures forall i :: 0 <= i < |r| ==> r[i] in s
    ensures forall k :: k in s ==> k in r
  {
    if s == {} then [] else
    var x := Min(s);
    var r := [x] + SortedKeys(s - {x});
    assert forall k :: k in s ==> k == x || k in s - {x};
    r
  }

  lemma {:induction false} SortedKeysAscending(s: set<string>)
    ensures Ascending(StringCmp, SortedKeys(s))
  {
    if s != {} {
      var x := Min(s);
      SortedKeysAscending(s - {x});
      PrependAscending(StringCmp, x, SortedKeys(s - {x}));
    }
  }

  lemma AddOne(x: string, rest: set<string>)
    requires x !in rest
    ensures multiset({x} + rest) == multiset{x} + multiset(rest)
  {
  }

  lemma {:induction false} SortedKeysPermute(s: set<string>)
    ensures multiset(SortedKeys(s)) == multiset(s)
  {
    hide StringCmp;
    if s != {} {
      var x := Min(s);
      SortedKeysPermute(s - {x});
      AddOne(x, s - {x});
      assert s == {x} + (s - {x});
    }
  }

  /** Ranging over the map in any order, then sorting, gives `SortedKeys`. */
  method CollectKeys(m: Labels) returns (keys: seq<string>)
    ensures keys == SortedKeys(m.Keys)
  {
    keys := [];
    var rest := m.Keys;
    while rest != {}
      invariant rest <= m.Keys
      invariant multiset(keys) + multiset(rest) == multiset(m.Keys)
      decreases rest
    {
      var k :| k in rest;
      keys := keys + [k];
      rest := rest - {k};
    }
    ghost var range := keys;
    keys := SortStrings(keys);
    SortStringsAscending(range);
    SortedKeysAscending(m.Keys);
    SortedKeysPermute(m.Keys);
    StringTotal();
    SortedUnique(StringCmp, keys, SortedKeys(m.Keys));
  }

  type Label = (string, string)

  function LabelCmp(p: Label, q: Label): int { PairCmp(StringCmp, StringCmp, p, q) }

  function Pairs(keys: seq<string>, m: Labels): (r: seq<Label>)
    requires forall i :: 0 <= i < |keys| ==> keys[i] in m
    ensures |r| == |keys|
    ensures forall i :: 0 <= i < |keys| ==> r[i] == (keys[i], m[keys[i]])
  {
    if keys == [] then [] else [(keys[0], m[keys[0]])] + Pairs(keys[1..], m)
  }

  function Entries(m: Labels): (r: seq<Label>)
    ensures |r| == |m|
  {
    Pairs(SortedKeys(m.Keys), m)
  }

  lemma EntryAt(m: Labels, k: string) returns (i: nat)
    requires k in m
    ensures i < |Entries(m)| && Entries(m)[i] == (k, m[k])
  {
    var keys := SortedKeys(m.Keys);
    assert k in keys;
    i :| 0 <= i < |keys| && keys[i] == k;
  }

  lemma EntrySound(m: Labels, i: nat)
    requires i < |Entries(m)|
    ensures var (k, v) := Entries(m)[i]; k in m && m[k] == v
  {
  }

  lemma EntriesInclude(m: Labels, n: Labels)
    requires Entries(m) == Entries(n)
    ensures Submap(m, n)
  {
    forall k | k in m ensures k in n && n[k] == m[k] {
      var i := EntryAt(m, k);
      EntrySound(n, i);
    }
  }

  ghost predicate Submap(m: Labels, n: Labels) { forall k :: k in m ==> k in n && n[k] == m[k] }

  lemma SubmapBothWays(m: Labels, n: Labels)
    requires Submap(m, n) && Submap(n, m)
    ensures m == n
  {
  }

  lemma EntriesInjective(m: Labels, n: Labels)
    requires Entries(m) == Entries(n)
    ensures m == n
  {
    EntriesInclude(m, n);
    EntriesInclude(n, m);
    SubmapBothWays(m, n);
  }

  function LabelsCmp(m: Labels, n: Labels): int { ShortLexCmp(LabelCmp, Entries(m), Entries(n)) }

  lemma LabelTotal()
    ensures TotalCmp(LabelCmp)
  {
    StringTotal();
    PairTotal(StringCmp, StringCmp);
  }

  lemma LabelsTotal()
    ensures TotalCmp(LabelsCmp)
  {
    hide Entries, ShortLexCmp, LabelCmp;
    LabelTotal();
    ShortLexTotal(LabelCmp);
    forall m: Labels, n: Labels ensures LabelsCmp(m, n) == 0 <==> m == n {
      if Entries(m) == Entries(n) {
        EntriesInjective(m, n);
      }
    }
  }

  // ---- node selectors ----

  /** None stands for a nil map and a nil slice. */
  datatype NodeSelector = NodeSelector(labels: Option<Labels>, exprs: Option<seq<Requirement>>)

  function LabelsOf(s: NodeSelector): Labels { if s.labels.Some? then s.labels.value else map[] }

  function ExprsOf(s: NodeSelector): seq<Requirement> { if s.exprs.Some? then s.exprs.value else [] }

  /** Go's map index: "" for a missing key. */
  function Get(m: Labels, k: string): string { if k in m then m[k] else "" }

  /** The label loop: an answer at the first difference, none if there is no difference. */
  function LabelLoop(ikeys: seq<string>, jkeys: seq<string>, m: Labels, n: Labels): Option<bool>
    requires |ikeys| == |jkeys|
  {
    if ikeys == [] then None
    else
      var k := ikeys[0];
      if k != jkeys[0] then Some(StringLess(k, jkeys[0]))
      else if Get(m, k) != Get(n, k) then Some(StringLess(Get(m, k), Get(n, k)))
      else LabelLoop(ikeys[1..], jkeys[1..], m, n)
  }

  /** By number of labels, then by the label loop; none if the labels are the same. */
  function LabelsLess(m: Labels, n: Labels): Option<bool> {
    if |m| != |n| then Some(|m| < |n|) else LabelLoop(SortedKeys(m.Keys), SortedKeys(n.Keys), m, n)
  }

  function ExprsLess(a: Option<seq<Requirement>>, b: Option<seq<Requirement>>): bool {
    match (a, b)
    case (None, None) => false
    case (None, Some(_)) => true
    case (Some(_), None) => false
    case (Some(x), Some(y)) =>
      if |x| != |y| then |x| < |y|
      else AnyNegative(Compare, SortBy(RequirementLess, x), SortBy(RequirementLess, y))
  }

  function SelectorLess(a: NodeSelector, b: NodeSelector): bool {
    if a.labels.None? != b.labels.None? then a.labels.None?
    else
      match LabelsLess(LabelsOf(a), LabelsOf(b))
      case Some(less) => less
      case None => ExprsLess(a.exprs, b.exprs)
  }

  predicate SelectorEqual(a: NodeSelector, b: NodeSelector) {
    && |LabelsOf(a)| == |LabelsOf(b)|
    && |ExprsOf(a)| == |ExprsOf(b)|
    && (forall k :: k in LabelsOf(a) ==> Get(LabelsOf(b), k) == LabelsOf(a)[k])
    && RequirementsEqual(ExprsOf(a), ExprsOf(b))
  }

  predicate SelectorsEqual(n: seq<NodeSelector>, o: seq<NodeSelector>) {
    && |n| == |o|
    && Pointwise(SelectorEqual, SortBy(SelectorLess, n), SortBy(SelectorLess, o))
  }

  /** What `SelectorLess` orders by, for selectors with at most one expression. */
  type SelectorKey = (Option<Labels>, Option<seq<Requirement>>)

  function NormalExprs(e: Option<seq<Requirement>>): Option<seq<Requirement>> {
    if e.Some? then Some(MapSeq(Normal, e.value)) else None
  }

  function KeyOf(s: NodeSelector): SelectorKey { (s.labels, NormalExprs(s.exprs)) }

  function ExprsCmp(a: seq<Requirement>, b: seq<Requirement>): int { ShortLexCmp(RequirementCmp, a, b) }

  function MaybeLabelsCmp(a: Option<Labels>, b: Option<Labels>): int { OptionCmp(LabelsCmp, a, b) }

  function MaybeExprsCmp(a: Option<seq<Requirement>>, b: Option<seq<Requirement>>): int { OptionCmp(ExprsCmp, a, b) }

  function KeyCmp(a: SelectorKey, b: SelectorKey): int { PairCmp(MaybeLabelsCmp, MaybeExprsCmp, a, b) }

  lemma ExprsTotal()
    ensures TotalCmp(MaybeExprsCmp)
  {
    RequirementTotal();
    ShortLexTotal(RequirementCmp);
    assert TotalCmp(ExprsCmp);
    OptionTotal(ExprsCmp);
  }

  lemma MaybeLabelsTotal()
    ensures TotalCmp(MaybeLabelsCmp)
  {
    LabelsTotal();
    OptionTotal(LabelsCmp);
  }

  lemma KeyTotal()
    ensures TotalCmp(KeyCmp)
  {
    MaybeLabelsTotal();
    ExprsTotal();
    PairTotal(MaybeLabelsCmp, MaybeExprsCmp);
  }

  lemma {:induction false} LabelLoopCompares(ikeys: seq<string>, jkeys: seq<string>, m: Labels, n: Labels)
    requires |ikeys| == |jkeys|
    requires forall i :: 0 <= i < |ikeys| ==> ikeys[i] in m
    requires forall i :: 0 <= i < |jkeys| ==> jkeys[i] in n
    ensures var c := LexCmp(LabelCmp, Pairs(ikeys, m), Pairs(jkeys, n));
            LabelLoop(ikeys, jkeys, m, n) == if c == 0 then None else Some(c < 0)
  {
    StringTotal();
    if ikeys != [] {
      LabelLoopCompares(ikeys[1..], jkeys[1..], m, n);
      assert Pairs(ikeys, m)[1..] == Pairs(ikeys[1..], m);
      assert Pairs(jkeys, n)[1..] == Pairs(jkeys[1..], n);
    }
  }

  predicate AtMostOneExpr(s: NodeSelector) { |ExprsOf(s)| <= 1 }

  lemma LabelsLessCompares(m: Labels, n: Labels)
    ensures var c := LabelsCmp(m, n); LabelsLess(m, n) == if c == 0 then None else Some(c < 0)
  {
    if |m| == |n| {
      LabelLoopCompares(SortedKeys(m.Keys), SortedKeys(n.Keys), m, n);
    }
  }

  lemma ExprsLessCompares(a: Option<seq<Requirement>>, b: Option<seq<Requirement>>)
    requires a.Some? ==> |a.value| <= 1
    requires b.Some? ==> |b.value| <= 1
    ensures ExprsLess(a, b) <==> MaybeExprsCmp(NormalExprs(a), NormalExprs(b)) < 0
  {
    if a.Some? && b.Some? && |a.value| == |b.value| == 1 {
      var x, y := a.value[0], b.value[0];
      assert a.value == [x] && b.value == [y];
      assert MapSeq(Normal, a.value) == [Normal(x)] && MapSeq(Normal, b.value) == [Normal(y)];
      CompareSign(x, y);
      OneNegative(RequirementLess, Compare, Normal, RequirementCmp, x, y);
    }
  }

  lemma LessIsKeyOrder(a: NodeSelector, b: NodeSelector)
    requires AtMostOneExpr(a) && AtMostOneExpr(b)
    ensures SelectorLess(a, b) <==> KeyCmp(KeyOf(a), KeyOf(b)) < 0
  {
    LabelsLessCompares(LabelsOf(a), LabelsOf(b));
    ExprsLessCompares(a.exprs, b.exprs);
  }

  /** `NodeSelectors.Less` is a strict weak order on selectors with at most one expression. */
  lemma SelectorLessStrictWeak(a: NodeSelector, b: NodeSelector, c: NodeSelector)
    requires AtMostOneExpr(a) && AtMostOneExpr(b) && AtMostOneExpr(c)
    ensures !SelectorLess(a, a)
    ensures SelectorLess(a, b) && SelectorLess(b, c) ==> SelectorLess(a, c)
    ensures !SelectorLess(b, a) && !SelectorLess(c, b) ==> !SelectorLess(c, a)
  {
    KeyTotal();
    LessIsKeyOrder(a, a);
    LessIsKeyOrder(a, b);
    LessIsKeyOrder(b, a);
    LessIsKeyOrder(b, c);
    LessIsKeyOrder(c, b);
    LessIsKeyOrder(a, c);
    LessIsKeyOrder(c, a);
    assert Chain(KeyCmp, KeyOf(a), KeyOf(b), KeyOf(c));
    if !SelectorLess(b, a) && !SelectorLess(c, b) {
      CmpTransitive(KeyCmp, KeyOf(a), KeyOf(b), KeyOf(c));
    }
  }

  /** With two expressions it is not: each of these two selectors is less than the other. */
  lemma TwoExprsBreakLess()
    ensures var a := NodeSelector(None, Some([Keyed("a"), Keyed("d")]));
            var b := NodeSelector(None, Some([Keyed("b"), Keyed("c")]));
            SelectorLess(a, b) && SelectorLess(b, a)
  {
    KeyedCompare('a', 'b');
    KeyedCompare('c', 'd');
    KeyedCompare('d', 'a');
    KeyedCompare('c', 'b');
    CrossedPairs(RequirementLess, Compare, Keyed("a"), Keyed("b"), Keyed("c"), Keyed("d"));
  }

  ghost predicate StrictWeakUpTo(n: nat) {
    forall a, b, c {:trigger WeakAt(SelectorLess, a, b, c)} ::
      |ExprsOf(a)| <= n && |ExprsOf(b)| <= n && |ExprsOf(c)| <= n ==> WeakAt(SelectorLess, a, b, c)
  }

  /** So it is a strict weak order on the selectors with at most n expressions exactly for n <= 1. */
  lemma StrictWeakExactly(n: nat)
    ensures StrictWeakUpTo(n) <==> n <= 1
  {
    hide SelectorLess;
    if n <= 1 {
      forall a, b, c | |ExprsOf(a)| <= n && |ExprsOf(b)| <= n && |ExprsOf(c)| <= n
        ensures WeakAt(SelectorLess, a, b, c)
      {
        SelectorLessStrictWeak(a, b, a);
        SelectorLessStrictWeak(a, b, c);
      }
    } else {
      TwoExprsBreakLess();
      var a := NodeSelector(None, Some([Keyed("a"), Keyed("d")]));
      var b := NodeSelector(None, Some([Keyed("b"), Keyed("c")]));
      assert !WeakAt(SelectorLess, a, b, a);
    }
  }

  function Keyed(key: string): Requirement { Requirement(key, "In", Some([])) }

  lemma KeyedCompare(c: char, d: char)
    requires c != d
    ensures Compare(Keyed([c]), Keyed([d])) < 0 <==> c < d
    ensures RequirementLess(Keyed([c]), Keyed([d])) <==> c < d
  {
    LexOne(CharCmp, c, d);
    assert [c][0] != [d][0];
  }

  // ---- what equality of selectors means ----

  ghost predicate ValuesNonEmpty(m: Labels) { forall k :: k in m ==> m[k] != "" }

  /** The same labels and, value order forgotten, the same expressions. */
  ghost predicate SameSelector(a: NodeSelector, b: NodeSelector) {
    LabelsOf(a) == LabelsOf(b) && multiset(MapSeq(Normal, ExprsOf(a))) == multiset(MapSeq(Normal, ExprsOf(b)))
  }

  lemma {:induction false} SubsetSameSize<T>(a: set<T>, b: set<T>)
    requires a <= b && |a| == |b|
    ensures a == b
  {
    assert b == a + (b - a);
    assert |b| == |a| + |b - a|;
  }

  /** The label part of the comparison: a missing label reads as "". */
  lemma LabelsEqual(m: Labels, n: Labels)
    requires ValuesNonEmpty(m)
    ensures m == n <==> |m| == |n| && forall k :: k in m ==> Get(n, k) == m[k]
  {
    if |m| == |n| && forall k :: k in m ==> Get(n, k) == m[k] {
      assert m.Keys <= n.Keys;
      SubsetSameSize(m.Keys, n.Keys);
    }
  }

  lemma SameLength(s: seq<Requirement>, o: seq<Requirement>)
    requires multiset(MapSeq(Normal, s)) == multiset(MapSeq(Normal, o))
    ensures |s| == |o|
  {
    assert |multiset(MapSeq(Normal, s))| == |s| && |multiset(MapSeq(Normal, o))| == |o|;
  }

  /** Equal selectors are the same as far as label values are not empty. */
  lemma SelectorEqualSound(a: NodeSelector, b: NodeSelector)
    requires ValuesNonEmpty(LabelsOf(a)) && SelectorEqual(a, b)
    ensures SameSelector(a, b)
  {
    hide RequirementsEqual, Normal;
    LabelsEqual(LabelsOf(a), LabelsOf(b));
    RequirementsEqualIsMultisetEqual(ExprsOf(a), ExprsOf(b));
  }

  lemma SelectorEqualMeans(a: NodeSelector, b: NodeSelector)
    requires ValuesNonEmpty(LabelsOf(a)) && Unmixed(ExprsOf(a))
    ensures SelectorEqual(a, b) <==> SameSelector(a, b)
  {
    hide RequirementsEqual, Normal, Unmixed;
    LabelsEqual(LabelsOf(a), LabelsOf(b));
    RequirementsEqualExactly(ExprsOf(a));
    if SameSelector(a, b) {
      SameLength(ExprsOf(a), ExprsOf(b));
    }
  }

  lemma EmptyValueBreaksEquality()
    ensures var a, b := NodeSelector(Some(map["a" := ""]), None), NodeSelector(Some(map["b" := ""]), None);
            SelectorEqual(a, b) && LabelsOf(a) != LabelsOf(b)
  {
    var m, n := map["a" := ""], map["b" := ""];
    assert "a" in m && "a" !in n;
  }

  ghost function Longest(s: set<string>): (n: nat)
    ensures forall k :: k in s ==> |k| <= n
  {
    if s == {} then 0
    else
      var k :| k in s;
      var n := Longest(s - {k});
      assert forall j :: j in s ==> j == k || j in s - {k};
      if |k| > n then |k| else n
  }

  lemma RequirementsEqualReflexive(s: seq<Requirement>)
    ensures RequirementsEqual(s, s)
  {
    hide Compare;
    var t := SortBy(RequirementLess, s);
    forall i | 0 <= i < |t| ensures Compare(t[i], t[i]) == 0 { ComparePreorder(t[i], t[i], t[i]); }
  }

  /** Trading a label with an empty value for any other key goes unnoticed. */
  lemma TradedLabel(a: NodeSelector, k: string) returns (b: NodeSelector)
    requires k in LabelsOf(a) && LabelsOf(a)[k] == ""
    ensures SelectorEqual(a, b) && LabelsOf(a) != LabelsOf(b)
  {
    hide RequirementsEqual;
    var m := LabelsOf(a);
    var key: string := seq(Longest(m.Keys) + 1, _ => 'x');
    var n := (m - {k})[key := "x"];
    assert key !in m;
    assert n.Keys == (m.Keys - {k}) + {key};
    assert |n| == |n.Keys| == |m.Keys|;
    b := NodeSelector(Some(n), a.exprs);
    RequirementsEqualReflexive(ExprsOf(a));
    assert k in m && k !in n;
  }

  /**
    Exactly the selectors without empty label values, and without a nil and an empty value list on one key
    and operator, are told from all others by their labels and expressions.
   */
  lemma EqualIsFaithfulExactly(a: NodeSelector)
    ensures ValuesNonEmpty(LabelsOf(a)) && Unmixed(ExprsOf(a)) <==> forall b :: SelectorEqual(a, b) <==> SameSelector(a, b)
  {
    hide SelectorEqual, SameSelector, Unmixed, RequirementsEqual;
    if ValuesNonEmpty(LabelsOf(a)) && Unmixed(ExprsOf(a)) {
      forall b ensures SelectorEqual(a, b) <==> SameSelector(a, b) { SelectorEqualMeans(a, b); }
    } else if !ValuesNonEmpty(LabelsOf(a)) {
      var k :| k in LabelsOf(a) && LabelsOf(a)[k] == "";
      var b := TradedLabel(a, k);
      assert !SameSelector(a, b) by { DifferentLabels(a, b); }
    } else {
      var b := MixedSelector(a);
    }
  }

  lemma DifferentLabels(a: NodeSelector, b: NodeSelector)
    requires LabelsOf(a) != LabelsOf(b)
    ensures !SameSelector(a, b)
  {
  }

  lemma MixedSelector(a: NodeSelector) returns (b: NodeSelector)
    requires !Unmixed(ExprsOf(a))
    ensures SameSelector(a, b) && !SelectorEqual(a, b)
  {
    hide RequirementsEqual, Normal, MapSeq, RequirementLess, Compare;
    var x, y :| x in multiset(ExprsOf(a)) && y in multiset(ExprsOf(a)) && Twins(x, y);
    var o := MixedIsUnequal(ExprsOf(a), x, y);
    MapPermutes(Normal, ExprsOf(a), o);
    b := NodeSelector(a.labels, Some(o));
  }

  lemma SelectorEqualReflexive(a: NodeSelector)
    ensures SelectorEqual(a, a)
  {
    hide RequirementsEqual;
    RequirementsEqualReflexive(ExprsOf(a));
  }

  // ---- the same comparisons on slices, which they sort in place ----

  /**
    `NodeSelectors.Equal`. The re-slices it sorts share their arrays with the arguments,
    so both lists are reordered; nothing else happens to them. The two may be one list.
   */
  method NodeSelectorsEqual(n: array<NodeSelector>, o: array<NodeSelector>) returns (eq: bool)
    modifies n, o
    ensures eq == SelectorsEqual(old(n[..]), old(o[..]))
    ensures multiset(n[..]) == old(multiset(n[..])) && multiset(o[..]) == old(multiset(o[..]))
    ensures n.Length == o.Length && n != o ==>
              n[..] == SortBy(SelectorLess, old(n[..])) && o[..] == SortBy(SelectorLess, old(o[..]))
    ensures n.Length != o.Length ==> n[..] == old(n[..]) && o[..] == old(o[..])
  {
    if n.Length != o.Length {
      return false;
    }
    if n == o {
      forall x ensures SelectorEqual(x, x) { SelectorEqualReflexive(x); }
    }
    eq := SortAndCompare(n, o, SelectorLess, SelectorEqual);
  }

  /** A requirement as the slices see it: `values` is a slice, null when nil. */
  datatype RequirementRef = RequirementRef(key: string, operator: string, values: array?<string>)

  function View(r: RequirementRef): Requirement
    reads r.values
  {
    Requirement(r.key, r.operator, if r.values == null then None else Some(r.values[..]))
  }

  /** `SelectorRequirements.Compare`, which sorts the values of both in place before it compares them. */
  method CompareInPlace(s: RequirementRef, o: RequirementRef) returns (c: int)
    modifies if s.values == null then {} else {s.values}, if o.values == null then {} else {o.values}
    ensures c == Compare(old(View(s)), old(View(o)))
    ensures SameUpToValueOrder(View(s), old(View(s))) && SameUpToValueOrder(View(o), old(View(o)))
  {
    if s.key != o.key {
      return Sign(StringCmp(s.key, o.key));
    }
    if s.operator != o.operator {
      return Sign(StringCmp(s.operator, o.operator));
    }
    if s.values == null && o.values == null { return 0; }
    if s.values == null { return -1; }
    if o.values == null { return 1; }
    if s.values.Length < o.values.Length { return -1; }
    if s.values.Length > o.values.Length { return 1; }
    ghost var a, b := s.values[..], o.values[..];
    SortInPlace(s.values, StringLess);
    SortInPlace(o.values, StringLess);
    SortStringsUnique(SortStrings(a), b);
    c := CompareSlices(s.values, o.values);
  }

  method CompareSlices(a: array<string>, b: array<string>) returns (c: int)
    requires a.Length == b.Length
    ensures c == CompareValues(a[..], b[..])
  {
    assert a[..] == a[0..] && b[..] == b[0..];
    for i := 0 to a.Length
      invariant CompareValues(a[i..], b[i..]) == CompareValues(a[..], b[..])
    {
      assert a[i..][1..] == a[i + 1..] && b[i..][1..] == b[i + 1..];
      if a[i] != b[i] {
        return Sign(StringCmp(a[i], b[i]));
      }
    }
    return 0;
  }
}
