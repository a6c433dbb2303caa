/** The string functions of Go's standard library that the controller relies on. */
module Text {
  import opened Order

  // ---- strings.Split and strings.Join ----

  predicate At(s: string, sep: string, i: int) { 0 <= i && i + |sep| <= |s| && s[i..i + |sep|] == sep }

  /** The first position of sep in s, if any. */
  function IndexOf(s: string, sep: string): (r: Option<nat>)
    ensures r.Some? ==> At(s, sep, r.value) && forall i :: 0 <= i < r.value ==> !At(s, sep, i)
    ensures r.None? ==> forall i :: 0 <= i ==> !At(s, sep, i)
  {
    IndexFrom(s, sep, 0)
  }

  function IndexFrom(s: string, sep: string, k: nat): (r: Option<nat>)
    ensures r.Some? ==> k <= r.value && At(s, sep, r.value) && forall i :: k <= i < r.value ==> !At(s, sep, i)
    ensures r.None? ==> forall i :: k <= i ==> !At(s, sep, i)
    decreases |s| + 1 - k
  {
    if k + |sep| > |s| then None
    else if At(s, sep, k) then Some(k)
    else IndexFrom(s, sep, k + 1)
  }

  function Split(s: string, sep: string): (r: seq<string>)
    requires sep != ""
    ensures r != []
  {
    match IndexOf(s, sep)
    case None => [s]
    case Some(i) => [s[..i]] + Split(s[i + |sep|..], sep)
  }

  function Join(parts: seq<string>, sep: string): string {
    if |parts| == 0 then ""
    else if |parts| == 1 then parts[0]
    else parts[0] + sep + Join(parts[1..], sep)
  }

  lemma {:induction false} JoinSplit(s: string, sep: string)
    requires sep != ""
    ensures Join(Split(s, sep), sep) == s
    decreases |s|
  {
    var r := IndexOf(s, sep);
    if r.Some? {
      var i := r.value;
      JoinSplit(s[i + |sep|..], sep);
      assert Split(s, sep)[1..] == Split(s[i + |sep|..], sep);
      assert s == s[..i] + s[i..i + |sep|] + s[i + |sep|..];
    } else {
      assert Split(s, sep) == [s];
    }
  }

  /** A part without the separator's first character ends where the separator starts. */
  lemma IndexOfFirst(a: string, sep: string, b: string)
    requires sep != "" && sep[0] !in a
    ensures IndexOf(a + sep + b, sep) == Some(|a|)
  {
    var s := a + sep + b;
    assert s[|a|..|a| + |sep|] == sep;
    assert At(s, sep, |a|);
    forall i | 0 <= i < |a| ensures !At(s, sep, i) {
      assert i + |sep| <= |s| && s[i..i + |sep|][0] == s[i] == a[i];
    }
  }

  lemma IndexOfNone(a: string, sep: string)
    requires sep != "" && sep[0] !in a
    ensures IndexOf(a, sep) == None
  {
    forall i | 0 <= i ensures !At(a, sep, i) {
      assert i + |sep| <= |a| ==> a[i..i + |sep|][0] == a[i];
    }
  }

  ghost predicate FreeOf(c: char, parts: seq<string>) {
    forall i :: 0 <= i < |parts| ==> c !in parts[i]
  }

  lemma {:induction false} SplitJoin(parts: seq<string>, sep: string)
    requires sep != "" && parts != [] && FreeOf(sep[0], parts)
    ensures Split(Join(parts, sep), sep) == parts
  {
    var a := parts[0];
    if |parts| == 1 {
      IndexOfNone(a, sep);
    } else {
      var rest := Join(parts[1..], sep);
      SplitJoin(parts[1..], sep);
      IndexOfFirst(a, sep, rest);
      var s := a + sep + rest;
      assert s[..|a|] == a && s[|a| + |sep|..] == rest;
    }
  }

  // ---- two parts around one character ----

  /** The first c of a string splits it in one way only. */
  lemma FirstSplitUnique(a: string, u: string, b: string, v: string, c: char)
    requires c !in a && c !in b
    requires a + [c] + u == b + [c] + v
    ensures a == b && u == v
  {
    var s, t := a + [c] + u, b + [c] + v;
    assert s[|a|] == c && t[|b|] == c;
    assert forall i :: 0 <= i < |a| ==> s[i] == a[i];
    assert forall i :: 0 <= i < |b| ==> t[i] == b[i];
    assert a == s[..|a|] && b == t[..|b|];
    assert u == s[|a| + 1..] && v == t[|b| + 1..];
  }

  /** So does the last. */
  lemma LastSplitUnique(a: string, u: string, b: string, v: string, c: char)
    requires c !in u && c !in v
    requires a + [c] + u == b + [c] + v
    ensures a == b && u == v
  {
    var s, t := a + [c] + u, b + [c] + v;
    assert s[|a|] == c && t[|b|] == c;
    assert forall i :: |a| < i < |s| ==> s[i] == u[i - |a| - 1];
    assert forall i :: |b| < i < |t| ==> t[i] == v[i - |b| - 1];
    assert a == s[..|a|] && b == t[..|b|];
    assert u == s[|a| + 1..] && v == t[|b| + 1..];
  }

  // ---- decimal numbers ----

  predicate IsDigit(c: char) { '0' <= c <= '9' }

  function DigitChar(d: nat): (c: char)
    requires d < 10
    ensures IsDigit(c) && c as int - '0' as int == d
  {
    ('0' as int + d) as char
  }

  function Digits(n: nat): (s: string)
    ensures s != "" && AllDigits(s)
  {
    if n < 10 then [DigitChar(n)] else Digits(n / 10) + [DigitChar(n % 10)]
  }

  predicate AllDigits(s: string) { forall i :: 0 <= i < |s| ==> IsDigit(s[i]) }

  function DigitsValue(s: string): nat
    requires AllDigits(s)
  {
    if s == "" then 0
    else DigitsValue(s[..|s| - 1]) * 10 + (s[|s| - 1] as int - '0' as int)
  }

  /** `strconv.Itoa` */
  function Itoa(n: int): string { if n < 0 then "-" + Digits(-n) else Digits(n) }

  const MAX_INT := 0x7fff_ffff_ffff_ffff

  /** `strconv.Atoi`: an optional sign, at least one digit, in the range of a 64-bit int. */
  function Atoi(s: string): Option<int> {
    var neg := s != "" && s[0] == '-';
    var body := if s != "" && (s[0] == '-' || s[0] == '+') then s[1..] else s;
    if body == "" || !AllDigits(body) then None
    else
      var v: int := DigitsValue(body);
      if neg then (if v <= MAX_INT + 1 then Some(-v) else None)
      else if v <= MAX_INT then Some(v) else None
  }

  lemma {:induction false} DigitsRoundTrip(n: nat)
    ensures DigitsValue(Digits(n)) == n
  {
    if n >= 10 {
      DigitsRoundTrip(n / 10);
      var s := Digits(n);
      assert s[..|s| - 1] == Digits(n / 10);
    } else {
      var s := Digits(n);
      assert s[..|s| - 1] == "";
    }
  }

  lemma DigitsInjective(m: nat, n: nat)
    requires Digits(m) == Digits(n)
    ensures m == n
  {
    DigitsRoundTrip(m);
    DigitsRoundTrip(n);
  }

  lemma AtoiUnsigned(d: string)
    requires d != "" && AllDigits(d) && DigitsValue(d) <= MAX_INT
    ensures Atoi(d) == Some(DigitsValue(d))
  {
    hide DigitsValue;
    assert IsDigit(d[0]);
  }

  lemma AtoiNegative(d: string)
    requires d != "" && AllDigits(d) && DigitsValue(d) <= MAX_INT + 1
    ensures Atoi("-" + d) == Some(0 - DigitsValue(d) as int)
  {
    hide DigitsValue;
    var s := "-" + d;
    assert s[0] == '-' && s[1..] == d;
  }

  /** Numbers outside 64 bits are refused. */
  lemma AtoiRange(d: string)
    requires d != "" && AllDigits(d)
    ensures Atoi(d).Some? <==> DigitsValue(d) <= 9223372036854775807
    ensures Atoi("-" + d).Some? <==> DigitsValue(d) <= 9223372036854775808
  {
    hide DigitsValue;
    var s := "-" + d;
    assert IsDigit(d[0]) && s[0] == '-' && s[1..] == d;
  }

  /** A plus sign changes nothing. */
  lemma AtoiPlus(d: string)
    requires d != "" && AllDigits(d)
    ensures Atoi("+" + d) == Atoi(d)
  {
    var s := "+" + d;
    assert s[0] == '+' && s[1..] == d && IsDigit(d[0]);
  }

  /** The notation is decimal. */
  lemma {:induction false} DigitsAre(n: nat, d: nat)
    requires d < 10
    ensures Digits(d) == ["0123456789"[d]]
    ensures n > 0 ==> Digits(10 * n + d) == Digits(n) + Digits(d)
  {
    assert (10 * n + d) / 10 == n && (10 * n + d) % 10 == d;
  }

  lemma AtoiItoa(n: int)
    requires -MAX_INT - 1 <= n <= MAX_INT
    ensures Atoi(Itoa(n)) == Some(n)
  {
    hide Atoi, Digits, DigitsValue;
    if n < 0 {
      DigitsRoundTrip(-n);
      AtoiNegative(Digits(-n));
    } else {
      DigitsRoundTrip(n);
      AtoiUnsigned(Digits(n));
    }
  }

  lemma ItoaInjective(m: int, n: int)
    requires Itoa(m) == Itoa(n)
    ensures m == n
  {
    ItoaSign(m);
    ItoaSign(n);
    if m < 0 {
      assert Itoa(m)[1..] == Digits(-m) && Itoa(n)[1..] == Digits(-n);
      DigitsInjective(-m, -n);
    } else {
      DigitsInjective(m, n);
    }
  }

  lemma ItoaSign(n: int)
    ensures Itoa(n) != "" && (Itoa(n)[0] == '-' <==> n < 0)
  {
    assert n >= 0 ==> IsDigit(Digits(n)[0]);
  }

  lemma ItoaPlain(n: int, c: char)
    requires !IsDigit(c) && c != '-'
    ensures c !in Itoa(n)
  {
    var d := Digits(if n < 0 then -n else n);
    assert AllDigits(d);
    assert c !in d;
  }
}
