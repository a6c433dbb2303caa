/** Provider IDs: `cherryservers://<server-id>` or the bare server ID. */
module ProviderId {
  import opened Order
  import opened Text

  const PROVIDER_NAME := "cherryservers"
  const SEPARATOR := "://"

  datatype Parsed = ServerID(id: int) | Empty | WrongProvider(name: string) | BadFormat | NotANumber

  function ServerIDFromProviderID(providerID: string): Parsed {
    if providerID == "" then Empty
    else
      var split := Split(providerID, SEPARATOR);
      if |split| == 2 && split[0] != PROVIDER_NAME then WrongProvider(split[0])
      else if |split| > 2 then BadFormat
      else
        match Atoi(if |split| == 2 then split[1] else providerID)
        case Some(id) => ServerID(id)
        case None => NotANumber
  }

  function ProviderIDFromServer(id: int): string { PROVIDER_NAME + SEPARATOR + Itoa(id) }

  /** Parsing the printed provider ID, or the bare decimal, gives the server ID back. */
  lemma RoundTrip(id: int)
    requires -MAX_INT - 1 <= id <= MAX_INT
    ensures ServerIDFromProviderID(ProviderIDFromServer(id)) == ServerID(id)
    ensures ServerIDFromProviderID(Itoa(id)) == ServerID(id)
  {
    var d := Itoa(id);
    AtoiItoa(id);
    ItoaPlain(id, ':');
    IndexOfNone(d, SEPARATOR);
    assert Split(d, SEPARATOR) == [d];
    var parts := [PROVIDER_NAME, d];
    assert Join(parts, SEPARATOR) == ProviderIDFromServer(id) by {
      assert parts[1..] == [d];
    }
    SplitJoin(parts, SEPARATOR);
  }

  lemma PrintInjective(a: int, b: int)
    requires ProviderIDFromServer(a) == ProviderIDFromServer(b)
    ensures a == b
  {
    var n := |PROVIDER_NAME + SEPARATOR|;
    assert ProviderIDFromServer(a)[n..] == Itoa(a);
    assert ProviderIDFromServer(b)[n..] == Itoa(b);
    ItoaInjective(a, b);
  }

  lemma BareAccepted(s: string, id: int)
    requires Atoi(s) == Some(id)
    ensures ServerIDFromProviderID(s) == ServerID(id)
  {
    AtoiColonFree(s);
    hide Atoi;
    IndexOfNone(s, SEPARATOR);
    assert Split(s, SEPARATOR) == [s];
  }

  lemma PrefixedAccepted(d: string, id: int)
    requires Atoi(d) == Some(id)
    ensures ServerIDFromProviderID(PROVIDER_NAME + SEPARATOR + d) == ServerID(id)
  {
    AtoiColonFree(d);
    hide Atoi;
    var parts := [PROVIDER_NAME, d];
    assert parts[1..] == [d];
    SplitJoin(parts, SEPARATOR);
  }

  lemma AcceptedForms(s: string, id: int)
    requires ServerIDFromProviderID(s) == ServerID(id)
    ensures Atoi(s) == Some(id) || (exists d :: s == PROVIDER_NAME + SEPARATOR + d && Atoi(d) == Some(id))
  {
    hide Atoi;
    JoinSplit(s, SEPARATOR);
    var split := Split(s, SEPARATOR);
    hide Split;
    if |split| == 2 {
      assert split[1..] == [split[1]];
      assert s == PROVIDER_NAME + SEPARATOR + split[1];
    }
  }

  /**
    Exactly the accepted inputs: a decimal number, bare or behind `cherryservers://`.
    In particular an ID of another provider and an ID with two separators are refused.
   */
  lemma AcceptedExactly(s: string, id: int)
    ensures ServerIDFromProviderID(s) == ServerID(id)
       <==> Atoi(s) == Some(id) || (exists d :: s == PROVIDER_NAME + SEPARATOR + d && Atoi(d) == Some(id))
  {
    hide ServerIDFromProviderID, Atoi;
    if ServerIDFromProviderID(s) == ServerID(id) {
      AcceptedForms(s, id);
    }
    if Atoi(s) == Some(id) {
      BareAccepted(s, id);
    }
    forall d | s == PROVIDER_NAME + SEPARATOR + d && Atoi(d) == Some(id)
      ensures ServerIDFromProviderID(s) == ServerID(id)
    {
      PrefixedAccepted(d, id);
    }
  }

  /** How the others are refused: nothing, another provider, two separators, no number. */
  lemma RefusedHow(a: string, b: string, c: string)
    requires ':' !in a && ':' !in b && ':' !in c
    ensures ServerIDFromProviderID("") == Empty
    ensures a != "cherryservers" ==> ServerIDFromProviderID(a + "://" + b) == WrongProvider(a)
    ensures ServerIDFromProviderID(a + "://" + b + "://" + c) == BadFormat
    ensures a != "" && Atoi(a) == None ==> ServerIDFromProviderID(a) == NotANumber
    ensures Atoi(b) == None ==> ServerIDFromProviderID("cherryservers://" + b) == NotANumber
  {
    hide Atoi, ServerIDFromProviderID;
    assert ServerIDFromProviderID("") == Empty by { NothingGiven(); }
    GivenTwo(a, b);
    GivenThree(a, b, c);
    if a != "" {
      GivenOne(a);
    }
    GivenTwo(PROVIDER_NAME, b);
    assert PROVIDER_NAME + SEPARATOR + b == "cherryservers://" + b;
  }

  lemma NothingGiven()
    ensures ServerIDFromProviderID("") == Empty
  {
  }

  lemma GivenOne(a: string)
    requires ':' !in a && a != ""
    ensures Atoi(a) == None ==> ServerIDFromProviderID(a) == NotANumber
  {
    hide Atoi;
    IndexOfNone(a, SEPARATOR);
    assert Split(a, SEPARATOR) == [a];
  }

  lemma GivenTwo(a: string, b: string)
    requires ':' !in a && ':' !in b
    ensures a != PROVIDER_NAME ==> ServerIDFromProviderID(a + SEPARATOR + b) == WrongProvider(a)
    ensures a == PROVIDER_NAME && Atoi(b) == None ==> ServerIDFromProviderID(a + SEPARATOR + b) == NotANumber
  {
    hide Atoi, Split;
    TwoParts(a, b);
  }

  lemma GivenThree(a: string, b: string, c: string)
    requires ':' !in a && ':' !in b && ':' !in c
    ensures ServerIDFromProviderID(a + SEPARATOR + b + SEPARATOR + c) == BadFormat
  {
    hide Atoi, Split;
    ThreeParts(a, b, c);
  }

  lemma TwoParts(a: string, b: string)
    requires ':' !in a && ':' !in b
    ensures Split(a + SEPARATOR + b, SEPARATOR) == [a, b]
  {
    var parts := [a, b];
    assert parts[1..] == [b];
    SplitJoin(parts, SEPARATOR);
  }

  lemma ThreeParts(a: string, b: string, c: string)
    requires ':' !in a && ':' !in b && ':' !in c
    ensures Split(a + SEPARATOR + b + SEPARATOR + c, SEPARATOR) == [a, b, c]
  {
    var parts := [a, b, c];
    assert parts[1..] == [b, c] && [b, c][1..] == [c];
    assert Join([b, c], SEPARATOR) == b + SEPARATOR + c;
    SplitJoin(parts, SEPARATOR);
    assert Join(parts, SEPARATOR) == a + SEPARATOR + (b + SEPARATOR + c);
    assert a + SEPARATOR + (b + SEPARATOR + c) == a + SEPARATOR + b + SEPARATOR + c;
  }

  lemma AtoiColonFree(s: string)
    requires Atoi(s).Some?
    ensures ':' !in s && s != ""
  {
    var body := if s[0] == '-' || s[0] == '+' then s[1..] else s;
    assert AllDigits(body) && (s == body || s == [s[0]] + body);
    assert ':' !in body;
  }
}
