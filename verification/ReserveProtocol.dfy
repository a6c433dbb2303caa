/**
  Calls for different services interleave step by step; calls for one service come one after
  the other. Each call lists the reservations and then acts on what it saw, and any step may
  fail, with or without having taken effect.
 */
module ReserveProtocol {
  import opened Order
  import opened Services
  import opened Reservations
  import opened Matching
  import P = CrdPools

  /** Where the call for a service is: none under way, or acting on the reservation it found. */
  datatype PC = Idle | Saw(found: Option<string>)

  datatype State = State(res: Store, pc: map<Resource, PC>)

  datatype Step =
    | List(svc: Resource)
    | Create(svc: Resource, r: Reservation)
    | Remove(svc: Resource)
    | GiveUp(svc: Resource)

  ghost function PCOf(s: State, svc: Resource): PC { if svc in s.pc then s.pc[svc] else Idle }

  /** What a call that lists now would find. */
  ghost predicate Finds(c: Cluster, res: Store, svc: Resource, found: Option<string>) {
    if found.Some? then TaggedBy(res, Tags(c, svc), found.value) else !AnyTagged(res, Tags(c, svc))
  }

  /**
    One step of one call. `Create` happens only after no reservation was seen and `Remove` only after one
    was; both may leave the store as it was. A step that fails ends the call: it is retried from the list.
   */
  ghost predicate Next(c: Cluster, s: State, t: State, step: Step) {
    match step
    case List(svc) =>
      P.Labelled(svc) && PCOf(s, svc) == Idle && t.res == s.res
      && exists found :: Finds(c, s.res, svc, found) && t.pc == s.pc[svc := Saw(found)]
    case Create(svc, r) =>
      P.Labelled(svc) && PCOf(s, svc) == Saw(None) && t.pc == s.pc[svc := Idle]
      && r.id !in s.res && r.tags == Some(Tags(c, svc))
      && (t.res == s.res || t.res == s.res[r.id := r])
    case Remove(svc) =>
      P.Labelled(svc) && PCOf(s, svc).Saw? && PCOf(s, svc).found.Some? && t.pc == s.pc[svc := Idle]
      && (t.res == s.res || t.res == s.res - {PCOf(s, svc).found.value})
    case GiveUp(svc) =>
      t.res == s.res && t.pc == s.pc[svc := Idle]
  }

  /** Unique tags, and what each call under way has seen is still so. */
  ghost predicate Inv(c: Cluster, s: State) {
    && UniqueTags(c.hash, c.id, s.res)
    && (forall svc :: svc in s.pc && s.pc[svc].Saw? ==> P.Labelled(svc) && Finds(c, s.res, svc, s.pc[svc].found))
  }

  lemma TagOther(c: Cluster, a: Resource, b: Resource, r: Reservation)
    requires Injective(c.hash) && P.Labelled(a) && P.Labelled(b) && r.tags == Some(Tags(c, a)) && HasTags(Tags(c, b), r)
    ensures a == b
  {
    TagsTellServices(c.hash, c.id, a, b, r);
  }

  lemma CreateKeepsView(c: Cluster, res: Store, svc: Resource, r: Reservation, other: Resource, found: Option<string>)
    requires Injective(c.hash) && P.Labelled(svc) && P.Labelled(other) && other != svc
    requires r.id !in res && r.tags == Some(Tags(c, svc)) && Finds(c, res, other, found)
    ensures Finds(c, res[r.id := r], other, found)
  {
    hide HasTags, TagsOf, P.Labelled;
    var now := res[r.id := r];
    if found == None {
      forall id ensures !TaggedBy(now, Tags(c, other), id) {
        assert !TaggedBy(res, Tags(c, other), id);
        if HasTags(Tags(c, other), r) {
          TagOther(c, svc, other, r);
        }
      }
    }
  }

  lemma RemoveKeepsView(c: Cluster, res: Store, svc: Resource, id: string, other: Resource, found: Option<string>)
    requires Injective(c.hash) && P.Labelled(svc) && P.Labelled(other) && other != svc
    requires TaggedBy(res, Tags(c, svc), id) && Finds(c, res, other, found)
    ensures Finds(c, res - {id}, other, found)
  {
    hide HasTags, TagsOf, P.Labelled;
    if found == None {
      forall i ensures !TaggedBy(res - {id}, Tags(c, other), i) {
        assert !TaggedBy(res, Tags(c, other), i);
      }
    } else if found.value == id {
      TagsTellServices(c.hash, c.id, svc, other, res[id]);
    }
  }

  lemma NextKeepsInv(c: Cluster, s: State, t: State, step: Step)
    requires Injective(c.hash) && Inv(c, s) && Next(c, s, t, step)
    ensures Inv(c, t) && ForeignStay(c.id, s.res, t.res)
  {
    hide UniqueTags, TagsOf, Finds, P.Labelled, TaggedBy, AnyTagged, ForeignStay;
    ForeignSame(c.id, s.res);
    match step
    case List(svc) =>
    case Create(svc, r) =>
      if t.res != s.res {
        assert Finds(c, s.res, svc, None);
        FindsNone(c, s.res, svc);
        CreateKeepsUnique(c.hash, c.id, s.res, r, svc);
        CreateForeign(c.hash, c.id, s.res, r, svc);
        forall other | other in t.pc && t.pc[other].Saw? ensures Finds(c, t.res, other, t.pc[other].found) {
          CreateKeepsView(c, s.res, svc, r, other, s.pc[other].found);
        }
      }
    case Remove(svc) =>
      if t.res != s.res {
        var id := PCOf(s, svc).found.value;
        assert Finds(c, s.res, svc, Some(id));
        FindsSome(c, s.res, svc, id);
        RemoveKeepsUnique(c.hash, c.id, s.res, id);
        RemoveForeign(c.hash, c.id, s.res, id, svc);
        forall other | other in t.pc && t.pc[other].Saw? ensures Finds(c, t.res, other, t.pc[other].found) {
          RemoveKeepsView(c, s.res, svc, id, other, s.pc[other].found);
        }
      }
    case GiveUp(svc) =>
  }

  lemma FindsNone(c: Cluster, res: Store, svc: Resource)
    requires Finds(c, res, svc, None)
    ensures !AnyTagged(res, Tags(c, svc))
  {
  }

  lemma FindsSome(c: Cluster, res: Store, svc: Resource, id: string)
    requires Finds(c, res, svc, Some(id))
    ensures TaggedBy(res, Tags(c, svc), id)
  {
  }

  ghost predicate IsRun(c: Cluster, states: seq<State>, steps: seq<Step>) {
    |states| == |steps| + 1 && forall i :: 0 <= i < |steps| ==> Next(c, states[i], states[i + 1], steps[i])
  }

  /**
    In every interleaving, from a state where tags are unique and nothing is under way, they stay unique, and
    no reservation of another cluster is touched.
   */
  lemma {:induction false} RunKeepsUnique(c: Cluster, states: seq<State>, steps: seq<Step>)
    requires Injective(c.hash) && IsRun(c, states, steps)
    requires UniqueTags(c.hash, c.id, states[0].res) && states[0].pc == map[]
    ensures Inv(c, states[|steps|]) && ForeignStay(c.id, states[0].res, states[|steps|].res)
    decreases |steps|
  {
    hide Next, UniqueTags, ForeignTo;
    if steps != [] {
      var n := |steps| - 1;
      RunKeepsUnique(c, states[..n + 1], steps[..n]);
      assert states[..n + 1][n] == states[n];
      assert Next(c, states[n], states[n + 1], steps[n]);
      NextKeepsInv(c, states[n], states[n + 1], steps[n]);
      ForeignTransitive(c.id, states[0].res, states[n].res, states[n + 1].res);
    }
  }

  /** When a call removes the reservation it saw, no reservation of its service is left. */
  lemma RemovedForGood(c: Cluster, s: State, t: State, svc: Resource)
    requires Injective(c.hash) && Inv(c, s) && Next(c, s, t, Remove(svc)) && t.res != s.res
    ensures !AnyTagged(t.res, Tags(c, svc))
  {
    hide UniqueTags, TagsOf, P.Labelled;
    var id := PCOf(s, svc).found.value;
    assert Finds(c, s.res, svc, Some(id));
    RemoveLastTagged(c.hash, c.id, s.res, id, svc);
  }
}
