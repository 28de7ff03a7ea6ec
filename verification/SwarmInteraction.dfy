/** What announces do to the swarms, one by one and over whole runs. */
module SwarmInteraction {
  import opened BitTorrent
  import opened PeerStoreSpec
  import opened AnnounceSpec
  import opened AnnounceAnswers
  import M = MemoryStore

  datatype Event = NoEvent | Started | Stopped | Completed

  /** A peer in a swarm. */
  datatype Who = Who(af: AddressFamily, ih: InfoHash, pk: PeerKey) {
    function In(role: Role): SwarmKey { SwarmKey(af, role, ih) }
  }

  /** The part of an announce request the swarm interaction hook looks at. */
  datatype Announce = Announce(who: Who, event: Event, left: nat, now: int) {
    predicate Stops() { event == Stopped }
    predicate Completes() { event == Completed }
    predicate Seeds() { event != Stopped && event != Completed && left == 0 }
    predicate Leeches() { event != Stopped && event != Completed && left != 0 }
  }

  function After(s: Swarms, a: Announce): Swarms {
    if a.Stops() then Remove(Remove(s, a.who.In(Seeder), a.who.pk), a.who.In(Leecher), a.who.pk)
    else if a.Completes() then Graduate(s, a.who.af, a.who.ih, a.who.pk, a.now)
    else if a.Seeds() then Put(s, a.who.In(Seeder), a.who.pk, a.now)
    else Put(s, a.who.In(Leecher), a.who.pk, a.now)
  }

  /** swarmInteractionHook.HandleAnnounce, over the in-memory store. */
  method HandleAnnounce(store: M.MemoryStore, skip: bool, event: Event, left: nat, ih: InfoHash, p: Peer, now: int)
      returns (err: StoreError)
    requires store.Valid() && Sanitized(p)
    modifies store, store.shards
    ensures store.Valid() && err == Nil
    ensures store.flat ==
      if skip then old(store.flat)
      else After(old(store.flat), Announce(Who(p.ip.family, ih, NewPeerKey(p)), event, left, now))
  {
    if skip {
      return Nil;
    }
    if event == Stopped {
      err := store.DeletePeer(ih, Seeder, p);
      if err != Nil && err != ErrResourceDoesNotExist {
        return;
      }
      err := store.DeletePeer(ih, Leecher, p);
      if err != Nil && err != ErrResourceDoesNotExist {
        return;
      }
    } else if event == Completed {
      store.GraduateLeecher(ih, p, now);
      return Nil;
    } else if left == 0 {
      store.PutPeer(ih, Seeder, p, now);
      return Nil;
    } else {
      store.PutPeer(ih, Leecher, p, now);
      return Nil;
    }
    err := Nil;
  }

  // ---------- one announce ----------

  predicate Is(s: Swarms, w: Who, role: Role) { Present(s, w.In(role), w.pk) }

  predicate IsBoth(s: Swarms, w: Who) { Is(s, w, Seeder) && Is(s, w, Leecher) }

  /** The roles of every peer after an announce. */
  lemma RolesAfter(s: Swarms, a: Announce, w: Who)
    ensures Is(After(s, a), w, Seeder) <==>
      if w == a.who then a.Completes() || a.Seeds() || (a.Leeches() && Is(s, w, Seeder)) else Is(s, w, Seeder)
    ensures Is(After(s, a), w, Leecher) <==>
      if w == a.who then a.Leeches() || (a.Seeds() && Is(s, w, Leecher)) else Is(s, w, Leecher)
  {
    RoleAfter(s, a, w, Seeder);
    RoleAfter(s, a, w, Leecher);
  }

  lemma RoleAfter(s: Swarms, a: Announce, w: Who, role: Role)
    ensures Is(After(s, a), w, role) <==>
      if w != a.who then Is(s, w, role)
      else if role == Seeder then a.Completes() || a.Seeds() || (a.Leeches() && Is(s, w, Seeder))
      else a.Leeches() || (a.Seeds() && Is(s, w, Leecher))
  {
    var k, l, pk := a.who.In(Seeder), a.who.In(Leecher), a.who.pk;
    if a.Stops() {
      TimeAfterRemove(Remove(s, k, pk), l, pk, w.In(role), w.pk);
      TimeAfterRemove(s, k, pk, w.In(role), w.pk);
    } else if a.Completes() {
      TimeAfterPut(Remove(s, l, pk), k, pk, a.now, w.In(role), w.pk);
      TimeAfterRemove(s, l, pk, w.In(role), w.pk);
    } else {
      TimeAfterPut(s, if a.Seeds() then k else l, pk, a.now, w.In(role), w.pk);
    }
  }

  /** From any state at all, Stopped removes the peer from both roles and leaves everybody else alone. */
  lemma StoppedLeavesNoTrace(s: Swarms, a: Announce, w: Who, role: Role)
    requires a.Stops()
    ensures Is(After(s, a), w, role) <==> w != a.who && Is(s, w, role)
  {
    RolesAfter(s, a, w);
  }

  /** An announce gives a peer a second role exactly if it seeds while leeching or leeches while seeding. */
  lemma BothRolesIff(s: Swarms, a: Announce)
    requires !IsBoth(s, a.who)
    ensures IsBoth(After(s, a), a.who) <==>
      (a.Seeds() && Is(s, a.who, Leecher)) || (a.Leeches() && Is(s, a.who, Seeder))
  {
    RolesAfter(s, a, a.who);
  }

  /** The role an announce gives its peer, if any. */
  function Takes(a: Announce): Option<Role> {
    match a.event
    case Stopped => None
    case Completed => Some(Seeder)
    case _ => Some(if a.left == 0 then Seeder else Leecher)
  }

  /** After an announce its peer is stored with its time in the role it took, and no other time has changed. */
  lemma TimesAfter(s: Swarms, a: Announce, w: Who, role: Role)
    requires Is(After(s, a), w, role)
    ensures After(s, a)[w.In(role)][w.pk] == if w == a.who && Takes(a) == Some(role) then a.now
      else if Is(s, w, role) then s[w.In(role)][w.pk] else 0
    ensures Is(s, w, role) || (w == a.who && Takes(a) == Some(role))
  {
    var k, l, pk := a.who.In(Seeder), a.who.In(Leecher), a.who.pk;
    RoleAfter(s, a, w, role);
    if a.Stops() {
      TimeAfterRemove(Remove(s, k, pk), l, pk, w.In(role), w.pk);
      TimeAfterRemove(s, k, pk, w.In(role), w.pk);
    } else if a.Completes() {
      TimeAfterPut(Remove(s, l, pk), k, pk, a.now, w.In(role), w.pk);
      TimeAfterRemove(s, l, pk, w.In(role), w.pk);
    } else {
      TimeAfterPut(s, if a.Seeds() then k else l, pk, a.now, w.In(role), w.pk);
    }
  }

  // ---------- runs ----------

  /** A step of a run: an announce, or a collector's visit of some info hash. */
  datatype Step = Announced(a: Announce) | Visited(af: AddressFamily, ih: InfoHash, cutoff: int)

  function StepEffect(s: Swarms, step: Step): Swarms {
    match step
    case Announced(a) => After(s, a)
    case Visited(af, ih, cutoff) => Visit(s, af, ih, cutoff)
  }

  function RunEffect(s: Swarms, run: seq<Step>): Swarms
    decreases |run|
  {
    if run == [] then s else StepEffect(RunEffect(s, run[..|run| - 1]), run[|run| - 1])
  }

  /** When a peer last took a role. */
  function LastTook(run: seq<Step>, w: Who, role: Role): Option<int>
    decreases |run|
  {
    if run == [] then None
    else
      var last := run[|run| - 1];
      if last.Announced? && last.a.who == w && Takes(last.a) == Some(role) then Some(last.a.now)
      else LastTook(run[..|run| - 1], w, role)
  }

  /** In every run of announces and collectors, whoever is stored has the time at which it last took its role. */
  lemma {:induction false} StoredSinceLastTook(run: seq<Step>, w: Who, role: Role)
    requires Is(RunEffect(map[], run), w, role)
    ensures LastTook(run, w, role) == Some(RunEffect(map[], run)[w.In(role)][w.pk])
    decreases |run|
  {
    var before, last := run[..|run| - 1], run[|run| - 1];
    var s := RunEffect(map[], before);
    match last
    case Announced(a) =>
      TimesAfter(s, a, w, role);
      if !(w == a.who && Takes(a) == Some(role)) {
        StoredSinceLastTook(before, w, role);
      }
    case Visited(af, ih, cutoff) =>
      M.HashOfVisit(s, af, ih, cutoff, w.In(role));
      StoredSinceLastTook(before, w, role);
  }

  /** What a peer last told the tracker it is doing. */
  datatype Phase = Away | Seeding | Leeching

  function PhaseOf(run: seq<Step>, w: Who): Phase
    decreases |run|
  {
    if run == [] then Away
    else match run[|run| - 1]
      case Announced(a) =>
        if a.who != w then PhaseOf(run[..|run| - 1], w)
        else if a.Stops() then Away
        else if a.Leeches() then Leeching
        else Seeding
      case Visited(_, _, _) => PhaseOf(run[..|run| - 1], w)
  }

  /** Between Stopped events a peer only seeds, or leeches, then completes, then seeds. */
  predicate WellBehaved(run: seq<Step>)
    decreases |run|
  {
    run == [] ||
    var before, last := run[..|run| - 1], run[|run| - 1];
    && WellBehaved(before)
    && (last.Announced? && last.a.Seeds() ==> PhaseOf(before, last.a.who) != Leeching)
    && (last.Announced? && last.a.Leeches() ==> PhaseOf(before, last.a.who) != Seeding)
  }

  /** The store knows a peer at most in the role it last announced. */
  predicate Faithful(s: Swarms, w: Who, phase: Phase) {
    (Is(s, w, Seeder) ==> phase == Seeding) && (Is(s, w, Leecher) ==> phase == Leeching)
  }

  lemma VisitOnlyRemoves(s: Swarms, af: AddressFamily, ih: InfoHash, cutoff: int, w: Who, role: Role)
    ensures Is(Visit(s, af, ih, cutoff), w, role) ==> Is(s, w, role)
  {
    M.HashOfVisit(s, af, ih, cutoff, w.In(role));
  }

  lemma {:induction false} WellBehavedRunsAreFaithful(run: seq<Step>, w: Who)
    requires WellBehaved(run)
    ensures Faithful(RunEffect(map[], run), w, PhaseOf(run, w))
    decreases |run|
  {
    if run != [] {
      var before, last := run[..|run| - 1], run[|run| - 1];
      var s := RunEffect(map[], before);
      WellBehavedRunsAreFaithful(before, w);
      match last
      case Announced(a) => RolesAfter(s, a, w);
      case Visited(af, ih, cutoff) =>
        VisitOnlyRemoves(s, af, ih, cutoff, w, Seeder);
        VisitOnlyRemoves(s, af, ih, cutoff, w, Leecher);
    }
  }

  /** In every run of well-behaved peers and collectors, no peer is both seeder and leecher of a swarm. */
  lemma WellBehavedRunsKeepRolesDisjoint(run: seq<Step>, ih: InfoHash)
    requires WellBehaved(run)
    ensures RolesDisjoint(RunEffect(map[], run), ih)
  {
    var s := RunEffect(map[], run);
    forall af, pk | pk in KeysOf(s, af, Seeder, ih) ensures pk !in KeysOf(s, af, Leecher, ih) {
      WellBehavedRunsAreFaithful(run, Who(af, ih, pk));
      assert Is(s, Who(af, ih, pk), Seeder);
      assert !Is(s, Who(af, ih, pk), Leecher);
    }
  }
}
