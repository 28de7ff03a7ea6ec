/**
 What a pass of a Redis collector leaves of the listings: when its EXEC goes through, which keys can be left
 behind, and what a pass nobody disturbs comes to.
 */
module RedisListing {
  import opened BitTorrent
  import opened PeerStoreSpec
  import opened RedisCommands
  import opened RedisProtocol
  import opened RedisPass
  import opened RedisWitnesses

  // ---------- when EXEC goes through ----------

  /** A command modifies the hash of a swarm. */
  predicate Touches(s: Swarms, th: Thread, a: Action, k: SwarmKey) {
    match a
    case DoPut(j, _, _) => j == k
    case DoDelete(j, pk) => j == k && Present(s, k, pk)
    case DoGraduate(af, ih, pk, _) =>
      k == SwarmKey(af, Seeder, ih) || (k == SwarmKey(af, Leecher, ih) && Present(s, k, pk))
    case ScanPair =>
      && OnKey(th) && th.gc.rest[0] == k && th.gc.pc.Scanning? && th.gc.pc.pairs != []
      && th.gc.pc.pairs[0].1 <= th.gc.cutoff && Present(s, k, th.gc.pc.pairs[0].0)
    case _ => false
  }

  ghost predicate TouchedIn(s: State, run: seq<Move>, k: SwarmKey)
    requires Legal(s, run)
    decreases |run|
  {
    run != [] && (Touches(s.redis.swarms, s.threads[run[0].tid], run[0].action, k)
                  || TouchedIn(Next(s, run[0]), run[1..], k))
  }

  lemma VersionAfter(s: State, m: Move, k: SwarmKey)
    requires Enabled(s, m)
    ensures Next(s, m).redis.Version(k)
      == s.redis.Version(k) + if Touches(s.redis.swarms, s.threads[m.tid], m.action, k) then 1 else 0
  {
    match m.action
    case DoGraduate(af, ih, pk, now) => assert SwarmKey(af, Leecher, ih) != SwarmKey(af, Seeder, ih);
    case Exec => ExecEffect(s, m.tid);
    case _ =>
  }

  lemma {:induction false} VersionTells(s: State, run: seq<Move>, k: SwarmKey)
    requires Legal(s, run)
    ensures Final(s, run).redis.Version(k) >= s.redis.Version(k)
    ensures Final(s, run).redis.Version(k) > s.redis.Version(k) <==> TouchedIn(s, run, k)
    decreases |run|
  {
    if run != [] {
      VersionAfter(s, run[0], k);
      VersionTells(Next(s, run[0]), run[1..], k);
    }
  }

  predicate NoWatch(run: seq<Move>, tid: nat) {
    forall i :: 0 <= i < |run| && run[i].tid == tid ==> !run[i].action.Watch?
  }

  /** If the thread has a hash watched, it is this one, at this version. */
  predicate WatchesOnly(th: Thread, k: SwarmKey, version: nat) {
    th.Collector? && (th.gc.pc.AtHlen? || th.gc.pc.AtExec?) ==>
      OnKey(th) && th.gc.rest[0] == k && th.gc.pc.watched == version
  }

  lemma StepWatchesOnly(s: State, m: Move, tid: nat, k: SwarmKey, version: nat)
    requires Enabled(s, m) && tid < |s.threads| && WatchesOnly(s.threads[tid], k, version)
    requires m.tid == tid ==> !m.action.Watch?
    ensures tid < |Next(s, m).threads| && WatchesOnly(Next(s, m).threads[tid], k, version)
  {
    SameThreads(s, m);
    if m.action.Exec? {
      ExecEffect(s, m.tid);
    }
  }

  lemma {:induction false} RunWatchesOnly(s: State, run: seq<Move>, tid: nat, k: SwarmKey, version: nat)
    requires Legal(s, run) && NoWatch(run, tid) && tid < |s.threads| && WatchesOnly(s.threads[tid], k, version)
    ensures tid < |Final(s, run).threads| && WatchesOnly(Final(s, run).threads[tid], k, version)
    decreases |run|
  {
    if run != [] {
      StepWatchesOnly(s, run[0], tid, k, version);
      RunWatchesOnly(Next(s, run[0]), run[1..], tid, k, version);
    }
  }

  /**
   From its WATCH on, whatever runs in between: the EXEC takes the key off its family hash, for either role, and
   for a seeder key one off the infohash counter, exactly if no command modified the hash of the swarm since.
   */
  lemma ExecGoesThroughIff(s: State, run: seq<Move>, tid: nat, j: SwarmKey)
    requires Legal(s, run) && run != [] && run[0] == Move(tid, Watch) && NoWatch(run[1..], tid)
    requires Enabled(Final(s, run), Move(tid, Exec))
    ensures var t := Final(s, run);
      var t', k, af := Next(t, Move(tid, Exec)), t.threads[tid].gc.rest[0], t.threads[tid].gc.groups[0];
      && (j in t'.redis.Group(af) <==> j in t.redis.Group(af) && (j == k ==> TouchedIn(s, run, k)))
      && (j in t'.redis.Group(OtherFamily(af)) <==> j in t.redis.Group(OtherFamily(af)))
      && t'.redis.Count(InfohashCount(af))
         == t.redis.Count(InfohashCount(af)) - (if !TouchedIn(s, run, k) && k.role == Seeder then 1 else 0)
      && t'.redis.swarms == t.redis.swarms
  {
    var t, gc0 := Final(s, run), s.threads[tid].gc;
    var k, version := gc0.rest[0], s.redis.Version(gc0.rest[0]);
    RunWatchesOnly(Next(s, run[0]), run[1..], tid, k, version);
    VersionTells(s, run, k);
    ExecEffect(t, tid);
    SeederFieldByPosition(k);
    UnlistGroups(t.redis, t.threads[tid].gc.groups[0], k);
  }

  // ---------- the times of the listing ----------

  /** The time a command lists a key with. */
  function ListedBy(a: Action, k: SwarmKey): Option<int> {
    match a
    case DoPut(j, _, now) => if j == k then Some(now) else None
    case DoGraduate(af, ih, _, now) => if k == SwarmKey(af, Seeder, ih) then Some(now) else None
    case _ => None
  }

  function LastListed(run: seq<Move>, k: SwarmKey): Option<int>
    decreases |run|
  {
    if run == [] then None
    else
      var later := LastListed(run[1..], k);
      if later.Some? then later else ListedBy(run[0].action, k)
  }

  lemma ListingAfter(s: State, m: Move, k: SwarmKey)
    requires Enabled(s, m) && k in Next(s, m).redis.Group(k.af)
    ensures match ListedBy(m.action, k)
      case Some(now) => Next(s, m).redis.Group(k.af)[k] == now
      case None => k in s.redis.Group(k.af) && Next(s, m).redis.Group(k.af)[k] == s.redis.Group(k.af)[k]
  {
    match m.action
    case DoPut(j, pk, now) => PutBlockGroups(s.redis, j, pk, now, k.af);
    case DoDelete(j, pk) => SameGroups(s.redis, s.redis.Hdel(j, pk));
    case DoGraduate(f, ih, pk, now) =>
      var r := s.redis.Hdel(SwarmKey(f, Leecher, ih), pk);
      SameGroups(s.redis, r);
      PutBlockGroups(r, SwarmKey(f, Seeder, ih), pk, now, k.af);
    case Exec => ExecKeepsTimes(s, m.tid, k);
    case _ => SameGroups(s.redis, Next(s, m).redis);
  }

  lemma ExecKeepsTimes(s: State, tid: nat, k: SwarmKey)
    requires Enabled(s, Move(tid, Exec)) && k in Next(s, Move(tid, Exec)).redis.Group(k.af)
    ensures k in s.redis.Group(k.af)
    ensures Next(s, Move(tid, Exec)).redis.Group(k.af)[k] == s.redis.Group(k.af)[k]
  {
    ExecEffect(s, tid);
  }

  /** A listed key has the time of the last put or graduation into its swarm. */
  lemma {:induction false} ListedSince(s: State, run: seq<Move>, k: SwarmKey)
    requires Legal(s, run) && k in Final(s, run).redis.Group(k.af)
    ensures match LastListed(run, k)
      case Some(now) => Final(s, run).redis.Group(k.af)[k] == now
      case None => k in s.redis.Group(k.af) && Final(s, run).redis.Group(k.af)[k] == s.redis.Group(k.af)[k]
    decreases |run|
  {
    if run != [] {
      ListedSince(Next(s, run[0]), run[1..], k);
      if LastListed(run[1..], k).None? {
        ListingAfter(s, run[0], k);
      }
    }
  }

  // ---------- which keys are left behind ----------

  /** A key that is listed although its swarm has no peer. */
  predicate Leftover(r: Redis, k: SwarmKey) {
    k in r.Group(k.af) && k !in r.swarms
  }

  /** Within the swarm it is at, the collector's EXEC is still to come and bound to go through. */
  predicate ExecAhead(pc: Pc, version: nat) {
    match pc
    case AtGroup => false
    case AtKey => true
    case Scanning(_, _) => true
    case AtWatch => true
    case AtHlen(watched) => watched == version
    case AtExec(watched) => watched == version
  }

  /** Within the family it is at, the collector has still to unlist the key. */
  predicate VisitAhead(gc: Gc, k: SwarmKey, version: nat) {
    || gc.pc == AtGroup
    || (gc.rest != [] && k in gc.rest[1..])
    || (gc.rest != [] && k == gc.rest[0] && ExecAhead(gc.pc, version))
  }

  predicate UnlistAhead(th: Thread, k: SwarmKey, version: nat) {
    && th.Collector? && th.gc.groups != []
    && (k.af in th.gc.groups[1..] || (k.af == th.gc.groups[0] && VisitAhead(th.gc, k, version)))
  }

  /** A step other than this collector's own scan takes the last peer of a swarm. */
  ghost predicate EmptiesElsewhere(s: State, m: Move, tid: nat, k: SwarmKey)
    requires Enabled(s, m)
  {
    k in s.redis.swarms && k !in Next(s, m).redis.swarms && !(m.tid == tid && m.action.ScanPair?)
  }

  ghost predicate EmptiedElsewhere(s: State, run: seq<Move>, tid: nat, k: SwarmKey)
    requires Legal(s, run)
    decreases |run|
  {
    run != [] && (EmptiesElsewhere(s, run[0], tid, k) || EmptiedElsewhere(Next(s, run[0]), run[1..], tid, k))
  }

  ghost predicate Cleans(s: State, tid: nat, k: SwarmKey) {
    tid < |s.threads| && (Leftover(s.redis, k) ==> UnlistAhead(s.threads[tid], k, s.redis.Version(k)))
  }

  lemma RemoveElsewhere(s: Swarms, j: SwarmKey, pk: PeerKey, k: SwarmKey)
    requires k in s && k !in Remove(s, j, pk)
    ensures k == j
  {
  }

  /** The collector's own scan takes the last peer of the swarm it is at, so its EXEC is still to come. */
  lemma OwnScanCleans(s: State, tid: nat, k: SwarmKey)
    requires Inv(s) && Enabled(s, Move(tid, ScanPair)) && k in s.redis.swarms
    requires k !in Next(s, Move(tid, ScanPair)).redis.swarms
    ensures Cleans(Next(s, Move(tid, ScanPair)), tid, k)
  {
    var gc := s.threads[tid].gc;
    NextSwarms(s, Move(tid, ScanPair));
    RemoveElsewhere(s.redis.swarms, gc.rest[0], gc.pc.pairs[0].0, k);
    assert CollectorOk(s.redis, gc);
    assert k in gc.rest;
  }

  lemma WrittenIsFilled(s: State, m: Move, k: SwarmKey)
    requires Enabled(s, m) && k !in Next(s, m).redis.swarms
    ensures ListedBy(m.action, k) == None
  {
    NextSwarms(s, m);
    match m.action
    case DoPut(j, pk, now) => TimeAfterPut(s.redis.swarms, j, pk, now, j, pk);
    case DoGraduate(af, ih, pk, now) =>
      var swarms, l := s.redis.swarms, SwarmKey(af, Leecher, ih);
      var j := SwarmKey(af, Seeder, ih);
      TimeAfterPut(if Present(swarms, l, pk) then Remove(swarms, l, pk) else swarms, j, pk, now, j, pk);
    case _ =>
  }

  /** A key that is left over after a step that did not empty it was left over before, its hash untouched. */
  lemma LeftoverWasBefore(s: State, m: Move, k: SwarmKey)
    requires Enabled(s, m) && k !in s.redis.swarms && Leftover(Next(s, m).redis, k)
    ensures Leftover(s.redis, k) && Next(s, m).redis.Version(k) == s.redis.Version(k)
  {
    WrittenIsFilled(s, m, k);
    ListingAfter(s, m, k);
    VersionAfter(s, m, k);
  }

  lemma NextKeyAhead(gc: Gc, k: SwarmKey, version: nat)
    requires gc.rest != [] && k in gc.rest[1..]
    ensures VisitAhead(NextKey(gc), k, version)
  {
    var rest := gc.rest[1..];
    assert rest == [rest[0]] + rest[1..];
  }

  lemma HkeysAhead(s: State, tid: nat, order: seq<SwarmKey>, k: SwarmKey, version: nat)
    requires Enabled(s, Move(tid, Hkeys(order))) && k in s.redis.Group(k.af)
    requires UnlistAhead(s.threads[tid], k, version)
    ensures UnlistAhead(Next(s, Move(tid, Hkeys(order))).threads[tid], k, version)
  {
    if k.af == s.threads[tid].gc.groups[0] {
      assert k in order;
      assert order == [order[0]] + order[1..];
    }
  }

  lemma NextGroupAhead(s: State, tid: nat, k: SwarmKey, version: nat)
    requires Enabled(s, Move(tid, NextGroup)) && UnlistAhead(s.threads[tid], k, version)
    ensures UnlistAhead(Next(s, Move(tid, NextGroup)).threads[tid], k, version)
  {
    var groups := s.threads[tid].gc.groups[1..];
    assert k.af in groups;
    assert groups == [groups[0]] + groups[1..];
  }

  lemma HlenAhead(s: State, tid: nat, k: SwarmKey)
    requires Enabled(s, Move(tid, Hlen)) && k !in s.redis.swarms
    requires UnlistAhead(s.threads[tid], k, s.redis.Version(k))
    ensures UnlistAhead(Next(s, Move(tid, Hlen)).threads[tid], k, s.redis.Version(k))
  {
    var gc := s.threads[tid].gc;
    if k in gc.rest[1..] {
      NextKeyAhead(gc, k, s.redis.Version(k));
    }
  }

  lemma ExecCleans(s: State, tid: nat, k: SwarmKey)
    requires Enabled(s, Move(tid, Exec)) && UnlistAhead(s.threads[tid], k, s.redis.Version(k))
    requires Leftover(Next(s, Move(tid, Exec)).redis, k)
    ensures UnlistAhead(Next(s, Move(tid, Exec)).threads[tid], k, s.redis.Version(k))
  {
    var gc := s.threads[tid].gc;
    ExecEffect(s, tid);
    UnlistGroups(s.redis, gc.groups[0], gc.rest[0]);
    if k in gc.rest[1..] {
      NextKeyAhead(gc, k, s.redis.Version(k));
    }
  }

  lemma OwnStepCleans(s: State, m: Move, k: SwarmKey)
    requires Enabled(s, m) && k !in s.redis.swarms && Leftover(s.redis, k) && Leftover(Next(s, m).redis, k)
    requires UnlistAhead(s.threads[m.tid], k, s.redis.Version(k))
    ensures UnlistAhead(Next(s, m).threads[m.tid], k, s.redis.Version(k))
  {
    match m.action
    case Hkeys(order) => HkeysAhead(s, m.tid, order, k, s.redis.Version(k));
    case NextGroup => NextGroupAhead(s, m.tid, k, s.redis.Version(k));
    case Hlen => HlenAhead(s, m.tid, k);
    case Exec => ExecCleans(s, m.tid, k);
    case _ =>
  }

  lemma StepCleans(s: State, m: Move, tid: nat, k: SwarmKey)
    requires Inv(s) && Enabled(s, m) && Cleans(s, tid, k) && !EmptiesElsewhere(s, m, tid, k)
    ensures Cleans(Next(s, m), tid, k)
  {
    SameThreads(s, m);
    if Leftover(Next(s, m).redis, k) {
      if k in s.redis.swarms {
        OwnScanCleans(s, tid, k);
      } else {
        LeftoverWasBefore(s, m, k);
        if m.tid == tid {
          OwnStepCleans(s, m, k);
        } else {
          OtherThread(s, m, tid);
        }
      }
    }
  }

  lemma OtherThread(s: State, m: Move, tid: nat)
    requires Enabled(s, m) && tid < |s.threads| && m.tid != tid
    ensures tid < |Next(s, m).threads| && Next(s, m).threads[tid] == s.threads[tid]
  {
  }

  lemma {:induction false} RunCleans(s: State, run: seq<Move>, tid: nat, k: SwarmKey)
    requires Inv(s) && Legal(s, run) && Cleans(s, tid, k) && !EmptiedElsewhere(s, run, tid, k)
    ensures Cleans(Final(s, run), tid, k)
    decreases |run|
  {
    if run != [] {
      StepCleans(s, run[0], tid, k);
      StepKeepsInv(s, run[0]);
      RunCleans(Next(s, run[0]), run[1..], tid, k);
    }
  }

  /** A collection of thread `tid` that starts after `before` and is over after `run`, from the empty database. */
  ghost predicate Collection(s: State, before: seq<Move>, run: seq<Move>, tid: nat, cutoff: int) {
    && Initial(s) && Legal(s, before) && Enabled(Final(s, before), Move(tid, StartGc(cutoff)))
    && var s1 := Next(Final(s, before), Move(tid, StartGc(cutoff)));
       Legal(s1, run) && tid < |Final(s1, run).threads| && Final(s1, run).threads[tid].Idle?
  }

  lemma CollectionStarts(s: State, before: seq<Move>, run: seq<Move>, tid: nat, cutoff: int, k: SwarmKey)
    requires Collection(s, before, run, tid, cutoff)
    ensures var s1 := Next(Final(s, before), Move(tid, StartGc(cutoff)));
      && Inv(s1) && Cleans(s1, tid, k) && s1.redis == Final(s, before).redis
      && s1.threads[tid] == Collector(Gc(cutoff, [IPv4, IPv6], [], AtGroup))
  {
    InitialInv(s);
    RunKeepsInv(s, before);
    StepKeepsInv(Final(s, before), Move(tid, StartGc(cutoff)));
    assert [IPv4, IPv6][1..] == [IPv6];
  }

  /**
   Whatever else runs: after a collection a key of either role is listed exactly if its swarm has a peer, unless
   somebody else took the last peer of that swarm while the collection was running.
   */
  lemma LeftoverNeedsInterference(s: State, before: seq<Move>, run: seq<Move>, tid: nat, cutoff: int, k: SwarmKey)
    requires Collection(s, before, run, tid, cutoff)
    ensures var s1 := Next(Final(s, before), Move(tid, StartGc(cutoff)));
      var r := Final(s1, run).redis;
      EmptiedElsewhere(s1, run, tid, k) || (k in r.Group(k.af) <==> k in r.swarms)
  {
    var s1 := Next(Final(s, before), Move(tid, StartGc(cutoff)));
    CollectionStarts(s, before, run, tid, cutoff, k);
    RunKeepsInv(s1, run);
    if !EmptiedElsewhere(s1, run, tid, k) {
      RunCleans(s1, run, tid, k);
    }
  }

  // ---------- a pass nobody disturbs ----------

  /** Only one thread runs, and all it does is collect. */
  predicate Undisturbed(run: seq<Move>, tid: nat) {
    forall i :: 0 <= i < |run| ==> run[i].tid == tid && Collects(run[i].action)
  }

  predicate Collects(a: Action) {
    !a.DoPut? && !a.DoDelete? && !a.DoGraduate? && !a.DoBump? && !a.StartGc?
  }

  /** What a collector has read of a peer says the time it is stored with. */
  ghost predicate ReadTrue(th: Thread, k: SwarmKey, pk: PeerKey, mtime: int, cutoff: int) {
    th.Collector? ==>
      && th.gc.cutoff == cutoff
      && (OnKey(th) && th.gc.rest[0] == k && th.gc.pc.Scanning? ==>
            forall p :: p in th.gc.pc.pairs && p.0 == pk ==> p.1 == mtime)
  }

  lemma FreshStays(s: State, m: Move, k: SwarmKey, pk: PeerKey, cutoff: int)
    requires Enabled(s, m) && Collects(m.action) && Present(s.redis.swarms, k, pk)
    requires s.redis.swarms[k][pk] > cutoff
    requires ReadTrue(s.threads[m.tid], k, pk, s.redis.swarms[k][pk], cutoff)
    ensures m.tid < |Next(s, m).threads|
    ensures Present(Next(s, m).redis.swarms, k, pk) && Next(s, m).redis.swarms[k][pk] == s.redis.swarms[k][pk]
    ensures ReadTrue(Next(s, m).threads[m.tid], k, pk, s.redis.swarms[k][pk], cutoff)
  {
    NextSwarms(s, m);
    SameThreads(s, m);
    match m.action
    case Hgetall(reply) => ReplyTrue(s, m.tid, reply, k, pk);
    case ScanPair =>
      var gc := s.threads[m.tid].gc;
      assert gc.pc.pairs[0] in gc.pc.pairs;
      assert forall p :: p in gc.pc.pairs[1..] ==> p in gc.pc.pairs;
      TimeAfterRemove(s.redis.swarms, gc.rest[0], gc.pc.pairs[0].0, k, pk);
    case Exec => ExecEffect(s, m.tid);
    case _ =>
  }

  lemma ReplyTrue(s: State, tid: nat, reply: seq<(PeerKey, int)>, k: SwarmKey, pk: PeerKey)
    requires Enabled(s, Move(tid, Hgetall(reply))) && Present(s.redis.swarms, k, pk)
    ensures s.threads[tid].gc.rest[0] == k ==> forall p :: p in reply && p.0 == pk ==> p.1 == s.redis.swarms[k][pk]
  {
    forall p | p in reply && p.0 == pk && s.threads[tid].gc.rest[0] == k ensures p.1 == s.redis.swarms[k][pk] {
      assert p in Flatten(HashOf(s.redis.swarms, k));
    }
  }

  lemma {:induction false} FreshStaysThroughout(s: State, run: seq<Move>, tid: nat, k: SwarmKey, pk: PeerKey,
                                                cutoff: int)
    requires Legal(s, run) && Undisturbed(run, tid) && tid < |s.threads| && Present(s.redis.swarms, k, pk)
    requires s.redis.swarms[k][pk] > cutoff && ReadTrue(s.threads[tid], k, pk, s.redis.swarms[k][pk], cutoff)
    ensures Present(Final(s, run).redis.swarms, k, pk)
    decreases |run|
  {
    if run != [] {
      FreshStays(s, run[0], k, pk, cutoff);
      FreshStaysThroughout(Next(s, run[0]), run[1..], tid, k, pk, cutoff);
    }
  }

  lemma {:induction false} NothingIsWritten(run: seq<Move>, tid: nat, k: SwarmKey, pk: PeerKey)
    requires Undisturbed(run, tid)
    ensures LastWrite(run, k, pk) == None
    decreases |run|
  {
    if run != [] {
      NothingIsWritten(run[1..], tid, k, pk);
    }
  }

  /** A peer that is due at the end of an undisturbed pass was due all along. */
  lemma {:induction false} DueAllAlong(s: State, run: seq<Move>, tid: nat, k: SwarmKey, pk: PeerKey, cutoff: int)
    requires Legal(s, run) && Undisturbed(run, tid) && Due(Final(s, run).redis.swarms, k, pk, cutoff)
    ensures DueThroughout(s, run, k, pk, cutoff)
    decreases |run|
  {
    RunTime(s, run, k, pk);
    NothingIsWritten(run, tid, k, pk);
    if run != [] {
      DueAllAlong(Next(s, run[0]), run[1..], tid, k, pk, cutoff);
    }
  }

  ghost predicate SweptPeer(s: Swarms, s': Swarms, cutoff: int, k: SwarmKey, pk: PeerKey) {
    && (Present(s', k, pk) <==> Present(s, k, pk) && s[k][pk] > cutoff)
    && (Present(s', k, pk) ==> s'[k][pk] == s[k][pk])
  }

  lemma UndisturbedPeer(s: State, before: seq<Move>, run: seq<Move>, tid: nat, cutoff: int, k: SwarmKey, pk: PeerKey)
    requires Collection(s, before, run, tid, cutoff) && Undisturbed(run, tid)
    ensures var s1 := Final(Next(Final(s, before), Move(tid, StartGc(cutoff))), run);
      SweptPeer(Final(s, before).redis.swarms, s1.redis.swarms, cutoff, k, pk)
  {
    var s1 := Next(Final(s, before), Move(tid, StartGc(cutoff)));
    CollectionStarts(s, before, run, tid, cutoff, k);
    NothingIsWritten(run, tid, k, pk);
    if Present(Final(s1, run).redis.swarms, k, pk) {
      RunTime(s1, run, k, pk);
      if Due(Final(s1, run).redis.swarms, k, pk, cutoff) {
        DueAllAlong(s1, run, tid, k, pk, cutoff);
        NothingDueSurvivesACollection(s, before, run, tid, cutoff, k, pk);
      }
    } else if Present(s1.redis.swarms, k, pk) && s1.redis.swarms[k][pk] > cutoff {
      FreshStaysThroughout(s1, run, tid, k, pk, cutoff);
    }
  }

  lemma {:induction false} OnlyOwnScans(s: State, run: seq<Move>, tid: nat, k: SwarmKey)
    requires Legal(s, run) && Undisturbed(run, tid)
    ensures !EmptiedElsewhere(s, run, tid, k)
    decreases |run|
  {
    if run != [] {
      NextSwarms(s, run[0]);
      OnlyOwnScans(Next(s, run[0]), run[1..], tid, k);
    }
  }

  /** A collection nobody disturbs is the abstract sweep, and lists a key of either role exactly if it has a peer. */
  lemma UndisturbedCollection(s: State, before: seq<Move>, run: seq<Move>, tid: nat, cutoff: int)
    requires Collection(s, before, run, tid, cutoff) && Undisturbed(run, tid)
    ensures var r := Final(Next(Final(s, before), Move(tid, StartGc(cutoff))), run).redis;
      && r.swarms == Sweep(Final(s, before).redis.swarms, cutoff)
      && forall k: SwarmKey :: k in r.Group(k.af) <==> k in r.swarms
  {
    var s0, s1 := Final(s, before), Next(Final(s, before), Move(tid, StartGc(cutoff)));
    var r := Final(s1, run).redis;
    CollectionStarts(s, before, run, tid, cutoff, SwarmKey(IPv4, Seeder, seq(20, _ => 0)));
    RunKeepsInv(s1, run);
    forall k: SwarmKey ensures k in r.Group(k.af) <==> k in r.swarms {
      LeftoverNeedsInterference(s, before, run, tid, cutoff, k);
      OnlyOwnScans(s1, run, tid, k);
    }
    forall k, pk ensures SweptPeer(s0.redis.swarms, r.swarms, cutoff, k, pk) {
      UndisturbedPeer(s, before, run, tid, cutoff, k, pk);
    }
    SweepByPeers(s0.redis.swarms, r.swarms, cutoff);
  }

  lemma SweepByPeers(s: Swarms, s': Swarms, cutoff: int)
    requires NoEmptySwarm(s') && forall k, pk :: SweptPeer(s, s', cutoff, k, pk)
    ensures s' == Sweep(s, cutoff)
  {
    forall k ensures k in s' <==> k in Sweep(s, cutoff)
      ensures k in s' ==> s'[k] == Sweep(s, cutoff)[k]
    {
      SweptHash(s, s', cutoff, k);
    }
  }

  lemma SweptHash(s: Swarms, s': Swarms, cutoff: int, k: SwarmKey)
    requires NoEmptySwarm(s') && forall pk :: SweptPeer(s, s', cutoff, k, pk)
    ensures k in s' <==> k in s && Fresh(s[k], cutoff) != map[]
    ensures k in s' ==> s'[k] == Fresh(s[k], cutoff)
  {
    if k in s' {
      var pk :| pk in s'[k];
      assert SweptPeer(s, s', cutoff, k, pk);
      forall p ensures p in s'[k] <==> p in Fresh(s[k], cutoff)
        ensures p in s'[k] ==> s'[k][p] == Fresh(s[k], cutoff)[p]
      {
        assert SweptPeer(s, s', cutoff, k, p);
      }
    } else if k in s {
      forall p ensures p !in Fresh(s[k], cutoff) {
        assert SweptPeer(s, s', cutoff, k, p);
      }
    }
  }

  // ---------- a key left behind ----------

  /** A put and a delete of the same peer, with their counters sent, leave the key listed and nothing else. */
  lemma ComeAndGo(s: State, tid: nat, k: SwarmKey, pk: PeerKey, now: int) returns (run: seq<Move>)
    requires tid < |s.threads| && s.threads[tid].Idle? && s.redis.swarms == map[]
    ensures Legal(s, run) && Final(s, run).threads == s.threads && Final(s, run).redis.swarms == map[]
    ensures k in Final(s, run).redis.Group(k.af)
    ensures forall af :: af != k.af ==> Final(s, run).redis.Group(af) == s.redis.Group(af)
  {
    var put := Move(tid, DoPut(k, pk, now));
    Extend(s, [], put);
    assert [] + [put] == [put];
    var s1 := Next(s, put);
    NextSwarms(s, put);
    var a := Drain(s1, tid);
    Concat(s, [put], a);
    var s2 := Final(s1, a);
    assert s1.threads[tid := Idle] == s.threads;
    var del := Move(tid, DoDelete(k, pk));
    Extend(s2, [], del);
    assert [] + [del] == [del];
    var s3 := Next(s2, del);
    NextSwarms(s2, del);
    PutThenRemove(k, pk, now);
    var b := Drain(s3, tid);
    Concat(s2, [del], b);
    assert s3.threads[tid := Idle] == s.threads;
    run := [put] + a + ([del] + b);
    Concat(s, [put] + a, [del] + b);
    SameGroups(s1.redis, s2.redis);
    SameGroups(s2.redis, s3.redis);
    SameGroups(s3.redis, Final(s3, b).redis);
    forall af { PutBlockGroups(s.redis, k, pk, now, af); }
  }

  lemma PutThenRemove(k: SwarmKey, pk: PeerKey, now: int)
    ensures Present(Put(map[], k, pk, now), k, pk) && Remove(Put(map[], k, pk, now), k, pk) == map[]
  {
    TimeAfterPut(map[], k, pk, now, k, pk);
    var one: Hash := map[pk := now];
    assert HashOf(Put(map[], k, pk, now), k) == one;
    assert one - {pk} == map[];
  }

  /** A peer that comes and goes while a collection is past its family leaves its key listed. */
  lemma KeyCanBeLeftBehind(s: State, k: SwarmKey, pk: PeerKey, now: int, cutoff: int) returns (run: seq<Move>)
    requires Initial(s) && |s.threads| > 1 && k.af == IPv4
    ensures Collection(s, [], run, 1, cutoff)
    ensures Leftover(Final(Next(s, Move(1, StartGc(cutoff))), run).redis, k)
  {
    var s1 := Next(s, Move(1, StartGc(cutoff)));
    var a := PassEmptyGroup(s1, [], 1, cutoff);
    var s2 := Final(s1, a);
    var b := ComeAndGo(s2, 0, k, pk, now);
    Concat(s1, a, b);
    var s3 := Final(s2, b);
    var c := LastGroup(s3, 1, cutoff);
    Concat(s1, a + b, c);
    run := a + b + c;
  }

  lemma LastGroup(s: State, tid: nat, cutoff: int) returns (run: seq<Move>)
    requires tid < |s.threads| && s.threads[tid] == Collector(Gc(cutoff, [IPv6], [], AtGroup))
    requires forall j :: j !in s.redis.Group(IPv6)
    ensures Legal(s, run) && Final(s, run).redis == s.redis
    ensures tid < |Final(s, run).threads| && Final(s, run).threads[tid].Idle?
  {
    var hkeys := Move(tid, Hkeys([]));
    Extend(s, [], hkeys);
    assert [] + [hkeys] == [hkeys];
    Extend(s, [hkeys], Move(tid, NextGroup));
    run := [hkeys] + [Move(tid, NextGroup)];
    assert [IPv6][1..] == [];
  }
}
