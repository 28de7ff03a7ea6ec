/**
 A whole pass of a Redis collector, from StartGc to its end, beside any number of clients and other collectors:
 what it is bound to collect.
 */
module RedisPass {
  import opened BitTorrent
  import opened PeerStoreSpec
  import opened RedisCommands
  import opened RedisProtocol

  /** The peer is due in every state of a run. */
  ghost predicate DueThroughout(s: State, run: seq<Move>, k: SwarmKey, pk: PeerKey, cutoff: int)
    requires Legal(s, run)
    decreases |run|
  {
    Due(s.redis.swarms, k, pk, cutoff) && (run == [] || DueThroughout(Next(s, run[0]), run[1..], k, pk, cutoff))
  }

  /** Within the swarm it is at, the collector has still to come to a pair that says the peer is due. */
  ghost predicate PairAhead(pc: Pc, pk: PeerKey, cutoff: int) {
    pc == AtKey || (pc.Scanning? && exists p :: p in pc.pairs && p.0 == pk && p.1 <= cutoff)
  }

  /** Within the family it is at, the collector has still to come to the peer. */
  ghost predicate KeyAhead(gc: Gc, k: SwarmKey, pk: PeerKey) {
    || gc.pc == AtGroup
    || (gc.rest != [] && k in gc.rest[1..])
    || (gc.rest != [] && k == gc.rest[0] && PairAhead(gc.pc, pk, gc.cutoff))
  }

  ghost predicate Ahead(th: Thread, k: SwarmKey, pk: PeerKey, cutoff: int) {
    && th.Collector? && th.gc.cutoff == cutoff && th.gc.groups != []
    && (k.af in th.gc.groups[1..] || (k.af == th.gc.groups[0] && KeyAhead(th.gc, k, pk)))
  }

  // ---------- the collector's steps, one by one ----------

  lemma HkeysStaysAhead(s: State, tid: nat, order: seq<SwarmKey>, k: SwarmKey, pk: PeerKey, cutoff: int)
    requires RedisOk(s.redis) && Enabled(s, Move(tid, Hkeys(order))) && Due(s.redis.swarms, k, pk, cutoff)
    requires Ahead(s.threads[tid], k, pk, cutoff)
    ensures Ahead(Next(s, Move(tid, Hkeys(order))).threads[tid], k, pk, cutoff)
  {
    if k.af == s.threads[tid].gc.groups[0] {
      assert k in order;
      assert order == [order[0]] + order[1..];
    }
  }

  lemma HgetallStaysAhead(s: State, tid: nat, reply: seq<(PeerKey, int)>, k: SwarmKey, pk: PeerKey, cutoff: int)
    requires Enabled(s, Move(tid, Hgetall(reply))) && Due(s.redis.swarms, k, pk, cutoff)
    requires Ahead(s.threads[tid], k, pk, cutoff)
    ensures Ahead(Next(s, Move(tid, Hgetall(reply))).threads[tid], k, pk, cutoff)
  {
    if k == s.threads[tid].gc.rest[0] {
      var p := (pk, s.redis.swarms[k][pk]);
      assert p in Flatten(HashOf(s.redis.swarms, k));
      assert p in reply;
    }
  }

  lemma ScanStaysAhead(s: State, tid: nat, k: SwarmKey, pk: PeerKey, cutoff: int)
    requires Enabled(s, Move(tid, ScanPair)) && Ahead(s.threads[tid], k, pk, cutoff)
    requires Due(Next(s, Move(tid, ScanPair)).redis.swarms, k, pk, cutoff)
    ensures Ahead(Next(s, Move(tid, ScanPair)).threads[tid], k, pk, cutoff)
  {
    var gc := s.threads[tid].gc;
    var pairs := gc.pc.pairs;
    NextSwarms(s, Move(tid, ScanPair));
    TimeAfterRemove(s.redis.swarms, gc.rest[0], pairs[0].0, k, pk);
    assert pairs == [pairs[0]] + pairs[1..];
    if k == gc.rest[0] && k !in gc.rest[1..] && k.af == gc.groups[0] && k.af !in gc.groups[1..] {
      var p :| p in pairs && p.0 == pk && p.1 <= cutoff;
      assert p in pairs[1..];
    }
  }

  lemma NextKeyStaysAhead(gc: Gc, k: SwarmKey, pk: PeerKey)
    requires gc.rest != [] && KeyAhead(gc, k, pk) && gc.pc != AtGroup
    requires k == gc.rest[0] ==> !PairAhead(gc.pc, pk, gc.cutoff)
    ensures KeyAhead(NextKey(gc), k, pk)
  {
    var rest := gc.rest[1..];
    assert rest == [rest[0]] + rest[1..];
  }

  lemma LateStaysAhead(s: State, tid: nat, a: Action, k: SwarmKey, pk: PeerKey, cutoff: int)
    requires a == DecrBy || a == Watch || a == Hlen || a == Exec
    requires Enabled(s, Move(tid, a)) && Ahead(s.threads[tid], k, pk, cutoff)
    ensures Ahead(Next(s, Move(tid, a)).threads[tid], k, pk, cutoff)
  {
    var gc := s.threads[tid].gc;
    if k.af == gc.groups[0] && KeyAhead(gc, k, pk) && (a == Hlen || a == Exec) {
      NextKeyStaysAhead(gc, k, pk);
    }
  }

  lemma NextGroupStaysAhead(s: State, tid: nat, k: SwarmKey, pk: PeerKey, cutoff: int)
    requires Enabled(s, Move(tid, NextGroup)) && Ahead(s.threads[tid], k, pk, cutoff)
    ensures Ahead(Next(s, Move(tid, NextGroup)).threads[tid], k, pk, cutoff)
  {
    var groups := s.threads[tid].gc.groups[1..];
    assert k.af in groups;
    assert groups == [groups[0]] + groups[1..];
  }

  // ---------- whole passes ----------

  lemma StepStaysAhead(s: State, m: Move, tid: nat, k: SwarmKey, pk: PeerKey, cutoff: int)
    requires RedisOk(s.redis) && Enabled(s, m) && tid < |s.threads| && Ahead(s.threads[tid], k, pk, cutoff)
    requires Due(s.redis.swarms, k, pk, cutoff) && Due(Next(s, m).redis.swarms, k, pk, cutoff)
    ensures Ahead(Next(s, m).threads[tid], k, pk, cutoff)
  {
    if m.tid == tid {
      match m.action
      case Hkeys(order) => HkeysStaysAhead(s, tid, order, k, pk, cutoff);
      case Hgetall(reply) => HgetallStaysAhead(s, tid, reply, k, pk, cutoff);
      case ScanPair => ScanStaysAhead(s, tid, k, pk, cutoff);
      case NextGroup => NextGroupStaysAhead(s, tid, k, pk, cutoff);
      case DecrBy => LateStaysAhead(s, tid, DecrBy, k, pk, cutoff);
      case Watch => LateStaysAhead(s, tid, Watch, k, pk, cutoff);
      case Hlen => LateStaysAhead(s, tid, Hlen, k, pk, cutoff);
      case Exec => LateStaysAhead(s, tid, Exec, k, pk, cutoff);
      case _ =>
    } else if m.action.Exec? {
      ExecEffect(s, m.tid);
    }
  }

  lemma DueAfterStep(s: State, run: seq<Move>, k: SwarmKey, pk: PeerKey, cutoff: int)
    requires Legal(s, run) && DueThroughout(s, run, k, pk, cutoff) && run != []
    ensures Due(s.redis.swarms, k, pk, cutoff) && Due(Next(s, run[0]).redis.swarms, k, pk, cutoff)
    ensures Legal(Next(s, run[0]), run[1..]) && DueThroughout(Next(s, run[0]), run[1..], k, pk, cutoff)
  {
  }

  lemma SameThreads(s: State, m: Move)
    requires Enabled(s, m)
    ensures |Next(s, m).threads| == |s.threads|
  {
  }

  lemma {:induction false} RunStaysAhead(s: State, run: seq<Move>, tid: nat, k: SwarmKey, pk: PeerKey, cutoff: int)
    requires Inv(s) && Legal(s, run) && DueThroughout(s, run, k, pk, cutoff)
    requires tid < |s.threads| && Ahead(s.threads[tid], k, pk, cutoff)
    ensures tid < |Final(s, run).threads| && Ahead(Final(s, run).threads[tid], k, pk, cutoff)
    decreases |run|
  {
    if run != [] {
      StepKeepsInv(s, run[0]);
      SameThreads(s, run[0]);
      DueAfterStep(s, run, k, pk, cutoff);
      StepStaysAhead(s, run[0], tid, k, pk, cutoff);
      RunStaysAhead(Next(s, run[0]), run[1..], tid, k, pk, cutoff);
    }
  }

  /**
   No peer stays due from the start of a collection to its end: in every run from the empty database in which
   thread `tid` starts a collection after `before` and is done with it after `run`.
   */
  lemma NothingDueSurvivesACollection(s: State, before: seq<Move>, run: seq<Move>, tid: nat, cutoff: int,
                                      k: SwarmKey, pk: PeerKey)
    requires Initial(s) && Legal(s, before) && Enabled(Final(s, before), Move(tid, StartGc(cutoff)))
    requires var s1 := Next(Final(s, before), Move(tid, StartGc(cutoff)));
      Legal(s1, run) && tid < |Final(s1, run).threads| && Final(s1, run).threads[tid].Idle?
    ensures !DueThroughout(Next(Final(s, before), Move(tid, StartGc(cutoff))), run, k, pk, cutoff)
  {
    var s0 := Final(s, before);
    var s1 := Next(s0, Move(tid, StartGc(cutoff)));
    InitialInv(s);
    RunKeepsInv(s, before);
    StepKeepsInv(s0, Move(tid, StartGc(cutoff)));
    if DueThroughout(s1, run, k, pk, cutoff) {
      assert Ahead(s1.threads[tid], k, pk, cutoff) by {
        assert [IPv4, IPv6][1..] == [IPv6];
      }
      RunStaysAhead(s1, run, tid, k, pk, cutoff);
    }
  }
}
