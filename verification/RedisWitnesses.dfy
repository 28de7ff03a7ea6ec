/** Runs of the Redis protocol that show which stronger claims fail. */
module RedisWitnesses {
  import opened BitTorrent
  import opened PeerStoreSpec
  import opened RedisCommands
  import opened RedisProtocol

  lemma Prepend(s: State, m: Move, run: seq<Move>)
    requires Enabled(s, m) && Legal(Next(s, m), run)
    ensures Legal(s, [m] + run) && Final(s, [m] + run) == Final(Next(s, m), run)
  {
    assert ([m] + run)[1..] == run;
  }

  lemma HeadFirst<T>(a: seq<T>, b: seq<T>)
    requires a != []
    ensures a + b == [a[0]] + (a[1..] + b)
  {
  }

  lemma {:induction false} Concat(s: State, a: seq<Move>, b: seq<Move>)
    requires Legal(s, a) && Legal(Final(s, a), b)
    ensures Legal(s, a + b) && Final(s, a + b) == Final(Final(s, a), b)
    decreases |a|
  {
    if a == [] {
      assert a + b == b;
    } else {
      Concat(Next(s, a[0]), a[1..], b);
      Prepend(s, a[0], a[1..] + b);
      HeadFirst(a, b);
    }
  }

  /** A run can be continued by any enabled move. */
  lemma Extend(s: State, run: seq<Move>, m: Move)
    requires Legal(s, run) && Enabled(Final(s, run), m)
    ensures Legal(s, run + [m]) && Final(s, run + [m]) == Next(Final(s, run), m)
  {
    Prepend(Final(s, run), m, []);
    assert [m] + [] == [m];
    Concat(s, run, [m]);
  }

  /** The collector, having found one listed and empty IPv4 swarm, at a given control point. */
  function On(s: State, tid: nat, k: SwarmKey, pc: Pc): State
    requires tid < |s.threads|
  {
    With(s, tid, s.redis, Collector(Gc(0, [IPv4, IPv6], [k], pc)))
  }

  lemma CollectUpToScan(s: State, tid: nat, k: SwarmKey)
    requires tid < |s.threads| && s.threads[tid].Idle?
    requires k !in s.redis.swarms
    requires forall j :: j in s.redis.Group(IPv4) <==> j == k
    ensures var run := [Move(tid, StartGc(0)), Move(tid, Hkeys([k])), Move(tid, Hgetall([]))];
      Legal(s, run) && Final(s, run) == On(s, tid, k, Scanning([], 0))
  {
    var s1 := With(s, tid, s.redis, Collector(Gc(0, [IPv4, IPv6], [], AtGroup)));
    assert Next(s, Move(tid, StartGc(0))) == s1;
    assert Next(s1, Move(tid, Hkeys([k]))) == On(s, tid, k, AtKey);
    Extend(s, [], Move(tid, StartGc(0)));
    Extend(s, [Move(tid, StartGc(0))], Move(tid, Hkeys([k])));
    Extend(s, [Move(tid, StartGc(0)), Move(tid, Hkeys([k]))], Move(tid, Hgetall([])));
  }

  lemma ScanUpToExec(s: State, tid: nat, k: SwarmKey)
    requires tid < |s.threads| && k !in s.redis.swarms
    ensures var run := [Move(tid, DecrBy), Move(tid, Watch), Move(tid, Hlen)];
      && Legal(On(s, tid, k, Scanning([], 0)), run)
      && Final(On(s, tid, k, Scanning([], 0)), run) == On(s, tid, k, AtExec(s.redis.Version(k)))
  {
    var s0 := On(s, tid, k, Scanning([], 0));
    assert Next(s0, Move(tid, DecrBy)) == On(s, tid, k, AtWatch);
    assert Next(On(s, tid, k, AtWatch), Move(tid, Watch)) == On(s, tid, k, AtHlen(s.redis.Version(k)));
    Extend(s0, [], Move(tid, DecrBy));
    Extend(s0, [Move(tid, DecrBy)], Move(tid, Watch));
    Extend(s0, [Move(tid, DecrBy), Move(tid, Watch)], Move(tid, Hlen));
  }

  lemma CollectUpToExec(s: State, tid: nat, k: SwarmKey) returns (run: seq<Move>)
    requires tid < |s.threads| && s.threads[tid].Idle?
    requires k !in s.redis.swarms
    requires forall j :: j in s.redis.Group(IPv4) <==> j == k
    ensures Legal(s, run) && Final(s, run) == On(s, tid, k, AtExec(s.redis.Version(k)))
  {
    CollectUpToScan(s, tid, k);
    ScanUpToExec(s, tid, k);
    var a := [Move(tid, StartGc(0)), Move(tid, Hkeys([k])), Move(tid, Hgetall([]))];
    run := a + [Move(tid, DecrBy), Move(tid, Watch), Move(tid, Hlen)];
    Concat(s, a, [Move(tid, DecrBy), Move(tid, Watch), Move(tid, Hlen)]);
  }

  lemma BothReachExec(s: State, t: nat, u: nat, k: SwarmKey) returns (run: seq<Move>)
    requires t < |s.threads| && u < |s.threads| && t != u && s.threads[t].Idle? && s.threads[u].Idle?
    requires k !in s.redis.swarms
    requires forall j :: j in s.redis.Group(IPv4) <==> j == k
    ensures Legal(s, run)
    ensures var v := s.redis.Version(k); Final(s, run) == On(On(s, t, k, AtExec(v)), u, k, AtExec(v))
  {
    var a := CollectUpToExec(s, t, k);
    var s1 := On(s, t, k, AtExec(s.redis.Version(k)));
    var b := CollectUpToExec(s1, u, k);
    Concat(s, a, b);
    run := a + b;
  }

  /** The EXEC of a seeder swarm nobody has written to since. */
  lemma ExecUnlists(s: State, tid: nat, k: SwarmKey)
    requires tid < |s.threads| && s.threads[tid] == Collector(Gc(0, [IPv4, IPv6], [k], AtExec(s.redis.Version(k))))
    requires k.af == IPv4 && k.role == Seeder && Enabled(s, Move(tid, Exec))
    ensures var s' := Next(s, Move(tid, Exec));
      && s'.redis == s.redis.Unlist(IPv4, k).IncrBy(InfohashCount(IPv4), -1)
      && (forall i :: 0 <= i < |s.threads| && i != tid ==> s'.threads[i] == s.threads[i])
      && s'.Blind(IPv4) == s.Blind(IPv4) + if k in s.redis.Group(IPv4) then 0 else 1
  {
    SeederFieldByPosition(k);
    ExecEffect(s, tid);
  }

  /**
   Two collectors that both find the same empty seeder swarm both EXEC, since only the swarm's hash is
   watched: from every such state some run makes the counter lose one more than the listing does.
   */
  lemma TwoCollectorsGoBlind(s: State, t: nat, u: nat, k: SwarmKey) returns (run: seq<Move>)
    requires t < |s.threads| && u < |s.threads| && t != u && s.threads[t].Idle? && s.threads[u].Idle?
    requires k.af == IPv4 && k.role == Seeder && k !in s.redis.swarms
    requires forall j :: j in s.redis.Group(IPv4) <==> j == k
    ensures Legal(s, run)
    ensures Final(s, run).Blind(IPv4) == s.Blind(IPv4) + 1
    ensures Final(s, run).redis.Count(InfohashCount(IPv4)) == s.redis.Count(InfohashCount(IPv4)) - 2
    ensures ListedSeeders(Final(s, run).redis.Group(IPv4)) == {} && |ListedSeeders(s.redis.Group(IPv4))| == 1
  {
    assert ListedSeeders(s.redis.Group(IPv4)) == {k};
    var a := BothReachExec(s, t, u, k);
    var s2 := Final(s, a);
    ExecUnlists(s2, t, k);
    var s3 := Next(s2, Move(t, Exec));
    UnlistGroups(s.redis, IPv4, k);
    Extend(s, a, Move(t, Exec));
    ExecUnlists(s3, u, k);
    UnlistGroups(s3.redis, IPv4, k);
    Extend(s, a + [Move(t, Exec)], Move(u, Exec));
    run := a + [Move(t, Exec)] + [Move(u, Exec)];
    assert forall j :: j !in Final(s, run).redis.Group(IPv4);
  }

  lemma Seed(s: State, k: SwarmKey, pk: PeerKey) returns (run: seq<Move>)
    requires Initial(s) && |s.threads| > 0 && k.af == IPv4 && k.role == Seeder
    ensures Legal(s, run)
    ensures Final(s, run) == With(s, 0, PutBlock(s.redis, k, pk, 0).IncrBy(PeerCount(IPv4, Seeder), 1)
                                        .IncrBy(InfohashCount(IPv4), 1), Idle)
  {
    var p, i := Bump(PeerCount(IPv4, Seeder), 1), Bump(InfohashCount(IPv4), 1);
    var r1 := PutBlock(s.redis, k, pk, 0);
    var r2 := r1.IncrBy(p.c, 1);
    assert PutTodo(s.redis, k, pk) == [p, i];
    var s1, s2 := With(s, 0, r1, Client([p, i])), With(s, 0, r2, Client([i]));
    run := [];
    Extend(s, run, Move(0, DoPut(k, pk, 0)));
    run := run + [Move(0, DoPut(k, pk, 0))];
    assert Final(s, run) == s1;
    assert [p, i][1..] == [i];
    Extend(s, run, Move(0, DoBump));
    run := run + [Move(0, DoBump)];
    assert Final(s, run) == s2;
    Extend(s, run, Move(0, DoBump));
    run := run + [Move(0, DoBump)];
  }

  lemma Leave(s: State, k: SwarmKey, pk: PeerKey) returns (run: seq<Move>)
    requires |s.threads| > 0 && s.threads[0].Idle?
    requires k in s.redis.swarms && s.redis.swarms[k].Keys == {pk}
    ensures Legal(s, run)
    ensures Final(s, run) == With(s, 0, s.redis.Hdel(k, pk).IncrBy(PeerCount(k.af, k.role), -1), Idle)
    ensures k !in Final(s, run).redis.swarms
  {
    var d := Bump(PeerCount(k.af, k.role), -1);
    assert DeleteTodo(s.redis, k, pk) == [d];
    run := [];
    Extend(s, run, Move(0, DoDelete(k, pk)));
    run := run + [Move(0, DoDelete(k, pk))];
    assert Final(s, run) == With(s, 0, s.redis.Hdel(k, pk), Client([d]));
    Extend(s, run, Move(0, DoBump));
    run := run + [Move(0, DoBump)];
    assert s.redis.swarms[k] - {pk} == map[];
  }

  /** A peer that seeds and leaves: its swarm stays listed, empty, until the collector comes by. */
  lemma SeedAndLeave(s: State, k: SwarmKey, pk: PeerKey) returns (run: seq<Move>)
    requires Initial(s) && |s.threads| > 0 && k.af == IPv4 && k.role == Seeder
    ensures Legal(s, run) && Final(s, run).threads == s.threads && Final(s, run).blind == s.blind
    ensures k !in Final(s, run).redis.swarms
    ensures forall j :: j in Final(s, run).redis.Group(IPv4) <==> j == k
    ensures Final(s, run).redis.Count(InfohashCount(IPv4)) == 1
  {
    var a := Seed(s, k, pk);
    var s1 := Final(s, a);
    PutBlockGroups(s.redis, k, pk, 0, IPv4);
    FirstPut(k, pk, 0);
    var b := Leave(s1, k, pk);
    Concat(s, a, b);
    run := a + b;
    assert s.threads[0 := Idle] == s.threads;
    SameGroups(PutBlock(s.redis, k, pk, 0), Final(s1, b).redis);
  }

  lemma FirstPut(k: SwarmKey, pk: PeerKey, now: int)
    ensures Put(map[], k, pk, now) == map[k := map[pk := now]]
  {
    var h: Hash := map[];
    assert h[pk := now] == map[pk := now];
    assert pk in h[pk := now];
  }

  lemma FlattenOne(pk: PeerKey, mtime: int)
    ensures forall p :: p in [(pk, mtime)] <==> p in Flatten(map[pk := mtime])
  {
    var h := map[pk := mtime];
    forall p ensures p in [(pk, mtime)] <==> p in Flatten(h) {
      if p == (pk, mtime) { assert pk in h && p == (pk, h[pk]); }
    }
  }

  /** So the infohash counter really can go negative. */
  lemma InfohashCountCanGoNegative(s: State, k: SwarmKey, pk: PeerKey) returns (run: seq<Move>)
    requires Initial(s) && |s.threads| > 1 && k.af == IPv4 && k.role == Seeder
    ensures Legal(s, run)
    ensures Final(s, run).redis.Count(InfohashCount(IPv4)) == -1
  {
    var a := SeedAndLeave(s, k, pk);
    var b := TwoCollectorsGoBlind(Final(s, a), 0, 1, k);
    Concat(s, a, b);
    run := a + b;
  }

  /** A client can always send the commands it has still to send; they touch nothing but counters. */
  lemma {:induction false} Drain(s: State, tid: nat) returns (run: seq<Move>)
    requires tid < |s.threads| && (s.threads[tid].Idle? || (s.threads[tid].Client? && s.threads[tid].todo != []))
    ensures Legal(s, run)
    ensures Final(s, run).threads == s.threads[tid := Idle]
    ensures Final(s, run).redis.swarms == s.redis.swarms && Final(s, run).redis.groups == s.redis.groups
    decreases if s.threads[tid].Idle? then 0 else |s.threads[tid].todo|
  {
    run := [];
    if s.threads[tid].Idle? {
      assert s.threads[tid := Idle] == s.threads;
    } else {
      var m := Move(tid, DoBump);
      var s1 := Next(s, m);
      var rest := Drain(s1, tid);
      run := [m] + rest;
      assert run[1..] == rest;
      assert s1.threads[tid := Idle] == s.threads[tid := Idle];
    }
  }

  /** A collector reaches the one listed swarm of the database, of whichever family it is. */
  lemma CollectUpToKey(s: State, tid: nat, k: SwarmKey, cutoff: int)
      returns (run: seq<Move>, groups: seq<AddressFamily>)
    requires tid < |s.threads| && s.threads[tid].Idle?
    requires forall af, j :: j in s.redis.Group(af) <==> j == k && af == k.af
    ensures groups != []
    ensures Legal(s, run) && Final(s, run) == With(s, tid, s.redis, Collector(Gc(cutoff, groups, [k], AtKey)))
  {
    var start := Move(tid, StartGc(cutoff));
    Extend(s, [], start);
    run, groups := [start], [IPv4, IPv6];
    assert [] + [start] == run;
    if k.af == IPv6 {
      run := PassEmptyGroup(s, run, tid, cutoff);
      groups := [IPv6];
    }
    Extend(s, run, Move(tid, Hkeys([k])));
    run := run + [Move(tid, Hkeys([k]))];
  }

  lemma PassEmptyGroup(s: State, run: seq<Move>, tid: nat, cutoff: int) returns (longer: seq<Move>)
    requires tid < |s.threads| && Legal(s, run) && (forall j :: j !in s.redis.Group(IPv4))
    requires Final(s, run) == With(s, tid, s.redis, Collector(Gc(cutoff, [IPv4, IPv6], [], AtGroup)))
    ensures Legal(s, longer) && Final(s, longer) == With(s, tid, s.redis, Collector(Gc(cutoff, [IPv6], [], AtGroup)))
  {
    Extend(s, run, Move(tid, Hkeys([])));
    longer := run + [Move(tid, Hkeys([]))];
    assert Final(s, longer) == With(s, tid, s.redis, Collector(Gc(cutoff, [IPv4, IPv6], [], AtKey)));
    Extend(s, longer, Move(tid, NextGroup));
    longer := longer + [Move(tid, NextGroup)];
    assert [IPv4, IPv6][1..] == [IPv6];
  }

  /** The first put into an empty database, of any swarm, with its counters sent. */
  lemma PutFirst(s: State, k: SwarmKey, pk: PeerKey, mtime: int) returns (run: seq<Move>)
    requires Initial(s) && |s.threads| > 0
    ensures Legal(s, run) && Final(s, run).threads == s.threads
    ensures Final(s, run).redis.swarms == map[k := map[pk := mtime]]
    ensures forall af, j :: j in Final(s, run).redis.Group(af) <==> j == k && af == k.af
  {
    var put := Move(0, DoPut(k, pk, mtime));
    Extend(s, [], put);
    var s1 := Next(s, put);
    assert s1.redis == PutBlock(s.redis, k, pk, mtime);
    forall af ensures forall j :: j in s1.redis.Group(af) <==> j == k && af == k.af {
      PutBlockGroups(s.redis, k, pk, mtime, af);
    }
    FirstPut(k, pk, mtime);
    var rest := Drain(s1, 0);
    run := [put] + rest;
    assert run[1..] == rest;
    assert s1.threads[0 := Idle] == s.threads;
    forall af ensures Final(s, run).redis.Group(af) == s1.redis.Group(af) {
      SameGroups(s1.redis, Final(s, run).redis);
    }
  }

  /**
   From the empty database, with two threads: a peer is stored, a collector reads it as due, the peer
   announces again, and the collector deletes it with its new time.
   */
  lemma RefreshedPeerCanBeCollected(s: State, k: SwarmKey, pk: PeerKey, mtime: int, cutoff: int, now: int)
      returns (run: seq<Move>)
    requires Initial(s) && |s.threads| > 1 && mtime <= cutoff < now
    ensures Legal(s, run) && Enabled(Final(s, run), Move(1, ScanPair))
    ensures Final(s, run).threads[1].gc.cutoff == cutoff
    ensures Present(Final(s, run).redis.swarms, k, pk) && Final(s, run).redis.swarms[k][pk] == now
    ensures !Present(Next(Final(s, run), Move(1, ScanPair)).redis.swarms, k, pk)
  {
    var a := PutFirst(s, k, pk, mtime);
    var s1 := Final(s, a);
    var b, groups := CollectUpToKey(s1, 1, k, cutoff);
    Concat(s, a, b);
    var c := RefreshWhileScanning(Final(s1, b), 1, 0, k, pk, mtime, cutoff, now, groups);
    Concat(s, a + b, c);
    run := a + b + c;
  }

  lemma RefreshWhileScanning(s: State, t: nat, u: nat, k: SwarmKey, pk: PeerKey, mtime: int, cutoff: int, now: int,
                             groups: seq<AddressFamily>)
      returns (run: seq<Move>)
    requires t < |s.threads| && u < |s.threads| && t != u && s.threads[u].Idle? && groups != []
    requires s.threads[t] == Collector(Gc(cutoff, groups, [k], AtKey))
    requires k in s.redis.swarms && s.redis.swarms[k] == map[pk := mtime] && mtime <= cutoff < now
    ensures Legal(s, run) && Enabled(Final(s, run), Move(t, ScanPair)) && Final(s, run).threads[t].gc.cutoff == cutoff
    ensures Present(Final(s, run).redis.swarms, k, pk) && Final(s, run).redis.swarms[k][pk] == now
    ensures !Present(Next(Final(s, run), Move(t, ScanPair)).redis.swarms, k, pk)
  {
    var reply := [(pk, mtime)];
    FlattenOne(pk, mtime);
    run := [];
    Extend(s, run, Move(t, Hgetall(reply)));
    run := run + [Move(t, Hgetall(reply))];
    var s1 := With(s, t, s.redis, Collector(Gc(cutoff, groups, [k], Scanning(reply, 0))));
    assert Final(s, run) == s1;
    Extend(s, run, Move(u, DoPut(k, pk, now)));
    run := run + [Move(u, DoPut(k, pk, now))];
    TimeAfterPut(s.redis.swarms, k, pk, now, k, pk);
    TimeAfterRemove(Final(s, run).redis.swarms, k, pk, k, pk);
    NextSwarms(Final(s, run), Move(t, ScanPair));
  }
}
