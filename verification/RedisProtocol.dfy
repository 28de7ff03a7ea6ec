/**
 The Redis peer store as a concurrent protocol: any number of threads, each running store operations or
 garbage collections, interleave at the granularity of single Redis commands and MULTI/EXEC blocks.
 */
module RedisProtocol {
  import opened BitTorrent
  import opened PeerStoreSpec
  import opened PeerTotals
  import opened RedisCommands
  import PeerSelection

  /** An INCR or DECR a store operation still has to send after its MULTI/EXEC or HDEL. */
  datatype Bump = Bump(c: Counter, delta: int)

  /** Where a collector is within the swarm key `rest[0]` of the group `groups[0]`. */
  datatype Pc =
    | AtGroup                                              // before HKEYS of groups[0]
    | AtKey                                                // before HGETALL of rest[0]
    | Scanning(pairs: seq<(PeerKey, int)>, removed: nat)   // going through the HGETALL reply
    | AtWatch                                              // before WATCH of rest[0]
    | AtHlen(watched: nat)                                 // before HLEN of rest[0]
    | AtExec(watched: nat)                                 // saw an empty hash, before EXEC

  datatype Gc = Gc(cutoff: int, groups: seq<AddressFamily>, rest: seq<SwarmKey>, pc: Pc)

  datatype Thread = Idle | Client(todo: seq<Bump>) | Collector(gc: Gc)

  /**
   `blind` is a history variable the program does not have: per family, how many EXECs decremented the
   infohash counter for a seeder key that some other collector had already unlisted.
   */
  datatype State = State(redis: Redis, threads: seq<Thread>, blind: map<AddressFamily, nat>) {
    function Blind(af: AddressFamily): nat { if af in blind then blind[af] else 0 }
  }

  /** One command of one thread; arguments hold what the environment chooses. */
  datatype Action =
    | DoPut(k: SwarmKey, pk: PeerKey, now: int)
    | DoDelete(k: SwarmKey, pk: PeerKey)
    | DoGraduate(af: AddressFamily, ih: InfoHash, pk: PeerKey, now: int)
    | DoBump
    | StartGc(cutoff: int)
    | Hkeys(order: seq<SwarmKey>)
    | Hgetall(reply: seq<(PeerKey, int)>)
    | NextGroup
    | ScanPair
    | DecrBy
    | Watch
    | Hlen
    | Exec

  datatype Move = Move(tid: nat, action: Action)

  // ---------- store operations: the atomic block, and the counter commands it leaves to do ----------

  function BumpIf(cond: bool, c: Counter, delta: int): seq<Bump> {
    if cond then [Bump(c, delta)] else []
  }

  /** PutSeeder and PutLeecher: HSET and HSET in one EXEC. */
  function PutBlock(r: Redis, k: SwarmKey, pk: PeerKey, now: int): Redis {
    r.Hset(k, pk, now).List(k.af, k, now)
  }

  function PutTodo(r: Redis, k: SwarmKey, pk: PeerKey): seq<Bump> {
    BumpIf(!Present(r.swarms, k, pk), PeerCount(k.af, k.role), 1)
    + BumpIf(k.role == Seeder && k !in r.Group(k.af), InfohashCount(k.af), 1)
  }

  /** DeleteSeeder and DeleteLeecher: a single HDEL. */
  function DeleteTodo(r: Redis, k: SwarmKey, pk: PeerKey): seq<Bump> {
    BumpIf(Present(r.swarms, k, pk), PeerCount(k.af, k.role), -1)
  }

  /** GraduateLeecher: HDEL, HSET and HSET in one EXEC. */
  function GraduateBlock(r: Redis, af: AddressFamily, ih: InfoHash, pk: PeerKey, now: int): Redis {
    PutBlock(r.Hdel(SwarmKey(af, Leecher, ih), pk), SwarmKey(af, Seeder, ih), pk, now)
  }

  function GraduateTodo(r: Redis, af: AddressFamily, ih: InfoHash, pk: PeerKey): seq<Bump> {
    DeleteTodo(r, SwarmKey(af, Leecher, ih), pk) + PutTodo(r, SwarmKey(af, Seeder, ih), pk)
  }

  function AsClient(todo: seq<Bump>): Thread {
    if todo == [] then Idle else Client(todo)
  }

  // ---------- the collector ----------

  /** The counter DECRBY addresses, chosen by group and by position 5 of the key. */
  function ScannedCounter(gc: Gc): Counter
    requires gc.groups != [] && gc.rest != []
  {
    PeerCount(gc.groups[0], if IsSeederField(SwarmKeyName(gc.rest[0])) then Seeder else Leecher)
  }

  function NextKey(gc: Gc): Gc
    requires gc.rest != []
  {
    gc.(rest := gc.rest[1..], pc := AtKey)
  }

  function Flatten(h: Hash): set<(PeerKey, int)> {
    set pk | pk in h :: (pk, h[pk])
  }

  /** A collector that has gone through its groups is done. */
  function AsCollector(gc: Gc): Thread {
    if gc.groups == [] then Idle else Collector(gc)
  }

  // ---------- steps ----------

  ghost predicate Enabled(s: State, m: Move) {
    m.tid < |s.threads| &&
    var th := s.threads[m.tid];
    match m.action
    case DoPut(_, _, _) => th.Idle?
    case DoDelete(_, _) => th.Idle?
    case DoGraduate(_, _, _, _) => th.Idle?
    case StartGc(_) => th.Idle?
    case DoBump => th.Client? && th.todo != []
    case Hkeys(order) =>
      && th.Collector? && th.gc.pc == AtGroup && th.gc.groups != []
      && PeerSelection.Distinct(order) && (forall k :: k in order <==> k in s.redis.Group(th.gc.groups[0]))
    case Hgetall(reply) =>
      && OnKey(th) && th.gc.pc == AtKey
      && PeerSelection.Distinct(reply)
      && (forall p :: p in reply <==> p in Flatten(HashOf(s.redis.swarms, th.gc.rest[0])))
    case NextGroup => th.Collector? && th.gc.pc == AtKey && th.gc.groups != [] && th.gc.rest == []
    case ScanPair => OnKey(th) && th.gc.pc.Scanning? && th.gc.pc.pairs != []
    case DecrBy => OnKey(th) && th.gc.pc.Scanning? && th.gc.pc.pairs == []
    case Watch => OnKey(th) && th.gc.pc == AtWatch
    case Hlen => OnKey(th) && th.gc.pc.AtHlen?
    case Exec => OnKey(th) && th.gc.pc.AtExec?
  }

  predicate OnKey(th: Thread) {
    th.Collector? && th.gc.groups != [] && th.gc.rest != []
  }

  ghost function Next(s: State, m: Move): State
    requires Enabled(s, m)
  {
    var th := s.threads[m.tid];
    var r := s.redis;
    match m.action
    case DoPut(k, pk, now) => With(s, m.tid, PutBlock(r, k, pk, now), AsClient(PutTodo(r, k, pk)))
    case DoDelete(k, pk) => With(s, m.tid, r.Hdel(k, pk), AsClient(DeleteTodo(r, k, pk)))
    case DoGraduate(af, ih, pk, now) =>
      With(s, m.tid, GraduateBlock(r, af, ih, pk, now), AsClient(GraduateTodo(r, af, ih, pk)))
    case DoBump => With(s, m.tid, r.IncrBy(th.todo[0].c, th.todo[0].delta), AsClient(th.todo[1..]))
    case StartGc(cutoff) => With(s, m.tid, r, Collector(Gc(cutoff, [IPv4, IPv6], [], AtGroup)))
    case Hkeys(order) => With(s, m.tid, r, Collector(th.gc.(rest := order, pc := AtKey)))
    case Hgetall(reply) => With(s, m.tid, r, Collector(th.gc.(pc := Scanning(reply, 0))))
    case NextGroup => With(s, m.tid, r, AsCollector(th.gc.(groups := th.gc.groups[1..], pc := AtGroup)))
    case ScanPair => With(s, m.tid, ScanRedis(r, th.gc), Collector(ScanGc(r, th.gc)))
    case DecrBy => With(s, m.tid, DecrRedis(r, th.gc), Collector(th.gc.(pc := AtWatch)))
    case Watch => With(s, m.tid, r, Collector(th.gc.(pc := AtHlen(r.Version(th.gc.rest[0])))))
    case Hlen =>
      With(s, m.tid, r, Collector(
        if |HashOf(r.swarms, th.gc.rest[0])| == 0 then th.gc.(pc := AtExec(th.gc.pc.watched)) else NextKey(th.gc)))
    case Exec =>
      var s' := With(s, m.tid, ExecRedis(r, th.gc), Collector(NextKey(th.gc)));
      if BlindExec(r, th.gc) then s'.(blind := s.blind[th.gc.groups[0] := s.Blind(th.gc.groups[0]) + 1]) else s'
  }

  function With(s: State, tid: nat, r: Redis, th: Thread): State
    requires tid < |s.threads|
  {
    s.(redis := r, threads := s.threads[tid := th])
  }

  /** One (field, value) pair of the HGETALL reply: HDEL if the value is old. */
  function ScanRedis(r: Redis, gc: Gc): Redis
    requires gc.rest != [] && gc.pc.Scanning? && gc.pc.pairs != []
  {
    if gc.pc.pairs[0].1 <= gc.cutoff then r.Hdel(gc.rest[0], gc.pc.pairs[0].0) else r
  }

  function ScanGc(r: Redis, gc: Gc): Gc
    requires gc.rest != [] && gc.pc.Scanning? && gc.pc.pairs != []
  {
    var (pk, mtime) := gc.pc.pairs[0];
    var reply := if mtime <= gc.cutoff && Present(r.swarms, gc.rest[0], pk) then 1 else 0;
    gc.(pc := Scanning(gc.pc.pairs[1..], gc.pc.removed + reply))
  }

  function DecrRedis(r: Redis, gc: Gc): Redis
    requires gc.groups != [] && gc.rest != [] && gc.pc.Scanning?
  {
    if gc.pc.removed > 0 then r.IncrBy(ScannedCounter(gc), 0 - gc.pc.removed) else r
  }

  /** EXEC of HDEL and, for a seeder key, DECR; it does nothing if the watched hash was modified. */
  function ExecRedis(r: Redis, gc: Gc): Redis
    requires gc.groups != [] && gc.rest != [] && gc.pc.AtExec?
  {
    var k, af := gc.rest[0], gc.groups[0];
    if r.Version(k) != gc.pc.watched then r
    else if IsSeederField(SwarmKeyName(k)) then r.Unlist(af, k).IncrBy(InfohashCount(af), -1)
    else r.Unlist(af, k)
  }

  /** An EXEC that goes through although its key is no longer listed. */
  predicate BlindExec(r: Redis, gc: Gc)
    requires gc.groups != [] && gc.rest != [] && gc.pc.AtExec?
  {
    var k, af := gc.rest[0], gc.groups[0];
    r.Version(k) == gc.pc.watched && IsSeederField(SwarmKeyName(k)) && k !in r.Group(af)
  }

  // ---------- runs ----------

  ghost predicate Legal(s: State, run: seq<Move>)
    decreases |run|
  {
    run == [] || (Enabled(s, run[0]) && Legal(Next(s, run[0]), run[1..]))
  }

  ghost function Final(s: State, run: seq<Move>): State
    requires Legal(s, run)
    decreases |run|
  {
    if run == [] then s else Final(Next(s, run[0]), run[1..])
  }

  ghost predicate Quiet(s: State) {
    forall i :: 0 <= i < |s.threads| ==> s.threads[i].Idle?
  }

  /** No operation in flight, empty database, any number of threads. */
  ghost predicate Initial(s: State) {
    s.redis == EMPTY_REDIS && s.blind == map[] && Quiet(s)
  }

  // ---------- pending counter changes ----------

  function BumpSum(todo: seq<Bump>, c: Counter): int {
    if todo == [] then 0 else (if todo[0].c == c then todo[0].delta else 0) + BumpSum(todo[1..], c)
  }

  /** What a thread has still to add to a counter; a collector owes its running removedPeerCount. */
  function Pending(th: Thread, c: Counter): int {
    match th
    case Idle => 0
    case Client(todo) => BumpSum(todo, c)
    case Collector(gc) =>
      if gc.pc.Scanning? && OnKey(th) && c == ScannedCounter(gc) then 0 - gc.pc.removed else 0
  }

  function TotalPending(ths: seq<Thread>, c: Counter): int {
    if ths == [] then 0 else Pending(ths[0], c) + TotalPending(ths[1..], c)
  }

  lemma {:induction false} TotalPendingUpdate(ths: seq<Thread>, i: nat, th: Thread, c: Counter)
    requires i < |ths|
    ensures TotalPending(ths[i := th], c) == TotalPending(ths, c) - Pending(ths[i], c) + Pending(th, c)
  {
    if i == 0 {
      assert ths[0 := th][1..] == ths[1..];
    } else {
      assert ths[i := th][1..] == ths[1..][i - 1 := th];
      TotalPendingUpdate(ths[1..], i - 1, th, c);
    }
  }

  lemma {:induction false} QuietOwesNothing(ths: seq<Thread>, c: Counter)
    requires forall i :: 0 <= i < |ths| ==> ths[i].Idle?
    ensures TotalPending(ths, c) == 0
  {
    if ths != [] { QuietOwesNothing(ths[1..], c); }
  }

  lemma BumpSumAppend(a: seq<Bump>, b: seq<Bump>, c: Counter)
    ensures BumpSum(a + b, c) == BumpSum(a, c) + BumpSum(b, c)
  {
    if a == [] {
      assert a + b == b;
    } else {
      assert (a + b)[1..] == a[1..] + b;
    }
  }

  lemma TodoSums(r: Redis, k: SwarmKey, pk: PeerKey, c: Counter)
    ensures BumpSum(DeleteTodo(r, k, pk), c)
      == if Present(r.swarms, k, pk) && c == PeerCount(k.af, k.role) then -1 else 0
    ensures BumpSum(PutTodo(r, k, pk), c) ==
            if c == PeerCount(k.af, k.role) then NewField(Present(r.swarms, k, pk))
            else if k.role == Seeder && c == InfohashCount(k.af) then NewField(k in r.Group(k.af))
            else 0
  {
    BumpSumAppend(BumpIf(!Present(r.swarms, k, pk), PeerCount(k.af, k.role), 1),
                  BumpIf(k.role == Seeder && k !in r.Group(k.af), InfohashCount(k.af), 1), c);
  }

  // ---------- the invariant ----------

  /** A swarm with peers is listed where the collector looks for it. */
  ghost predicate LiveSwarmsListed(r: Redis) {
    forall k :: k in r.swarms ==> k in r.Group(k.af)
  }

  ghost predicate GroupsByFamily(r: Redis) {
    forall af, k :: k in r.Group(af) ==> k.af == af
  }

  /** A collector about to EXEC: either the watched hash has changed since, or it is still empty. */
  ghost predicate CollectorOk(r: Redis, gc: Gc) {
    && (forall k :: k in gc.rest ==> gc.groups != [] && k.af == gc.groups[0])
    && (gc.pc != AtGroup && gc.pc != AtKey ==> gc.groups != [] && gc.rest != [])
    && (gc.pc.AtHlen? ==> gc.pc.watched <= r.Version(gc.rest[0]))
    && (gc.pc.AtExec? ==>
          && gc.pc.watched <= r.Version(gc.rest[0])
          && (gc.pc.watched == r.Version(gc.rest[0]) ==> gc.rest[0] !in r.swarms))
  }

  ghost predicate RedisOk(r: Redis) {
    NoEmptySwarm(r.swarms) && LiveSwarmsListed(r) && GroupsByFamily(r)
  }

  ghost predicate Shape(s: State) {
    && RedisOk(s.redis)
    && (forall i :: 0 <= i < |s.threads| && s.threads[i].Collector? ==> CollectorOk(s.redis, s.threads[i].gc))
  }

  ghost predicate PeersBalanced(s: State) {
    forall af, role ::
      s.redis.Count(PeerCount(af, role)) + TotalPending(s.threads, PeerCount(af, role))
      == TotalSize(s.redis.swarms, af, role)
  }

  ghost predicate InfohashesBalanced(s: State) {
    forall af ::
      s.redis.Count(InfohashCount(af)) + TotalPending(s.threads, InfohashCount(af)) + s.Blind(af)
      == |ListedSeeders(s.redis.Group(af))|
  }

  ghost predicate Inv(s: State) {
    Shape(s) && PeersBalanced(s) && InfohashesBalanced(s)
  }

  // ---------- one step keeps it ----------

  /** What every command does to the modification counts. */
  ghost predicate Advances(r: Redis, r': Redis) {
    forall k ::
      && r.Version(k) <= r'.Version(k)
      && (k !in r.swarms && k in r'.swarms ==> r.Version(k) < r'.Version(k))
  }

  /** How far one thread and the database together are from a true counter. */
  ghost function PeerGap(r: Redis, th: Thread, af: AddressFamily, role: Role): int {
    r.Count(PeerCount(af, role)) + Pending(th, PeerCount(af, role)) - TotalSize(r.swarms, af, role)
  }

  ghost function InfohashGap(r: Redis, th: Thread, af: AddressFamily): int {
    r.Count(InfohashCount(af)) + Pending(th, InfohashCount(af)) - |ListedSeeders(r.Group(af))|
  }

  ghost predicate KeepsBalance(r: Redis, th: Thread, r': Redis, th': Thread) {
    && (forall af, role :: PeerGap(r', th', af, role) == PeerGap(r, th, af, role))
    && (forall af :: InfohashGap(r', th', af) == InfohashGap(r, th, af))
  }

  lemma StepBalances(s: State, s': State, tid: nat)
    requires Inv(s) && tid < |s.threads| && |s'.threads| == |s.threads|
    requires s'.threads == s.threads[tid := s'.threads[tid]]
    requires Advances(s.redis, s'.redis) && RedisOk(s'.redis)
    requires s'.threads[tid].Collector? ==> CollectorOk(s'.redis, s'.threads[tid].gc)
    requires forall af, role ::
      PeerGap(s'.redis, s'.threads[tid], af, role) == PeerGap(s.redis, s.threads[tid], af, role)
    requires forall af ::
      InfohashGap(s'.redis, s'.threads[tid], af) + s'.Blind(af)
      == InfohashGap(s.redis, s.threads[tid], af) + s.Blind(af)
    ensures Inv(s')
  {
    var r', th' := s'.redis, s'.threads[tid];
    forall i | 0 <= i < |s'.threads| && s'.threads[i].Collector?
      ensures CollectorOk(r', s'.threads[i].gc)
    {
      if i != tid { assert CollectorOk(s.redis, s.threads[i].gc); }
    }
    forall af, role
      ensures r'.Count(PeerCount(af, role)) + TotalPending(s'.threads, PeerCount(af, role))
           == TotalSize(r'.swarms, af, role)
    {
      TotalPendingUpdate(s.threads, tid, th', PeerCount(af, role));
      assert PeerGap(r', th', af, role) == PeerGap(s.redis, s.threads[tid], af, role);
    }
    forall af
      ensures r'.Count(InfohashCount(af)) + TotalPending(s'.threads, InfohashCount(af)) + s'.Blind(af)
           == |ListedSeeders(r'.Group(af))|
    {
      TotalPendingUpdate(s.threads, tid, th', InfohashCount(af));
      assert InfohashGap(r', th', af) + s'.Blind(af) == InfohashGap(s.redis, s.threads[tid], af) + s.Blind(af);
    }
  }

  lemma WithKeepsInv(s: State, tid: nat, r': Redis, th': Thread)
    requires Inv(s) && tid < |s.threads|
    requires Advances(s.redis, r') && RedisOk(r')
    requires th'.Collector? ==> CollectorOk(r', th'.gc)
    requires KeepsBalance(s.redis, s.threads[tid], r', th')
    ensures Inv(With(s, tid, r', th'))
  {
    StepBalances(s, With(s, tid, r', th'), tid);
  }

  /** Listing a key adds it to the seeder keys of its family and nothing else. */
  lemma ListedAfterList(r: Redis, k: SwarmKey, now: int, af: AddressFamily)
    ensures |ListedSeeders(r.List(k.af, k, now).Group(af))|
         == |ListedSeeders(r.Group(af))|
            + if af == k.af && k.role == Seeder && k !in r.Group(af) then 1 else 0
  {
    var g, g' := r.Group(af), r.List(k.af, k, now).Group(af);
    if af == k.af && k.role == Seeder && k !in g {
      assert ListedSeeders(g') == ListedSeeders(g) + {k};
    } else {
      assert ListedSeeders(g') == ListedSeeders(g);
    }
  }

  lemma ListedAfterUnlist(r: Redis, af: AddressFamily, k: SwarmKey, af': AddressFamily)
    ensures |ListedSeeders(r.Unlist(af, k).Group(af'))|
         == |ListedSeeders(r.Group(af'))|
            - if af == af' && k.role == Seeder && k in r.Group(af) then 1 else 0
  {
    var g, g' := r.Group(af'), r.Unlist(af, k).Group(af');
    if af == af' && k.role == Seeder && k in g {
      assert ListedSeeders(g) == ListedSeeders(g') + {k};
    } else {
      assert ListedSeeders(g') == ListedSeeders(g);
    }
  }

  /** What a command may do: leave the group hashes alone or list one key; touch the hash it writes. */
  ghost predicate TouchesOnly(r: Redis, r': Redis, k: SwarmKey) {
    && r'.Version(k) >= r.Version(k)
    && (k !in r.swarms && k in r'.swarms ==> r'.Version(k) > r.Version(k))
    && (forall k' :: k' != k ==> r'.Version(k') == r.Version(k') && (k' in r'.swarms <==> k' in r.swarms))
  }

  lemma PutBlockTouches(r: Redis, k: SwarmKey, pk: PeerKey, now: int)
    ensures TouchesOnly(r, PutBlock(r, k, pk, now), k)
    ensures k in PutBlock(r, k, pk, now).swarms
  {
    assert pk in HashOf(r.swarms, k)[pk := now];
  }

  lemma PutBlockGroups(r: Redis, k: SwarmKey, pk: PeerKey, now: int, af: AddressFamily)
    ensures PutBlock(r, k, pk, now).Group(af) == if af == k.af then r.Group(af)[k := now] else r.Group(af)
  {
  }

  lemma PutBlockOk(r: Redis, k: SwarmKey, pk: PeerKey, now: int)
    requires RedisOk(r)
    ensures Advances(r, PutBlock(r, k, pk, now)) && RedisOk(PutBlock(r, k, pk, now))
  {
    var r' := PutBlock(r, k, pk, now);
    PutBlockTouches(r, k, pk, now);
    forall af, k' ensures k' in r'.Group(af) <==> k' in r.Group(af) || (k' == k && af == k.af) {
      PutBlockGroups(r, k, pk, now, af);
    }
  }

  lemma PutBlockBalance(r: Redis, k: SwarmKey, pk: PeerKey, now: int)
    ensures KeepsBalance(r, Idle, PutBlock(r, k, pk, now), Client(PutTodo(r, k, pk)))
  {
    var r', th' := PutBlock(r, k, pk, now), Client(PutTodo(r, k, pk));
    forall af, role ensures PeerGap(r', th', af, role) == PeerGap(r, Idle, af, role) {
      TotalSizePut(r.swarms, k, pk, now, af, role);
      TodoSums(r, k, pk, PeerCount(af, role));
    }
    forall af ensures InfohashGap(r', th', af) == InfohashGap(r, Idle, af) {
      ListedAfterList(r.Hset(k, pk, now), k, now, af);
      TodoSums(r, k, pk, InfohashCount(af));
    }
  }

  lemma HdelOk(r: Redis, k: SwarmKey, pk: PeerKey)
    requires RedisOk(r)
    ensures Advances(r, r.Hdel(k, pk)) && RedisOk(r.Hdel(k, pk))
  {
    var r' := r.Hdel(k, pk);
    assert TouchesOnly(r, r', k);
    SameGroups(r, r');
  }

  lemma SameGroups(r: Redis, r': Redis)
    requires r'.groups == r.groups
    ensures forall af :: r'.Group(af) == r.Group(af)
    ensures GroupsByFamily(r) ==> GroupsByFamily(r')
  {
    forall af, k | GroupsByFamily(r) && k in r'.Group(af) ensures k.af == af {
      assert k in r.Group(af);
    }
  }

  lemma HdelBalance(r: Redis, k: SwarmKey, pk: PeerKey)
    ensures KeepsBalance(r, Idle, r.Hdel(k, pk), Client(DeleteTodo(r, k, pk)))
  {
    var r', th' := r.Hdel(k, pk), Client(DeleteTodo(r, k, pk));
    forall af, role ensures PeerGap(r', th', af, role) == PeerGap(r, Idle, af, role) {
      TotalSizeRemove(r.swarms, k, pk, af, role);
      TodoSums(r, k, pk, PeerCount(af, role));
    }
    forall af ensures InfohashGap(r', th', af) == InfohashGap(r, Idle, af) {
      TodoSums(r, k, pk, InfohashCount(af));
    }
  }

  lemma AsClientOwes(todo: seq<Bump>, c: Counter)
    ensures Pending(AsClient(todo), c) == BumpSum(todo, c)
  {
  }

  lemma DoneBalance(r: Redis, th: Thread, r': Redis, todo: seq<Bump>)
    requires KeepsBalance(r, th, r', Client(todo))
    ensures KeepsBalance(r, th, r', AsClient(todo))
  {
    forall af, role ensures PeerGap(r', AsClient(todo), af, role) == PeerGap(r, th, af, role) {
      AsClientOwes(todo, PeerCount(af, role));
      assert PeerGap(r', Client(todo), af, role) == PeerGap(r, th, af, role);
    }
    forall af ensures InfohashGap(r', AsClient(todo), af) == InfohashGap(r, th, af) {
      AsClientOwes(todo, InfohashCount(af));
      assert InfohashGap(r', Client(todo), af) == InfohashGap(r, th, af);
    }
  }

  /** Blocks compose: what each leaves to do can be done at the end. */
  lemma BalanceComposes(r: Redis, r1: Redis, r2: Redis, a: seq<Bump>, b: seq<Bump>)
    requires KeepsBalance(r, Idle, r1, Client(a)) && KeepsBalance(r1, Idle, r2, Client(b))
    ensures KeepsBalance(r, Idle, r2, Client(a + b))
  {
    forall af, role ensures PeerGap(r2, Client(a + b), af, role) == PeerGap(r, Idle, af, role) {
      BumpSumAppend(a, b, PeerCount(af, role));
      assert PeerGap(r1, Client(a), af, role) == PeerGap(r, Idle, af, role);
      assert PeerGap(r2, Client(b), af, role) == PeerGap(r1, Idle, af, role);
    }
    forall af ensures InfohashGap(r2, Client(a + b), af) == InfohashGap(r, Idle, af) {
      BumpSumAppend(a, b, InfohashCount(af));
      assert InfohashGap(r1, Client(a), af) == InfohashGap(r, Idle, af);
      assert InfohashGap(r2, Client(b), af) == InfohashGap(r1, Idle, af);
    }
  }

  lemma GraduateStep(r: Redis, af: AddressFamily, ih: InfoHash, pk: PeerKey, now: int)
    requires RedisOk(r)
    ensures Advances(r, GraduateBlock(r, af, ih, pk, now)) && RedisOk(GraduateBlock(r, af, ih, pk, now))
    ensures KeepsBalance(r, Idle, GraduateBlock(r, af, ih, pk, now), AsClient(GraduateTodo(r, af, ih, pk)))
  {
    var l, k := SwarmKey(af, Leecher, ih), SwarmKey(af, Seeder, ih);
    var r1, r2 := r.Hdel(l, pk), GraduateBlock(r, af, ih, pk, now);
    HdelOk(r, l, pk);
    HdelBalance(r, l, pk);
    PutBlockOk(r1, k, pk, now);
    PutBlockBalance(r1, k, pk, now);
    assert PutTodo(r1, k, pk) == PutTodo(r, k, pk);
    BalanceComposes(r, r1, r2, DeleteTodo(r, l, pk), PutTodo(r, k, pk));
    DoneBalance(r, Idle, r2, GraduateTodo(r, af, ih, pk));
    AdvancesComposes(r, r1, r2);
  }

  lemma AdvancesComposes(r: Redis, r1: Redis, r2: Redis)
    requires Advances(r, r1) && Advances(r1, r2)
    ensures Advances(r, r2)
  {
    forall k ensures r.Version(k) <= r2.Version(k)
      && (k !in r.swarms && k in r2.swarms ==> r.Version(k) < r2.Version(k))
    {
      assert r.Version(k) <= r1.Version(k) <= r2.Version(k);
    }
  }

  lemma BumpKeepsInv(s: State, tid: nat)
    requires Inv(s) && Enabled(s, Move(tid, DoBump))
    ensures Inv(Next(s, Move(tid, DoBump)))
  {
    var todo := s.threads[tid].todo;
    var r' := s.redis.IncrBy(todo[0].c, todo[0].delta);
    SameGroups(s.redis, r');
    forall af, role ensures PeerGap(r', Client(todo[1..]), af, role) == PeerGap(s.redis, Client(todo), af, role) {}
    forall af ensures InfohashGap(r', Client(todo[1..]), af) == InfohashGap(s.redis, Client(todo), af) {}
    DoneBalance(s.redis, Client(todo), r', todo[1..]);
    WithKeepsInv(s, tid, r', AsClient(todo[1..]));
  }

  lemma IncrByOk(r: Redis, c: Counter, delta: int)
    requires RedisOk(r)
    ensures Advances(r, r.IncrBy(c, delta)) && RedisOk(r.IncrBy(c, delta))
  {
    SameGroups(r, r.IncrBy(c, delta));
  }

  lemma UnlistOk(r: Redis, af: AddressFamily, k: SwarmKey)
    requires RedisOk(r) && k !in r.swarms
    ensures Advances(r, r.Unlist(af, k)) && RedisOk(r.Unlist(af, k))
  {
    UnlistGroups(r, af, k);
  }

  lemma UnlistGroups(r: Redis, af: AddressFamily, k: SwarmKey)
    ensures forall a, j :: j in r.Unlist(af, k).Group(a) <==> j in r.Group(a) && !(a == af && j == k)
  {
  }

  lemma ScanStep(r: Redis, gc: Gc)
    requires RedisOk(r) && CollectorOk(r, gc) && gc.pc.Scanning? && gc.pc.pairs != []
    ensures Advances(r, ScanRedis(r, gc)) && RedisOk(ScanRedis(r, gc)) && CollectorOk(ScanRedis(r, gc), ScanGc(r, gc))
    ensures KeepsBalance(r, Collector(gc), ScanRedis(r, gc), Collector(ScanGc(r, gc)))
  {
    HdelOk(r, gc.rest[0], gc.pc.pairs[0].0);
    var r', gc' := ScanRedis(r, gc), ScanGc(r, gc);
    forall af, role ensures PeerGap(r', Collector(gc'), af, role) == PeerGap(r, Collector(gc), af, role) {
      ScanOwes(r, gc, PeerCount(af, role));
      TotalSizeRemove(r.swarms, gc.rest[0], gc.pc.pairs[0].0, af, role);
    }
    forall af ensures InfohashGap(r', Collector(gc'), af) == InfohashGap(r, Collector(gc), af) {
      ScanOwes(r, gc, InfohashCount(af));
    }
  }

  lemma ScanOwes(r: Redis, gc: Gc, c: Counter)
    requires CollectorOk(r, gc) && gc.pc.Scanning? && gc.pc.pairs != []
    ensures var k := gc.rest[0];
      Pending(Collector(ScanGc(r, gc)), c) == Pending(Collector(gc), c)
        - if c == PeerCount(k.af, k.role) && gc.pc.pairs[0].1 <= gc.cutoff && Present(r.swarms, k, gc.pc.pairs[0].0)
          then 1 else 0
  {
    var gc' := ScanGc(r, gc);
    OnSwarmRole(r, gc);
    assert ScannedCounter(gc') == ScannedCounter(gc);
  }

  lemma OnSwarmRole(r: Redis, gc: Gc)
    requires CollectorOk(r, gc) && gc.rest != []
    ensures gc.groups != [] && gc.groups[0] == gc.rest[0].af
    ensures ScannedCounter(gc) == PeerCount(gc.rest[0].af, gc.rest[0].role)
    ensures IsSeederField(SwarmKeyName(gc.rest[0])) <==> gc.rest[0].role == Seeder
  {
    assert gc.rest[0] in gc.rest;
    SeederFieldByPosition(gc.rest[0]);
  }

  lemma DecrStep(r: Redis, gc: Gc)
    requires RedisOk(r) && CollectorOk(r, gc) && gc.pc.Scanning?
    ensures Advances(r, DecrRedis(r, gc)) && RedisOk(DecrRedis(r, gc))
    ensures CollectorOk(DecrRedis(r, gc), gc.(pc := AtWatch))
    ensures KeepsBalance(r, Collector(gc), DecrRedis(r, gc), Collector(gc.(pc := AtWatch)))
  {
    var c := ScannedCounter(gc);
    IncrByOk(r, c, 0 - gc.pc.removed);
    var r', gc' := DecrRedis(r, gc), gc.(pc := AtWatch);
    forall af, role ensures PeerGap(r', Collector(gc'), af, role) == PeerGap(r, Collector(gc), af, role) {}
    forall af ensures InfohashGap(r', Collector(gc'), af) == InfohashGap(r, Collector(gc), af) {}
  }

  /** EXEC goes through only while the hash is still empty, so unlisting its key hides no peer. */
  lemma ExecStep(r: Redis, gc: Gc)
    requires RedisOk(r) && CollectorOk(r, gc) && gc.pc.AtExec?
    ensures Advances(r, ExecRedis(r, gc)) && RedisOk(ExecRedis(r, gc)) && CollectorOk(ExecRedis(r, gc), NextKey(gc))
  {
    var k, af := gc.rest[0], gc.groups[0];
    if r.Version(k) == gc.pc.watched {
      UnlistOk(r, af, k);
      IncrByOk(r.Unlist(af, k), InfohashCount(af), -1);
      AdvancesComposes(r, r.Unlist(af, k), r.Unlist(af, k).IncrBy(InfohashCount(af), -1));
    }
  }

  lemma ExecPeerGaps(r: Redis, gc: Gc, af: AddressFamily, role: Role)
    requires CollectorOk(r, gc) && gc.pc.AtExec?
    ensures PeerGap(ExecRedis(r, gc), Collector(NextKey(gc)), af, role) == PeerGap(r, Collector(gc), af, role)
  {
  }

  lemma ExecInfohashGap(r: Redis, gc: Gc, af: AddressFamily)
    requires CollectorOk(r, gc) && gc.pc.AtExec?
    ensures
      InfohashGap(ExecRedis(r, gc), Collector(NextKey(gc)), af)
      == InfohashGap(r, Collector(gc), af) - if BlindExec(r, gc) && af == gc.groups[0] then 1 else 0
  {
    OnSwarmRole(r, gc);
    ListedAfterUnlist(r, gc.groups[0], gc.rest[0], af);
  }

  lemma ExecEffect(s: State, tid: nat)
    requires Enabled(s, Move(tid, Exec))
    ensures var s', gc := Next(s, Move(tid, Exec)), s.threads[tid].gc;
      && s'.redis == ExecRedis(s.redis, gc)
      && s'.threads == s.threads[tid := Collector(NextKey(gc))]
      && forall af :: s'.Blind(af) == s.Blind(af) + if BlindExec(s.redis, gc) && af == gc.groups[0] then 1 else 0
  {
  }

  lemma ExecKeepsInv(s: State, tid: nat)
    requires Inv(s) && Enabled(s, Move(tid, Exec))
    ensures Inv(Next(s, Move(tid, Exec)))
  {
    var gc, s' := s.threads[tid].gc, Next(s, Move(tid, Exec));
    ExecEffect(s, tid);
    assert CollectorOk(s.redis, gc);
    ExecStep(s.redis, gc);
    forall af, role
      ensures PeerGap(s'.redis, s'.threads[tid], af, role) == PeerGap(s.redis, s.threads[tid], af, role)
    {
      ExecPeerGaps(s.redis, gc, af, role);
    }
    forall af
      ensures InfohashGap(s'.redis, s'.threads[tid], af) + s'.Blind(af)
           == InfohashGap(s.redis, s.threads[tid], af) + s.Blind(af)
    {
      ExecInfohashGap(s.redis, gc, af);
    }
    StepBalances(s, s', tid);
  }

  lemma SameDebtBalance(r: Redis, th: Thread, th': Thread)
    requires forall c :: Pending(th', c) == Pending(th, c)
    ensures KeepsBalance(r, th, r, th')
  {
  }

  /** The commands that only read. */
  lemma ReadKeepsInv(s: State, m: Move)
    requires Inv(s) && Enabled(s, m)
    requires || m.action.StartGc? || m.action.Hkeys? || m.action.Hgetall?
             || m.action.NextGroup? || m.action.Watch? || m.action.Hlen?
    ensures Inv(Next(s, m))
  {
    var th, th' := s.threads[m.tid], Next(s, m).threads[m.tid];
    SameDebtBalance(s.redis, th, th');
    ReadsAreOk(s, m);
    WithKeepsInv(s, m.tid, s.redis, th');
  }

  lemma ReadsAreOk(s: State, m: Move)
    requires Shape(s) && Enabled(s, m)
    requires || m.action.StartGc? || m.action.Hkeys? || m.action.Hgetall?
             || m.action.NextGroup? || m.action.Watch? || m.action.Hlen?
    ensures var th' := Next(s, m).threads[m.tid]; th'.Collector? ==> CollectorOk(s.redis, th'.gc)
  {
    var th := s.threads[m.tid];
    if th.Collector? { assert CollectorOk(s.redis, th.gc); }
  }

  lemma StepKeepsInv(s: State, m: Move)
    requires Inv(s) && Enabled(s, m)
    ensures Inv(Next(s, m))
  {
    match m.action
    case DoPut(k, pk, now) =>
      PutBlockOk(s.redis, k, pk, now);
      PutBlockBalance(s.redis, k, pk, now);
      DoneBalance(s.redis, Idle, PutBlock(s.redis, k, pk, now), PutTodo(s.redis, k, pk));
      WithKeepsInv(s, m.tid, PutBlock(s.redis, k, pk, now), AsClient(PutTodo(s.redis, k, pk)));
    case DoDelete(k, pk) =>
      HdelOk(s.redis, k, pk);
      HdelBalance(s.redis, k, pk);
      DoneBalance(s.redis, Idle, s.redis.Hdel(k, pk), DeleteTodo(s.redis, k, pk));
      WithKeepsInv(s, m.tid, s.redis.Hdel(k, pk), AsClient(DeleteTodo(s.redis, k, pk)));
    case DoGraduate(af, ih, pk, now) =>
      GraduateStep(s.redis, af, ih, pk, now);
      WithKeepsInv(s, m.tid, GraduateBlock(s.redis, af, ih, pk, now), AsClient(GraduateTodo(s.redis, af, ih, pk)));
    case DoBump => BumpKeepsInv(s, m.tid);
    case ScanPair =>
      var gc := s.threads[m.tid].gc;
      ScanStep(s.redis, gc);
      WithKeepsInv(s, m.tid, ScanRedis(s.redis, gc), Collector(ScanGc(s.redis, gc)));
    case DecrBy =>
      var gc := s.threads[m.tid].gc;
      DecrStep(s.redis, gc);
      WithKeepsInv(s, m.tid, DecrRedis(s.redis, gc), Collector(gc.(pc := AtWatch)));
    case Exec => ExecKeepsInv(s, m.tid);
    case _ => ReadKeepsInv(s, m);
  }

  // ---------- whole runs ----------

  lemma InitialInv(s: State)
    requires Initial(s)
    ensures Inv(s)
  {
    forall c ensures TotalPending(s.threads, c) == 0 { QuietOwesNothing(s.threads, c); }
    assert forall af :: ListedSeeders(s.redis.Group(af)) == {};
  }

  /** The invariant holds in every reachable state of every interleaving. */
  lemma {:induction false} RunKeepsInv(s: State, run: seq<Move>)
    requires Inv(s) && Legal(s, run)
    ensures Inv(Final(s, run))
    decreases |run|
  {
    if run != [] {
      StepKeepsInv(s, run[0]);
      RunKeepsInv(Next(s, run[0]), run[1..]);
    }
  }

  /** No interleaving hides a swarm that has peers from the collector. */
  lemma LiveSwarmsStayListed(s: State, run: seq<Move>, k: SwarmKey)
    requires Initial(s) && Legal(s, run)
    requires HashOf(Final(s, run).redis.swarms, k) != map[]
    ensures k in Final(s, run).redis.Group(k.af)
  {
    InitialInv(s);
    RunKeepsInv(s, run);
  }

  /** In every reachable state the peer counters are off by exactly the commands still in flight. */
  lemma PeerCountersBalance(s: State, run: seq<Move>, af: AddressFamily, role: Role)
    requires Initial(s) && Legal(s, run)
    ensures var t := Final(s, run);
      && t.redis.Count(PeerCount(af, role)) + TotalPending(t.threads, PeerCount(af, role))
         == |PeersIn(t.redis.swarms, af, role)|
      && (Quiet(t) ==> t.redis.Count(PeerCount(af, role)) == |PeersIn(t.redis.swarms, af, role)|)
  {
    InitialInv(s);
    RunKeepsInv(s, run);
    TotalSizeCounts(Final(s, run).redis.swarms, af, role);
    if Quiet(Final(s, run)) { QuietOwesNothing(Final(s, run).threads, PeerCount(af, role)); }
  }

  /** With any number of collectors, the infohash counter drifts by exactly the blind EXECs. */
  lemma InfohashCounterDrift(s: State, run: seq<Move>, af: AddressFamily)
    requires Initial(s) && Legal(s, run)
    ensures var t := Final(s, run);
      && t.redis.Count(InfohashCount(af)) + TotalPending(t.threads, InfohashCount(af)) + t.Blind(af)
         == |ListedSeeders(t.redis.Group(af))|
      && (Quiet(t) ==> (t.redis.Count(InfohashCount(af)) == |ListedSeeders(t.redis.Group(af))| <==> t.Blind(af) == 0))
  {
    InitialInv(s);
    RunKeepsInv(s, run);
    if Quiet(Final(s, run)) { QuietOwesNothing(Final(s, run).threads, InfohashCount(af)); }
  }

  // ---------- a single collector ----------

  ghost predicate AtMostOneCollector(s: State) {
    forall i, j :: 0 <= i < j < |s.threads| ==> !(s.threads[i].Collector? && s.threads[j].Collector?)
  }

  ghost predicate OneCollectorThroughout(s: State, run: seq<Move>)
    requires Legal(s, run)
    decreases |run|
  {
    AtMostOneCollector(s) && (run == [] || OneCollectorThroughout(Next(s, run[0]), run[1..]))
  }

  /** A lone collector's remaining keys are distinct and all still listed. */
  ghost predicate KeysStillListed(s: State) {
    forall i :: 0 <= i < |s.threads| && s.threads[i].Collector? ==>
      var gc := s.threads[i].gc;
      && PeerSelection.Distinct(gc.rest)
      && forall k :: k in gc.rest ==> gc.groups != [] && k in s.redis.Group(gc.groups[0])
  }

  /** Only EXEC takes keys off a family hash, and only its own collector's current key. */
  lemma GroupsOnlyGrow(s: State, m: Move, af: AddressFamily, k: SwarmKey)
    requires Enabled(s, m) && k in s.redis.Group(af)
    ensures k in Next(s, m).redis.Group(af)
         || (m.action.Exec? && s.threads[m.tid].gc.groups[0] == af && s.threads[m.tid].gc.rest[0] == k)
  {
    match m.action
    case DoPut(j, pk, now) => PutBlockGroups(s.redis, j, pk, now, af);
    case DoDelete(j, pk) => SameGroups(s.redis, s.redis.Hdel(j, pk));
    case DoGraduate(f, ih, pk, now) =>
      SameGroups(s.redis, s.redis.Hdel(SwarmKey(f, Leecher, ih), pk));
      PutBlockGroups(s.redis.Hdel(SwarmKey(f, Leecher, ih), pk), SwarmKey(f, Seeder, ih), pk, now, af);
    case Exec =>
      var gc := s.threads[m.tid].gc;
      ExecEffect(s, m.tid);
      UnlistGroups(s.redis, gc.groups[0], gc.rest[0]);
      SameGroups(s.redis.Unlist(gc.groups[0], gc.rest[0]),
                 s.redis.Unlist(gc.groups[0], gc.rest[0]).IncrBy(InfohashCount(gc.groups[0]), -1));
    case _ => SameGroups(s.redis, Next(s, m).redis);
  }

  lemma AloneKeepsListed(s: State, m: Move)
    requires Enabled(s, m) && KeysStillListed(s)
    requires AtMostOneCollector(s) && AtMostOneCollector(Next(s, m))
    ensures KeysStillListed(Next(s, m))
  {
    var s' := Next(s, m);
    forall i | 0 <= i < |s'.threads| && s'.threads[i].Collector?
      ensures PeerSelection.Distinct(s'.threads[i].gc.rest)
      ensures forall k :: k in s'.threads[i].gc.rest ==>
        s'.threads[i].gc.groups != [] && k in s'.redis.Group(s'.threads[i].gc.groups[0])
    {
      var gc' := s'.threads[i].gc;
      if m.action.Hkeys? && i == m.tid {
      } else if m.action.StartGc? && i == m.tid {
      } else {
        var gc := s.threads[i].gc;
        forall k | k in gc'.rest ensures gc'.groups != [] && k in s'.redis.Group(gc'.groups[0]) {
          assert k in gc.rest && gc'.groups == gc.groups;
          GroupsOnlyGrow(s, m, gc.groups[0], k);
        }
      }
    }
  }

  lemma AloneIsNeverBlind(s: State, m: Move)
    requires Enabled(s, m) && KeysStillListed(s)
    ensures Next(s, m).blind == s.blind
  {
    if m.action.Exec? {
      assert s.threads[m.tid].gc.rest[0] in s.threads[m.tid].gc.rest;
    }
  }

  lemma {:induction false} AloneRunIsNeverBlind(s: State, run: seq<Move>)
    requires Legal(s, run) && KeysStillListed(s) && OneCollectorThroughout(s, run)
    ensures Final(s, run).blind == s.blind
    decreases |run|
  {
    if run != [] {
      AloneKeepsListed(s, run[0]);
      AloneIsNeverBlind(s, run[0]);
      AloneRunIsNeverBlind(Next(s, run[0]), run[1..]);
    }
  }

  /** With never more than one collector at a time, the infohash counter is exact up to pending INCRs. */
  lemma LoneCollectorKeepsInfohashCount(s: State, run: seq<Move>, af: AddressFamily)
    requires Initial(s) && Legal(s, run) && OneCollectorThroughout(s, run)
    ensures var t := Final(s, run);
      t.redis.Count(InfohashCount(af)) + TotalPending(t.threads, InfohashCount(af))
      == |ListedSeeders(t.redis.Group(af))|
  {
    AloneRunIsNeverBlind(s, run);
    InfohashCounterDrift(s, run, af);
  }

  // ---------- where a stored time comes from ----------

  /** The time an action stamps on a peer, if it writes that peer. */
  function Written(a: Action, k: SwarmKey, pk: PeerKey): Option<int> {
    match a
    case DoPut(k', pk', now) => if k' == k && pk' == pk then Some(now) else None
    case DoGraduate(af, ih, pk', now) => if k == SwarmKey(af, Seeder, ih) && pk' == pk then Some(now) else None
    case _ => None
  }

  /** The time of the last write of a peer in a run, if the run has one. */
  function LastWrite(run: seq<Move>, k: SwarmKey, pk: PeerKey): Option<int>
    decreases |run|
  {
    if run == [] then None
    else
      var later := LastWrite(run[1..], k, pk);
      if later.Some? then later else Written(run[0].action, k, pk)
  }

  /** What a command does to the swarm hashes. */
  ghost function SwarmsAfter(s: Swarms, th: Thread, a: Action): Swarms {
    match a
    case DoPut(k, pk, now) => Put(s, k, pk, now)
    case DoDelete(k, pk) => if Present(s, k, pk) then Remove(s, k, pk) else s
    case DoGraduate(af, ih, pk, now) =>
      var l := SwarmKey(af, Leecher, ih);
      Put(if Present(s, l, pk) then Remove(s, l, pk) else s, SwarmKey(af, Seeder, ih), pk, now)
    case ScanPair =>
      if OnKey(th) && th.gc.pc.Scanning? && th.gc.pc.pairs != [] && th.gc.pc.pairs[0].1 <= th.gc.cutoff
         && Present(s, th.gc.rest[0], th.gc.pc.pairs[0].0)
      then Remove(s, th.gc.rest[0], th.gc.pc.pairs[0].0) else s
    case _ => s
  }

  lemma NextSwarms(s: State, m: Move)
    requires Enabled(s, m)
    ensures Next(s, m).redis.swarms == SwarmsAfter(s.redis.swarms, s.threads[m.tid], m.action)
  {
    match m.action
    case Exec => ExecEffect(s, m.tid);
    case _ =>
  }

  lemma StepTime(s: Swarms, th: Thread, a: Action, k: SwarmKey, pk: PeerKey)
    requires Present(SwarmsAfter(s, th, a), k, pk)
    ensures match Written(a, k, pk)
      case Some(now) => SwarmsAfter(s, th, a)[k][pk] == now
      case None => Present(s, k, pk) && SwarmsAfter(s, th, a)[k][pk] == s[k][pk]
  {
    match a
    case DoPut(j, p, now) => TimeAfterPut(s, j, p, now, k, pk);
    case DoDelete(j, p) => TimeAfterRemove(s, j, p, k, pk);
    case DoGraduate(af, ih, p, now) =>
      var l := SwarmKey(af, Leecher, ih);
      TimeAfterPut(if Present(s, l, p) then Remove(s, l, p) else s, SwarmKey(af, Seeder, ih), p, now, k, pk);
      TimeAfterRemove(s, l, p, k, pk);
    case ScanPair =>
      if OnKey(th) && th.gc.pc.Scanning? && th.gc.pc.pairs != [] {
        TimeAfterRemove(s, th.gc.rest[0], th.gc.pc.pairs[0].0, k, pk);
      }
    case _ =>
  }

  lemma {:induction false} RunTime(s: State, run: seq<Move>, k: SwarmKey, pk: PeerKey)
    requires Legal(s, run) && Present(Final(s, run).redis.swarms, k, pk)
    ensures match LastWrite(run, k, pk)
      case Some(now) => Final(s, run).redis.swarms[k][pk] == now
      case None => Present(s.redis.swarms, k, pk) && Final(s, run).redis.swarms[k][pk] == s.redis.swarms[k][pk]
    decreases |run|
  {
    if run != [] {
      RunTime(Next(s, run[0]), run[1..], k, pk);
      if LastWrite(run[1..], k, pk).None? {
        NextSwarms(s, run[0]);
        StepTime(s.redis.swarms, s.threads[run[0].tid], run[0].action, k, pk);
      }
    }
  }

  /** The thread sends no HGETALL in the run. */
  predicate NoHgetall(run: seq<Move>, tid: nat) {
    forall i :: 0 <= i < |run| && run[i].tid == tid ==> !run[i].action.Hgetall?
  }

  /** If the thread is going through an HGETALL reply, it is this one. */
  ghost predicate ScansOnly(th: Thread, k: SwarmKey, cutoff: int, reply: seq<(PeerKey, int)>) {
    th.Collector? && th.gc.pc.Scanning? ==>
      OnKey(th) && th.gc.rest[0] == k && th.gc.cutoff == cutoff && forall p :: p in th.gc.pc.pairs ==> p in reply
  }

  lemma StepScansOnly(s: State, m: Move, tid: nat, k: SwarmKey, cutoff: int, reply: seq<(PeerKey, int)>)
    requires Enabled(s, m) && tid < |s.threads| && ScansOnly(s.threads[tid], k, cutoff, reply)
    requires m.tid == tid ==> !m.action.Hgetall?
    ensures ScansOnly(Next(s, m).threads[tid], k, cutoff, reply)
  {
    if m.tid == tid {
      match m.action
      case ScanPair =>
        var pairs := s.threads[tid].gc.pc.pairs;
        assert forall p :: p in pairs[1..] ==> p in pairs;
      case Exec => ExecEffect(s, tid);
      case _ =>
    }
  }

  lemma {:induction false} RunScansOnly(s: State, run: seq<Move>, tid: nat, k: SwarmKey, cutoff: int,
                                        reply: seq<(PeerKey, int)>)
    requires Legal(s, run) && NoHgetall(run, tid) && tid < |s.threads| && ScansOnly(s.threads[tid], k, cutoff, reply)
    ensures tid < |Final(s, run).threads| && ScansOnly(Final(s, run).threads[tid], k, cutoff, reply)
    decreases |run|
  {
    if run != [] {
      StepScansOnly(s, run[0], tid, k, cutoff, reply);
      RunScansOnly(Next(s, run[0]), run[1..], tid, k, cutoff, reply);
    }
  }

  /** A pair of a reply that a collector is still going through was stored when the reply was taken. */
  lemma PairWasStored(s: State, run: seq<Move>, tid: nat, reply: seq<(PeerKey, int)>)
    requires Legal(s, run) && run != [] && run[0] == Move(tid, Hgetall(reply)) && NoHgetall(run[1..], tid)
    requires Enabled(Final(s, run), Move(tid, ScanPair))
    ensures var gc := Final(s, run).threads[tid].gc;
      var k, pk := gc.rest[0], gc.pc.pairs[0].0;
      Present(s.redis.swarms, k, pk) && s.redis.swarms[k][pk] == gc.pc.pairs[0].1
  {
    var gc := s.threads[tid].gc;
    RunScansOnly(Next(s, run[0]), run[1..], tid, gc.rest[0], gc.cutoff, reply);
    var pair := Final(s, run).threads[tid].gc.pc.pairs[0];
    assert pair in Final(s, run).threads[tid].gc.pc.pairs && pair in reply;
    assert pair in Flatten(HashOf(s.redis.swarms, gc.rest[0]));
  }

  /**
   A collector deletes by the times of its HGETALL reply. From that reply on, whatever runs in between, its
   step deletes a peer that is fresh exactly when the reply had it due and it was then written anew.
   */
  lemma CollectorDeletesFreshPeerIff(s: State, run: seq<Move>, tid: nat, reply: seq<(PeerKey, int)>)
    requires Legal(s, run) && run != [] && run[0] == Move(tid, Hgetall(reply)) && NoHgetall(run[1..], tid)
    requires Enabled(Final(s, run), Move(tid, ScanPair))
    ensures var t := Final(s, run);
      var gc, after := t.threads[tid].gc, Next(t, Move(tid, ScanPair)).redis.swarms;
      var k, pk, mtime := gc.rest[0], gc.pc.pairs[0].0, gc.pc.pairs[0].1;
      Present(t.redis.swarms, k, pk) && t.redis.swarms[k][pk] > gc.cutoff && !Present(after, k, pk)
      <==>
      Present(t.redis.swarms, k, pk) && mtime <= gc.cutoff
      && LastWrite(run, k, pk).Some? && LastWrite(run, k, pk).value > gc.cutoff
  {
    var t := Final(s, run);
    var gc := t.threads[tid].gc;
    var k, pk := gc.rest[0], gc.pc.pairs[0].0;
    PairWasStored(s, run, tid, reply);
    NextSwarms(t, Move(tid, ScanPair));
    TimeAfterRemove(t.redis.swarms, k, pk, k, pk);
    if Present(t.redis.swarms, k, pk) {
      RunTime(s, run, k, pk);
    }
  }
}
