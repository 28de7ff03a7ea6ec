/**
 The two peer stores, run one request after the other in single-stack mode: their errors, counts and missing
 swarms agree always, their answers to announces exactly where SameAnswersIff says.
 */
module StoreEquivalence {
  import opened BitTorrent
  import opened PeerStoreSpec
  import opened AnnounceSpec
  import opened PeerSelection
  import M = MemoryStore
  import R = RedisStore

  /** A call of the PeerStore interface, or a collection that runs without interference. */
  datatype Request =
    | PutPeer(ih: InfoHash, role: Role, p: Peer, now: int)
    | DeletePeer(ih: InfoHash, role: Role, p: Peer)
    | GraduateLeecher(ih: InfoHash, p: Peer, now: int)
    | ScrapeSwarm(ih: InfoHash, af: AddressFamily)
    | AnnouncePeers(ih: InfoHash, seeder: bool, numWant: int, p: Peer)
    | CollectGarbage(cutoff: int)

  datatype Answer = Err(err: StoreError) | Scrape(complete: uint32, incomplete: uint32)

  predicate SanitizedRequest(r: Request) {
    match r
    case ScrapeSwarm(_, _) => true
    case CollectGarbage(_) => true
    case _ => Sanitized(r.p)
  }

  function Effect(s: Swarms, r: Request): Swarms {
    match r
    case PutPeer(ih, role, p, now) => Apply(s, OpPut(SwarmKey(p.ip.family, role, ih), NewPeerKey(p), now))
    case DeletePeer(ih, role, p) => Apply(s, OpDelete(SwarmKey(p.ip.family, role, ih), NewPeerKey(p)))
    case GraduateLeecher(ih, p, now) => Apply(s, OpGraduate(p.ip.family, ih, NewPeerKey(p), now))
    case CollectGarbage(cutoff) => Apply(s, OpCollect(cutoff))
    case _ => s
  }

  /** The error, or the two counts; of AnnouncePeers only whether it reports a missing swarm. */
  function AnswerOf(s: Swarms, r: Request): Answer {
    match r
    case DeletePeer(ih, role, p) =>
      Err(if Present(s, SwarmKey(p.ip.family, role, ih), NewPeerKey(p)) then Nil else ErrResourceDoesNotExist)
    case ScrapeSwarm(ih, af) =>
      Scrape(Scraped(s, false, ih, af, Seeder), Scraped(s, false, ih, af, Leecher))
    case AnnouncePeers(ih, _, _, p) => Err(if Missing(s, false, ih, p.ip.family) then ErrResourceDoesNotExist else Nil)
    case _ => Err(Nil)
  }

  function Answers(s: Swarms, history: seq<Request>): seq<Answer>
    decreases |history|
  {
    if history == [] then [] else [AnswerOf(s, history[0])] + Answers(Effect(s, history[0]), history[1..])
  }

  function Outcome(s: Swarms, history: seq<Request>): Swarms
    decreases |history|
  {
    if history == [] then s else Outcome(Effect(s, history[0]), history[1..])
  }

  lemma {:induction false} HistorySnoc(s: Swarms, history: seq<Request>, r: Request)
    ensures Answers(s, history + [r]) == Answers(s, history) + [AnswerOf(Outcome(s, history), r)]
    ensures Outcome(s, history + [r]) == Effect(Outcome(s, history), r)
    decreases |history|
  {
    if history == [] {
      assert history + [r] == [r] && [r][1..] == [];
    } else {
      assert (history + [r])[0] == history[0] && (history + [r])[1..] == history[1..] + [r];
      HistorySnoc(Effect(s, history[0]), history[1..], r);
    }
  }

  lemma HistoryStep(history: seq<Request>, i: nat)
    requires i < |history|
    ensures Answers(map[], history[..i + 1])
      == Answers(map[], history[..i]) + [AnswerOf(Outcome(map[], history[..i]), history[i])]
    ensures Outcome(map[], history[..i + 1]) == Effect(Outcome(map[], history[..i]), history[i])
  {
    assert history[..i + 1] == history[..i] + [history[i]];
    HistorySnoc(map[], history[..i], history[i]);
  }

  method ServeMemory(store: M.MemoryStore, r: Request) returns (a: Answer)
    requires store.Valid() && !store.enableDualStackPeers && SanitizedRequest(r)
    modifies store, store.shards
    ensures store.Valid() && store.flat == Effect(old(store.flat), r) && a == AnswerOf(old(store.flat), r)
  {
    a := Err(Nil);
    match r
    case PutPeer(ih, role, p, now) => store.PutPeer(ih, role, p, now);
    case DeletePeer(ih, role, p) =>
      var err := store.DeletePeer(ih, role, p);
      a := Err(err);
    case GraduateLeecher(ih, p, now) => store.GraduateLeecher(ih, p, now);
    case ScrapeSwarm(ih, af) =>
      var complete, incomplete := store.ScrapeSwarm(ih, af);
      a := Scrape(complete, incomplete);
    case AnnouncePeers(ih, seeder, numWant, p) =>
      var peers, err, keys := store.AnnouncePeers(ih, seeder, numWant, p);
      a := Err(err);
    case CollectGarbage(cutoff) => store.CollectGarbage(cutoff);
  }

  method ServeRedis(store: R.RedisStore, r: Request) returns (a: Answer)
    requires R.Consistent(store.db) && KeysTyped(store.db.swarms) && SanitizedRequest(r)
    modifies store
    ensures R.Consistent(store.db) && store.db.swarms == Effect(old(store.db.swarms), r)
    ensures a == AnswerOf(old(store.db.swarms), r)
  {
    a := Err(Nil);
    match r
    case PutPeer(ih, role, p, now) => store.PutPeer(ih, role, p, now);
    case DeletePeer(ih, role, p) =>
      var err := store.DeletePeer(ih, role, p);
      a := Err(err);
    case GraduateLeecher(ih, p, now) => store.GraduateLeecher(ih, p, now);
    case ScrapeSwarm(ih, af) =>
      var complete, incomplete := store.ScrapeSwarm(ih, af);
      a := Scrape(complete, incomplete);
    case AnnouncePeers(ih, seeder, numWant, p) =>
      var peers, err, keys := store.AnnouncePeers(ih, seeder, numWant, p);
      a := Err(err);
    case CollectGarbage(cutoff) => store.CollectGarbage(cutoff);
  }

  method ServeBoth(m: M.MemoryStore, r: R.RedisStore, req: Request) returns (a: Answer, b: Answer)
    requires m.Valid() && !m.enableDualStackPeers && R.Consistent(r.db) && m.flat == r.db.swarms
    requires SanitizedRequest(req)
    modifies m, m.shards, r
    ensures m.Valid() && R.Consistent(r.db) && m.flat == r.db.swarms == Effect(old(m.flat), req)
    ensures a == b == AnswerOf(old(m.flat), req)
  {
    M.StoredKeysTyped(m.Data(), m.n, m.flat);
    a := ServeMemory(m, req);
    b := ServeRedis(r, req);
  }

  /** One history, two fresh stores, the same answers. */
  method ServeHistory(history: seq<Request>, shardCount: nat) returns (memory: seq<Answer>, redis: seq<Answer>)
    requires M.ValidShardCount(shardCount)
    requires forall i :: 0 <= i < |history| ==> SanitizedRequest(history[i])
    ensures memory == redis == Answers(map[], history)
  {
    var m := new M.MemoryStore(shardCount, false);
    var r := new R.RedisStore();
    memory, redis := [], [];
    for i := 0 to |history|
      invariant fresh(m) && fresh(m.shards) && fresh(r) && !m.enableDualStackPeers
      invariant m.Valid() && R.Consistent(r.db)
      invariant m.flat == r.db.swarms == Outcome(map[], history[..i])
      invariant memory == redis == Answers(map[], history[..i])
    {
      HistoryStep(history, i);
      var a, b := ServeBoth(m, r, history[i]);
      memory, redis := memory + [a], redis + [b];
    }
    assert history[..|history|] == history;
  }

  // ---------- the answers to scrapes ----------

  /**
   How a request changes the number of peers of a swarm: only a new peer adds one, only a stored one
   takes one away.
   */
  function Change(s: Swarms, r: Request, k: SwarmKey): int {
    match r
    case PutPeer(ih, role, p, _) =>
      if k == SwarmKey(p.ip.family, role, ih) && !Present(s, k, NewPeerKey(p)) then 1 else 0
    case DeletePeer(ih, role, p) =>
      if k == SwarmKey(p.ip.family, role, ih) && Present(s, k, NewPeerKey(p)) then -1 else 0
    case GraduateLeecher(ih, p, _) =>
      if k == SwarmKey(p.ip.family, Seeder, ih) && !Present(s, k, NewPeerKey(p)) then 1
      else if k == SwarmKey(p.ip.family, Leecher, ih) && Present(s, k, NewPeerKey(p)) then -1
      else 0
    case CollectGarbage(cutoff) => -|Stale(HashOf(s, k), cutoff)|
    case _ => 0
  }

  function Stale(h: Hash, cutoff: int): set<PeerKey> {
    set pk | pk in h && h[pk] <= cutoff
  }

  lemma SizeAfterPut(s: Swarms, j: SwarmKey, pk: PeerKey, now: int, k: SwarmKey)
    ensures |HashOf(Put(s, j, pk, now), k)| == |HashOf(s, k)| + if k == j && !Present(s, k, pk) then 1 else 0
  {
    var h := HashOf(s, j);
    HashOfWithHash(s, j, h[pk := now], k);
    assert h[pk := now].Keys == h.Keys + {pk};
  }

  lemma SizeAfterRemove(s: Swarms, j: SwarmKey, pk: PeerKey, k: SwarmKey)
    ensures |HashOf(Remove(s, j, pk), k)| == |HashOf(s, k)| - if k == j && Present(s, k, pk) then 1 else 0
  {
    var h := HashOf(s, j);
    HashOfWithHash(s, j, h - {pk}, k);
    assert (h - {pk}).Keys == h.Keys - {pk};
  }

  lemma SizeAfterSweep(s: Swarms, cutoff: int, k: SwarmKey)
    ensures |HashOf(Sweep(s, cutoff), k)| == |HashOf(s, k)| - |Stale(HashOf(s, k), cutoff)|
  {
    var h := HashOf(s, k);
    assert Fresh(map[], cutoff) == map[];
    assert HashOf(Sweep(s, cutoff), k) == Fresh(h, cutoff);
    assert h.Keys == Fresh(h, cutoff).Keys + Stale(h, cutoff);
  }

  lemma SizeAfter(s: Swarms, r: Request, k: SwarmKey)
    ensures |HashOf(Effect(s, r), k)| == |HashOf(s, k)| + Change(s, r, k)
  {
    match r
    case PutPeer(ih, role, p, now) => SizeAfterPut(s, SwarmKey(p.ip.family, role, ih), NewPeerKey(p), now, k);
    case DeletePeer(ih, role, p) => SizeAfterRemove(s, SwarmKey(p.ip.family, role, ih), NewPeerKey(p), k);
    case GraduateLeecher(ih, p, now) =>
      var l, j, pk := SwarmKey(p.ip.family, Leecher, ih), SwarmKey(p.ip.family, Seeder, ih), NewPeerKey(p);
      SizeAfterPut(Remove(s, l, pk), j, pk, now, k);
      SizeAfterRemove(s, l, pk, k);
      TimeAfterRemove(s, l, pk, j, pk);
    case CollectGarbage(cutoff) => SizeAfterSweep(s, cutoff, k);
    case _ =>
  }

  /** The number of peers of a role that a scrape is about. */
  function Size(s: Swarms, dual: bool, ih: InfoHash, af: AddressFamily, role: Role): nat {
    if dual then |HashOf(s, SwarmKey(IPv4, role, ih))| + |HashOf(s, SwarmKey(IPv6, role, ih))|
    else |HashOf(s, SwarmKey(af, role, ih))|
  }

  function SizeChange(s: Swarms, dual: bool, r: Request, ih: InfoHash, af: AddressFamily, role: Role): int {
    if dual then Change(s, r, SwarmKey(IPv4, role, ih)) + Change(s, r, SwarmKey(IPv6, role, ih))
    else Change(s, r, SwarmKey(af, role, ih))
  }

  lemma SizeFollows(s: Swarms, dual: bool, r: Request, ih: InfoHash, af: AddressFamily, role: Role)
    ensures Size(Effect(s, r), dual, ih, af, role)
      == Size(s, dual, ih, af, role) + SizeChange(s, dual, r, ih, af, role)
  {
    SizeAfter(s, r, SwarmKey(af, role, ih));
    SizeAfter(s, r, SwarmKey(IPv4, role, ih));
    SizeAfter(s, r, SwarmKey(IPv6, role, ih));
  }

  /**
   A scrape after any request, in either mode, counts the peers from before it, one more, one less, or less those
   collected; in dual-stack mode whichever family the request was about.
   */
  lemma ScrapeFollows(s: Swarms, dual: bool, r: Request, ih: InfoHash, af: AddressFamily, role: Role)
    ensures Scraped(Effect(s, r), dual, ih, af, role)
      == Wrap32(Size(s, dual, ih, af, role) + SizeChange(s, dual, r, ih, af, role))
  {
    ScrapedIsSize(Effect(s, r), dual, ih, af, role);
    SizeFollows(s, dual, r, ih, af, role);
  }

  lemma ScrapedIsSize(s: Swarms, dual: bool, ih: InfoHash, af: AddressFamily, role: Role)
    ensures Scraped(s, dual, ih, af, role) == Wrap32(Size(s, dual, ih, af, role))
  {
  }

  // ---------- the answers to announces ----------

  lemma RedisAvailable(s: Swarms, ih: InfoHash, af: AddressFamily)
    ensures var cs := R.RedisClasses(s, ih, false, af);
      && Available(cs[..0]) == 0 && Available(cs[..1]) == |KeysOf(s, af, Seeder, ih)|
      && Available(cs[..2]) == |KeysOf(s, af, Seeder, ih)| + |KeysOf(s, af, Leecher, ih)|
  {
    var cs := R.RedisClasses(s, ih, false, af);
    assert cs[..0] == [];
    AvailableUpTo(cs, 0);
    AvailableUpTo(cs, 1);
  }

  /**
   The Redis store means to pass over the announcer and does not: some answer to a leecher holds the leecher
   itself exactly when it is a seeder, or a leecher that the seeders leave room for.
   */
  lemma RedisMeetsItselfIff(s: Swarms, ih: InfoHash, af: AddressFamily, self: PeerKey, numWant: nat)
    ensures var seeders, leechers := KeysOf(s, af, Seeder, ih), KeysOf(s, af, Leecher, ih);
      (exists keys :: Selection(keys, R.RedisClasses(s, ih, false, af), numWant) && self in keys)
      <==> numWant > 0 && (self in seeders || (self in leechers && numWant > |seeders|))
  {
    var cs := R.RedisClasses(s, ih, false, af);
    RedisAvailable(s, ih, af);
    InSomeIff(cs, numWant, self);
    if self in cs[0] && numWant > 0 {
      assert self in cs[0] && numWant > Available(cs[..0]);
    }
    if self in cs[1] && numWant > |cs[0]| {
      assert self in cs[1] && numWant > Available(cs[..1]);
    }
  }

  /** It is in every answer exactly when its class is used up: a stored leecher always, once all peers fit. */
  lemma RedisAlwaysMeetsItselfIff(s: Swarms, ih: InfoHash, af: AddressFamily, self: PeerKey, numWant: nat)
    ensures var seeders, leechers := KeysOf(s, af, Seeder, ih), KeysOf(s, af, Leecher, ih);
      (forall keys :: Selection(keys, R.RedisClasses(s, ih, false, af), numWant) ==> self in keys)
      <==> (self in seeders && numWant >= |seeders|) || (self in leechers && numWant >= |seeders| + |leechers|)
  {
    var cs := R.RedisClasses(s, ih, false, af);
    RedisAvailable(s, ih, af);
    InEveryIff(cs, numWant, self);
    if self in cs[0] && numWant >= |cs[0]| {
      assert self in cs[0] && numWant >= Available(cs[..0 + 1]);
    }
    if self in cs[1] && numWant >= |cs[0]| + |cs[1]| {
      assert self in cs[1] && numWant >= Available(cs[..1 + 1]);
    }
  }

  /** So a leecher alone in its swarm is sent to itself by the Redis store, and to nobody by the in-memory one. */
  lemma LoneLeecher(s: Swarms, ih: InfoHash, af: AddressFamily, self: PeerKey, keys: seq<PeerKey>)
    requires KeysOf(s, af, Seeder, ih) == {} && KeysOf(s, af, Leecher, ih) == {self}
    ensures Selection(keys, R.RedisClasses(s, ih, false, af), 1) ==> keys == [self]
    ensures Selection(keys, Classes(s, false, ih, false, af, self), 1) ==> keys == []
  {
    if Selection(keys, R.RedisClasses(s, ih, false, af), 1) {
      RedisAlwaysMeetsItselfIff(s, ih, af, self, 1);
      SelectionLength(keys, R.RedisClasses(s, ih, false, af), 1);
      assert self in keys && |keys| <= 1;
    }
    var mine := Classes(s, false, ih, false, af, self);
    if Selection(keys, mine, 1) && keys != [] {
      var c := UsedIsReached(keys, mine, 1, keys[0]);
    }
  }

  ghost predicate SameAnswers(a: seq<set<PeerKey>>, b: seq<set<PeerKey>>, numWant: int) {
    forall keys :: Selection(keys, a, numWant) <==> Selection(keys, b, numWant)
  }

  /** The two stores have the same possible answers unless a stored leecher asks and the seeders leave room. */
  lemma SameAnswersIff(s: Swarms, ih: InfoHash, seeder: bool, af: AddressFamily, self: PeerKey, numWant: int)
    ensures SameAnswers(R.RedisClasses(s, ih, seeder, af), Classes(s, false, ih, seeder, af, self), numWant)
      <==> seeder || self !in KeysOf(s, af, Leecher, ih) || numWant <= |KeysOf(s, af, Seeder, ih)|
  {
    var theirs, mine := R.RedisClasses(s, ih, seeder, af), Classes(s, false, ih, seeder, af, self);
    var seeders, leechers := KeysOf(s, af, Seeder, ih), KeysOf(s, af, Leecher, ih);
    if seeder || self !in leechers {
      assert self !in leechers ==> leechers - {self} == leechers;
      assert mine == theirs;
    } else if numWant <= |seeders| {
      forall keys ensures Selection(keys, theirs, numWant) <==> Selection(keys, mine, numWant) {
        FirstClassOnly(keys, theirs, mine, numWant);
      }
    } else {
      var keys := AnswerWithSelf(s, ih, af, self, numWant);
      assert Selection(keys, theirs, numWant) && !Selection(keys, mine, numWant);
    }
  }

  /** An answer of the Redis store that the in-memory store does not give. */
  lemma AnswerWithSelf(s: Swarms, ih: InfoHash, af: AddressFamily, self: PeerKey, numWant: int)
      returns (keys: seq<PeerKey>)
    requires self in KeysOf(s, af, Leecher, ih) && numWant > |KeysOf(s, af, Seeder, ih)|
    ensures Selection(keys, R.RedisClasses(s, ih, false, af), numWant)
    ensures !Selection(keys, Classes(s, false, ih, false, af, self), numWant)
  {
    var seeders, leechers := KeysOf(s, af, Seeder, ih), KeysOf(s, af, Leecher, ih);
    RedisAvailable(s, ih, af);
    keys := SelectionHolding(R.RedisClasses(s, ih, false, af), numWant, 1, self);
    if Selection(keys, Classes(s, false, ih, false, af, self), numWant) {
      assert Classes(s, false, ih, false, af, self) == [seeders, leechers - {self}];
      SelfNotAfterSeeders(keys, seeders, leechers, self, numWant);
    }
  }

  lemma FirstClassOnly(keys: seq<PeerKey>, a: seq<set<PeerKey>>, b: seq<set<PeerKey>>, numWant: int)
    requires a != [] && b != [] && a[0] == b[0] && numWant <= |a[0]|
    ensures Selection(keys, a, numWant) <==> Selection(keys, b, numWant)
  {
  }

  lemma SelfNotAfterSeeders(keys: seq<PeerKey>, seeders: set<PeerKey>, leechers: set<PeerKey>, self: PeerKey,
                            numWant: nat)
    requires Selection(keys, [seeders, leechers - {self}], numWant) && |seeders| < |keys|
    ensures keys[|seeders|] != self
  {
    var cs := [seeders, leechers - {self}];
    var c := ClassAt(keys, cs, numWant, |seeders|);
    assert cs[..1] == [seeders] && [seeders][1..] == [];
    AvailableUpTo(cs, 0);
  }
}
