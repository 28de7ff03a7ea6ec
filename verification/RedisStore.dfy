/** The Redis peer store run by one client without interference: store operations and a whole collection. */
module RedisStore {
  import opened BitTorrent
  import opened PeerStoreSpec
  import opened PeerTotals
  import opened RedisCommands
  import P = RedisProtocol
  import opened PeerSelection
  import opened Expiry
  import opened AnnounceSpec

  /** No operation in flight: the invariants of the protocol with nothing pending. */
  ghost predicate Consistent(r: Redis) {
    P.RedisOk(r) && PeersExact(r) && InfohashesExact(r)
  }

  ghost predicate PeersExact(r: Redis) {
    forall af, role :: r.Count(PeerCount(af, role)) == TotalSize(r.swarms, af, role)
  }

  ghost predicate InfohashesExact(r: Redis) {
    forall af :: r.Count(InfohashCount(af)) == |ListedSeeders(r.Group(af))|
  }

  /** Every interleaving with at most one collector at a time ends consistent once nothing is in flight. */
  lemma QuietRunIsConsistent(s: P.State, run: seq<P.Move>)
    requires P.Initial(s) && P.Legal(s, run) && P.OneCollectorThroughout(s, run) && P.Quiet(P.Final(s, run))
    ensures Consistent(P.Final(s, run).redis)
  {
    var t := P.Final(s, run);
    P.InitialInv(s);
    P.RunKeepsInv(s, run);
    forall c ensures P.TotalPending(t.threads, c) == 0 { P.QuietOwesNothing(t.threads, c); }
    forall af ensures t.redis.Count(InfohashCount(af)) == |ListedSeeders(t.redis.Group(af))| {
      P.LoneCollectorKeepsInfohashCount(s, run, af);
    }
  }

  /** What a client still owes after its block, done in one go. */
  ghost function Settle(r: Redis, todo: seq<P.Bump>): Redis
    decreases |todo|
  {
    if todo == [] then r else Settle(r.IncrBy(todo[0].c, todo[0].delta), todo[1..])
  }

  lemma {:induction false} SettleCounts(r: Redis, todo: seq<P.Bump>)
    ensures Settle(r, todo).swarms == r.swarms && Settle(r, todo).groups == r.groups
    ensures forall c :: Settle(r, todo).Count(c) == r.Count(c) + P.BumpSum(todo, c)
    decreases |todo|
  {
    if todo != [] {
      SettleCounts(r.IncrBy(todo[0].c, todo[0].delta), todo[1..]);
    }
  }

  lemma SettledIsConsistent(r: Redis, r': Redis, todo: seq<P.Bump>)
    requires Consistent(r) && P.RedisOk(r') && P.KeepsBalance(r, P.Idle, r', P.Client(todo))
    ensures Consistent(Settle(r', todo))
  {
    var r'' := Settle(r', todo);
    SettleCounts(r', todo);
    P.SameGroups(r', r'');
    forall af, role ensures r''.Count(PeerCount(af, role)) == TotalSize(r''.swarms, af, role) {
      assert P.PeerGap(r', P.Client(todo), af, role) == P.PeerGap(r, P.Idle, af, role);
    }
    forall af ensures r''.Count(InfohashCount(af)) == |ListedSeeders(r''.Group(af))| {
      assert P.InfohashGap(r', P.Client(todo), af) == P.InfohashGap(r, P.Idle, af);
    }
  }

  lemma DeletedIsConsistent(r: Redis, k: SwarmKey, pk: PeerKey)
    requires Consistent(r) && Present(r.swarms, k, pk)
    ensures Consistent(r.Hdel(k, pk).IncrBy(PeerCount(k.af, k.role), -1))
  {
    P.HdelOk(r, k, pk);
    P.HdelBalance(r, k, pk);
    SettledIsConsistent(r, r.Hdel(k, pk), P.DeleteTodo(r, k, pk));
    SettleFirst(r.Hdel(k, pk), true, PeerCount(k.af, k.role), -1, []);
    assert P.BumpIf(true, PeerCount(k.af, k.role), -1) + [] == P.DeleteTodo(r, k, pk);
  }

  /** One element of the flat HGETALL reply. */
  datatype Item = Field(pk: PeerKey) | Value(mtime: int)

  /** Fields and values alternate, fields in the given order. */
  ghost predicate Alternates(items: seq<Item>, h: Hash, order: seq<PeerKey>) {
    && Enumerates(order, h.Keys) && |items| == 2 * |order|
    && forall i :: 0 <= i < |order| ==> items[2 * i] == Field(order[i]) && items[2 * i + 1] == Value(h[order[i]])
  }

  /** HGETALL. */
  method Hgetall(h: Hash) returns (items: seq<Item>, ghost order: seq<PeerKey>)
    ensures Alternates(items, h, order)
  {
    var fields := Listing(h.Keys);
    items := [];
    for i := 0 to |fields|
      invariant |items| == 2 * i
      invariant forall j :: 0 <= j < i ==> items[2 * j] == Field(fields[j]) && items[2 * j + 1] == Value(h[fields[j]])
    {
      items := items + [Field(fields[i]), Value(h[fields[i]])];
    }
    order := fields;
  }

  lemma Parity(index: int, n: int)
    requires index == 2 * n || index == 2 * n + 1
    ensures index % 2 == 1 <==> index == 2 * n + 1
  {
  }

  /** The state of the collector's loop before position `index`: n pairs done, and a field read at odd positions. */
  ghost predicate Scanning(items: seq<Item>, h: Hash, order: seq<PeerKey>, index: nat, n: nat, pk: PeerKey,
                           cutoff: int, cur: Hash) {
    && Alternates(items, h, order) && Midway(h, order, n, cutoff, cur)
    && (index == 2 * n || (index == 2 * n + 1 && n < |order| && pk == order[n]))
  }

  lemma AtField(items: seq<Item>, h: Hash, order: seq<PeerKey>, index: nat, n: nat, pk: PeerKey, cutoff: int, cur: Hash)
    requires Scanning(items, h, order, index, n, pk, cutoff, cur) && index < |items| && index % 2 != 1
    ensures items[index].Field? && Scanning(items, h, order, index + 1, n, items[index].pk, cutoff, cur)
  {
    Parity(index, n);
    assert items[index] == Field(order[n]);
  }

  lemma AtValue(items: seq<Item>, h: Hash, order: seq<PeerKey>, index: nat, n: nat, pk: PeerKey, cutoff: int,
                cur: Hash, left: Hash)
    requires Scanning(items, h, order, index, n, pk, cutoff, cur) && index < |items| && index % 2 == 1
    requires items[index].Value? && left == if items[index].mtime <= cutoff then cur - {pk} else cur
    ensures Scanning(items, h, order, index + 1, n + 1, pk, cutoff, left)
  {
    Parity(index, n);
    assert items[index] == Value(h[order[n]]);
    MidwayStep(h, order, n, cutoff, cur);
  }

  ghost predicate Shaped(items: seq<Item>) {
    forall i :: 0 <= i < |items| ==> (items[i].Value? <==> i % 2 == 1)
  }

  lemma AlternatesIsShaped(items: seq<Item>, h: Hash, order: seq<PeerKey>)
    requires Alternates(items, h, order)
    ensures Shaped(items)
  {
    forall i | 0 <= i < |items| ensures items[i].Value? <==> i % 2 == 1 {
      var n := i / 2;
      assert items[2 * n] == Field(order[n]) && items[2 * n + 1] == Value(h[order[n]]);
    }
  }

  /** What the rest of the reply, from `index` on, leaves of a swarm. */
  ghost function Scanned(items: seq<Item>, index: nat, pk: PeerKey, cutoff: int, cur: Hash): Hash
    requires Shaped(items) && index <= |items|
    decreases |items| - index
  {
    if index == |items| then cur
    else if index % 2 == 1 then
      Scanned(items, index + 1, pk, cutoff, if items[index].mtime <= cutoff then cur - {pk} else cur)
    else Scanned(items, index + 1, items[index].pk, cutoff, cur)
  }

  lemma AtValueGoesOn(items: seq<Item>, index: nat, pk: PeerKey, cutoff: int, cur: Hash, left: Hash)
    requires Shaped(items) && index < |items| && index % 2 == 1
    requires left == if items[index].mtime <= cutoff then cur - {pk} else cur
    ensures Scanned(items, index, pk, cutoff, cur) == Scanned(items, index + 1, pk, cutoff, left)
  {
  }

  lemma AtFieldGoesOn(items: seq<Item>, index: nat, pk: PeerKey, cutoff: int, cur: Hash)
    requires Shaped(items) && index < |items| && index % 2 != 1
    ensures Scanned(items, index, pk, cutoff, cur) == Scanned(items, index + 1, items[index].pk, cutoff, cur)
  {
  }

  lemma {:induction false} ScannedIsFresh(items: seq<Item>, h: Hash, order: seq<PeerKey>, index: nat, n: nat,
                                          pk: PeerKey,
                                          cutoff: int, cur: Hash)
    requires Scanning(items, h, order, index, n, pk, cutoff, cur) && Shaped(items) && index <= |items|
    ensures Scanned(items, index, pk, cutoff, cur) == Fresh(h, cutoff)
    decreases |items| - index
  {
    if index == |items| {
      MidwayEnd(h, order, cutoff, cur);
    } else if index % 2 == 1 {
      var left := if items[index].mtime <= cutoff then cur - {pk} else cur;
      AtValue(items, h, order, index, n, pk, cutoff, cur, left);
      AtValueGoesOn(items, index, pk, cutoff, cur, left);
      ScannedIsFresh(items, h, order, index + 1, n + 1, pk, cutoff, left);
    } else {
      AtField(items, h, order, index, n, pk, cutoff, cur);
      AtFieldGoesOn(items, index, pk, cutoff, cur);
      ScannedIsFresh(items, h, order, index + 1, n, items[index].pk, cutoff, cur);
    }
  }

  /** The classes the Redis store draws on. */
  function RedisClasses(s: Swarms, ih: InfoHash, seeder: bool, af: AddressFamily): seq<set<PeerKey>> {
    if seeder then [KeysOf(s, af, Leecher, ih)] else [KeysOf(s, af, Seeder, ih), KeysOf(s, af, Leecher, ih)]
  }

  lemma RedisKeysDecode(s: Swarms, ih: InfoHash, seeder: bool, af: AddressFamily, keys: seq<PeerKey>, numWant: int)
    requires KeysTyped(s) && Selection(keys, RedisClasses(s, ih, seeder, af), numWant)
    ensures forall pk :: pk in keys ==> DecodePeerKey(pk).Some?
  {
    var cs := RedisClasses(s, ih, seeder, af);
    SelectionWithin(keys, cs, numWant);
    forall pk | pk in keys ensures DecodePeerKey(pk).Some? {
      UnionHas(cs, pk);
      assert Present(s, SwarmKey(af, Seeder, ih), pk) || Present(s, SwarmKey(af, Leecher, ih), pk);
      StoredKeyDecodes(af, pk);
    }
  }

  class RedisStore {
    var db: Redis

    constructor ()
      ensures Consistent(db) && db.swarms == map[]
    {
      db := EMPTY_REDIS;
      assert forall af :: ListedSeeders(EMPTY_REDIS.Group(af)) == {};
    }

    /** PutSeeder and PutLeecher: only the former counts a newly listed swarm. */
    method PutPeer(ih: InfoHash, role: Role, p: Peer, now: int)
      requires Consistent(db)
      modifies this
      ensures Consistent(db)
      ensures db.swarms == Put(old(db.swarms), SwarmKey(p.ip.family, role, ih), NewPeerKey(p), now)
    {
      var pk, k := NewPeerKey(p), SwarmKey(p.ip.family, role, ih);
      ghost var r := db;
      var reply0, reply1 := NewField(Present(db.swarms, k, pk)), NewField(k in db.Group(k.af));
      db := P.PutBlock(db, k, pk, now);
      ghost var todo := P.PutTodo(r, k, pk);
      P.PutBlockOk(r, k, pk, now);
      P.PutBlockBalance(r, k, pk, now);
      SettledIsConsistent(r, db, todo);
      SettleCounts(db, todo);
      if reply0 == 1 {
        db := db.IncrBy(PeerCount(k.af, role), 1);
      }
      if role == Seeder && reply1 == 1 {
        db := db.IncrBy(InfohashCount(k.af), 1);
      }
      assert db == Settle(P.PutBlock(r, k, pk, now), todo) by {
        SettleTwo(P.PutBlock(r, k, pk, now), reply0 == 1, PeerCount(k.af, role), 1,
                  role == Seeder && reply1 == 1, InfohashCount(k.af), 1);
      }
    }

    /** DeleteSeeder and DeleteLeecher. */
    method DeletePeer(ih: InfoHash, role: Role, p: Peer) returns (err: StoreError)
      requires Consistent(db)
      modifies this
      ensures Consistent(db)
      ensures db.swarms == Remove(old(db.swarms), SwarmKey(p.ip.family, role, ih), NewPeerKey(p))
      ensures err == ErrResourceDoesNotExist <==>
              !Present(old(db.swarms), SwarmKey(p.ip.family, role, ih), NewPeerKey(p))
    {
      var pk, k := NewPeerKey(p), SwarmKey(p.ip.family, role, ih);
      ghost var r := db;
      var delNum := if Present(db.swarms, k, pk) then 1 else 0;
      db := db.Hdel(k, pk);
      if delNum == 0 {
        RemoveAbsent(r.swarms, k, pk);
        return ErrResourceDoesNotExist;
      }
      DeletedIsConsistent(r, k, pk);
      db := db.IncrBy(PeerCount(k.af, role), -1);
      err := Nil;
    }

    method GraduateLeecher(ih: InfoHash, p: Peer, now: int)
      requires Consistent(db)
      modifies this
      ensures Consistent(db)
      ensures db.swarms == Graduate(old(db.swarms), p.ip.family, ih, NewPeerKey(p), now)
    {
      var af, pk := p.ip.family, NewPeerKey(p);
      var l, k := SwarmKey(af, Leecher, ih), SwarmKey(af, Seeder, ih);
      ghost var r := db;
      var reply0 := if Present(db.swarms, l, pk) then 1 else 0;
      var reply1, reply2 := NewField(Present(db.swarms, k, pk)), NewField(k in db.Group(af));
      db := P.GraduateBlock(db, af, ih, pk, now);
      ghost var r1, r2 := r.Hdel(l, pk), db;
      P.HdelOk(r, l, pk);
      P.HdelBalance(r, l, pk);
      P.PutBlockOk(r1, k, pk, now);
      P.PutBlockBalance(r1, k, pk, now);
      assert P.PutTodo(r1, k, pk) == P.PutTodo(r, k, pk);
      P.BalanceComposes(r, r1, r2, P.DeleteTodo(r, l, pk), P.PutTodo(r, k, pk));
      SettledIsConsistent(r, r2, P.GraduateTodo(r, af, ih, pk));
      if !Present(r.swarms, l, pk) { RemoveAbsent(r.swarms, l, pk); }
      if reply0 == 1 {
        db := db.IncrBy(PeerCount(af, Leecher), -1);
      }
      SettleFirst(r2, reply0 == 1, PeerCount(af, Leecher), -1, P.PutTodo(r, k, pk));
      ghost var r3 := db;
      if reply1 == 1 {
        db := db.IncrBy(PeerCount(af, Seeder), 1);
      }
      if reply2 == 1 {
        db := db.IncrBy(InfohashCount(af), 1);
      }
      SettleTwo(r3, reply1 == 1, PeerCount(af, Seeder), 1, reply2 == 1, InfohashCount(af), 1);
      SettleCounts(r2, P.GraduateTodo(r, af, ih, pk));
    }

    method ScrapeSwarm(ih: InfoHash, af: AddressFamily) returns (complete: uint32, incomplete: uint32)
      ensures complete == Scraped(db.swarms, false, ih, af, Seeder)
      ensures incomplete == Scraped(db.swarms, false, ih, af, Leecher)
    {
      var leechersLen := |HashOf(db.swarms, SwarmKey(af, Leecher, ih))|;
      var seedersLen := |HashOf(db.swarms, SwarmKey(af, Seeder, ih))|;
      incomplete, complete := Wrap32(leechersLen), Wrap32(seedersLen);
    }

    /** AnnouncePeers; `keys` are the stored keys behind the answer, the announcer's own not passed over. */
    method AnnouncePeers(ih: InfoHash, seeder: bool, numWant: int, announcer: Peer)
        returns (peers: seq<Peer>, err: StoreError, ghost keys: seq<PeerKey>)
      requires Consistent(db) && KeysTyped(db.swarms)  // decodePeerKey panics on any other key
      ensures err == ErrResourceDoesNotExist <==> Missing(db.swarms, false, ih, announcer.ip.family)
      ensures err == ErrResourceDoesNotExist ==> peers == [] && keys == []
      ensures err == Nil ==> Selection(keys, RedisClasses(db.swarms, ih, seeder, announcer.ip.family), numWant)
      ensures |peers| == |keys|
      ensures forall i :: 0 <= i < |keys| ==> DecodePeerKey(keys[i]) == Some(peers[i])
    {
      var af := announcer.ip.family;
      var leechers := KeysOf(db.swarms, af, Leecher, ih);
      var seeders := KeysOf(db.swarms, af, Seeder, ih);
      if |leechers| == 0 && |seeders| == 0 {
        return [], ErrResourceDoesNotExist, [];
      }
      var picked, want;
      if seeder {
        picked, want := PickFrom(leechers, None, numWant);
        SelectionFirst(picked, leechers, numWant);
      } else {
        picked, want := PickFrom(seeders, None, numWant);
        SelectionFirst(picked, seeders, numWant);
        var more: seq<PeerKey> := [];
        if want > 0 {
          more, want := PickFrom(leechers, None, want);
        }
        SelectionSnoc(picked, [seeders], numWant, more, leechers);
        assert [seeders] + [leechers] == [seeders, leechers];
        picked := picked + more;
      }
      keys, err := picked, Nil;
      RedisKeysDecode(db.swarms, ih, seeder, af, keys, numWant);
      peers := DecodeAll(picked);
    }

    /** HDEL of one peer if it is due, with the number HDEL replies; `cur` is what the swarm holds. */
    method DeleteIfDue(k: SwarmKey, pk: PeerKey, mtime: int, cutoff: int, ghost swarms: Swarms, ghost cur: Hash)
        returns (ret: int, ghost left: Hash)
      requires db.swarms == WithHash(swarms, k, cur)
      modifies this
      ensures db.groups == old(db.groups) && db.counters == old(db.counters)
      ensures left == if mtime <= cutoff then cur - {pk} else cur
      ensures db.swarms == WithHash(swarms, k, left) && ret == |cur| - |left|
    {
      ret, left := 0, cur;
      if mtime <= cutoff {
        ret := if Present(db.swarms, k, pk) then 1 else 0;
        db := db.Hdel(k, pk);
        RemoveFromWithHash(swarms, k, cur, pk);
        DropSize(swarms, k, cur, pk);
        left := cur - {pk};
      }
    }

    /** One position of the reply: a field is remembered, a value decides over the field before it. */
    method ScanItem(items: seq<Item>, index: nat, k: SwarmKey, pk: PeerKey, cutoff: int, ghost swarms: Swarms,
                    ghost cur: Hash)
        returns (next: PeerKey, ret: int, ghost left: Hash)
      requires Shaped(items) && index < |items| && db.swarms == WithHash(swarms, k, cur)
      modifies this
      ensures db.groups == old(db.groups) && db.counters == old(db.counters)
      ensures db.swarms == WithHash(swarms, k, left) && ret == |cur| - |left|
      ensures Scanned(items, index, pk, cutoff, cur) == Scanned(items, index + 1, next, cutoff, left)
    {
      next, ret, left := pk, 0, cur;
      if index % 2 == 1 {
        ret, left := DeleteIfDue(k, pk, items[index].mtime, cutoff, swarms, cur);
        AtValueGoesOn(items, index, pk, cutoff, cur, left);
      } else {
        AtFieldGoesOn(items, index, pk, cutoff, cur);
        next := items[index].pk;
      }
    }

    /** The collector's loop over one HGETALL reply, values at odd positions, with its running count. */
    method ScanSwarm(k: SwarmKey, cutoff: int) returns (removedPeerCount: int)
      requires NoEmptySwarm(db.swarms)
      modifies this
      ensures db.groups == old(db.groups) && db.counters == old(db.counters)
      ensures db.swarms == WithHash(old(db.swarms), k, Fresh(HashOf(old(db.swarms), k), cutoff))
      ensures removedPeerCount == |HashOf(old(db.swarms), k)| - |Fresh(HashOf(old(db.swarms), k), cutoff)|
    {
      ghost var swarms, h := db.swarms, HashOf(db.swarms, k);
      var items, order := Hgetall(HashOf(db.swarms, k));
      assert WithHash(swarms, k, h) == swarms;
      AlternatesIsShaped(items, h, order);
      var pk: PeerKey := [];
      removedPeerCount := 0;
      ghost var cur := h;  // what the swarm holds now
      for index := 0 to |items|
        invariant Scanned(items, index, pk, cutoff, cur) == Scanned(items, 0, [], cutoff, h)
        invariant db.groups == old(db.groups) && db.counters == old(db.counters)
        invariant db.swarms == WithHash(swarms, k, cur)
        invariant removedPeerCount == |h| - |cur|
      {
        var ret;
        pk, ret, cur := ScanItem(items, index, k, pk, cutoff, swarms, cur);
        removedPeerCount := removedPeerCount + ret;
      }
      MidwayStart(h, order, cutoff);
      ScannedIsFresh(items, h, order, 0, 0, [], cutoff, h);
    }

    /** Delete the old peers of a swarm, then DECRBY the counter of its role. */
    method ExpireSwarm(group: AddressFamily, k: SwarmKey, isSeeder: bool, cutoff: int)
      requires Consistent(db) && k.af == group && k in db.Group(group)
      requires isSeeder <==> k.role == Seeder
      modifies this
      ensures Consistent(db) && db.groups == old(db.groups)
      ensures db.swarms == WithHash(old(db.swarms), k, Fresh(HashOf(old(db.swarms), k), cutoff))
    {
      ghost var h := HashOf(db.swarms, k);
      var removedPeerCount := ScanSwarm(k, cutoff);
      FreshSmaller(h, cutoff);
      Decremented(old(db), db, k, removedPeerCount);
      if removedPeerCount > 0 {
        db := db.IncrBy(PeerCount(group, if isSeeder then Seeder else Leecher), -removedPeerCount);
      }
      SweptIsConsistent(old(db), db, k, Fresh(h, cutoff));
    }

    /** The body of the collector's loop over the swarm keys of one group. */
    method CollectSwarm(group: AddressFamily, k: SwarmKey, cutoff: int)
      requires Consistent(db) && k.af == group && k in db.Group(group)
      modifies this
      ensures Consistent(db)
      ensures db.swarms == WithHash(old(db.swarms), k, Fresh(HashOf(old(db.swarms), k), cutoff))
      ensures forall af, j :: j in db.Group(af) <==>
        j in old(db).Group(af) && (af == group && j == k ==> j in db.swarms)
    {
      var isSeeder := IsSeederField(SwarmKeyName(k));
      SeederFieldByPosition(k);
      ExpireSwarm(group, k, isSeeder, cutoff);
      P.SameGroups(old(db), db);
      var ihLen := |HashOf(db.swarms, k)|;
      if ihLen == 0 {
        UnlistedIsConsistent(db, k);
        db := db.Unlist(group, k);
        if isSeeder {
          db := db.IncrBy(InfohashCount(group), -1);
        }
      }
    }

    /** The collector's loop over the swarm keys HKEYS returned for one group. */
    method CollectGroup(group: AddressFamily, cutoff: int, ghost r: Redis, ghost before: set<AddressFamily>)
      requires Consistent(db) && Consistent(r)
      requires SweptUpTo(r, db, cutoff, before, {}) && group !in before
      modifies this
      ensures Consistent(db)
      ensures SweptUpTo(r, db, cutoff, before + {group}, {})
    {
      var infohashes := Listing(db.Group(group).Keys);
      GroupStarts(r, db, cutoff, before, group, infohashes);
      for i := 0 to |infohashes|
        invariant Consistent(db)
        invariant GroupSwept(r, db, cutoff, before, group, infohashes, i)
      {
        ghost var r1 := db;
        GroupHolds(r, db, cutoff, before, group, infohashes, i);
        CollectSwarm(group, infohashes[i], cutoff);
        GroupGoesOn(r, r1, db, cutoff, before, group, infohashes, i);
      }
      GroupEnds(r, db, cutoff, before, group, infohashes);
    }

    /** collectGarbage without interference. */
    method CollectGarbage(cutoff: int)
      requires Consistent(db)
      modifies this
      ensures Consistent(db)
      ensures db.swarms == Sweep(old(db.swarms), cutoff)
      ensures forall af, k :: k in db.Group(af) <==> k.af == af && k in db.swarms
    {
      ghost var r, before := db, {};
      SweptNothing(r, cutoff);
      var groups := [IPv4, IPv6];
      for g := 0 to |groups|
        invariant Consistent(db)
        invariant before == if g == 0 then {} else if g == 1 then {IPv4} else {IPv4, IPv6}
        invariant SweptUpTo(r, db, cutoff, before, {})
      {
        CollectGroup(groups[g], cutoff, r, before);
        before := before + {groups[g]};
      }
      SweptAll(r, db, cutoff);
    }
  }

  /** A swarm that the collection has dealt with: only fresh peers, and listed only if it has one. */
  ghost predicate KeySwept(r: Redis, r': Redis, cutoff: int, k: SwarmKey) {
    && HashOf(r'.swarms, k) == Fresh(HashOf(r.swarms, k), cutoff)
    && (k in r'.Group(k.af) ==> k in r'.swarms)
  }

  ghost predicate KeyUntouched(r: Redis, r': Redis, k: SwarmKey) {
    HashOf(r'.swarms, k) == HashOf(r.swarms, k) && (k in r'.Group(k.af) <==> k in r.Group(k.af))
  }

  /** The collection has dealt with the given groups and, beyond them, with the given keys. */
  ghost predicate SweptUpTo(r: Redis, r': Redis, cutoff: int, groups: set<AddressFamily>, keys: set<SwarmKey>) {
    forall k :: KeyState(r, r', cutoff, groups, keys, k)
  }

  ghost predicate KeyState(r: Redis, r': Redis, cutoff: int, groups: set<AddressFamily>, keys: set<SwarmKey>,
                           k: SwarmKey) {
    if k.af in groups || k in keys then KeySwept(r, r', cutoff, k) else KeyUntouched(r, r', k)
  }

  lemma SweptNothing(r: Redis, cutoff: int)
    ensures SweptUpTo(r, r, cutoff, {}, {})
  {
  }

  lemma SweptOneMore(r: Redis, r1: Redis, r2: Redis, cutoff: int, groups: set<AddressFamily>, keys: set<SwarmKey>,
                     k: SwarmKey)
    requires SweptUpTo(r, r1, cutoff, groups, keys) && k.af !in groups && k !in keys
    requires r2.swarms == WithHash(r1.swarms, k, Fresh(HashOf(r1.swarms, k), cutoff))
    requires forall af, j :: j in r2.Group(af) <==> j in r1.Group(af) && (af == k.af && j == k ==> j in r2.swarms)
    ensures SweptUpTo(r, r2, cutoff, groups, keys + {k})
  {
    forall j ensures KeyState(r, r2, cutoff, groups, keys + {k}, j) {
      assert KeyState(r, r1, cutoff, groups, keys, j);
      if j != k {
        assert HashOf(r2.swarms, j) == HashOf(r1.swarms, j);
        assert j in r2.Group(j.af) <==> j in r1.Group(j.af);
      }
    }
  }

  lemma SweptGroup(r: Redis, r': Redis, cutoff: int, groups: set<AddressFamily>, keys: set<SwarmKey>,
                   group: AddressFamily)
    requires Consistent(r) && SweptUpTo(r, r', cutoff, groups, keys) && group !in groups
    requires forall k :: k in keys ==> k.af == group
    requires forall k :: k in r'.Group(group) ==> k in keys
    requires forall k :: k in r.swarms && k.af == group ==> k in keys
    ensures SweptUpTo(r, r', cutoff, groups + {group}, {})
  {
    forall k ensures KeyState(r, r', cutoff, groups + {group}, {}, k) {
      assert KeyState(r, r', cutoff, groups, keys, k);
      if k.af == group && k !in keys {
        assert Fresh(map[], cutoff) == map[];
      }
    }
  }

  /** The first i of the keys that HKEYS returned are dealt with; the others are still listed. */
  ghost predicate GroupSwept(r: Redis, r': Redis, cutoff: int, before: set<AddressFamily>, group: AddressFamily,
                             infohashes: seq<SwarmKey>, i: nat) {
    && i <= |infohashes| && Distinct(infohashes)
    && SweptUpTo(r, r', cutoff, before, set k | k in infohashes[..i])
    && (forall j :: 0 <= j < |infohashes| ==> infohashes[j].af == group)
    && (forall j :: i <= j < |infohashes| ==> infohashes[j] in r'.Group(group))
    && (forall k :: k in r'.Group(group) ==> k in infohashes)
    && (forall k :: k in r.swarms && k.af == group ==> k in infohashes)
  }

  lemma GroupStarts(r: Redis, r': Redis, cutoff: int, before: set<AddressFamily>, group: AddressFamily,
                    infohashes: seq<SwarmKey>)
    requires Consistent(r) && Consistent(r') && SweptUpTo(r, r', cutoff, before, {}) && group !in before
    requires Enumerates(infohashes, r'.Group(group).Keys)
    ensures GroupSwept(r, r', cutoff, before, group, infohashes, 0)
  {
    assert (set k | k in infohashes[..0]) == {};
    forall k | k in r.swarms && k.af == group ensures k in infohashes {
      assert KeyState(r, r', cutoff, before, {}, k);
    }
  }

  lemma GroupHolds(r: Redis, r': Redis, cutoff: int, before: set<AddressFamily>, group: AddressFamily,
                   infohashes: seq<SwarmKey>, i: nat)
    requires GroupSwept(r, r', cutoff, before, group, infohashes, i) && i < |infohashes|
    ensures infohashes[i].af == group && infohashes[i] in r'.Group(group)
  {
  }

  lemma GroupGoesOn(r: Redis, r1: Redis, r2: Redis, cutoff: int, before: set<AddressFamily>, group: AddressFamily,
                    infohashes: seq<SwarmKey>, i: nat)
    requires i < |infohashes| && group !in before
    requires GroupSwept(r, r1, cutoff, before, group, infohashes, i)
    requires var k := infohashes[i];
      && r2.swarms == WithHash(r1.swarms, k, Fresh(HashOf(r1.swarms, k), cutoff))
      && forall af, j :: j in r2.Group(af) <==> j in r1.Group(af) && (af == group && j == k ==> j in r2.swarms)
    ensures GroupSwept(r, r2, cutoff, before, group, infohashes, i + 1)
  {
    var k := infohashes[i];
    assert k !in infohashes[..i];
    var done, next := infohashes[..i], infohashes[..i + 1];
    SweptOneMore(r, r1, r2, cutoff, before, (set j | j in done), k);
    assert next == done + [k];
    assert (set j | j in next) == (set j | j in done) + {k};
    forall j | i + 1 <= j < |infohashes| ensures infohashes[j] in r2.Group(group) {
      assert infohashes[j] in r1.Group(group) && infohashes[j] != k;
    }
  }

  lemma GroupEnds(r: Redis, r': Redis, cutoff: int, before: set<AddressFamily>, group: AddressFamily,
                  infohashes: seq<SwarmKey>)
    requires Consistent(r) && group !in before
    requires GroupSwept(r, r', cutoff, before, group, infohashes, |infohashes|)
    ensures SweptUpTo(r, r', cutoff, before + {group}, {})
  {
    assert infohashes[..|infohashes|] == infohashes;
    SweptGroup(r, r', cutoff, before, (set k | k in infohashes), group);
  }

  lemma SweptAll(r: Redis, r': Redis, cutoff: int)
    requires P.RedisOk(r') && SweptUpTo(r, r', cutoff, {IPv4, IPv6}, {})
    ensures r'.swarms == Sweep(r.swarms, cutoff)
    ensures forall af, k :: k in r'.Group(af) <==> k.af == af && k in r'.swarms
  {
    assert Fresh(map[], cutoff) == map[];
    forall k ensures k in r'.swarms <==> k in Sweep(r.swarms, cutoff)
      ensures k in r'.swarms ==> r'.swarms[k] == Sweep(r.swarms, cutoff)[k]
    {
      assert KeyState(r, r', cutoff, {IPv4, IPv6}, {}, k);
    }
    SweptListings(r, r', cutoff);
  }

  lemma SweptListings(r: Redis, r': Redis, cutoff: int)
    requires P.RedisOk(r') && SweptUpTo(r, r', cutoff, {IPv4, IPv6}, {})
    ensures forall af, k :: k in r'.Group(af) <==> k.af == af && k in r'.swarms
  {
    forall af, k ensures k in r'.Group(af) <==> k.af == af && k in r'.swarms {
      assert KeyState(r, r', cutoff, {IPv4, IPv6}, {}, k);
    }
  }

  lemma RemoveFromWithHash(s: Swarms, k: SwarmKey, h: Hash, pk: PeerKey)
    ensures Remove(WithHash(s, k, h), k, pk) == WithHash(s, k, h - {pk})
  {
    HashOfWithHash(s, k, h, k);
  }

  lemma DropSize(s: Swarms, k: SwarmKey, h: Hash, pk: PeerKey)
    ensures |h| - |h - {pk}| == if Present(WithHash(s, k, h), k, pk) then 1 else 0
    ensures !Present(WithHash(s, k, h), k, pk) ==> h - {pk} == h
  {
    HashOfWithHash(s, k, h, k);
    if pk in h {
      assert (h - {pk}).Keys == h.Keys - {pk};
    } else {
      assert h - {pk} == h;
    }
  }

  /** The counters after a DECRBY that is left out when there is nothing to subtract. */
  lemma Decremented(r: Redis, r1: Redis, k: SwarmKey, removed: int)
    requires r1.counters == r.counters && removed >= 0
    ensures var r' := if removed > 0 then r1.IncrBy(PeerCount(k.af, k.role), -removed) else r1;
      && r'.groups == r1.groups && r'.swarms == r1.swarms
      && forall c :: r'.Count(c) == r.Count(c) + (if c == PeerCount(k.af, k.role) then -removed else 0)
  {
  }

  /** A swarm swept and its peer counter corrected; only listings may still be stale. */
  lemma SweptIsConsistent(r: Redis, r': Redis, k: SwarmKey, h: Hash)
    requires Consistent(r) && k in r.Group(k.af)
    requires r'.groups == r.groups && r'.swarms == WithHash(r.swarms, k, h)
    requires forall c ::
      r'.Count(c) == r.Count(c) + (if c == PeerCount(k.af, k.role) then |h| - |HashOf(r.swarms, k)| else 0)
    ensures Consistent(r')
  {
    SweptIsOk(r, r', k, h);
    SweptCount(r, r', k, h);
    InfohashesUntouched(r, r');
  }

  lemma InfohashesUntouched(r: Redis, r': Redis)
    requires InfohashesExact(r) && r'.groups == r.groups
    requires forall af :: r'.Count(InfohashCount(af)) == r.Count(InfohashCount(af))
    ensures InfohashesExact(r')
  {
    forall af ensures r'.Count(InfohashCount(af)) == |ListedSeeders(r'.Group(af))| {
      assert r'.Group(af) == r.Group(af);
    }
  }

  lemma SweptCount(r: Redis, r': Redis, k: SwarmKey, h: Hash)
    requires PeersExact(r) && r'.swarms == WithHash(r.swarms, k, h)
    requires forall c ::
      r'.Count(c) == r.Count(c) + (if c == PeerCount(k.af, k.role) then |h| - |HashOf(r.swarms, k)| else 0)
    ensures PeersExact(r')
  {
    forall af, role ensures r'.Count(PeerCount(af, role)) == TotalSize(r'.swarms, af, role) {
      TotalSizeWithHash(r.swarms, k, h, af, role);
    }
  }

  lemma SweptIsOk(r: Redis, r': Redis, k: SwarmKey, h: Hash)
    requires P.RedisOk(r) && k in r.Group(k.af)
    requires r'.groups == r.groups && r'.swarms == WithHash(r.swarms, k, h)
    ensures P.RedisOk(r')
  {
    P.SameGroups(r, r');
    forall j | j in r'.swarms ensures j in r'.Group(j.af) {
      assert j == k || j in r.swarms;
    }
  }

  ghost function Unlisted(r: Redis, k: SwarmKey): Redis {
    if k.role == Seeder then r.Unlist(k.af, k).IncrBy(InfohashCount(k.af), -1) else r.Unlist(k.af, k)
  }

  lemma UnlistedIsConsistent(r: Redis, k: SwarmKey)
    requires Consistent(r) && k in r.Group(k.af) && k !in r.swarms
    ensures Consistent(Unlisted(r, k))
    ensures forall af, j :: j in Unlisted(r, k).Group(af) <==> j in r.Group(af) && !(af == k.af && j == k)
  {
    var r1, r2 := r.Unlist(k.af, k), Unlisted(r, k);
    P.UnlistOk(r, k.af, k);
    P.UnlistGroups(r, k.af, k);
    P.IncrByOk(r1, InfohashCount(k.af), -1);
    P.SameGroups(r1, r2);
    forall af ensures r2.Count(InfohashCount(af)) == |ListedSeeders(r2.Group(af))| {
      P.ListedAfterUnlist(r, k.af, k, af);
    }
  }

  lemma SettleTwo(r: Redis, c1: bool, k1: Counter, d1: int, c2: bool, k2: Counter, d2: int)
    ensures var r1 := if c1 then r.IncrBy(k1, d1) else r;
      Settle(r, P.BumpIf(c1, k1, d1) + P.BumpIf(c2, k2, d2)) == if c2 then r1.IncrBy(k2, d2) else r1
  {
    SettleFirst(r, c1, k1, d1, P.BumpIf(c2, k2, d2));
    SettleFirst(if c1 then r.IncrBy(k1, d1) else r, c2, k2, d2, []);
    assert P.BumpIf(c2, k2, d2) + [] == P.BumpIf(c2, k2, d2);
  }

  lemma SettleFirst(r: Redis, c1: bool, k1: Counter, d1: int, rest: seq<P.Bump>)
    ensures Settle(r, P.BumpIf(c1, k1, d1) + rest) == Settle(if c1 then r.IncrBy(k1, d1) else r, rest)
  {
    if c1 {
      assert (P.BumpIf(c1, k1, d1) + rest)[1..] == rest;
    } else {
      assert P.BumpIf(c1, k1, d1) + rest == rest;
    }
  }
}
