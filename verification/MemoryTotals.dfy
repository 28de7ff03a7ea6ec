/** What the in-memory store reports about itself: the counters of all shards, added up. */
module MemoryTotals {
  import opened BitTorrent
  import opened PeerStoreSpec
  import opened PeerSelection
  import opened MemoryStore
  import T = PeerTotals

  datatype Totals = Totals(infohashes: int, seeders: int, leechers: int)

  ghost function TotalsOf(ds: seq<ShardData>): Totals {
    if ds == [] then Totals(0, 0, 0)
    else
      var front, d := TotalsOf(ds[..|ds| - 1]), ds[|ds| - 1];
      Totals(front.infohashes + |d.swarms|, front.seeders + d.numSeeders, front.leechers + d.numLeechers)
  }

  lemma {:induction false} TotalsUpdate(ds: seq<ShardData>, i: nat, d: ShardData)
    requires i < |ds|
    ensures var a, b := TotalsOf(ds), TotalsOf(ds[i := d]);
      && b.infohashes == a.infohashes - |ds[i].swarms| + |d.swarms|
      && b.seeders == a.seeders - ds[i].numSeeders + d.numSeeders
      && b.leechers == a.leechers - ds[i].numLeechers + d.numLeechers
    decreases |ds|
  {
    var n := |ds| - 1;
    if i == n {
      assert ds[i := d][..n] == ds[..n];
    } else {
      TotalsUpdate(ds[..n], i, d);
      assert ds[i := d][..n] == ds[..n][i := d];
    }
  }

  /** The info hashes that have a peer, by family. */
  ghost function HashesIn(flat: Swarms): set<(AddressFamily, InfoHash)> {
    set k | k in flat :: (k.af, k.ih)
  }

  /** The totals of a store, from its peers alone. */
  ghost function TotalsIn(flat: Swarms): Totals {
    Totals(|HashesIn(flat)|, InBoth(flat, Seeder), InBoth(flat, Leecher))
  }

  ghost function InBoth(flat: Swarms, role: Role): int {
    T.TotalSize(flat, IPv4, role) + T.TotalSize(flat, IPv6, role)
  }

  lemma {:induction false} EmptyTotals(ds: seq<ShardData>)
    requires forall i :: 0 <= i < |ds| ==> ds[i] == ShardData(map[], 0, 0)
    ensures TotalsOf(ds) == Totals(0, 0, 0)
    decreases |ds|
  {
    if ds != [] {
      EmptyTotals(ds[..|ds| - 1]);
    }
  }

  lemma NobodyThere(ds: seq<ShardData>, n: nat, i: nat, ih: InfoHash)
    requires Represents(ds, n, map[]) && i < 2 * n && i == IndexOf(ih, FamilyOfShard(i, n), n)
    ensures SwarmAt(ds[i].swarms, ih).Empty()
  {
    var af := FamilyOfShard(i, n);
    assert AgreeOn(ds, n, map[], SwarmKey(af, Seeder, ih)) && AgreeOn(ds, n, map[], SwarmKey(af, Leecher, ih));
  }

  lemma EmptyShards(ds: seq<ShardData>, n: nat, i: nat)
    requires Represents(ds, n, map[]) && i < 2 * n
    ensures ds[i] == ShardData(map[], 0, 0)
  {
    assert ShardOk(ds[i], i, n);
    if ih :| ih in ds[i].swarms {
      assert SwarmOk(ih, ds[i].swarms[ih], i, n);
      NobodyThere(ds, n, i, ih);
      assert false;
    }
    assert ds[i].swarms == map[];
  }

  /** A store without the swarms of one info hash of one family. */
  ghost function Without(flat: Swarms, af: AddressFamily, ih: InfoHash): Swarms {
    WithBoth(flat, af, ih, NEW_SWARM)
  }

  /** One info hash less, and its peers. */
  ghost function LessOne(t: Totals, seeders: Hash, leechers: Hash): Totals {
    Totals(t.infohashes - 1, t.seeders - |seeders|, t.leechers - |leechers|)
  }

  lemma SizeWithout(flat: Swarms, af: AddressFamily, ih: InfoHash, f: AddressFamily, role: Role)
    ensures T.TotalSize(Without(flat, af, ih), f, role)
         == T.TotalSize(flat, f, role) - if f == af then |HashOf(flat, SwarmKey(af, role, ih))| else 0
  {
    var k, l := SwarmKey(af, Seeder, ih), SwarmKey(af, Leecher, ih);
    HashOfWithHash(flat, l, map[], k);
    T.TotalSizeWithHash(flat, l, map[], f, role);
    T.TotalSizeWithHash(WithHash(flat, l, map[]), k, map[], f, role);
  }

  lemma TotalsWithout(flat: Swarms, af: AddressFamily, ih: InfoHash)
    requires SwarmKey(af, Seeder, ih) in flat || SwarmKey(af, Leecher, ih) in flat
    ensures TotalsIn(Without(flat, af, ih))
      == LessOne(TotalsIn(flat), HashOf(flat, SwarmKey(af, Seeder, ih)), HashOf(flat, SwarmKey(af, Leecher, ih)))
  {
    HashesWithout(flat, af, ih);
    BothWithout(flat, af, ih, Seeder);
    BothWithout(flat, af, ih, Leecher);
  }

  lemma BothWithout(flat: Swarms, af: AddressFamily, ih: InfoHash, role: Role)
    ensures InBoth(Without(flat, af, ih), role) == InBoth(flat, role) - |HashOf(flat, SwarmKey(af, role, ih))|
  {
    SizeWithout(flat, af, ih, IPv4, role);
    SizeWithout(flat, af, ih, IPv6, role);
  }

  lemma WithoutHas(flat: Swarms, af: AddressFamily, ih: InfoHash, k: SwarmKey)
    ensures k in Without(flat, af, ih) <==> k in flat && !(k.af == af && k.ih == ih)
  {
    assert Without(flat, af, ih) == flat - {SwarmKey(af, Leecher, ih)} - {SwarmKey(af, Seeder, ih)};
    match k.role
    case Seeder => assert k == SwarmKey(af, Seeder, ih) <==> k.af == af && k.ih == ih;
    case Leecher => assert k == SwarmKey(af, Leecher, ih) <==> k.af == af && k.ih == ih;
  }

  lemma HashesWithout(flat: Swarms, af: AddressFamily, ih: InfoHash)
    requires SwarmKey(af, Seeder, ih) in flat || SwarmKey(af, Leecher, ih) in flat
    ensures (af, ih) in HashesIn(flat) && HashesIn(Without(flat, af, ih)) == HashesIn(flat) - {(af, ih)}
  {
    var rest := Without(flat, af, ih);
    forall k ensures k in rest <==> k in flat && !(k.af == af && k.ih == ih) {
      WithoutHas(flat, af, ih, k);
    }
    forall p ensures p in HashesIn(rest) <==> p in HashesIn(flat) && p != (af, ih) {
      if p in HashesIn(flat) && p != (af, ih) {
        var k :| k in flat && (k.af, k.ih) == p;
        assert k in rest;
      }
    }
  }

  lemma ShardLessOne(d: ShardData, ih: InfoHash)
    requires ih in d.swarms
    ensures var d', sw := WithSwarm(d, ih, NEW_SWARM), d.swarms[ih];
      && |d'.swarms| == |d.swarms| - 1
      && d'.numSeeders == d.numSeeders - |sw.seeders| && d'.numLeechers == d.numLeechers - |sw.leechers|
  {
    assert (d.swarms - {ih}).Keys == d.swarms.Keys - {ih};
  }

  lemma SameSizes(ds: seq<ShardData>, n: nat, flat: Swarms, af: AddressFamily, ih: InfoHash)
    requires Represents(ds, n, flat)
    requires SwarmKey(af, Seeder, ih) in flat || SwarmKey(af, Leecher, ih) in flat
    ensures var swarms := ds[IndexOf(ih, af, n)].swarms;
      && ih in swarms && swarms[ih].seeders == HashOf(flat, SwarmKey(af, Seeder, ih))
      && swarms[ih].leechers == HashOf(flat, SwarmKey(af, Leecher, ih))
  {
    assert AgreeOn(ds, n, flat, SwarmKey(af, Seeder, ih)) && AgreeOn(ds, n, flat, SwarmKey(af, Leecher, ih));
  }

  /** Taking an info hash out of its shard takes as much off the counters as off the store. */
  lemma ShardWithout(ds: seq<ShardData>, n: nat, flat: Swarms, af: AddressFamily, ih: InfoHash)
      returns (ds': seq<ShardData>)
    requires Represents(ds, n, flat)
    requires SwarmKey(af, Seeder, ih) in flat || SwarmKey(af, Leecher, ih) in flat
    ensures Represents(ds', n, Without(flat, af, ih))
    ensures TotalsOf(ds')
      == LessOne(TotalsOf(ds), HashOf(flat, SwarmKey(af, Seeder, ih)), HashOf(flat, SwarmKey(af, Leecher, ih)))
  {
    var i := IndexOf(ih, af, n);
    SameSizes(ds, n, flat, af, ih);
    ds' := ShardTaken(ds, i, ih);
    OneSwarmChanged(ds, n, flat, af, ih, NEW_SWARM);
  }

  lemma ShardTaken(ds: seq<ShardData>, i: nat, ih: InfoHash) returns (ds': seq<ShardData>)
    requires i < |ds| && ih in ds[i].swarms
    ensures ds' == ds[i := WithSwarm(ds[i], ih, NEW_SWARM)]
    ensures TotalsOf(ds') == LessOne(TotalsOf(ds), ds[i].swarms[ih].seeders, ds[i].swarms[ih].leechers)
  {
    var d := WithSwarm(ds[i], ih, NEW_SWARM);
    ds' := ds[i := d];
    ShardLessOne(ds[i], ih);
    TotalsUpdate(ds, i, d);
  }

  lemma SomeHash(flat: Swarms) returns (af: AddressFamily, ih: InfoHash)
    requires flat != map[]
    ensures SwarmKey(af, Seeder, ih) in flat || SwarmKey(af, Leecher, ih) in flat
    ensures |Without(flat, af, ih)| < |flat|
  {
    var k :| k in flat;
    af, ih := k.af, k.ih;
    match k.role {
      case Seeder => assert k == SwarmKey(af, Seeder, ih);
      case Leecher => assert k == SwarmKey(af, Leecher, ih);
    }
    var rest := Without(flat, af, ih);
    forall j ensures j in rest.Keys ==> j in flat.Keys && j != k {
      WithoutHas(flat, af, ih, j);
    }
    SubsetSize(rest.Keys, flat.Keys);
  }

  lemma NothingCounted(ds: seq<ShardData>, n: nat)
    requires Represents(ds, n, map[])
    ensures TotalsOf(ds) == TotalsIn(map[])
  {
    forall i | 0 <= i < |ds| ensures ds[i] == ShardData(map[], 0, 0) {
      EmptyShards(ds, n, i);
    }
    EmptyTotals(ds);
    assert HashesIn(map[]) == {};
  }

  /** Any store with a peer is one info hash more than another, in its shards as in its peers. */
  lemma OneLess(ds: seq<ShardData>, n: nat, flat: Swarms)
      returns (ds': seq<ShardData>, flat': Swarms, seeders: Hash, leechers: Hash)
    requires Represents(ds, n, flat) && flat != map[]
    ensures Represents(ds', n, flat') && |flat'| < |flat|
    ensures TotalsOf(ds') == LessOne(TotalsOf(ds), seeders, leechers)
    ensures TotalsIn(flat') == LessOne(TotalsIn(flat), seeders, leechers)
  {
    var af, ih := SomeHash(flat);
    seeders, leechers := HashOf(flat, SwarmKey(af, Seeder, ih)), HashOf(flat, SwarmKey(af, Leecher, ih));
    ds' := ShardWithout(ds, n, flat, af, ih);
    flat' := Without(flat, af, ih);
    TotalsWithout(flat, af, ih);
  }

  lemma LessOneInjective(t: Totals, u: Totals, seeders: Hash, leechers: Hash)
    requires LessOne(t, seeders, leechers) == LessOne(u, seeders, leechers)
    ensures t == u
  {
  }

  /** The counters of the shards add up to the peers stored, and their swarms to the info hashes. */
  lemma {:induction false} TotalsExact(ds: seq<ShardData>, n: nat, flat: Swarms)
    requires Represents(ds, n, flat)
    ensures TotalsOf(ds) == TotalsIn(flat)
    decreases |flat|
  {
    if flat == map[] {
      NothingCounted(ds, n);
    } else {
      var ds', flat', seeders, leechers := OneLess(ds, n, flat);
      TotalsExact(ds', n, flat');
      LessOneInjective(TotalsOf(ds), TotalsIn(flat), seeders, leechers);
    }
  }

  lemma TotalsAreCounts(flat: Swarms)
    ensures var t := TotalsIn(flat);
      && t.seeders == |T.PeersIn(flat, IPv4, Seeder)| + |T.PeersIn(flat, IPv6, Seeder)|
      && t.leechers == |T.PeersIn(flat, IPv4, Leecher)| + |T.PeersIn(flat, IPv6, Leecher)|
  {
    T.TotalSizeCounts(flat, IPv4, Seeder);
    T.TotalSizeCounts(flat, IPv6, Seeder);
    T.TotalSizeCounts(flat, IPv4, Leecher);
    T.TotalSizeCounts(flat, IPv6, Leecher);
  }

  /** The loop of populateProm. */
  method AddUp(shards: seq<Shard>, ghost ds: seq<ShardData>) returns (t: Totals)
    requires |ds| == |shards| && forall i :: 0 <= i < |shards| ==> ds[i] == shards[i].Data()
    ensures t == TotalsOf(ds)
  {
    t := Totals(0, 0, 0);
    for i := 0 to |shards|
      invariant t == TotalsOf(ds[..i])
    {
      assert ds[..i + 1][..i] == ds[..i];
      t := Totals(t.infohashes + |shards[i].swarms|, t.seeders + shards[i].numSeeders,
                  t.leechers + shards[i].numLeechers);
    }
    assert ds[..|ds|] == ds;
  }

  /** populateProm: what it reports are the info hashes that have a peer and the peers stored, each once. */
  method PopulateProm(store: MemoryStore) returns (t: Totals)
    requires store.Valid()
    ensures t.infohashes == |HashesIn(store.flat)|
    ensures t.seeders == |T.PeersIn(store.flat, IPv4, Seeder)| + |T.PeersIn(store.flat, IPv6, Seeder)|
    ensures t.leechers == |T.PeersIn(store.flat, IPv4, Leecher)| + |T.PeersIn(store.flat, IPv6, Leecher)|
  {
    t := AddUp(store.shards, store.Data());
    TotalsExact(store.Data(), store.n, store.flat);
    TotalsAreCounts(store.flat);
  }
}
