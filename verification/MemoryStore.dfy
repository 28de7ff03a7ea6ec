/** The in-memory peer store: shards of swarms with separately kept peer counters. */
module MemoryStore {
  import opened BitTorrent
  import opened MapSums
  import opened PeerStoreSpec
  import opened PeerSelection
  import opened Expiry
  import opened AnnounceSpec

  datatype Swarm = Swarm(seeders: Hash, leechers: Hash) {
    function Of(role: Role): Hash { if role == Seeder then seeders else leechers }

    function Updated(role: Role, h: Hash): Swarm {
      if role == Seeder then this.(seeders := h) else this.(leechers := h)
    }

    predicate Empty() { |seeders| == 0 && |leechers| == 0 }
  }

  const NEW_SWARM := Swarm(map[], map[])

  // ---------- which shard ----------

  /** `uint32(len(ps.shards)) / 2`. */
  function ShardDivisor(len: nat): nat { len % 0x1_0000_0000 / 2 }

  /** shardIndex, with its 32-bit arithmetic, for a store of `len` shards. */
  function ShardIndex(ih: InfoHash, af: AddressFamily, len: nat): nat
    requires ShardDivisor(len) != 0
  {
    var idx := FromUint32BE(ih[..4]) % ShardDivisor(len);
    if af == IPv6 then (idx + len / 2 % 0x1_0000_0000) % 0x1_0000_0000 else idx
  }

  predicate ValidShardCount(n: int) { 0 < n < 0x8000_0000 }

  /** The first half of the shards is for IPv4, the second for IPv6. */
  function FamilyOfShard(i: nat, n: nat): AddressFamily { if i < n then IPv4 else IPv6 }

  lemma HalvesDoNotWrap(h: nat, n: nat)
    requires ValidShardCount(n)
    ensures 2 * n % 0x1_0000_0000 / 2 == n && 2 * n / 2 % 0x1_0000_0000 == n
    ensures 0 <= h % n < n && (h % n + n) % 0x1_0000_0000 == h % n + n
  {
  }

  lemma ShardIndexInHalf(ih: InfoHash, af: AddressFamily, n: nat)
    requires ValidShardCount(n)
    ensures ShardDivisor(2 * n) == n
    ensures ShardIndex(ih, af, 2 * n) < 2 * n
    ensures FamilyOfShard(ShardIndex(ih, af, 2 * n), n) == af
    ensures ShardIndex(ih, IPv6, 2 * n) == ShardIndex(ih, IPv4, 2 * n) + n
  {
    HalvesDoNotWrap(FromUint32BE(ih[..4]), n);
  }

  /** The remainder by repeated subtraction. */
  function Rem(h: nat, n: nat): (r: nat)
    requires n > 0
    ensures r < n
  {
    if h < n then h else Rem(h - n, n)
  }

  lemma {:induction false} RemIsMod(h: nat, n: nat)
    requires n > 0
    ensures Rem(h, n) == h % n
  {
    if h >= n {
      RemIsMod(h - n, n);
      ModStep(h, n);
    } else {
      ModSmall(h, n);
    }
  }

  lemma ModSmall(h: nat, n: nat)
    requires h < n
    ensures h % n == h
  {
  }

  lemma ModStep(h: nat, n: nat)
    requires 0 < n <= h
    ensures h % n == (h - n) % n
  {
    var q, r := (h - n) / n, (h - n) % n;
    assert h - n == q * n + r;
    assert h == (q + 1) * n + r;
    ModUnique(h, n, q + 1, r);
  }

  lemma ModUnique(h: nat, n: nat, q: nat, r: nat)
    requires 0 < n && r < n && h == q * n + r
    ensures h % n == r
  {
    var q', r' := h / n, h % n;
    Quotients(n, q, r, q', r');
  }

  lemma Quotients(n: nat, q: int, r: int, q': int, r': int)
    requires 0 < n && 0 <= r < n && 0 <= r' < n && q * n + r == q' * n + r'
    ensures r == r'
  {
    assert (q - q') * n == r' - r;
    if q > q' {
      AtLeast(q - q', n);
    } else if q < q' {
      AtLeast(q' - q, n);
    }
  }

  lemma AtLeast(a: int, n: nat)
    requires a >= 1
    ensures a * n >= n
  {
  }

  /** shardIndex in a store of n shards per family. */
  function IndexOf(ih: InfoHash, af: AddressFamily, n: nat): (i: nat)
    requires ValidShardCount(n)
    ensures i < 2 * n && FamilyOfShard(i, n) == af
  {
    Rem(FromUint32BE(ih[..4]), n) + if af == IPv6 then n else 0
  }

  /** The 32-bit arithmetic of shardIndex comes to the plain one for every valid shard count. */
  lemma IndexIsShardIndex(ih: InfoHash, af: AddressFamily, n: nat)
    requires ValidShardCount(n)
    ensures ShardDivisor(2 * n) == n && IndexOf(ih, af, n) == ShardIndex(ih, af, 2 * n)
  {
    ShardIndexInHalf(ih, af, n);
    RemIsMod(FromUint32BE(ih[..4]), n);
    HalvesDoNotWrap(FromUint32BE(ih[..4]), n);
  }

  /** A count that Validate lets through works as intended exactly when its double fits 32 bits. */
  lemma ShardDivisorExactIff(n: nat)
    requires 0 < n
    ensures ShardDivisor(2 * n) == n <==> ValidShardCount(n)
    ensures ShardDivisor(2 * 0x8000_0000) == 0
  {
    if n < 0x8000_0000 {
      assert 2 * n % 0x1_0000_0000 == 2 * n;
    }
  }

  // ---------- one shard ----------

  type ShardSwarms = map<InfoHash, Swarm>

  ghost function SizeOf(role: Role): (InfoHash, Swarm) -> int {
    (ih: InfoHash, sw: Swarm) => |sw.Of(role)|
  }

  /** The number of peers of one role in a shard. */
  ghost function Peers(swarms: ShardSwarms, role: Role): int {
    Sum(swarms, SizeOf(role))
  }

  function SwarmAt(swarms: ShardSwarms, ih: InfoHash): Swarm {
    if ih in swarms then swarms[ih] else NEW_SWARM
  }

  /** Storing a swarm, or dropping it once it has no peer left. */
  function Stored(swarms: ShardSwarms, ih: InfoHash, sw: Swarm): ShardSwarms {
    if sw.Empty() then swarms - {ih} else swarms[ih := sw]
  }

  lemma StoredOver(swarms: ShardSwarms, ih: InfoHash, sw: Swarm)
    ensures Stored(swarms[ih := sw], ih, sw) == Stored(swarms, ih, sw)
  {
    assert swarms[ih := sw] - {ih} == swarms - {ih};
  }

  ghost predicate KeysOfFamily(sw: Swarm, af: AddressFamily) {
    && (forall pk :: pk in sw.seeders ==> KeyOfFamily(af, pk))
    && (forall pk :: pk in sw.leechers ==> KeyOfFamily(af, pk))
  }

  /** A swarm that is kept: not empty, in its own shard, and only keys of the shard's family. */
  ghost predicate SwarmOk(ih: InfoHash, sw: Swarm, i: nat, n: nat)
    requires ValidShardCount(n)
  {
    !sw.Empty() && KeysOfFamily(sw, FamilyOfShard(i, n)) && i == IndexOf(ih, FamilyOfShard(i, n), n)
  }

  /** What a shard holds, as a value. */
  datatype ShardData = ShardData(swarms: ShardSwarms, numSeeders: int, numLeechers: int)

  ghost predicate ShardOk(d: ShardData, i: nat, n: nat)
    requires ValidShardCount(n)
  {
    && (forall ih :: ih in d.swarms ==> SwarmOk(ih, d.swarms[ih], i, n))
    && d.numSeeders == Peers(d.swarms, Seeder)
    && d.numLeechers == Peers(d.swarms, Leecher)
  }

  ghost predicate ShardsOk(ds: seq<ShardData>, n: nat)
    requires ValidShardCount(n) && |ds| == 2 * n
  {
    forall i :: 0 <= i < 2 * n ==> ShardOk(ds[i], i, n)
  }

  /** The shards and the flat store agree on one swarm. */
  ghost predicate AgreeOn(ds: seq<ShardData>, n: nat, flat: Swarms, k: SwarmKey)
    requires ValidShardCount(n) && |ds| == 2 * n
  {
    HashOf(flat, k) == SwarmAt(ds[IndexOf(k.ih, k.af, n)].swarms, k.ih).Of(k.role)
  }

  /** The shards represent the flat store. */
  ghost predicate Represents(ds: seq<ShardData>, n: nat, flat: Swarms) {
    && ValidShardCount(n) && |ds| == 2 * n && ShardsOk(ds, n)
    && NoEmptySwarm(flat)
    && (forall k :: AgreeOn(ds, n, flat, k))
  }

  lemma EmptyRepresents(ds: seq<ShardData>, n: nat)
    requires ValidShardCount(n) && |ds| == 2 * n && forall i :: 0 <= i < 2 * n ==> ds[i] == ShardData(map[], 0, 0)
    ensures Represents(ds, n, map[])
  {
  }

  /** Replacing one swarm of a shard and adjusting its counters. */
  ghost function WithSwarm(d: ShardData, ih: InfoHash, sw: Swarm): ShardData {
    var was := SwarmAt(d.swarms, ih);
    ShardData(Stored(d.swarms, ih, sw),
              d.numSeeders + |sw.seeders| - |was.seeders|, d.numLeechers + |sw.leechers| - |was.leechers|)
  }

  lemma PeersStored(swarms: ShardSwarms, ih: InfoHash, sw: Swarm, role: Role)
    ensures Peers(Stored(swarms, ih, sw), role)
         == Peers(swarms, role) - |SwarmAt(swarms, ih).Of(role)| + |sw.Of(role)|
  {
    SumPut(swarms, SizeOf(role), ih, sw);
    SumDrop(swarms, SizeOf(role), ih);
  }

  /** A counter is never below the size of one of its swarms, so no decrement underflows. */
  lemma PeersBound(swarms: ShardSwarms, ih: InfoHash, role: Role)
    ensures Peers(swarms, role) >= |SwarmAt(swarms, ih).Of(role)|
  {
    if ih in swarms {
      SumBounds(swarms, SizeOf(role), ih);
    } else {
      SumNonNegative(swarms, SizeOf(role));
    }
  }

  lemma WithSwarmOk(d: ShardData, i: nat, n: nat, ih: InfoHash, sw: Swarm)
    requires ValidShardCount(n) && ShardOk(d, i, n)
    requires i == IndexOf(ih, FamilyOfShard(i, n), n) && KeysOfFamily(sw, FamilyOfShard(i, n))
    ensures ShardOk(WithSwarm(d, ih, sw), i, n)
  {
    PeersStored(d.swarms, ih, sw, Seeder);
    PeersStored(d.swarms, ih, sw, Leecher);
    StoredOk(d.swarms, i, n, ih, sw);
  }

  lemma StoredOk(swarms: ShardSwarms, i: nat, n: nat, ih: InfoHash, sw: Swarm)
    requires ValidShardCount(n) && forall ih' :: ih' in swarms ==> SwarmOk(ih', swarms[ih'], i, n)
    requires i == IndexOf(ih, FamilyOfShard(i, n), n) && KeysOfFamily(sw, FamilyOfShard(i, n))
    ensures var after := Stored(swarms, ih, sw); forall ih' :: ih' in after ==> SwarmOk(ih', after[ih'], i, n)
  {
    var after := Stored(swarms, ih, sw);
    forall ih' | ih' in after ensures SwarmOk(ih', after[ih'], i, n) {
      assert ih' == ih || ih' in swarms;
    }
  }

  ghost function WithBoth(flat: Swarms, af: AddressFamily, ih: InfoHash, sw: Swarm): Swarms {
    WithHash(WithHash(flat, SwarmKey(af, Leecher, ih), sw.leechers), SwarmKey(af, Seeder, ih), sw.seeders)
  }

  /** A step that touches one info hash of one shard keeps the representation. */
  lemma OneSwarmChanged(ds: seq<ShardData>, n: nat, flat: Swarms, af: AddressFamily, ih: InfoHash, sw: Swarm)
    requires Represents(ds, n, flat) && KeysOfFamily(sw, af)
    ensures var i := IndexOf(ih, af, n);
      Represents(ds[i := WithSwarm(ds[i], ih, sw)], n, WithBoth(flat, af, ih, sw))
  {
    var i := IndexOf(ih, af, n);
    ShardsOkAfter(ds, n, i, ih, sw);
    var ds', flat' := ds[i := WithSwarm(ds[i], ih, sw)], WithBoth(flat, af, ih, sw);
    forall k ensures AgreeOn(ds', n, flat', k) {
      assert AgreeOn(ds, n, flat, k);
      AgreeAfter(ds, n, flat, af, ih, sw, k);
    }
  }

  lemma ShardsOkAfter(ds: seq<ShardData>, n: nat, i: nat, ih: InfoHash, sw: Swarm)
    requires ValidShardCount(n) && |ds| == 2 * n && ShardsOk(ds, n) && i < 2 * n
    requires i == IndexOf(ih, FamilyOfShard(i, n), n) && KeysOfFamily(sw, FamilyOfShard(i, n))
    ensures ShardsOk(ds[i := WithSwarm(ds[i], ih, sw)], n)
  {
    WithSwarmOk(ds[i], i, n, ih, sw);
  }

  lemma AgreeAfter(ds: seq<ShardData>, n: nat, flat: Swarms, af: AddressFamily, ih: InfoHash, sw: Swarm, k: SwarmKey)
    requires ValidShardCount(n) && |ds| == 2 * n && AgreeOn(ds, n, flat, k)
    ensures var i := IndexOf(ih, af, n);
      AgreeOn(ds[i := WithSwarm(ds[i], ih, sw)], n, WithBoth(flat, af, ih, sw), k)
  {
    var i, j := IndexOf(ih, af, n), IndexOf(k.ih, k.af, n);
    HashOfWithBoth(flat, af, ih, sw, k);
    SwarmAtStored(ds[i].swarms, ih, sw, k.ih);
    if k.ih == ih && k.af != af {
      assert i != j;
    }
  }

  lemma HashOfWithBoth(flat: Swarms, af: AddressFamily, ih: InfoHash, sw: Swarm, k: SwarmKey)
    ensures HashOf(WithBoth(flat, af, ih, sw), k) == if k.af == af && k.ih == ih then sw.Of(k.role) else HashOf(flat, k)
  {
  }

  lemma SwarmAtStored(swarms: ShardSwarms, ih: InfoHash, sw: Swarm, ih': InfoHash)
    ensures ih' != ih ==> SwarmAt(Stored(swarms, ih, sw), ih') == SwarmAt(swarms, ih')
    ensures forall role :: SwarmAt(Stored(swarms, ih, sw), ih).Of(role) == sw.Of(role)
  {
  }

  /** The counters cover the peers of a swarm, so deleting them does not underflow. */
  ghost predicate Covered(d: ShardData, ih: InfoHash) {
    d.numSeeders >= |SwarmAt(d.swarms, ih).seeders| && d.numLeechers >= |SwarmAt(d.swarms, ih).leechers|
  }

  /** peerShard. */
  class Shard {
    var swarms: ShardSwarms
    var numSeeders: nat
    var numLeechers: nat

    constructor ()
      ensures Data() == ShardData(map[], 0, 0)
    {
      swarms, numSeeders, numLeechers := map[], 0, 0;
    }

    ghost function Data(): ShardData
      reads this
    {
      ShardData(swarms, numSeeders, numLeechers)
    }

    /** The locked part of PutSeeder and PutLeecher. */
    method Put(ih: InfoHash, role: Role, pk: PeerKey, now: int)
      modifies this
      ensures Data() == WithSwarm(old(Data()), ih, PutIn(SwarmAt(old(swarms), ih), role, pk, now))
    {
      if ih !in swarms {
        swarms := swarms[ih := NEW_SWARM];
      }
      if pk !in swarms[ih].Of(role) {
        if role == Seeder {
          numSeeders := numSeeders + 1;
        } else {
          numLeechers := numLeechers + 1;
        }
      }
      PutInSize(swarms[ih], role, pk, now);
      swarms := swarms[ih := swarms[ih].Updated(role, swarms[ih].Of(role)[pk := now])];
    }

    /** The locked part of DeleteSeeder and DeleteLeecher. */
    method Delete(ih: InfoHash, role: Role, pk: PeerKey) returns (err: StoreError)
      requires Covered(Data(), ih)
      modifies this
      ensures err == ErrResourceDoesNotExist <==> pk !in SwarmAt(old(swarms), ih).Of(role)
      ensures Data() == AfterDelete(old(Data()), ih, role, pk)
    {
      if ih !in swarms {
        return ErrResourceDoesNotExist;
      }
      if pk !in swarms[ih].Of(role) {
        return ErrResourceDoesNotExist;
      }
      RemoveFromSize(swarms[ih], role, pk);
      if role == Seeder {
        numSeeders := numSeeders - 1;
      } else {
        numLeechers := numLeechers - 1;
      }
      StoredOver(swarms, ih, RemoveFrom(swarms[ih], role, pk));
      swarms := swarms[ih := swarms[ih].Updated(role, swarms[ih].Of(role) - {pk})];
      if swarms[ih].Empty() {
        swarms := swarms - {ih};
      }
      err := Nil;
    }

    /** The first half of GraduateLeecher: the swarm exists from here on, and the peer is no leecher. */
    method TakeLeecher(ih: InfoHash, pk: PeerKey)
      requires Covered(Data(), ih)
      modifies this
      ensures ih in swarms && swarms == old(swarms)[ih := RemoveFrom(SwarmAt(old(swarms), ih), Leecher, pk)]
      ensures numSeeders == old(numSeeders)
      ensures numLeechers == old(numLeechers) - |SwarmAt(old(swarms), ih).leechers| + |swarms[ih].leechers|
    {
      RemoveFromSize(SwarmAt(swarms, ih), Leecher, pk);
      if ih !in swarms {
        swarms := swarms[ih := NEW_SWARM];
      }
      if pk in swarms[ih].leechers {
        numLeechers := numLeechers - 1;
        swarms := swarms[ih := swarms[ih].Updated(Leecher, swarms[ih].leechers - {pk})];
      }
    }

    /** The locked part of GraduateLeecher. */
    method Graduate(ih: InfoHash, pk: PeerKey, now: int)
      requires Covered(Data(), ih)
      modifies this
      ensures Data() == WithSwarm(old(Data()), ih,
        PutIn(RemoveFrom(SwarmAt(old(swarms), ih), Leecher, pk), Seeder, pk, now))
    {
      TakeLeecher(ih, pk);
      ghost var sw := swarms[ih];
      PutInSize(sw, Seeder, pk, now);
      if pk !in swarms[ih].seeders {
        numSeeders := numSeeders + 1;
      }
      swarms := swarms[ih := swarms[ih].Updated(Seeder, swarms[ih].seeders[pk := now])];
      assert swarms == old(swarms)[ih := PutIn(sw, Seeder, pk, now)];
    }

    /** The collector's loop over one role of a swarm, deleting from the map it ranges over. */
    method Expire(ih: InfoHash, role: Role, cutoff: int)
      requires ih in swarms && Covered(Data(), ih)
      modifies this
      ensures swarms == old(swarms)[ih := old(swarms)[ih].Updated(role, Fresh(old(swarms)[ih].Of(role), cutoff))]
      ensures numSeeders == old(numSeeders) - |old(swarms)[ih].seeders| + |swarms[ih].seeders|
      ensures numLeechers == old(numLeechers) - |old(swarms)[ih].leechers| + |swarms[ih].leechers|
    {
      ghost var sw, h := swarms[ih], swarms[ih].Of(role);
      ghost var cur := h;
      var order := Listing(swarms[ih].Of(role).Keys);
      MidwayStart(h, order, cutoff);
      for i := 0 to |order|
        invariant swarms == old(swarms)[ih := sw.Updated(role, cur)]
        invariant Midway(h, order, i, cutoff, cur)
        invariant numSeeders == old(numSeeders) - (if role == Seeder then |h| - |cur| else 0)
        invariant numLeechers == old(numLeechers) - (if role == Leecher then |h| - |cur| else 0)
      {
        var pk := order[i];
        MidwayStep(h, order, i, cutoff, cur);
        assert swarms[ih].Of(role) == cur;
        var mtime := swarms[ih].Of(role)[pk];
        if mtime <= cutoff {
          if role == Seeder {
            numSeeders := numSeeders - 1;
          } else {
            numLeechers := numLeechers - 1;
          }
          assert RemoveFrom(swarms[ih], role, pk) == sw.Updated(role, cur - {pk});
          ReUpdate(old(swarms), ih, swarms[ih], RemoveFrom(swarms[ih], role, pk));
          swarms := swarms[ih := RemoveFrom(swarms[ih], role, pk)];
          cur := cur - {pk};
        }
      }
      MidwayEnd(h, order, cutoff, cur);
    }

    /** The locked part of the collector's visit of one info hash. */
    method Visit(ih: InfoHash, cutoff: int)
      requires Covered(Data(), ih)
      modifies this
      ensures Data() == WithSwarm(old(Data()), ih, FreshSwarm(SwarmAt(old(swarms), ih), cutoff))
    {
      if ih !in swarms {
        VisitAbsent(Data(), ih, cutoff);
        return;
      }
      FreshSmaller(swarms[ih].leechers, cutoff);
      Expire(ih, Leecher, cutoff);
      ghost var mid := swarms;
      Expire(ih, Seeder, cutoff);
      UpdatedBoth(old(swarms), mid, swarms, ih, swarms[ih].seeders, swarms[ih].leechers);
      if swarms[ih].Empty() {
        swarms := swarms - {ih};
      }
    }
  }

  lemma VisitAbsent(d: ShardData, ih: InfoHash, cutoff: int)
    requires ih !in d.swarms
    ensures WithSwarm(d, ih, FreshSwarm(SwarmAt(d.swarms, ih), cutoff)) == d
  {
    assert Fresh(map[], cutoff) == map[];
    assert d.swarms - {ih} == d.swarms;
  }

  lemma ReUpdate(s: ShardSwarms, ih: InfoHash, a: Swarm, b: Swarm)
    ensures s[ih := a][ih := b] == s[ih := b]
  {
  }

  lemma UpdatedBoth(s: ShardSwarms, mid: ShardSwarms, s': ShardSwarms, ih: InfoHash, k: Hash, l: Hash)
    requires ih in s && mid == s[ih := s[ih].Updated(Leecher, l)]
    requires s' == mid[ih := mid[ih].Updated(Seeder, k)]
    ensures mid[ih].seeders == s[ih].seeders && mid[ih].leechers == s'[ih].leechers
    ensures s'[ih] == Swarm(k, l)
    ensures (if s'[ih].Empty() then s' - {ih} else s') == Stored(s, ih, Swarm(k, l))
  {
  }

  function FreshSwarm(sw: Swarm, cutoff: int): Swarm {
    Swarm(Fresh(sw.seeders, cutoff), Fresh(sw.leechers, cutoff))
  }

  function PutIn(sw: Swarm, role: Role, pk: PeerKey, now: int): Swarm {
    sw.Updated(role, sw.Of(role)[pk := now])
  }

  function RemoveFrom(sw: Swarm, role: Role, pk: PeerKey): Swarm {
    sw.Updated(role, sw.Of(role) - {pk})
  }

  ghost function AfterDelete(d: ShardData, ih: InfoHash, role: Role, pk: PeerKey): ShardData {
    var sw := SwarmAt(d.swarms, ih);
    if pk in sw.Of(role) then WithSwarm(d, ih, RemoveFrom(sw, role, pk)) else d
  }

  lemma PutInSize(sw: Swarm, role: Role, pk: PeerKey, now: int)
    ensures |PutIn(sw, role, pk, now).Of(role)| == |sw.Of(role)| + (if pk in sw.Of(role) then 0 else 1)
    ensures !PutIn(sw, role, pk, now).Empty()
  {
    assert pk in PutIn(sw, role, pk, now).Of(role);
  }

  lemma RemoveFromSize(sw: Swarm, role: Role, pk: PeerKey)
    ensures |RemoveFrom(sw, role, pk).Of(role)| == |sw.Of(role)| - (if pk in sw.Of(role) then 1 else 0)
    ensures pk !in sw.Of(role) ==> RemoveFrom(sw, role, pk) == sw
  {
    var h := sw.Of(role);
    if pk in h {
      assert (h - {pk}).Keys == h.Keys - {pk};
    } else {
      assert h - {pk} == h;
    }
  }

  class MemoryStore {
    const enableDualStackPeers: bool
    const n: nat                // cfg.ShardCount
    const shards: seq<Shard>
    ghost var flat: Swarms      // the abstract store

    ghost function Data(): seq<ShardData>
      reads shards
    {
      seq(|shards|, i requires 0 <= i < |shards| reads shards => shards[i].Data())
    }

    ghost predicate Valid()
      reads this, shards
    {
      Distinct(shards) && Represents(Data(), n, flat)
    }

    constructor (shardCount: nat, enableDualStackPeers: bool)
      requires ValidShardCount(shardCount)
      ensures Valid() && fresh(shards) && flat == map[] && this.enableDualStackPeers == enableDualStackPeers
    {
      var made: seq<Shard> := [];
      for i := 0 to shardCount * 2
        invariant |made| == i && fresh(made) && Distinct(made)
        invariant forall j :: 0 <= j < i ==> made[j].Data() == ShardData(map[], 0, 0)
      {
        var shard := new Shard();
        made := made + [shard];
      }
      n, shards := shardCount, made;
      this.enableDualStackPeers := enableDualStackPeers;
      flat := map[];
      new;
      EmptyRepresents(Data(), n);
    }

    twostate lemma OneShardChanged(i: nat)
      requires i < |shards| && Distinct(shards)
      requires forall j :: 0 <= j < |shards| && shards[j] != shards[i] ==> unchanged(shards[j])
      ensures Data() == old(Data())[i := shards[i].Data()]
    {
      forall j | 0 <= j < |shards| && j != i ensures shards[j].Data() == old(shards[j].Data()) {
        assert shards[j] != shards[i];
      }
    }

    /** PutSeeder and PutLeecher, at the clock reading `now`. */
    method PutPeer(ih: InfoHash, role: Role, p: Peer, now: int)
      requires Valid() && Sanitized(p)
      modifies this, shards
      ensures Valid()
      ensures flat == Put(old(flat), SwarmKey(p.ip.family, role, ih), NewPeerKey(p), now)
    {
      var pk := NewPeerKey(p);
      var i := IndexOf(ih, p.ip.family, n);
      PutFacts(Data(), n, flat, ih, role, p, now);
      shards[i].Put(ih, role, pk, now);
      flat := Put(flat, SwarmKey(p.ip.family, role, ih), pk, now);
      OneShardChanged(i);
    }

    /** DeleteSeeder and DeleteLeecher. */
    method DeletePeer(ih: InfoHash, role: Role, p: Peer) returns (err: StoreError)
      requires Valid() && Sanitized(p)
      modifies this, shards
      ensures Valid()
      ensures flat == Remove(old(flat), SwarmKey(p.ip.family, role, ih), NewPeerKey(p))
      ensures err == ErrResourceDoesNotExist <==>
              !Present(old(flat), SwarmKey(p.ip.family, role, ih), NewPeerKey(p))
    {
      var pk := NewPeerKey(p);
      var i := IndexOf(ih, p.ip.family, n);
      DeleteFacts(Data(), n, flat, p.ip.family, ih, role, pk);
      err := shards[i].Delete(ih, role, pk);
      flat := Remove(flat, SwarmKey(p.ip.family, role, ih), pk);
      OneShardChanged(i);
    }

    method GraduateLeecher(ih: InfoHash, p: Peer, now: int)
      requires Valid() && Sanitized(p)
      modifies this, shards
      ensures Valid()
      ensures flat == Graduate(old(flat), p.ip.family, ih, NewPeerKey(p), now)
    {
      var pk := NewPeerKey(p);
      var i := IndexOf(ih, p.ip.family, n);
      GraduateFacts(Data(), n, flat, ih, p, now);
      shards[i].Graduate(ih, pk, now);
      flat := Graduate(flat, p.ip.family, ih, pk, now);
      OneShardChanged(i);
    }

    /** The collector's first step on a shard: the info hashes it holds now. */
    method ListShard(i: nat) returns (infohashes: seq<InfoHash>)
      requires Valid() && i < 2 * n
      ensures Distinct(infohashes)
      ensures forall ih :: ih in infohashes <==> InShard(flat, n, i, ih)
    {
      infohashes := Listing(shards[i].swarms.Keys);
      forall ih ensures ih in shards[i].swarms <==> InShard(flat, n, i, ih) {
        InShardIff(Data(), n, flat, i, ih);
        assert Data()[i] == shards[i].Data();
      }
    }

    /** The collector's visit of one info hash it listed, now or earlier. */
    method VisitSwarm(i: nat, ih: InfoHash, cutoff: int)
      requires Valid() && i < 2 * n && i == IndexOf(ih, FamilyOfShard(i, n), n)
      modifies this, shards
      ensures Valid()
      ensures flat == Visit(old(flat), FamilyOfShard(i, n), ih, cutoff)
    {
      ghost var af, ds := FamilyOfShard(i, n), Data();
      VisitFacts(ds, n, flat, af, ih, cutoff);
      shards[i].Visit(ih, cutoff);
      flat := Visit(flat, af, ih, cutoff);
      OneShardChanged(i);
    }

    /** collectGarbage without interference. */
    method CollectGarbage(cutoff: int)
      requires Valid()
      modifies this, shards
      ensures Valid()
      ensures flat == Sweep(old(flat), cutoff)
    {
      SweptStart(flat, n, cutoff);
      for i := 0 to 2 * n
        invariant Valid()
        invariant SweptShards(old(flat), flat, n, cutoff, i, {})
      {
        var infohashes := ListShard(i);
        ghost var listed, done := flat, {};
        for j := 0 to |infohashes|
          invariant Valid()
          invariant forall ih :: ih in done <==> ih in infohashes[..j]
          invariant SweptShards(old(flat), flat, n, cutoff, i, done)
        {
          ghost var ih, before := infohashes[j], flat;
          assert ih in infohashes && InShard(listed, n, i, ih);
          assert ih !in infohashes[..j];
          VisitSwarm(i, infohashes[j], cutoff);
          SweptOneMore(old(flat), before, flat, n, cutoff, i, done, ih);
          done := done + {ih};
          assert infohashes[..j + 1] == infohashes[..j] + [ih];
        }
        assert infohashes[..|infohashes|] == infohashes;
        SweptShard(old(flat), listed, flat, n, cutoff, i, done);
      }
      SweptAll(old(flat), flat, n, cutoff);
    }

    /** What a reader of a shard sees, in terms of the flat store. */
    lemma ReadsFlat(af: AddressFamily, ih: InfoHash)
      requires Valid()
      ensures IndexOf(ih, af, n) < |shards|
      ensures var sw := SwarmAt(shards[IndexOf(ih, af, n)].swarms, ih);
        sw.seeders.Keys == KeysOf(flat, af, Seeder, ih) && sw.leechers.Keys == KeysOf(flat, af, Leecher, ih)
      ensures ih in shards[IndexOf(ih, af, n)].swarms <==> Tracked(flat, af, ih)
    {
      AgreeAt(Data(), n, flat, af, ih);
      TrackedIff(Data(), n, flat, af, ih);
      assert Data()[IndexOf(ih, af, n)] == shards[IndexOf(ih, af, n)].Data();
    }

    method ScrapeSwarm(ih: InfoHash, af: AddressFamily) returns (complete: uint32, incomplete: uint32)
      requires Valid()
      ensures complete == Scraped(flat, enableDualStackPeers, ih, af, Seeder)
      ensures incomplete == Scraped(flat, enableDualStackPeers, ih, af, Leecher)
    {
      if !enableDualStackPeers {
        ReadsFlat(af, ih);
        complete, incomplete := CountSwarm(shards[IndexOf(ih, af, n)].swarms, ih);
        return;
      }
      complete, incomplete := ScrapeBoth(ih);
    }

    /** The dual-stack branch of ScrapeSwarm. */
    method ScrapeBoth(ih: InfoHash) returns (complete: uint32, incomplete: uint32)
      requires Valid()
      ensures complete == Together(KeysOf(flat, IPv4, Seeder, ih), KeysOf(flat, IPv6, Seeder, ih))
      ensures incomplete == Together(KeysOf(flat, IPv4, Leecher, ih), KeysOf(flat, IPv6, Leecher, ih))
    {
      ReadsFlat(IPv4, ih);
      ReadsFlat(IPv6, ih);
      var v4, v6 := shards[IndexOf(ih, IPv4, n)].swarms, shards[IndexOf(ih, IPv6, n)].swarms;
      complete, incomplete := CountBoth(v4, v6, ih);
    }

    /** AnnouncePeers; `keys` are the stored keys behind the answer. */
    method AnnouncePeers(ih: InfoHash, seeder: bool, numWant: int, announcer: Peer)
        returns (peers: seq<Peer>, err: StoreError, ghost keys: seq<PeerKey>)
      requires Valid()
      ensures err == ErrResourceDoesNotExist <==> Missing(flat, enableDualStackPeers, ih, announcer.ip.family)
      ensures err == ErrResourceDoesNotExist ==> peers == [] && keys == []
      ensures err == Nil ==>
        Selection(keys, Classes(flat, enableDualStackPeers, ih, seeder, announcer.ip.family, NewPeerKey(announcer)),
                  numWant)
      ensures |peers| == |keys|
      ensures forall i :: 0 <= i < |keys| ==> DecodePeerKey(keys[i]) == Some(peers[i])
    {
      var af, announcerPK := announcer.ip.family, NewPeerKey(announcer);
      var picked: seq<PeerKey>;
      ReadsFlat(af, ih);
      if !enableDualStackPeers {
        var shard := shards[IndexOf(ih, af, n)];
        if ih !in shard.swarms {
          return [], ErrResourceDoesNotExist, [];
        }
        picked := PickSingle(shard.swarms[ih], seeder, numWant, announcerPK);
      } else {
        ReadsFlat(OtherFamily(af), ih);
        var sameShard, otherShard := shards[IndexOf(ih, af, n)], shards[IndexOf(ih, OtherFamily(af), n)];
        if ih !in sameShard.swarms && ih !in otherShard.swarms {
          return [], ErrResourceDoesNotExist, [];
        }
        picked := PickDual(SwarmAt(sameShard.swarms, ih), SwarmAt(otherShard.swarms, ih), seeder, numWant, announcerPK);
      }
      keys, err := picked, Nil;
      StoredKeysTyped(Data(), n, flat);
      SelectedKeysDecode(flat, enableDualStackPeers, ih, seeder, af, announcerPK, keys, numWant);
      peers := DecodeAll(picked);
    }
  }

  /** The single-stack part of ScrapeSwarm. */
  method CountSwarm(swarms: ShardSwarms, ih: InfoHash) returns (complete: uint32, incomplete: uint32)
    ensures complete == Wrap32(|SwarmAt(swarms, ih).seeders.Keys|)
    ensures incomplete == Wrap32(|SwarmAt(swarms, ih).leechers.Keys|)
  {
    complete, incomplete := 0, 0;
    if ih !in swarms {
      return;
    }
    incomplete := Wrap32(|swarms[ih].leechers|);
    complete := Wrap32(|swarms[ih].seeders|);
  }

  lemma WrapAdd(a: nat, b: nat)
    ensures Wrap32(0 + Wrap32(a)) == Wrap32(a)
    ensures Wrap32(Wrap32(a) + Wrap32(b)) == Wrap32(a + b)
  {
  }

  /** The dual-stack part of ScrapeSwarm. */
  method CountBoth(v4: ShardSwarms, v6: ShardSwarms, ih: InfoHash) returns (complete: uint32, incomplete: uint32)
    ensures complete == Together(SwarmAt(v4, ih).seeders.Keys, SwarmAt(v6, ih).seeders.Keys)
    ensures incomplete == Together(SwarmAt(v4, ih).leechers.Keys, SwarmAt(v6, ih).leechers.Keys)
  {
    complete, incomplete := 0, 0;
    WrapAdd(|SwarmAt(v4, ih).seeders|, |SwarmAt(v6, ih).seeders|);
    WrapAdd(|SwarmAt(v4, ih).leechers|, |SwarmAt(v6, ih).leechers|);
    if ih in v4 {
      complete := Wrap32(complete + Wrap32(|v4[ih].seeders|));
      incomplete := Wrap32(incomplete + Wrap32(|v4[ih].leechers|));
    }
    if ih in v6 {
      complete := Wrap32(complete + Wrap32(|v6[ih].seeders|));
      incomplete := Wrap32(incomplete + Wrap32(|v6[ih].leechers|));
    }
  }

  /** The single-stack loops of AnnouncePeers. */
  method PickSingle(sw: Swarm, seeder: bool, numWant: int, self: PeerKey) returns (keys: seq<PeerKey>)
    ensures Selection(keys, if seeder then [sw.leechers.Keys] else [sw.seeders.Keys, sw.leechers.Keys - {self}],
                      numWant)
  {
    var want;
    if seeder {
      keys, want := PickFrom(sw.leechers.Keys, None, numWant);
      SelectionFirst(keys, sw.leechers.Keys, numWant);
    } else {
      keys, want := PickFrom(sw.seeders.Keys, None, numWant);
      SelectionFirst(keys, sw.seeders.Keys, numWant);
      var more: seq<PeerKey> := [];
      if want > 0 {
        more, want := PickFrom(sw.leechers.Keys, Some(self), want);
      }
      ghost var first, others := sw.seeders.Keys, sw.leechers.Keys - {self};
      SelectionSnoc(keys, [first], numWant, more, others);
      assert [first] + [others] == [first, others];
      keys := keys + more;
    }
  }

  /** The dual-stack loops of AnnouncePeers; a family without a swarm contributes empty classes. */
  method PickDual(same: Swarm, other: Swarm, seeder: bool, numWant: int, self: PeerKey) returns (keys: seq<PeerKey>)
    ensures Selection(keys,
      if seeder then [same.leechers.Keys, other.leechers.Keys]
      else [same.seeders.Keys, other.seeders.Keys, same.leechers.Keys - {self}, other.leechers.Keys], numWant)
  {
    var want;
    if seeder {
      keys, want := PickFrom(same.leechers.Keys, None, numWant);
      ghost var cs := [same.leechers.Keys];
      SelectionFirst(keys, same.leechers.Keys, numWant);
      keys, want, cs := PickNext(keys, cs, numWant, want, other.leechers.Keys, None);
      assert cs == [same.leechers.Keys, other.leechers.Keys];
    } else {
      keys, want := PickFrom(same.seeders.Keys, None, numWant);
      ghost var cs := [same.seeders.Keys];
      SelectionFirst(keys, same.seeders.Keys, numWant);
      keys, want, cs := PickNext(keys, cs, numWant, want, other.seeders.Keys, None);
      keys, want, cs := PickNext(keys, cs, numWant, want, same.leechers.Keys, Some(self));
      keys, want, cs := PickNext(keys, cs, numWant, want, other.leechers.Keys, None);
      assert cs == [same.seeders.Keys, other.seeders.Keys, same.leechers.Keys - {self}, other.leechers.Keys];
    }
  }

  /** A further class, used only while peers are still wanted. */
  method PickNext(keys: seq<PeerKey>, ghost classes: seq<set<PeerKey>>, ghost numWant: int, want: int,
                  all: set<PeerKey>, skip: Option<PeerKey>)
      returns (keys': seq<PeerKey>, want': int, ghost classes': seq<set<PeerKey>>)
    requires Selection(keys, classes, numWant) && classes != [] && want == numWant - |keys|
    ensures classes' == classes + [Without(all, skip)]
    ensures Selection(keys', classes', numWant) && want' == numWant - |keys'|
  {
    classes' := classes + [Without(all, skip)];
    var more: seq<PeerKey> := [];
    want' := want;
    if want > 0 {
      more, want' := PickFrom(all, skip, want);
    }
    SelectionSnoc(keys, classes, numWant, more, Without(all, skip));
    keys' := keys + more;
  }

  lemma StoredKeysTyped(ds: seq<ShardData>, n: nat, flat: Swarms)
    requires Represents(ds, n, flat)
    ensures KeysTyped(flat)
  {
    forall k, pk | Present(flat, k, pk) ensures KeyOfFamily(k.af, pk) {
      AgreeAt(ds, n, flat, k.af, k.ih);
      var sw := SwarmAt(ds[IndexOf(k.ih, k.af, n)].swarms, k.ih);
      assert if k.role == Seeder then pk in sw.seeders else pk in sw.leechers;
    }
  }

  /** A shard holds an info hash if a swarm of its family does, and the hash belongs there. */
  predicate InShard(flat: Swarms, n: nat, i: nat, ih: InfoHash)
    requires ValidShardCount(n)
  {
    i == IndexOf(ih, FamilyOfShard(i, n), n) && Tracked(flat, FamilyOfShard(i, n), ih)
  }

  lemma InShardIff(ds: seq<ShardData>, n: nat, flat: Swarms, i: nat, ih: InfoHash)
    requires Represents(ds, n, flat) && i < 2 * n
    ensures ih in ds[i].swarms <==> InShard(flat, n, i, ih)
  {
    assert ShardOk(ds[i], i, n);
    if ih in ds[i].swarms { assert SwarmOk(ih, ds[i].swarms[ih], i, n); }
    TrackedIff(ds, n, flat, FamilyOfShard(i, n), ih);
  }

  lemma TrackedIff(ds: seq<ShardData>, n: nat, flat: Swarms, af: AddressFamily, ih: InfoHash)
    requires Represents(ds, n, flat)
    ensures ih in ds[IndexOf(ih, af, n)].swarms <==> Tracked(flat, af, ih)
  {
    var i := IndexOf(ih, af, n);
    AgreeAt(ds, n, flat, af, ih);
    assert ShardOk(ds[i], i, n);
    if ih in ds[i].swarms { assert SwarmOk(ih, ds[i].swarms[ih], i, n); }
  }

  lemma StoredKeys(ds: seq<ShardData>, n: nat, flat: Swarms, af: AddressFamily, ih: InfoHash)
    requires Represents(ds, n, flat)
    ensures KeysOfFamily(SwarmAt(ds[IndexOf(ih, af, n)].swarms, ih), af)
  {
    var i := IndexOf(ih, af, n);
    assert ShardOk(ds[i], i, n);
  }

  /** Changing one role of a swarm. */
  lemma WithBothOneRole(flat: Swarms, af: AddressFamily, ih: InfoHash, sw: Swarm, role: Role, h: Hash)
    requires NoEmptySwarm(flat)
    requires HashOf(flat, SwarmKey(af, Leecher, ih)) == sw.leechers
    requires HashOf(flat, SwarmKey(af, Seeder, ih)) == sw.seeders
    ensures WithBoth(flat, af, ih, sw.Updated(role, h)) == WithHash(flat, SwarmKey(af, role, ih), h)
  {
    var l, k := SwarmKey(af, Leecher, ih), SwarmKey(af, Seeder, ih);
    WithOwnHash(flat, l);
    if role == Leecher {
      WithOwnHash(WithHash(flat, l, h), k);
    }
  }

  lemma WithOwnHash(flat: Swarms, k: SwarmKey)
    requires NoEmptySwarm(flat)
    ensures WithHash(flat, k, HashOf(flat, k)) == flat
  {
  }

  lemma AgreeAt(ds: seq<ShardData>, n: nat, flat: Swarms, af: AddressFamily, ih: InfoHash)
    requires Represents(ds, n, flat)
    ensures var sw := SwarmAt(ds[IndexOf(ih, af, n)].swarms, ih);
      && HashOf(flat, SwarmKey(af, Leecher, ih)) == sw.leechers && HashOf(flat, SwarmKey(af, Seeder, ih)) == sw.seeders
      && KeysOfFamily(sw, af)
    ensures Covered(ds[IndexOf(ih, af, n)], ih)
  {
    assert AgreeOn(ds, n, flat, SwarmKey(af, Leecher, ih)) && AgreeOn(ds, n, flat, SwarmKey(af, Seeder, ih));
    StoredKeys(ds, n, flat, af, ih);
    var i := IndexOf(ih, af, n);
    assert ShardOk(ds[i], i, n);
    PeersBound(ds[i].swarms, ih, Seeder);
    PeersBound(ds[i].swarms, ih, Leecher);
  }

  lemma PutFacts(ds: seq<ShardData>, n: nat, flat: Swarms, ih: InfoHash, role: Role, p: Peer, now: int)
    requires Represents(ds, n, flat) && Sanitized(p)
    ensures var af, pk := p.ip.family, NewPeerKey(p);
      var i := IndexOf(ih, af, n);
      Represents(ds[i := WithSwarm(ds[i], ih, PutIn(SwarmAt(ds[i].swarms, ih), role, pk, now))], n,
                 Put(flat, SwarmKey(af, role, ih), pk, now))
  {
    var af, pk := p.ip.family, NewPeerKey(p);
    var sw := SwarmAt(ds[IndexOf(ih, af, n)].swarms, ih);
    AgreeAt(ds, n, flat, af, ih);
    PeerKeyRoundTrip(p);
    WithBothOneRole(flat, af, ih, sw, role, sw.Of(role)[pk := now]);
    OneSwarmChanged(ds, n, flat, af, ih, PutIn(sw, role, pk, now));
  }

  lemma DeleteFacts(ds: seq<ShardData>, n: nat, flat: Swarms, af: AddressFamily, ih: InfoHash, role: Role, pk: PeerKey)
    requires Represents(ds, n, flat)
    ensures var i, k := IndexOf(ih, af, n), SwarmKey(af, role, ih);
      && (Present(flat, k, pk) <==> pk in SwarmAt(ds[i].swarms, ih).Of(role))
      && Represents(ds[i := AfterDelete(ds[i], ih, role, pk)], n, Remove(flat, k, pk))
      && Covered(ds[i], ih)
  {
    var i := IndexOf(ih, af, n);
    var sw := SwarmAt(ds[i].swarms, ih);
    AgreeAt(ds, n, flat, af, ih);
    if pk in sw.Of(role) {
      WithBothOneRole(flat, af, ih, sw, role, sw.Of(role) - {pk});
      OneSwarmChanged(ds, n, flat, af, ih, RemoveFrom(sw, role, pk));
    } else {
      RemoveAbsent(flat, SwarmKey(af, role, ih), pk);
      assert ds[i := ds[i]] == ds;
    }
  }

  lemma GraduateFacts(ds: seq<ShardData>, n: nat, flat: Swarms, ih: InfoHash, p: Peer, now: int)
    requires Represents(ds, n, flat) && Sanitized(p)
    ensures var af, pk := p.ip.family, NewPeerKey(p);
      var i := IndexOf(ih, af, n);
      && Represents(ds[i := WithSwarm(ds[i], ih,
                                      PutIn(RemoveFrom(SwarmAt(ds[i].swarms, ih), Leecher, pk), Seeder, pk, now))], n,
                    Graduate(flat, af, ih, pk, now))
      && Covered(ds[i], ih)
  {
    var af, pk := p.ip.family, NewPeerKey(p);
    var sw := SwarmAt(ds[IndexOf(ih, af, n)].swarms, ih);
    var sw' := PutIn(RemoveFrom(sw, Leecher, pk), Seeder, pk, now);
    AgreeAt(ds, n, flat, af, ih);
    PeerKeyRoundTrip(p);
    OneSwarmChanged(ds, n, flat, af, ih, sw');
    GraduateIsWithBoth(flat, af, ih, sw, pk, now);
  }

  lemma GraduateIsWithBoth(flat: Swarms, af: AddressFamily, ih: InfoHash, sw: Swarm, pk: PeerKey, now: int)
    requires HashOf(flat, SwarmKey(af, Leecher, ih)) == sw.leechers
    requires HashOf(flat, SwarmKey(af, Seeder, ih)) == sw.seeders
    ensures WithBoth(flat, af, ih, PutIn(RemoveFrom(sw, Leecher, pk), Seeder, pk, now))
      == Graduate(flat, af, ih, pk, now)
  {
    var l, k := SwarmKey(af, Leecher, ih), SwarmKey(af, Seeder, ih);
    assert HashOf(WithHash(flat, l, sw.leechers - {pk}), k) == sw.seeders;
  }

  lemma VisitFacts(ds: seq<ShardData>, n: nat, flat: Swarms, af: AddressFamily, ih: InfoHash, cutoff: int)
    requires Represents(ds, n, flat)
    ensures var i := IndexOf(ih, af, n);
      && Represents(ds[i := WithSwarm(ds[i], ih, FreshSwarm(SwarmAt(ds[i].swarms, ih), cutoff))], n,
                    Visit(flat, af, ih, cutoff))
      && Covered(ds[i], ih)
  {
    var sw := SwarmAt(ds[IndexOf(ih, af, n)].swarms, ih);
    AgreeAt(ds, n, flat, af, ih);
    OneSwarmChanged(ds, n, flat, af, ih, FreshSwarm(sw, cutoff));
  }

  // ---------- a whole collection ----------

  predicate Reached(k: SwarmKey, n: nat, i: nat, done: set<InfoHash>)
    requires ValidShardCount(n)
  {
    IndexOf(k.ih, k.af, n) < i || (IndexOf(k.ih, k.af, n) == i && k.ih in done)
  }

  ghost predicate SweptOrNot(flat: Swarms, flat': Swarms, cutoff: int, k: SwarmKey, swept: bool) {
    HashOf(flat', k) == if swept then Fresh(HashOf(flat, k), cutoff) else HashOf(flat, k)
  }

  /** Shards below i are swept, and in shard i the info hashes of `done`. */
  ghost predicate SweptShards(flat: Swarms, flat': Swarms, n: nat, cutoff: int, i: nat, done: set<InfoHash>)
    requires ValidShardCount(n)
  {
    forall k :: SweptOrNot(flat, flat', cutoff, k, Reached(k, n, i, done))
  }

  lemma SweptStart(flat: Swarms, n: nat, cutoff: int)
    requires ValidShardCount(n)
    ensures SweptShards(flat, flat, n, cutoff, 0, {})
  {
  }

  lemma HashOfVisit(flat: Swarms, af: AddressFamily, ih: InfoHash, cutoff: int, k: SwarmKey)
    ensures HashOf(Visit(flat, af, ih, cutoff), k)
         == if k.af == af && k.ih == ih then Fresh(HashOf(flat, k), cutoff) else HashOf(flat, k)
  {
    var l, s := SwarmKey(af, Leecher, ih), SwarmKey(af, Seeder, ih);
    var h, h' := Fresh(HashOf(flat, l), cutoff), Fresh(HashOf(flat, s), cutoff);
    HashOfWithHash(WithHash(flat, l, h), s, h', k);
    HashOfWithHash(flat, l, h, k);
    if k.af == af && k.ih == ih { assert k == if k.role == Seeder then s else l; }
  }

  lemma SweptOneMore(flat: Swarms, before: Swarms, after: Swarms, n: nat, cutoff: int, i: nat, done: set<InfoHash>,
                     ih: InfoHash)
    requires ValidShardCount(n) && i < 2 * n && i == IndexOf(ih, FamilyOfShard(i, n), n) && ih !in done
    requires SweptShards(flat, before, n, cutoff, i, done)
    requires after == Visit(before, FamilyOfShard(i, n), ih, cutoff)
    ensures SweptShards(flat, after, n, cutoff, i, done + {ih})
  {
    forall k ensures SweptOrNot(flat, after, cutoff, k, Reached(k, n, i, done + {ih})) {
      assert SweptOrNot(flat, before, cutoff, k, Reached(k, n, i, done));
      HashOfVisit(before, FamilyOfShard(i, n), ih, cutoff, k);
      assert IndexOf(k.ih, k.af, n) == i ==> k.af == FamilyOfShard(i, n);
    }
  }

  lemma SweptShard(flat: Swarms, listed: Swarms, after: Swarms, n: nat, cutoff: int, i: nat, done: set<InfoHash>)
    requires ValidShardCount(n) && i < 2 * n
    requires SweptShards(flat, listed, n, cutoff, i, {}) && SweptShards(flat, after, n, cutoff, i, done)
    requires forall ih :: ih in done <==> InShard(listed, n, i, ih)
    ensures SweptShards(flat, after, n, cutoff, i + 1, {})
  {
    var next := i + 1;
    forall k ensures SweptOrNot(flat, after, cutoff, k, Reached(k, n, next, {})) {
      assert SweptOrNot(flat, after, cutoff, k, Reached(k, n, i, done));
      if IndexOf(k.ih, k.af, n) == i && k.ih !in done {
        assert SweptOrNot(flat, listed, cutoff, k, Reached(k, n, i, {}));
        UntrackedIsEmpty(listed, k);
        assert Fresh(HashOf(flat, k), cutoff) == map[];
      }
    }
  }

  lemma SweptAll(flat: Swarms, flat': Swarms, n: nat, cutoff: int)
    requires ValidShardCount(n) && NoEmptySwarm(flat') && SweptShards(flat, flat', n, cutoff, 2 * n, {})
    ensures flat' == Sweep(flat, cutoff)
  {
    assert Fresh(map[], cutoff) == map[];
    forall k ensures k in flat' <==> k in Sweep(flat, cutoff)
      ensures k in flat' ==> flat'[k] == Sweep(flat, cutoff)[k]
    {
      assert SweptOrNot(flat, flat', cutoff, k, Reached(k, n, 2 * n, {}));
    }
  }
}
