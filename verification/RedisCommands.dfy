/**
 The Redis commands the peer store issues, on the keys it uses: one hash per swarm, one hash per address
 family listing the swarm keys, three counters per family, and the modification count WATCH relies on.
 */
module RedisCommands {
  import opened BitTorrent
  import opened PeerStoreSpec

  datatype Counter = PeerCount(af: AddressFamily, role: Role) | InfohashCount(af: AddressFamily)

  /** The hash of one address family: swarm keys and the time each was last written. */
  type Group = map<SwarmKey, int>

  datatype Redis = Redis(swarms: Swarms,
                         groups: map<AddressFamily, Group>,
                         counters: map<Counter, int>,
                         versions: map<SwarmKey, nat>)
  {
    function Group(af: AddressFamily): Group {
      if af in groups then groups[af] else map[]
    }

    /** A counter that was never written reads as zero. */
    function Count(c: Counter): int {
      if c in counters then counters[c] else 0
    }

    /** How often a swarm hash was modified. */
    function Version(k: SwarmKey): nat {
      if k in versions then versions[k] else 0
    }

    function Touched(k: SwarmKey): Redis {
      this.(versions := versions[k := Version(k) + 1])
    }

    /** HSET on a swarm hash. */
    function Hset(k: SwarmKey, pk: PeerKey, now: int): Redis {
      Touched(k).(swarms := Put(swarms, k, pk, now))
    }

    /** HDEL on a swarm hash; a hash that loses its last field disappears. */
    function Hdel(k: SwarmKey, pk: PeerKey): Redis {
      if Present(swarms, k, pk) then Touched(k).(swarms := Remove(swarms, k, pk)) else this
    }

    /** HSET on a family hash. */
    function List(af: AddressFamily, k: SwarmKey, now: int): Redis {
      this.(groups := groups[af := Group(af)[k := now]])
    }

    /** HDEL on a family hash. */
    function Unlist(af: AddressFamily, k: SwarmKey): Redis {
      this.(groups := groups[af := Group(af) - {k}])
    }

    /** INCRBY, with INCR, DECR and DECRBY as special cases. */
    function IncrBy(c: Counter, delta: int): Redis {
      this.(counters := counters[c := Count(c) + delta])
    }
  }

  const EMPTY_REDIS := Redis(map[], map[], map[], map[])

  /** The integer reply of HSET: one for a new field. */
  function NewField(present: bool): int { if present then 0 else 1 }

  // ---------- the names of the keys ----------

  function FamilyName(af: AddressFamily): string {
    match af case IPv4 => "IPv4" case IPv6 => "IPv6"
  }

  function SwarmKeyName(k: SwarmKey): string {
    FamilyName(k.af) + (if k.role == Seeder then "_S_" else "_L_") + Hex(k.ih)
  }

  function CounterName(c: Counter): string {
    match c
    case PeerCount(af, Seeder) => FamilyName(af) + "_S_count"
    case PeerCount(af, Leecher) => FamilyName(af) + "_L_count"
    case InfohashCount(af) => FamilyName(af) + "_infohash_count"
  }

  datatype RedisKey = GroupKey(af: AddressFamily) | SwarmHash(k: SwarmKey) | CounterKey(c: Counter)

  function KeyName(rk: RedisKey): string {
    match rk
    case GroupKey(af) => FamilyName(af)
    case SwarmHash(k) => SwarmKeyName(k)
    case CounterKey(c) => CounterName(c)
  }

  /** How the collector tells a seeder swarm from a leecher swarm. */
  predicate IsSeederField(field: string) {
    |field| > 5 && field[5..6] == "S"
  }

  lemma SeederFieldByPosition(k: SwarmKey)
    ensures IsSeederField(SwarmKeyName(k)) <==> k.role == Seeder
  {
    var name := SwarmKeyName(k);
    assert name[5..6] == [name[5]];
    assert name[5] == if k.role == Seeder then 'S' else 'L';
  }

  /** No two of the keys the store uses share a name, so the key space splits as modelled. */
  lemma KeyNamesDistinct(a: RedisKey, b: RedisKey)
    requires KeyName(a) == KeyName(b)
    ensures a == b
  {
    KeyNameShape(a);
    KeyNameShape(b);
    if a.SwarmHash? {
      var x, y := SwarmKeyName(a.k), SwarmKeyName(b.k);
      assert x[7..] == Hex(a.k.ih) && y[7..] == Hex(b.k.ih);
      HexInjective(a.k.ih, b.k.ih);
    }
  }

  /** Position 3 gives the family; length and position 5 give the kind. */
  lemma KeyNameShape(rk: RedisKey)
    ensures var s := KeyName(rk);
      match rk
      case GroupKey(af) => |s| == 4 && s[3] == (if af == IPv4 then '4' else '6')
      case SwarmHash(k) =>
        |s| == 47 && s[3] == (if k.af == IPv4 then '4' else '6') && s[5] == (if k.role == Seeder then 'S' else 'L')
      case CounterKey(PeerCount(af, role)) =>
        |s| == 12 && s[3] == (if af == IPv4 then '4' else '6') && s[5] == (if role == Seeder then 'S' else 'L')
      case CounterKey(InfohashCount(af)) => |s| == 19 && s[3] == (if af == IPv4 then '4' else '6')
  {
  }

  /** The seeder swarms a family hash lists. */
  ghost function ListedSeeders(g: Group): set<SwarmKey> {
    set k | k in g && k.role == Seeder
  }
}
