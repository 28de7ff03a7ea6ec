/**
 The abstract peer store both implementations refine: one hash of peer keys to modification times for
 every (family, role, info hash) that has at least one peer.
 */
module PeerStoreSpec {
  import opened BitTorrent

  datatype SwarmKey = SwarmKey(af: AddressFamily, role: Role, ih: InfoHash)
  type Hash = map<PeerKey, int>
  type Swarms = map<SwarmKey, Hash>

  ghost predicate NoEmptySwarm(s: Swarms) {
    forall k :: k in s ==> s[k] != map[]
  }

  function HashOf(s: Swarms, k: SwarmKey): Hash {
    if k in s then s[k] else map[]
  }

  /** Stores a hash; an empty one is not kept. */
  function WithHash(s: Swarms, k: SwarmKey, h: Hash): Swarms {
    if h == map[] then s - {k} else s[k := h]
  }

  lemma HashOfWithHash(s: Swarms, k: SwarmKey, h: Hash, j: SwarmKey)
    ensures HashOf(WithHash(s, k, h), j) == if j == k then h else HashOf(s, j)
  {
  }

  function Put(s: Swarms, k: SwarmKey, pk: PeerKey, now: int): Swarms {
    WithHash(s, k, HashOf(s, k)[pk := now])
  }

  function Remove(s: Swarms, k: SwarmKey, pk: PeerKey): Swarms {
    WithHash(s, k, HashOf(s, k) - {pk})
  }

  function Graduate(s: Swarms, af: AddressFamily, ih: InfoHash, pk: PeerKey, now: int): Swarms {
    Put(Remove(s, SwarmKey(af, Leecher, ih), pk), SwarmKey(af, Seeder, ih), pk, now)
  }

  /** The peers of a hash that a collection with this cutoff keeps. */
  function Fresh(h: Hash, cutoff: int): Hash {
    map pk | pk in h && h[pk] > cutoff :: h[pk]
  }

  /** A whole collection. */
  function Sweep(s: Swarms, cutoff: int): Swarms {
    map k | k in s && Fresh(s[k], cutoff) != map[] :: Fresh(s[k], cutoff)
  }

  /** A collection's visit of one info hash, both roles at once. */
  function Visit(s: Swarms, af: AddressFamily, ih: InfoHash, cutoff: int): Swarms {
    var l, k := SwarmKey(af, Leecher, ih), SwarmKey(af, Seeder, ih);
    WithHash(WithHash(s, l, Fresh(HashOf(s, l), cutoff)), k, Fresh(HashOf(s, k), cutoff))
  }

  predicate Present(s: Swarms, k: SwarmKey, pk: PeerKey) {
    k in s && pk in s[k]
  }

  /** A peer that is due: present, with a time at or below the cutoff. */
  predicate Due(s: Swarms, k: SwarmKey, pk: PeerKey, cutoff: int) {
    Present(s, k, pk) && s[k][pk] <= cutoff
  }

  /** The operations of storage.PeerStore that change a store. */
  datatype Op =
    | OpPut(k: SwarmKey, pk: PeerKey, now: int)
    | OpDelete(k: SwarmKey, pk: PeerKey)
    | OpGraduate(af: AddressFamily, ih: InfoHash, pk: PeerKey, now: int)
    | OpCollect(cutoff: int)

  function Apply(s: Swarms, op: Op): Swarms {
    match op
    case OpPut(k, pk, now) => Put(s, k, pk, now)
    case OpDelete(k, pk) => Remove(s, k, pk)
    case OpGraduate(af, ih, pk, now) => Graduate(s, af, ih, pk, now)
    case OpCollect(cutoff) => Sweep(s, cutoff)
  }

  /** Removing an absent peer leaves a store without empty swarms as it was. */
  lemma RemoveAbsent(s: Swarms, k: SwarmKey, pk: PeerKey)
    requires NoEmptySwarm(s) && !Present(s, k, pk)
    ensures Remove(s, k, pk) == s
  {
    assert HashOf(s, k) - {pk} == HashOf(s, k);
  }

  lemma TimeAfterPut(s: Swarms, j: SwarmKey, p: PeerKey, now: int, k: SwarmKey, pk: PeerKey)
    ensures var s' := Put(s, j, p, now);
      && (Present(s', k, pk) <==> Present(s, k, pk) || (j == k && p == pk))
      && (j == k && p == pk ==> s'[k][pk] == now)
      && (!(j == k && p == pk) && Present(s, k, pk) ==> s'[k][pk] == s[k][pk])
  {
    assert p in HashOf(s, j)[p := now];
  }

  lemma TimeAfterRemove(s: Swarms, j: SwarmKey, p: PeerKey, k: SwarmKey, pk: PeerKey)
    ensures var s' := Remove(s, j, p);
      && (Present(s', k, pk) <==> Present(s, k, pk) && !(j == k && p == pk))
      && (Present(s', k, pk) ==> s'[k][pk] == s[k][pk])
  {
    if j == k && Present(s, k, pk) && p != pk { assert pk in s[k] - {p}; }
  }
}
