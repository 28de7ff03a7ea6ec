/** How many peers a store holds: sums over its swarms, and the same as a number of peers. */
module PeerTotals {
  import opened BitTorrent
  import opened MapSums
  import opened PeerStoreSpec

  ghost function SizeOf(af: AddressFamily, role: Role): (SwarmKey, Hash) -> int {
    (k: SwarmKey, h: Hash) => if k.af == af && k.role == role then |h| else 0
  }

  /** The true number of peers of one family and role. */
  ghost function TotalSize(s: Swarms, af: AddressFamily, role: Role): int {
    Sum(s, SizeOf(af, role))
  }

  lemma TotalSizeWithHash(s: Swarms, k: SwarmKey, h: Hash, af: AddressFamily, role: Role)
    ensures TotalSize(WithHash(s, k, h), af, role)
         == TotalSize(s, af, role) + if k.af == af && k.role == role then |h| - |HashOf(s, k)| else 0
  {
    if h == map[] {
      SumDrop(s, SizeOf(af, role), k);
    } else {
      SumPut(s, SizeOf(af, role), k, h);
    }
  }

  lemma TotalSizePut(s: Swarms, k: SwarmKey, pk: PeerKey, now: int, af: AddressFamily, role: Role)
    ensures TotalSize(Put(s, k, pk, now), af, role)
         == TotalSize(s, af, role) + if k.af == af && k.role == role && !Present(s, k, pk) then 1 else 0
  {
    TotalSizeWithHash(s, k, HashOf(s, k)[pk := now], af, role);
  }

  lemma TotalSizeRemove(s: Swarms, k: SwarmKey, pk: PeerKey, af: AddressFamily, role: Role)
    ensures TotalSize(Remove(s, k, pk), af, role)
         == TotalSize(s, af, role) - if k.af == af && k.role == role && Present(s, k, pk) then 1 else 0
  {
    var h := HashOf(s, k);
    TotalSizeWithHash(s, k, h - {pk}, af, role);
    SizeWithout(h, pk);
  }

  lemma SizeWithout(h: Hash, pk: PeerKey)
    ensures |h - {pk}| == |h| - if pk in h then 1 else 0
  {
    if pk in h {
      assert (h - {pk}).Keys == h.Keys - {pk};
    } else {
      assert h - {pk} == h;
    }
  }

  /** The peers of one family and role, each with its swarm. */
  ghost function PeersIn(s: Swarms, af: AddressFamily, role: Role): set<(SwarmKey, PeerKey)> {
    set k, pk | k in s && pk in s[k] && k.af == af && k.role == role :: (k, pk)
  }

  lemma {:induction false} TagSize(k: SwarmKey, peers: set<PeerKey>)
    ensures |set pk | pk in peers :: (k, pk)| == |peers|
    decreases |peers|
  {
    var tagged := set pk | pk in peers :: (k, pk);
    if peers == {} {
      assert tagged == {};
    } else {
      var x :| x in peers;
      TagSize(k, peers - {x});
      assert tagged == (set pk | pk in peers - {x} :: (k, pk)) + {(k, x)};
    }
  }

  lemma PeersInDrop(s: Swarms, k: SwarmKey, af: AddressFamily, role: Role)
    requires k in s
    ensures var rest, tagged := PeersIn(s - {k}, af, role), set pk | pk in s[k].Keys :: (k, pk);
      && rest !! tagged
      && PeersIn(s, af, role) == if k.af == af && k.role == role then rest + tagged else rest
  {
  }

  /** The total is the number of peers stored, each counted once in each of its swarms. */
  lemma {:induction false} TotalSizeCounts(s: Swarms, af: AddressFamily, role: Role)
    ensures TotalSize(s, af, role) == |PeersIn(s, af, role)|
    decreases |s|
  {
    if s == map[] {
      assert PeersIn(s, af, role) == {};
    } else {
      var k :| k in s;
      SumDrop(s, SizeOf(af, role), k);
      TotalSizeCounts(s - {k}, af, role);
      TagSize(k, s[k].Keys);
      PeersInDrop(s, k, af, role);
    }
  }
}
