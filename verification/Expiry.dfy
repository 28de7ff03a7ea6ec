/** Going through the peers of one swarm and deleting those whose time is at or below the cutoff. */
module Expiry {
  import opened BitTorrent
  import opened PeerStoreSpec
  import opened PeerSelection

  /** `cur` is the hash `h` after the first n pairs of its HGETALL reply were looked at. */
  ghost predicate Midway(h: Hash, order: seq<PeerKey>, n: int, cutoff: int, cur: Hash) {
    && 0 <= n <= |order|
    && (forall pk :: pk in cur ==> pk in h && cur[pk] == h[pk])
    && (forall i :: n <= i < |order| ==> order[i] in cur)
    && (forall i :: 0 <= i < n ==> order[i] in h && (order[i] in cur <==> h[order[i]] > cutoff))
  }

  lemma MidwayStep(h: Hash, order: seq<PeerKey>, n: nat, cutoff: int, cur: Hash)
    requires Enumerates(order, h.Keys) && n < |order| && Midway(h, order, n, cutoff, cur)
    ensures order[n] in cur && order[n] in h
    ensures |cur - {order[n]}| == |cur| - 1
    ensures Midway(h, order, n + 1, cutoff, if h[order[n]] <= cutoff then cur - {order[n]} else cur)
  {
    assert (cur - {order[n]}).Keys == cur.Keys - {order[n]};
  }

  lemma MidwayStart(h: Hash, order: seq<PeerKey>, cutoff: int)
    requires Enumerates(order, h.Keys)
    ensures Midway(h, order, 0, cutoff, h)
  {
  }

  lemma MidwayEnd(h: Hash, order: seq<PeerKey>, cutoff: int, cur: Hash)
    requires Enumerates(order, h.Keys) && Midway(h, order, |order|, cutoff, cur)
    ensures cur == Fresh(h, cutoff)
  {
    forall pk ensures pk in cur <==> pk in Fresh(h, cutoff) {
      if pk in h {
        assert pk in order;
      }
    }
  }

  lemma FreshSmaller(h: Hash, cutoff: int)
    ensures |Fresh(h, cutoff)| <= |h|
  {
    SubsetSize(Fresh(h, cutoff).Keys, h.Keys);
  }
}
