/** An announce from the store to the client: the response hook, then one of the two writers. */
module AnnouncePath {
  import opened BitTorrent
  import opened PeerStoreSpec
  import opened AnnounceSpec
  import opened AnnounceAnswers
  import opened Bencode
  import opened Responses
  import opened HttpWriter
  import M = MemoryStore

  /** Dual-stack mode fills the answer up with peers of the other family. */
  predicate Mixed(s: Swarms, dual: bool, ih: InfoHash, seeding: bool, announcer: Peer, numWant: int) {
    dual && Overflows(s, ih, seeding, announcer.ip.family, NewPeerKey(announcer), numWant)
  }

  // ---------- UDP ----------

  /** What a client reads from `buf`: the counts of the store and the exact endpoints of these peers. */
  ghost predicate UdpShows(s: Swarms, dual: bool, ih: InfoHash, seeding: bool, announcer: Peer, action: uint32,
                           txID: Bytes,
                           interval: int64, keys: seq<PeerKey>, peers: seq<Peer>, buf: Bytes) {
    var af := announcer.ip.family;
    ReadUdpResponse(buf, AddressLength(af)) == Some(UdpResponse(action, txID, Wrap32(TruncDiv(interval, SECOND)),
      CountOf(s, dual, ih, af, Leecher, seeding, keys), CountOf(s, dual, ih, af, Seeder, seeding, keys),
      Endpoints(peers)))
  }

  /** What a client reads is a possible answer of the store, in a packet of 20 + 6n or 20 + 18n bytes. */
  ghost predicate UdpAnswer(s: Swarms, dual: bool, ih: InfoHash, seeding: bool, numWant: uint32, announcer: Peer,
                            action: uint32, txID: Bytes, interval: int64, buf: Bytes) {
    exists keys, peers ::
      && Filled(s, dual, ih, seeding, numWant, announcer, keys, peers)
      && UdpShows(s, dual, ih, seeding, announcer, action, txID, interval, keys, peers, buf)
      && |buf| == 20 + (AddressLength(announcer.ip.family) + 2) * |peers|
  }

  /** A client reads a possible answer exactly when the answer is not mixed. */
  method OverUdp(store: M.MemoryStore, ih: InfoHash, left: nat, numWant: uint32, announcer: Peer, txID: Bytes,
                 v6Action: bool, interval: int64, minInterval: int64)
      returns (buf: Bytes)
    requires store.Valid() && Sanitized(announcer) && |txID| == 4
    ensures UdpAnswer(store.flat, store.enableDualStackPeers, ih, left == 0, numWant, announcer,
                      if v6Action then ANNOUNCE_V6_ACTION else ANNOUNCE_ACTION, txID, interval, buf)
      <==> !Mixed(store.flat, store.enableDualStackPeers, ih, left == 0, announcer, numWant)
  {
    M.StoredKeysTyped(store.Data(), store.n, store.flat);
    var resp := new AnnounceResponse(interval, minInterval);
    ghost var keys := HandleAnnounce(store, ih, left, numWant, announcer, resp);
    ghost var peers := resp.PeersOf(announcer.ip.family);
    var action := if v6Action then ANNOUNCE_V6_ACTION else ANNOUNCE_ACTION;
    buf := WriteAnnounce(txID, resp, v6Action, announcer.ip.family == IPv6);
    UdpAnswerIff(store.flat, store.enableDualStackPeers, ih, left == 0, numWant, announcer, action, txID, interval,
                 keys, peers, buf);
  }

  lemma UdpAnswerIff(s: Swarms, dual: bool, ih: InfoHash, seeding: bool, numWant: uint32, announcer: Peer,
                     action: uint32,
                     txID: Bytes, interval: int64, keys: seq<PeerKey>, peers: seq<Peer>, buf: Bytes)
    requires Filled(s, dual, ih, seeding, numWant, announcer, keys, peers) && KeysTyped(s) && Sanitized(announcer)
    requires |buf| == 20 + |PackEndpoints(Endpoints(peers))|
    requires UdpShows(s, dual, ih, seeding, announcer, action, txID, interval, keys, peers, buf)
      <==> forall i :: 0 <= i < |peers| ==> |peers[i].ip.addr| == AddressLength(announcer.ip.family)
    ensures UdpAnswer(s, dual, ih, seeding, numWant, announcer, action, txID, interval, buf)
      <==> !Mixed(s, dual, ih, seeding, announcer, numWant)
  {
    FilledPeers(s, dual, ih, seeding, numWant, announcer, keys, peers);
    if !Mixed(s, dual, ih, seeding, announcer, numWant) {
      PackedLength(Endpoints(peers), AddressLength(announcer.ip.family));
    } else {
      forall keys', peers' | Filled(s, dual, ih, seeding, numWant, announcer, keys', peers')
        ensures !UdpShows(s, dual, ih, seeding, announcer, action, txID, interval, keys', peers', buf)
      {
        MixedIsNotShown(s, dual, ih, seeding, numWant, announcer, action, txID, interval, keys', peers', buf);
      }
    }
  }

  /** No bytes at all read back as a mixed answer. */
  lemma MixedIsNotShown(s: Swarms, dual: bool, ih: InfoHash, seeding: bool, numWant: uint32, announcer: Peer,
                        action: uint32,
                        txID: Bytes, interval: int64, keys: seq<PeerKey>, peers: seq<Peer>, buf: Bytes)
    requires Filled(s, dual, ih, seeding, numWant, announcer, keys, peers) && KeysTyped(s) && Sanitized(announcer)
    requires Mixed(s, dual, ih, seeding, announcer, numWant)
    ensures !UdpShows(s, dual, ih, seeding, announcer, action, txID, interval, keys, peers, buf)
  {
    FilledPeers(s, dual, ih, seeding, numWant, announcer, keys, peers);
    if UdpShows(s, dual, ih, seeding, announcer, action, txID, interval, keys, peers, buf) {
      ShownPeersFit(announcer.ip.family, peers, buf);
    }
  }

  /** Peers that a client reads back have the width, and so the family, it reads by. */
  lemma ShownPeersFit(af: AddressFamily, peers: seq<Peer>, buf: Bytes)
    requires |buf| >= 20 && ReadEndpoints(buf[20..], AddressLength(af)) == Some(Endpoints(peers))
    requires forall i :: 0 <= i < |peers| ==> Sanitized(peers[i])
    ensures AllOfFamily(peers, af)
  {
    ReadWidths(buf[20..], AddressLength(af));
    forall i | 0 <= i < |peers| ensures peers[i].ip.family == af {
      assert |Endpoints(peers)[i].addr| == AddressLength(af);
    }
  }

  // ---------- HTTP ----------

  /**
   What a client decodes from the body: the counts, the intervals, and the peers under the key of their
   list alone.
   */
  ghost predicate HttpShows(s: Swarms, dual: bool, ih: InfoHash, seeding: bool, announcer: Peer, interval: int64,
                            minInterval: int64, keys: seq<PeerKey>, peers: seq<Peer>, entries: map<Bytes, Value>) {
    var af := announcer.ip.family;
    && Reports(entries, CountOf(s, dual, ih, af, Seeder, seeding, keys),
               CountOf(s, dual, ih, af, Leecher, seeding, keys), interval, minInterval)
    && OnlyList(entries, peers, af)
  }

  /**
   The peers stand under the key of their family, as a client of that family sees them, and the other
   key is absent.
   */
  ghost predicate OnlyList(entries: map<Bytes, Value>, peers: seq<Peer>, af: AddressFamily) {
    var key, other := if af == IPv4 then KEY_PEERS else KEY_PEERS6, if af == IPv4 then KEY_PEERS6 else KEY_PEERS;
    && other !in entries && key in entries && entries[key].VStr?
    && ReadEndpoints(entries[key].s, AddressLength(af)) == Some(AllSeen(peers, af))
  }

  /** What a client decodes is a possible answer of the store; only a mixed one shows peers otherwise than they are. */
  ghost predicate HttpAnswer(s: Swarms, dual: bool, ih: InfoHash, seeding: bool, numWant: uint32, announcer: Peer,
                             interval: int64, minInterval: int64, body: Bytes) {
    exists keys, peers, entries ::
      && Filled(s, dual, ih, seeding, numWant, announcer, keys, peers)
      && HttpShows(s, dual, ih, seeding, announcer, interval, minInterval, keys, peers, entries)
      && (!Mixed(s, dual, ih, seeding, announcer, numWant) ==> AllSeen(peers, announcer.ip.family) == Endpoints(peers))
      && forall rest :: Parse(body + rest) == Ok(VDict(entries), rest)
  }

  /** The compact bencoded body; None where the writer panics, which is exactly on a mixed answer to an IPv4 peer. */
  method OverHttp(store: M.MemoryStore, ih: InfoHash, left: nat, numWant: uint32, announcer: Peer,
                  interval: int64, minInterval: int64)
      returns (body: Option<Bytes>)
    requires store.Valid() && Sanitized(announcer)
    ensures body.Some? <==>
      !(announcer.ip.family == IPv4 && Mixed(store.flat, store.enableDualStackPeers, ih, left == 0, announcer, numWant))
    ensures body.Some? ==> HttpAnswer(store.flat, store.enableDualStackPeers, ih, left == 0, numWant, announcer,
                                      interval, minInterval, body.value)
  {
    M.StoredKeysTyped(store.Data(), store.n, store.flat);
    var resp := new AnnounceResponse(interval, minInterval);
    ghost var keys := HandleAnnounce(store, ih, left, numWant, announcer, resp);
    ghost var peers := resp.PeersOf(announcer.ip.family);
    FilledLength(store.flat, store.enableDualStackPeers, ih, left == 0, numWant, announcer, keys, peers);
    CompactPanicsIff(store.flat, store.enableDualStackPeers, ih, left == 0, numWant, announcer, keys, peers);
    UnmixedIsSeen(store.flat, store.enableDualStackPeers, ih, left == 0, numWant, announcer, keys, peers);
    ghost var entries;
    body, entries := WriteAnnounceResponse(resp);
    if body.Some? {
      assert OnlyList(entries, peers, announcer.ip.family);
      assert HttpShows(store.flat, store.enableDualStackPeers, ih, left == 0, announcer, interval, minInterval,
                       keys, peers, entries);
    }
  }

  lemma UnmixedIsSeen(s: Swarms, dual: bool, ih: InfoHash, seeding: bool, numWant: uint32, announcer: Peer,
                      keys: seq<PeerKey>, peers: seq<Peer>)
    requires Filled(s, dual, ih, seeding, numWant, announcer, keys, peers) && KeysTyped(s) && Sanitized(announcer)
    ensures !Mixed(s, dual, ih, seeding, announcer, numWant) ==> AllSeen(peers, announcer.ip.family) == Endpoints(peers)
  {
    FilledPeers(s, dual, ih, seeding, numWant, announcer, keys, peers);
    if AllOfFamily(peers, announcer.ip.family) {
      SeenAsTheyAre(peers, announcer.ip.family);
    }
  }

  /** A response lists at least one peer and at most as many as were asked for, or the announcer. */
  lemma FilledLength(s: Swarms, dual: bool, ih: InfoHash, seeding: bool, numWant: uint32, announcer: Peer,
                     keys: seq<PeerKey>, peers: seq<Peer>)
    requires Filled(s, dual, ih, seeding, numWant, announcer, keys, peers)
    ensures 1 <= |peers| && (|peers| == 1 || |peers| <= numWant)
  {
    if !Missing(s, dual, ih, announcer.ip.family) {
      AnswerLength(s, dual, ih, seeding, announcer, numWant, keys);
    }
  }

  /** A dual-stack store with one IPv6 leecher, asked by an IPv4 seeder for one peer: the compact writer panics. */
  method OverflowPanics(ih: InfoHash, leecher: Peer, now: int, seeder: Peer, interval: int64, minInterval: int64)
      returns (body: Option<Bytes>)
    requires Sanitized(leecher) && leecher.ip.family == IPv6 && Sanitized(seeder) && seeder.ip.family == IPv4
    ensures body == None
  {
    var store := new M.MemoryStore(1, true);
    store.PutPeer(ih, Leecher, leecher, now);
    OnePeerOverflows(store.flat, ih, NewPeerKey(leecher), now, NewPeerKey(seeder));
    body := OverHttp(store, ih, 0, 1, seeder, interval, minInterval);
  }

  lemma OnePeerOverflows(s: Swarms, ih: InfoHash, pk: PeerKey, now: int, self: PeerKey)
    requires s == Put(map[], SwarmKey(IPv6, Leecher, ih), pk, now)
    ensures Overflows(s, ih, true, IPv4, self, 1)
  {
    TimeAfterPut(map[], SwarmKey(IPv6, Leecher, ih), pk, now, SwarmKey(IPv6, Leecher, ih), pk);
    assert pk in KeysOf(s, IPv6, Leecher, ih);
    assert KeysOf(s, IPv4, Leecher, ih) == {};
  }
}
