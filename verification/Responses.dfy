/** Filling an announce response from the store and putting it on the wire over UDP. */
module Responses {
  import opened BitTorrent
  import opened PeerStoreSpec
  import opened AnnounceSpec
  import opened AnnounceAnswers
  import M = MemoryStore

  /** bittorrent.AnnounceResponse; durations are in nanoseconds. */
  class AnnounceResponse {
    var complete: uint32
    var incomplete: uint32
    var interval: int64
    var minInterval: int64
    var ipv4Peers: seq<Peer>
    var ipv6Peers: seq<Peer>

    constructor (interval: int64, minInterval: int64)
      ensures complete == 0 && incomplete == 0 && ipv4Peers == [] && ipv6Peers == []
      ensures this.interval == interval && this.minInterval == minInterval
    {
      complete, incomplete, ipv4Peers, ipv6Peers := 0, 0, [], [];
      this.interval, this.minInterval := interval, minInterval;
    }

    function PeersOf(af: AddressFamily): seq<Peer>
      reads this
    {
      if af == IPv4 then ipv4Peers else ipv6Peers
    }

    /** The updates at the end of appendPeers: the announcer counts itself where it is alone, and the list is set. */
    method Fill(seeding: bool, alone: bool, af: AddressFamily, peers: seq<Peer>)
      modifies this
      ensures PeersOf(af) == peers && PeersOf(OtherFamily(af)) == old(PeersOf(OtherFamily(af)))
      ensures interval == old(interval) && minInterval == old(minInterval)
      ensures complete == Bumped(old(complete), alone && seeding)
      ensures incomplete == Bumped(old(incomplete), alone && !seeding)
    {
      if alone {
        if seeding {
          complete := Wrap32(complete + 1);
        } else {
          incomplete := Wrap32(incomplete + 1);
        }
      }
      if af == IPv4 {
        ipv4Peers := peers;
      } else {
        ipv6Peers := peers;
      }
    }
  }

  ghost predicate AllOfFamily(peers: seq<Peer>, af: AddressFamily) {
    forall i :: 0 <= i < |peers| ==> Sanitized(peers[i]) && peers[i].ip.family == af
  }

  ghost predicate DecodedFrom(peers: seq<Peer>, keys: seq<PeerKey>) {
    |peers| == |keys| && forall i :: 0 <= i < |keys| ==> DecodePeerKey(keys[i]) == Some(peers[i])
  }

  /** The peers of a response: a possible answer of the store, or the announcer alone if there is none. */
  ghost predicate Filled(s: Swarms, dual: bool, ih: InfoHash, seeding: bool, numWant: int, announcer: Peer,
                         keys: seq<PeerKey>, peers: seq<Peer>) {
    && (if Missing(s, dual, ih, announcer.ip.family) then keys == []
        else IsAnswer(s, dual, ih, seeding, announcer, numWant, keys))
    && (if keys == [] then peers == [announcer] else DecodedFrom(peers, keys))
  }

  /** The peers of a response are sanitised, and of one family exactly when the answer does not overflow. */
  lemma FilledPeers(s: Swarms, dual: bool, ih: InfoHash, seeding: bool, numWant: nat, announcer: Peer,
                    keys: seq<PeerKey>, peers: seq<Peer>)
    requires Filled(s, dual, ih, seeding, numWant, announcer, keys, peers) && KeysTyped(s) && Sanitized(announcer)
    ensures forall i :: 0 <= i < |peers| ==> Sanitized(peers[i])
    ensures AllOfFamily(peers, announcer.ip.family) <==>
      !(dual && Overflows(s, ih, seeding, announcer.ip.family, NewPeerKey(announcer), numWant))
  {
    var af, self := announcer.ip.family, NewPeerKey(announcer);
    forall i | 0 <= i < |keys|
      ensures Sanitized(peers[i]) && (peers[i].ip.family == af <==> KeyOfFamily(af, keys[i]))
      ensures KeyOfFamily(af, keys[i]) || dual
    {
      SelectedKeysTyped(s, dual, ih, seeding, af, self, keys, numWant, keys[i]);
      StoredKeyDecodes(if KeyOfFamily(af, keys[i]) then af else OtherFamily(af), keys[i]);
    }
    if dual {
      if Missing(s, true, ih, af) {
        assert !Overflows(s, ih, seeding, af, self, numWant);
      } else {
        DualStackAnswerIsPureIff(s, ih, seeding, announcer, numWant, keys);
      }
    }
  }

  /** An increment of a uint32 under a condition. */
  function Bumped(n: uint32, cond: bool): uint32 { if cond then Wrap32(n + 1) else n }

  /** The count of a role in a response whose answer rests on `keys`: an announcer that is alone counts itself. */
  function CountOf(s: Swarms, dual: bool, ih: InfoHash, af: AddressFamily, role: Role, seeding: bool,
                   keys: seq<PeerKey>): uint32 {
    Bumped(Scraped(s, dual, ih, af, role), keys == [] && (role == Seeder <==> seeding))
  }

  lemma BumpedCounts(n: nat, alone: bool, m: nat)
    requires m == n || m == n + 1
    ensures Bumped(Wrap32(n), alone) == Wrap32(m) <==> (alone <==> m == n + 1)
  {
  }

  /**
   The count of the announcer's role is that of the swarm with the announcer in it exactly if the announcer is
   alone and not yet stored, or not alone and already stored.
   */
  lemma CountedOnceIff(s: Swarms, dual: bool, ih: InfoHash, seeding: bool, announcer: Peer, keys: seq<PeerKey>,
                       peers: set<PeerKey>)
    requires KeysTyped(s) && forall pk ::
      pk in peers <==> InSwarm(s, dual, ih, announcer.ip.family, if seeding then Seeder else Leecher, pk)
    ensures CountOf(s, dual, ih, announcer.ip.family, if seeding then Seeder else Leecher, seeding, keys)
         == Wrap32(|peers + {NewPeerKey(announcer)}|)
      <==> (keys == [] <==> NewPeerKey(announcer) !in peers)
  {
    var self := NewPeerKey(announcer);
    ScrapedCounts(s, dual, ih, announcer.ip.family, if seeding then Seeder else Leecher, peers);
    SizeWith(peers, self);
    BumpedCounts(|peers|, keys == [], |peers + {self}|);
  }

  /** The count of the other role is that of the swarm. */
  lemma OthersCounted(s: Swarms, dual: bool, ih: InfoHash, seeding: bool, af: AddressFamily, keys: seq<PeerKey>,
                      peers: set<PeerKey>)
    requires KeysTyped(s) && forall pk ::
      pk in peers <==> InSwarm(s, dual, ih, af, if seeding then Leecher else Seeder, pk)
    ensures CountOf(s, dual, ih, af, if seeding then Leecher else Seeder, seeding, keys) == Wrap32(|peers|)
  {
    ScrapedCounts(s, dual, ih, af, if seeding then Leecher else Seeder, peers);
  }

  lemma SizeWith(peers: set<PeerKey>, self: PeerKey)
    ensures |peers + {self}| == |peers| + if self in peers then 0 else 1
  {
    if self in peers {
      assert peers + {self} == peers;
    }
  }

  /** The announcer is a leecher, and all there is of its swarm. */
  ghost predicate LoneLeecher(s: Swarms, ih: InfoHash, announcer: Peer) {
    forall f, role, pk ::
      Present(s, SwarmKey(f, role, ih), pk) <==>
      f == announcer.ip.family && role == Leecher && pk == NewPeerKey(announcer)
  }

  /** Such a leecher, announcing again, is answered with itself and counted twice. */
  lemma LoneLeecherCountsTwice(s: Swarms, dual: bool, ih: InfoHash, numWant: nat, announcer: Peer,
                               keys: seq<PeerKey>, peers: seq<Peer>)
    requires KeysTyped(s) && Sanitized(announcer)
    requires LoneLeecher(s, ih, announcer)
    requires Filled(s, dual, ih, false, numWant, announcer, keys, peers)
    ensures peers == [announcer] && keys == []
    ensures CountOf(s, dual, ih, announcer.ip.family, Leecher, false, keys) == 2
  {
    var af, self := announcer.ip.family, NewPeerKey(announcer);
    MissingIff(s, dual, ih, af);
    assert Present(s, SwarmKey(af, Leecher, ih), self);
    if keys != [] {
      assert !Present(s, SwarmKey(af, Seeder, ih), self);
      LeecherNeverMeetsItself(s, dual, ih, announcer, numWant, keys);
      OnlySelf(s, dual, ih, announcer, numWant, keys);
    }
    forall pk ensures pk in {self} <==> InSwarm(s, dual, ih, af, Leecher, pk) {
      assert pk == self ==> Present(s, SwarmKey(af, Leecher, ih), pk);
    }
    ScrapedCounts(s, dual, ih, af, Leecher, {self});
  }

  lemma OnlySelf(s: Swarms, dual: bool, ih: InfoHash, announcer: Peer, numWant: nat, keys: seq<PeerKey>)
    requires IsAnswer(s, dual, ih, false, announcer, numWant, keys) && keys != []
    requires forall f, role, pk :: Present(s, SwarmKey(f, role, ih), pk) ==> pk == NewPeerKey(announcer)
    ensures NewPeerKey(announcer) in keys
  {
    InSomeAnswerIff(s, dual, ih, false, announcer, numWant, keys[0]);
    var af, self := announcer.ip.family, NewPeerKey(announcer);
    assert keys[0] in keys;
    var x :| x in AllEligible(s, dual, ih, false, af, self) && x.pk == keys[0];
    assert Present(s, SwarmKey(x.af, x.role, ih), x.pk);
  }

  /** responseHook.HandleAnnounce; `keys` are the stored keys behind the peers. */
  method HandleAnnounce(store: M.MemoryStore, ih: InfoHash, left: nat, numWant: uint32, announcer: Peer,
                        resp: AnnounceResponse)
      returns (ghost keys: seq<PeerKey>)
    requires store.Valid() && Sanitized(announcer)
    modifies resp
    ensures resp.interval == old(resp.interval) && resp.minInterval == old(resp.minInterval)
    ensures resp.PeersOf(OtherFamily(announcer.ip.family)) == old(resp.PeersOf(OtherFamily(announcer.ip.family)))
    ensures Filled(store.flat, store.enableDualStackPeers, ih, left == 0, numWant, announcer, keys,
                   resp.PeersOf(announcer.ip.family))
    ensures !store.enableDualStackPeers ==> AllOfFamily(resp.PeersOf(announcer.ip.family), announcer.ip.family)
    ensures resp.complete
      == CountOf(store.flat, store.enableDualStackPeers, ih, announcer.ip.family, Seeder, left == 0, keys)
    ensures resp.incomplete
      == CountOf(store.flat, store.enableDualStackPeers, ih, announcer.ip.family, Leecher, left == 0, keys)
  {
    var complete, incomplete := store.ScrapeSwarm(ih, announcer.ip.family);
    resp.incomplete, resp.complete := incomplete, complete;
    keys := AppendPeers(store, ih, left, numWant, announcer, resp);
  }

  method AppendPeers(store: M.MemoryStore, ih: InfoHash, left: nat, numWant: uint32, announcer: Peer,
                     resp: AnnounceResponse)
      returns (ghost keys: seq<PeerKey>)
    requires store.Valid() && Sanitized(announcer)
    modifies resp
    ensures resp.interval == old(resp.interval) && resp.minInterval == old(resp.minInterval)
    ensures resp.PeersOf(OtherFamily(announcer.ip.family)) == old(resp.PeersOf(OtherFamily(announcer.ip.family)))
    ensures Filled(store.flat, store.enableDualStackPeers, ih, left == 0, numWant, announcer, keys,
                   resp.PeersOf(announcer.ip.family))
    ensures !store.enableDualStackPeers ==> AllOfFamily(resp.PeersOf(announcer.ip.family), announcer.ip.family)
    ensures resp.complete == Bumped(old(resp.complete), keys == [] && left == 0)
    ensures resp.incomplete == Bumped(old(resp.incomplete), keys == [] && left != 0)
  {
    var seeding := left == 0;
    var peers, alone;
    peers, alone, keys := PeersOrSelf(store, ih, seeding, numWant, announcer);
    resp.Fill(seeding, alone, announcer.ip.family, peers);
  }

  /** The store's answer, or the announcer where it is empty. */
  method PeersOrSelf(store: M.MemoryStore, ih: InfoHash, seeding: bool, numWant: uint32, announcer: Peer)
      returns (peers: seq<Peer>, alone: bool, ghost keys: seq<PeerKey>)
    requires store.Valid() && Sanitized(announcer)
    ensures Filled(store.flat, store.enableDualStackPeers, ih, seeding, numWant, announcer, keys, peers)
    ensures !store.enableDualStackPeers ==> AllOfFamily(peers, announcer.ip.family)
    ensures alone <==> keys == []
  {
    var err;
    peers, err, keys := store.AnnouncePeers(ih, seeding, numWant, announcer);
    M.StoredKeysTyped(store.Data(), store.n, store.flat);
    if !store.enableDualStackPeers && err == Nil {
      SingleStackAnswerIsPure(store.flat, ih, seeding, announcer, numWant, keys, peers);
    }
    alone := |peers| == 0;
    if alone {
      peers := [announcer];
    }
  }

  // ---------- the wire ----------

  datatype Endpoint = Endpoint(addr: Bytes, port: uint16)

  function Endpoints(peers: seq<Peer>): (r: seq<Endpoint>)
    ensures |r| == |peers| && forall i :: 0 <= i < |peers| ==> r[i] == Endpoint(peers[i].ip.addr, peers[i].port)
  {
    seq(|peers|, i requires 0 <= i < |peers| => Endpoint(peers[i].ip.addr, peers[i].port))
  }

  /** How a client reads a compact peer list: fixed-width addresses, each with a port. */
  function ReadEndpoints(b: Bytes, width: nat): Option<seq<Endpoint>>
    decreases |b|
  {
    if b == [] then Some([])
    else if |b| < width + 2 then None
    else match ReadEndpoints(b[width + 2..], width)
      case None => None
      case Some(rest) => Some([Endpoint(b[..width], FromUint16BE(b[width..width + 2]))] + rest)
  }

  function PackEndpoints(es: seq<Endpoint>): Bytes {
    if es == [] then [] else es[0].addr + Uint16BE(es[0].port) + PackEndpoints(es[1..])
  }

  lemma {:induction false} PackSnoc(es: seq<Endpoint>, e: Endpoint)
    ensures PackEndpoints(es + [e]) == PackEndpoints(es) + (e.addr + Uint16BE(e.port))
  {
    if es == [] {
      assert es + [e] == [e] && [e][1..] == [];
      assert PackEndpoints([e]) == e.addr + Uint16BE(e.port) + [];
    } else {
      assert (es + [e])[0] == es[0] && (es + [e])[1..] == es[1..] + [e];
      PackSnoc(es[1..], e);
    }
  }

  lemma {:induction false} PackedLength(es: seq<Endpoint>, width: nat)
    requires forall i :: 0 <= i < |es| ==> |es[i].addr| == width
    ensures |PackEndpoints(es)| == (width + 2) * |es|
  {
    if es != [] {
      PackedLength(es[1..], width);
      assert (width + 2) * |es| == (width + 2) + (width + 2) * (|es| - 1);
    }
  }

  /** A client only ever reads addresses of the width it expects. */
  lemma {:induction false} ReadWidths(b: Bytes, width: nat)
    requires ReadEndpoints(b, width).Some?
    ensures forall i :: 0 <= i < |ReadEndpoints(b, width).value| ==> |ReadEndpoints(b, width).value[i].addr| == width
    decreases |b|
  {
    if b != [] {
      ReadWidths(b[width + 2..], width);
    }
  }

  /** A client recovers the exact list from addresses of one width. */
  lemma {:induction false} ReadPacked(es: seq<Endpoint>, width: nat)
    requires forall i :: 0 <= i < |es| ==> |es[i].addr| == width
    ensures ReadEndpoints(PackEndpoints(es), width) == Some(es)
  {
    if es != [] {
      var b := PackEndpoints(es);
      ReadPacked(es[1..], width);
      assert b[..width] == es[0].addr && b[width..width + 2] == Uint16BE(es[0].port);
      assert b[width + 2..] == PackEndpoints(es[1..]);
      BigEndianRoundTrip(0, es[0].port);
      assert es == [es[0]] + es[1..];
    }
  }

  lemma ReadsBackIff(peers: seq<Peer>, width: nat)
    ensures ReadEndpoints(PackEndpoints(Endpoints(peers)), width) == Some(Endpoints(peers))
      <==> forall i :: 0 <= i < |peers| ==> |peers[i].ip.addr| == width
  {
    var es := Endpoints(peers);
    if ReadEndpoints(PackEndpoints(es), width) == Some(es) {
      ReadWidths(PackEndpoints(es), width);
      forall i | 0 <= i < |peers| ensures |peers[i].ip.addr| == width {
        assert |es[i].addr| == width;
      }
    }
    if forall i :: 0 <= i < |peers| ==> |peers[i].ip.addr| == width {
      ReadPacked(es, width);
    }
  }

  const ANNOUNCE_ACTION: uint32 := 1
  const ANNOUNCE_V6_ACTION: uint32 := 4

  /** What a client reads from a UDP announce response. */
  datatype UdpResponse = UdpResponse(action: uint32, txID: Bytes, interval: uint32, leechers: uint32, seeders: uint32,
                                     peers: seq<Endpoint>)

  /** The announce response of BEP 15: five 32-bit words, then the peers. */
  function ReadUdpResponse(b: Bytes, width: nat): Option<UdpResponse> {
    if |b| < 20 then None
    else match ReadEndpoints(b[20..], width)
      case None => None
      case Some(peers) =>
        Some(UdpResponse(FromUint32BE(b[..4]), b[4..8], FromUint32BE(b[8..12]), FromUint32BE(b[12..16]),
                         FromUint32BE(b[16..20]), peers))
  }

  /** WriteAnnounce. */
  method WriteAnnounce(txID: Bytes, resp: AnnounceResponse, v6Action: bool, v6Peers: bool) returns (buf: Bytes)
    requires |txID| == 4
    ensures |buf| == 20 + |PackEndpoints(Endpoints(if v6Peers then resp.ipv6Peers else resp.ipv4Peers))|
    ensures var peers, width := if v6Peers then resp.ipv6Peers else resp.ipv4Peers, if v6Peers then 16 else 4;
      (forall i :: 0 <= i < |peers| ==> |peers[i].ip.addr| == width)
      <==>
      ReadUdpResponse(buf, width) == Some(UdpResponse(
        if v6Action then ANNOUNCE_V6_ACTION else ANNOUNCE_ACTION, txID,
        Wrap32(TruncDiv(resp.interval, SECOND)), resp.incomplete, resp.complete, Endpoints(peers)))
  {
    var action := if v6Action then ANNOUNCE_V6_ACTION else ANNOUNCE_ACTION;
    var interval := Wrap32(TruncDiv(resp.interval, SECOND));
    var header := Uint32BE(action);
    header := header + txID;
    header := header + Uint32BE(interval);
    header := header + Uint32BE(resp.incomplete);
    header := header + Uint32BE(resp.complete);
    var peers := if v6Peers then resp.ipv6Peers else resp.ipv4Peers;
    buf := header;
    for i := 0 to |peers|
      invariant buf == header + PackEndpoints(Endpoints(peers[..i]))
    {
      ghost var e := Endpoint(peers[i].ip.addr, peers[i].port);
      assert Endpoints(peers[..i + 1]) == Endpoints(peers[..i]) + [e];
      PackSnoc(Endpoints(peers[..i]), e);
      Assoc(header, PackEndpoints(Endpoints(peers[..i])), e.addr + Uint16BE(e.port));
      buf := buf + (peers[i].ip.addr + Uint16BE(peers[i].port));
    }
    assert peers[..|peers|] == peers;
    ghost var width := if v6Peers then 16 else 4;
    HeaderReads(action, txID, interval, resp.incomplete, resp.complete, PackEndpoints(Endpoints(peers)));
    ReadsBackIff(peers, width);
  }

  lemma HeaderReads(action: uint32, txID: Bytes, interval: uint32, incomplete: uint32, complete: uint32, rest: Bytes)
    requires |txID| == 4
    ensures var b := Uint32BE(action) + txID + Uint32BE(interval) + Uint32BE(incomplete) + Uint32BE(complete) + rest;
      && |b| == 20 + |rest| && b[20..] == rest && b[4..8] == txID
      && FromUint32BE(b[..4]) == action && FromUint32BE(b[8..12]) == interval
      && FromUint32BE(b[12..16]) == incomplete && FromUint32BE(b[16..20]) == complete
  {
    var b := Uint32BE(action) + txID + Uint32BE(interval) + Uint32BE(incomplete) + Uint32BE(complete) + rest;
    assert b[..4] == Uint32BE(action) && b[8..12] == Uint32BE(interval);
    assert b[12..16] == Uint32BE(incomplete) && b[16..20] == Uint32BE(complete);
    BigEndianRoundTrip(action, 0);
    BigEndianRoundTrip(interval, 0);
    BigEndianRoundTrip(incomplete, 0);
    BigEndianRoundTrip(complete, 0);
  }
}
