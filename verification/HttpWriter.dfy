/** The compact HTTP announce response, from the peers of a response to the bytes a client decodes. */
module HttpWriter {
  import opened BitTorrent
  import opened Decimal
  import opened PeerStoreSpec
  import opened AnnounceSpec
  import opened AnnounceAnswers
  import opened Bencode
  import opened BencodeEncoder
  import opened Responses

  const KEY_COMPLETE: Bytes := [99, 111, 109, 112, 108, 101, 116, 101]
  const KEY_INCOMPLETE: Bytes := [105, 110, 99, 111, 109, 112, 108, 101, 116, 101]
  const KEY_INTERVAL: Bytes := [105, 110, 116, 101, 114, 118, 97, 108]
  const KEY_MIN_INTERVAL: Bytes := [109, 105, 110, 32, 105, 110, 116, 101, 114, 118, 97, 108]
  const KEY_PEERS: Bytes := [112, 101, 101, 114, 115]
  const KEY_PEERS6: Bytes := [112, 101, 101, 114, 115, 54]

  const MAPPED_PREFIX: Bytes := [0, 0, 0, 0, 0, 0, 0, 0, 0, 0, 255, 255]

  /** To4 for the IPv4 list, To16 for the IPv6 list. */
  function Canonical(addr: Bytes, af: AddressFamily): Option<Bytes> {
    if af == IPv4 then To4(addr) else To16(addr)
  }

  lemma CanonicalWidth(addr: Bytes, af: AddressFamily)
    ensures Canonical(addr, af).Some? ==> |Canonical(addr, af).value| == AddressLength(af)
  {
  }

  ghost predicate AllCanonical(peers: seq<Peer>, af: AddressFamily) {
    forall i :: 0 <= i < |peers| ==> Canonical(peers[i].ip.addr, af).Some?
  }

  function CanonicalEndpoints(peers: seq<Peer>, af: AddressFamily): (r: seq<Endpoint>)
    requires AllCanonical(peers, af)
    ensures |r| == |peers|
    ensures forall i :: 0 <= i < |peers| ==> r[i] == Endpoint(Canonical(peers[i].ip.addr, af).value, peers[i].port)
  {
    seq(|peers|, i requires 0 <= i < |peers| => Endpoint(Canonical(peers[i].ip.addr, af).value, peers[i].port))
  }

  /** compact4 and compact6; None where they panic. */
  method Compact(peer: Peer, af: AddressFamily) returns (buf: Option<Bytes>)
    ensures buf == match Canonical(peer.ip.addr, af)
      case None => None
      case Some(ip) => Some(ip + Uint16BE(peer.port))
  {
    var ip := Canonical(peer.ip.addr, af);
    if ip.None? {
      return None;
    }
    var b: Bytes := ip.value;
    b := b + [peer.port / 256];
    b := b + [peer.port % 256];
    assert b == ip.value + Uint16BE(peer.port);
    buf := Some(b);
  }

  /** The loop over one of the two peer lists. */
  method CompactAll(peers: seq<Peer>, af: AddressFamily) returns (buf: Option<Bytes>)
    ensures buf.Some? <==> AllCanonical(peers, af)
    ensures buf.Some? ==> buf.value == PackEndpoints(CanonicalEndpoints(peers, af))
  {
    var out: Bytes := [];
    for i := 0 to |peers|
      invariant AllCanonical(peers[..i], af)
      invariant out == PackEndpoints(CanonicalEndpoints(peers[..i], af))
    {
      var c := Compact(peers[i], af);
      if c.None? {
        return None;
      }
      ghost var es := CanonicalEndpoints(peers[..i], af);
      ghost var e := Endpoint(Canonical(peers[i].ip.addr, af).value, peers[i].port);
      assert CanonicalEndpoints(peers[..i + 1], af) == es + [e];
      PackSnoc(es, e);
      out := out + c.value;
    }
    assert peers[..|peers|] == peers;
    buf := Some(out);
  }

  /** A client reads back the canonical endpoints. */
  lemma CompactReads(peers: seq<Peer>, af: AddressFamily)
    requires AllCanonical(peers, af)
    ensures ReadEndpoints(PackEndpoints(CanonicalEndpoints(peers, af)), AddressLength(af))
      == Some(CanonicalEndpoints(peers, af))
    ensures |PackEndpoints(CanonicalEndpoints(peers, af))| == (AddressLength(af) + 2) * |peers|
  {
    forall i | 0 <= i < |peers| ensures |CanonicalEndpoints(peers, af)[i].addr| == AddressLength(af) {
      CanonicalWidth(peers[i].ip.addr, af);
    }
    ReadPacked(CanonicalEndpoints(peers, af), AddressLength(af));
    PackedLength(CanonicalEndpoints(peers, af), AddressLength(af));
  }

  /** The dictionary of a response, without the peer lists. */
  function Counts(complete: uint32, incomplete: uint32, interval: int64, minInterval: int64): map<Bytes, Data> {
    map[KEY_COMPLETE := DUint(complete), KEY_INCOMPLETE := DUint(incomplete),
        KEY_INTERVAL := DDuration(interval), KEY_MIN_INTERVAL := DDuration(minInterval)]
  }

  function WithPeers(m: map<Bytes, Data>, key: Bytes, packed: Bytes): map<Bytes, Data> {
    if |packed| > 0 then m[key := DBytes(packed)] else m
  }

  /** What a client finds under a peer list's key. */
  ghost predicate Lists(entries: map<Bytes, Value>, key: Bytes, peers: seq<Peer>, af: AddressFamily)
    requires AllCanonical(peers, af)
  {
    if peers == [] then key !in entries
    else
      && key in entries && entries[key].VStr?
      && ReadEndpoints(entries[key].s, AddressLength(af)) == Some(CanonicalEndpoints(peers, af))
  }

  function Body(complete: uint32, incomplete: uint32, interval: int64, minInterval: int64, packed4: Bytes,
                packed6: Bytes): Data {
    var counts := Counts(complete, incomplete, interval, minInterval);
    DMap(WithPeers(WithPeers(counts, KEY_PEERS, packed4), KEY_PEERS6, packed6))
  }

  lemma KeysDiffer()
    ensures KEY_COMPLETE != KEY_INTERVAL
    ensures KEY_PEERS !in {KEY_COMPLETE, KEY_INCOMPLETE, KEY_INTERVAL, KEY_MIN_INTERVAL, KEY_PEERS6}
    ensures KEY_PEERS6 !in {KEY_COMPLETE, KEY_INCOMPLETE, KEY_INTERVAL, KEY_MIN_INTERVAL}
    ensures KEY_INCOMPLETE !in {KEY_COMPLETE, KEY_INTERVAL, KEY_MIN_INTERVAL}
    ensures KEY_MIN_INTERVAL !in {KEY_COMPLETE, KEY_INTERVAL}
  {
    assert KEY_COMPLETE[0] != KEY_INTERVAL[0];
    assert |KEY_PEERS| == 5 && |KEY_PEERS6| == 6 && |KEY_COMPLETE| == 8 && |KEY_INTERVAL| == 8;
    assert |KEY_INCOMPLETE| == 10 && |KEY_MIN_INTERVAL| == 12;
  }

  lemma BodyFits(complete: uint32, incomplete: uint32, interval: int64, minInterval: int64, packed4: Bytes,
                 packed6: Bytes)
    requires |packed4| <= MAX_ALLOC && |packed6| <= MAX_ALLOC
    ensures var d := Body(complete, incomplete, interval, minInterval, packed4, packed6); Supported(d) && Fits(d)
  {
    var m := Body(complete, incomplete, interval, minInterval, packed4, packed6).m;
    forall k | k in m ensures Supported(m[k]) && |k| <= MAX_ALLOC && Fits(m[k]) {
      KeysDiffer();
    }
  }

  /** What a client that decodes the body finds in it. */
  ghost predicate Reports(entries: map<Bytes, Value>, complete: uint32, incomplete: uint32, interval: int64,
                          minInterval: int64) {
    && KEY_COMPLETE in entries && entries[KEY_COMPLETE] == VInt(complete)
    && KEY_INCOMPLETE in entries && entries[KEY_INCOMPLETE] == VInt(incomplete)
    && KEY_INTERVAL in entries && entries[KEY_INTERVAL] == VInt(TruncDiv(interval, SECOND))
    && KEY_MIN_INTERVAL in entries && entries[KEY_MIN_INTERVAL] == VInt(TruncDiv(minInterval, SECOND))
  }

  ghost function EntriesOf(complete: uint32, incomplete: uint32, interval: int64, minInterval: int64, packed4: Bytes,
                           packed6: Bytes)
    : map<Bytes, Value>
  {
    Normal(Body(complete, incomplete, interval, minInterval, packed4, packed6)).entries
  }

  lemma NormalEntry(m: map<Bytes, Data>, k: Bytes, v: Value)
    requires k in m && Normal(m[k]) == v
    ensures k in Normal(DMap(m)).entries && Normal(DMap(m)).entries[k] == v
  {
  }

  lemma BodyReports(complete: uint32, incomplete: uint32, interval: int64, minInterval: int64, packed4: Bytes,
                    packed6: Bytes)
    ensures var es := EntriesOf(complete, incomplete, interval, minInterval, packed4, packed6);
      && Reports(es, complete, incomplete, interval, minInterval)
      && (if packed4 == [] then KEY_PEERS !in es else KEY_PEERS in es && es[KEY_PEERS] == VStr(packed4))
      && (if packed6 == [] then KEY_PEERS6 !in es else KEY_PEERS6 in es && es[KEY_PEERS6] == VStr(packed6))
  {
    KeysDiffer();
    var m := Body(complete, incomplete, interval, minInterval, packed4, packed6).m;
    NormalEntry(m, KEY_COMPLETE, VInt(complete));
    NormalEntry(m, KEY_INCOMPLETE, VInt(incomplete));
    NormalEntry(m, KEY_INTERVAL, VInt(TruncDiv(interval, SECOND)));
    NormalEntry(m, KEY_MIN_INTERVAL, VInt(TruncDiv(minInterval, SECOND)));
    if packed4 != [] {
      NormalEntry(m, KEY_PEERS, VStr(packed4));
    }
    if packed6 != [] {
      NormalEntry(m, KEY_PEERS6, VStr(packed6));
    }
  }

  /** The compact branch of WriteAnnounceResponse; None where it panics. `entries` is what a client decodes. */
  method WriteAnnounceResponse(resp: AnnounceResponse) returns (body: Option<Bytes>, ghost entries: map<Bytes, Value>)
    requires 6 * |resp.ipv4Peers| <= MAX_ALLOC && 18 * |resp.ipv6Peers| <= MAX_ALLOC  // a Go slice has no more
    ensures body.Some? <==> AllCanonical(resp.ipv4Peers, IPv4) && AllCanonical(resp.ipv6Peers, IPv6)
    ensures body.Some? ==> forall rest :: Parse(body.value + rest) == Ok(VDict(entries), rest)
    ensures body.Some? ==> Reports(entries, resp.complete, resp.incomplete, resp.interval, resp.minInterval)
    ensures body.Some? ==> Lists(entries, KEY_PEERS, resp.ipv4Peers, IPv4)
    ensures body.Some? ==> Lists(entries, KEY_PEERS6, resp.ipv6Peers, IPv6)
  {
    entries := map[];
    var bdict := Counts(resp.complete, resp.incomplete, resp.interval, resp.minInterval);
    var packed4 := CompactAll(resp.ipv4Peers, IPv4);
    if packed4.None? {
      return None, map[];
    }
    bdict := WithPeers(bdict, KEY_PEERS, packed4.value);
    var packed6 := CompactAll(resp.ipv6Peers, IPv6);
    if packed6.None? {
      return None, map[];
    }
    bdict := WithPeers(bdict, KEY_PEERS6, packed6.value);
    CompactReads(resp.ipv4Peers, IPv4);
    CompactReads(resp.ipv6Peers, IPv6);
    BodyReports(resp.complete, resp.incomplete, resp.interval, resp.minInterval, packed4.value, packed6.value);
    entries := EntriesOf(resp.complete, resp.incomplete, resp.interval, resp.minInterval, packed4.value, packed6.value);
    BodyFits(resp.complete, resp.incomplete, resp.interval, resp.minInterval, packed4.value, packed6.value);
    var encoded := EncodeData(DMap(bdict));
    body := Some(encoded);
  }

  /** bencode.Marshal of data that is supported and fits. */
  method EncodeData(d: Data) returns (out: Bytes)
    requires Supported(d) && Fits(d)
    ensures forall rest :: Parse(out + rest) == Ok(Normal(d), rest)
  {
    var w := new Writer();
    var ok;
    ghost var t;
    ok, t := Marshal(w, d);
    out := w.out;
    assert out == Encode(t);
    forall rest ensures Parse(out + rest) == Ok(Normal(d), rest) { MarshalledDecodes(t, d, rest); }
  }

  // ---------- from the store to the client ----------

  /** A sanitised peer as a client sees it in the list of a family: an IPv4 address is mapped into the IPv6 list. */
  function Seen(p: Peer, af: AddressFamily): Endpoint {
    Endpoint(if af == IPv6 && p.ip.family == IPv4 then MAPPED_PREFIX + p.ip.addr else p.ip.addr, p.port)
  }

  function AllSeen(peers: seq<Peer>, af: AddressFamily): (r: seq<Endpoint>)
    ensures |r| == |peers| && forall i :: 0 <= i < |peers| ==> r[i] == Seen(peers[i], af)
  {
    seq(|peers|, i requires 0 <= i < |peers| => Seen(peers[i], af))
  }

  /** Peers of the list's own family are seen as they are. */
  lemma SeenAsTheyAre(peers: seq<Peer>, af: AddressFamily)
    requires AllOfFamily(peers, af)
    ensures AllSeen(peers, af) == Endpoints(peers)
  {
  }

  lemma CanonicalIff(p: Peer, af: AddressFamily)
    requires Sanitized(p)
    ensures Canonical(p.ip.addr, af).Some? <==> af == IPv6 || p.ip.family == IPv4
    ensures Canonical(p.ip.addr, af).Some? ==> Canonical(p.ip.addr, af).value == Seen(p, af).addr
  {
  }

  /** Sanitised peers fit the IPv6 list always, and the IPv4 list exactly when all are IPv4 peers. */
  lemma AllCanonicalIff(peers: seq<Peer>, af: AddressFamily)
    requires forall i :: 0 <= i < |peers| ==> Sanitized(peers[i])
    ensures AllCanonical(peers, af) <==> af == IPv6 || AllOfFamily(peers, IPv4)
    ensures AllCanonical(peers, af) ==> CanonicalEndpoints(peers, af) == AllSeen(peers, af)
  {
    forall i | 0 <= i < |peers|
      ensures Canonical(peers[i].ip.addr, af).Some? <==> af == IPv6 || peers[i].ip.family == IPv4
      ensures Canonical(peers[i].ip.addr, af).Some? ==> Canonical(peers[i].ip.addr, af).value == Seen(peers[i], af).addr
    {
      CanonicalIff(peers[i], af);
    }
  }

  /**
   The compact writer panics on a response exactly when it is a dual-stack response to an IPv4 peer that
   overflows into the other family.
   */
  lemma CompactPanicsIff(s: Swarms, dual: bool, ih: InfoHash, seeding: bool, numWant: nat, announcer: Peer,
                         keys: seq<PeerKey>, peers: seq<Peer>)
    requires Filled(s, dual, ih, seeding, numWant, announcer, keys, peers) && KeysTyped(s) && Sanitized(announcer)
    ensures AllCanonical(peers, announcer.ip.family) <==>
      !(dual && announcer.ip.family == IPv4 && Overflows(s, ih, seeding, IPv4, NewPeerKey(announcer), numWant))
    ensures AllCanonical(peers, announcer.ip.family) ==>
      CanonicalEndpoints(peers, announcer.ip.family) == AllSeen(peers, announcer.ip.family)
  {
    FilledPeers(s, dual, ih, seeding, numWant, announcer, keys, peers);
    AllCanonicalIff(peers, announcer.ip.family);
  }
}
