/** Peers, info hashes, addresses and the peer-key codec shared by both peer stores. */
module BitTorrent {

  datatype Option<+T> = None | Some(value: T)

  type byte = b: int | 0 <= b < 256
  type Bytes = seq<byte>
  type uint16 = n: int | 0 <= n < 0x1_0000
  type uint32 = n: int | 0 <= n < 0x1_0000_0000
  type uint64 = n: int | 0 <= n < 0x1_0000_0000_0000_0000
  type int64 = n: int | -0x8000_0000_0000_0000 <= n < 0x8000_0000_0000_0000

  /** A peer ID or an info hash: exactly 20 bytes. */
  type Id20 = b: Bytes | |b| == 20 witness seq(20, _ => 0)
  type PeerID = Id20
  type InfoHash = Id20

  datatype AddressFamily = IPv4 | IPv6
  datatype Role = Seeder | Leecher
  datatype IP = IP(addr: Bytes, family: AddressFamily)
  datatype Peer = Peer(id: PeerID, ip: IP, port: uint16)

  /** The serialised form under which both stores file a peer. */
  type PeerKey = Bytes

  datatype StoreError = Nil | ErrResourceDoesNotExist

  function Min(a: int, b: int): int { if a <= b then a else b }

  /** time.Second, in nanoseconds. */
  const SECOND: int := 1_000_000_000

  /** Go's integer division. */
  function TruncDiv(a: int, b: int): int
    requires b > 0
  {
    if a >= 0 then a / b else -(-a / b)
  }

  /** The remainder is smaller than the divisor and has the sign of the dividend. */
  lemma TruncDivLaw(a: int, b: int)
    requires b > 0
    ensures var rest := a - b * TruncDiv(a, b); (a >= 0 ==> 0 <= rest < b) && (a <= 0 ==> -b < rest <= 0)
  {
    if a < 0 {
      assert -a == b * (-a / b) + -a % b;
    }
  }

  lemma Assoc(a: Bytes, b: Bytes, c: Bytes)
    ensures (a + b) + c == a + (b + c)
  {
  }

  /** A conversion to uint32. */
  function Wrap32(n: int): uint32 { n % 0x1_0000_0000 }

  function OtherFamily(af: AddressFamily): AddressFamily { if af == IPv4 then IPv6 else IPv4 }

  /** The 16 bytes of an IPv4-mapped IPv6 address. */
  predicate Is4In6(addr: Bytes) {
    && |addr| == 16
    && (forall i :: 0 <= i < 10 ==> addr[i] == 0)
    && addr[10] == 255 && addr[11] == 255
  }

  /** net.IP.To4: the four-byte form of an address that has one. */
  function To4(addr: Bytes): Option<Bytes> {
    if |addr| == 4 then Some(addr)
    else if Is4In6(addr) then Some(addr[12..])
    else None
  }

  /** net.IP.To16: the sixteen-byte form of an address that has one. */
  function To16(addr: Bytes): Option<Bytes> {
    if |addr| == 4 then Some(seq(10, _ => 0) + [255, 255] + addr)
    else if |addr| == 16 then Some(addr)
    else None
  }

  function AddressLength(af: AddressFamily): nat {
    match af case IPv4 => 4 case IPv6 => 16
  }

  /** An address in the form SanitizeAnnounce leaves it: an IPv6 address is never a mapped IPv4 one. */
  predicate SanitizedIP(ip: IP) {
    |ip.addr| == AddressLength(ip.family) && (ip.family == IPv6 ==> !Is4In6(ip.addr))
  }

  predicate Sanitized(p: Peer) { SanitizedIP(p.ip) }

  function Uint16BE(n: uint16): (r: Bytes)
    ensures |r| == 2
  {
    [n / 256, n % 256]
  }

  function FromUint16BE(b: Bytes): (n: uint16)
    requires |b| == 2
  {
    256 * (b[0] as int) + b[1]
  }

  function Uint32BE(n: uint32): (r: Bytes)
    ensures |r| == 4
  {
    [n / 0x100_0000, n / 0x1_0000 % 256, n / 0x100 % 256, n % 256]
  }

  function FromUint32BE(b: Bytes): (n: uint32)
    requires |b| == 4
  {
    0x100_0000 * (b[0] as int) + 0x1_0000 * (b[1] as int) + 0x100 * (b[2] as int) + b[3]
  }

  lemma DivideTwice(n: nat)
    ensures n / 0x1_0000 == n / 0x100 / 0x100 && n / 0x100_0000 == n / 0x100 / 0x100 / 0x100
  {
  }

  lemma BigEndianRoundTrip(n: uint32, p: uint16)
    ensures FromUint32BE(Uint32BE(n)) == n
    ensures FromUint16BE(Uint16BE(p)) == p
  {
    DivideTwice(n);
    var q1 := n / 0x100;
    var q2 := q1 / 0x100;
    assert n == 0x100 * q1 + n % 0x100 && q1 == 0x100 * q2 + q1 % 0x100;
    assert q2 == 0x100 * (q2 / 0x100) + q2 % 0x100;
  }

  /** The most significant byte comes first: numbers compare as their bytes do. */
  lemma BigEndianOrder(m: uint32, n: uint32, i: nat)
    requires i < 4 && Uint32BE(m)[..i] == Uint32BE(n)[..i] && Uint32BE(m)[i] < Uint32BE(n)[i]
    ensures m < n
  {
    BigEndianRoundTrip(m, 0);
    BigEndianRoundTrip(n, 0);
    var a, b := Uint32BE(m), Uint32BE(n);
    assert forall j :: 0 <= j < i ==> a[j] == a[..i][j] == b[..i][j] == b[j];
  }

  function HexDigit(n: int): char
    requires 0 <= n < 16
  {
    "0123456789abcdef"[n]
  }

  /** fmt.Sprintf("%x"). */
  function Hex(b: Bytes): (s: string)
    ensures |s| == 2 * |b|
  {
    if b == [] then [] else [HexDigit(b[0] / 16), HexDigit(b[0] % 16)] + Hex(b[1..])
  }

  lemma {:induction false} HexInjective(a: Bytes, b: Bytes)
    requires Hex(a) == Hex(b)
    ensures a == b
  {
    assert |a| == |b|;
    if a != [] {
      var x, y := Hex(a), Hex(b);
      assert x[0] == HexDigit(a[0] / 16) && x[1] == HexDigit(a[0] % 16) && x[2..] == Hex(a[1..]);
      assert y[0] == HexDigit(b[0] / 16) && y[1] == HexDigit(b[0] % 16) && y[2..] == Hex(b[1..]);
      HexDigitInjective(a[0] / 16, b[0] / 16);
      HexDigitInjective(a[0] % 16, b[0] % 16);
      assert a[0] == b[0];
      HexInjective(a[1..], b[1..]);
      assert a == [a[0]] + a[1..] && b == [b[0]] + b[1..];
    }
  }

  /** Each byte is two lower-case digits, the high one first. */
  lemma {:induction false} HexAt(b: Bytes, i: nat)
    requires i < |b|
    ensures Hex(b)[2 * i] == "0123456789abcdef"[b[i] / 16] && Hex(b)[2 * i + 1] == "0123456789abcdef"[b[i] % 16]
  {
    var s := Hex(b);
    if i > 0 {
      HexAt(b[1..], i - 1);
      assert s[2 * i] == Hex(b[1..])[2 * (i - 1)] && s[2 * i + 1] == Hex(b[1..])[2 * (i - 1) + 1];
    }
  }

  lemma HexDigitInjective(m: int, n: int)
    requires 0 <= m < 16 && 0 <= n < 16
    requires HexDigit(m) == HexDigit(n)
    ensures m == n
  {
  }

  /** newPeerKey. */
  function NewPeerKey(p: Peer): PeerKey {
    p.id + Uint16BE(p.port) + p.ip.addr
  }

  /** decodePeerKey; None where the source panics. */
  function DecodePeerKey(pk: PeerKey): Option<Peer> {
    if |pk| < 22 then None
    else
      var id: PeerID := pk[..20];
      var port := FromUint16BE(pk[20..22]);
      var addr := pk[22..];
      match To4(addr)
      case Some(v4) => Some(Peer(id, IP(v4, IPv4), port))
      case None => if |addr| == 16 then Some(Peer(id, IP(addr, IPv6), port)) else None
  }

  /** A key as the stores hold it in a swarm of the given family. */
  predicate KeyOfFamily(af: AddressFamily, pk: PeerKey) {
    |pk| == 22 + AddressLength(af) && (af == IPv6 ==> !Is4In6(pk[22..]))
  }

  lemma PeerKeyRoundTrip(p: Peer)
    requires Sanitized(p)
    ensures KeyOfFamily(p.ip.family, NewPeerKey(p))
    ensures DecodePeerKey(NewPeerKey(p)) == Some(p)
  {
    var pk := NewPeerKey(p);
    assert pk[..20] == p.id;
    assert pk[20..22] == Uint16BE(p.port);
    assert pk[22..] == p.ip.addr;
  }

  /** Decoding a stored key never panics, keeps the family of its swarm and loses nothing. */
  lemma StoredKeyDecodes(af: AddressFamily, pk: PeerKey)
    requires KeyOfFamily(af, pk)
    ensures DecodePeerKey(pk).Some?
    ensures Sanitized(DecodePeerKey(pk).value)
    ensures DecodePeerKey(pk).value.ip.family == af
    ensures NewPeerKey(DecodePeerKey(pk).value) == pk
  {
    assert pk == pk[..20] + pk[20..22] + pk[22..];
    assert Uint16BE(FromUint16BE(pk[20..22])) == pk[20..22];
  }

  /** The two families' keys never coincide. */
  lemma FamiliesHaveDistinctKeys(a: PeerKey, b: PeerKey)
    requires KeyOfFamily(IPv4, a) && KeyOfFamily(IPv6, b)
    ensures a != b
  {
  }

  /** bittorrent.AnnounceRequest, the fields SanitizeAnnounce reads or writes. */
  class AnnounceRequest {
    var peer: Peer
    var numWant: uint32
    var numWantProvided: bool

    constructor (peer: Peer, numWant: uint32, numWantProvided: bool)
      ensures this.peer == peer && this.numWant == numWant && this.numWantProvided == numWantProvided
    {
      this.peer, this.numWant, this.numWantProvided := peer, numWant, numWantProvided;
    }
  }

  datatype SanitizeError = Sane | ErrInvalidPort | ErrInvalidIP

  /** SanitizeAnnounce: on success the stores may rely on the family matching the address. */
  method SanitizeAnnounce(r: AnnounceRequest, maxNumWant: uint32, defaultNumWant: uint32)
      returns (err: SanitizeError)
    modifies r
    ensures err == ErrInvalidPort <==> old(r.peer.port) == 0
    ensures err == ErrInvalidIP <==>
            old(r.peer.port) != 0 && |old(r.peer.ip.addr)| != 4 && |old(r.peer.ip.addr)| != 16
    ensures err == Sane ==> Sanitized(r.peer)
    ensures err == Sane ==>
            To16(r.peer.ip.addr) == To16(old(r.peer.ip.addr)) // still the same address
    ensures err == Sane ==> r.peer.(ip := old(r.peer.ip)) == old(r.peer)
    ensures err == Sane ==>
            r.numWant == (if r.numWantProvided then Min(old(r.numWant), maxNumWant) else defaultNumWant)
    ensures r.numWantProvided == old(r.numWantProvided)
    ensures err == ErrInvalidPort ==> r.peer == old(r.peer) && r.numWant == old(r.numWant)
    ensures err == ErrInvalidIP ==> r.peer == old(r.peer)
  {
    if r.peer.port == 0 {
      return ErrInvalidPort;
    }
    if !r.numWantProvided {
      r.numWant := defaultNumWant;
    } else if r.numWant > maxNumWant {
      r.numWant := maxNumWant;
    }
    var ip := To4(r.peer.ip.addr);
    if ip.Some? {
      assert |r.peer.ip.addr| == 16 ==> r.peer.ip.addr == seq(10, _ => 0) + [255, 255] + ip.value;
      r.peer := r.peer.(ip := IP(ip.value, IPv4));
    } else if |r.peer.ip.addr| == 16 {
      r.peer := r.peer.(ip := r.peer.ip.(family := IPv6));
    } else {
      return ErrInvalidIP;
    }
    err := Sane;
  }
}
