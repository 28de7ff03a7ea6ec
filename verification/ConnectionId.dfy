/** Connection identifiers of the UDP tracker (BEP 15), as frontend/udp/connection_id.go makes and checks them. */
module ConnectionId {
  import opened BitTorrent

  const TTL: int := 120 * SECOND

  /** An HMAC-SHA256 tag. */
  type Tag = b: Bytes | |b| == 32 witness seq(32, _ => 0)

  /** HMAC-SHA256, from a key and a message. */
  type Mac = (Bytes, Bytes) -> Tag

  /** A time in nanoseconds since the epoch; its Unix second rounds down. */
  function Unix(now: int): int { now / SECOND }

  // ---------- what an identifier is ----------

  function Token(mac: Mac, key: Bytes, stamp: Bytes, ip: Bytes): Bytes {
    mac(key, stamp + ip)[..4]
  }

  /** The identifier of an address at a time. */
  function IdOf(mac: Mac, key: Bytes, ip: Bytes, now: int): (id: Bytes)
    ensures |id| == 8
  {
    var stamp := Uint32BE(Wrap32(Unix(now)));
    stamp + Token(mac, key, stamp, ip)
  }

  /** The time stamp is neither too old nor too far ahead. */
  predicate Timely(second: int, now: int, skew: int) {
    now <= second * SECOND + TTL && second * SECOND <= now + skew
  }

  predicate Accepts(mac: Mac, key: Bytes, id: Bytes, ip: Bytes, now: int, skew: int)
    requires |id| >= 4
  {
    Timely(FromUint32BE(id[..4]), now, skew) && id[4..] == Token(mac, key, id[..4], ip)
  }

  // ---------- when an identifier is accepted ----------

  lemma IdParts(mac: Mac, key: Bytes, ip: Bytes, t0: int)
    ensures var id := IdOf(mac, key, ip, t0);
      && id[..4] == Uint32BE(Wrap32(Unix(t0))) && FromUint32BE(id[..4]) == Wrap32(Unix(t0))
      && id[4..] == Token(mac, key, id[..4], ip)
  {
    BigEndianRoundTrip(Wrap32(Unix(t0)), 0);
    var id := IdOf(mac, key, ip, t0);
    assert id[..4] == Uint32BE(Wrap32(Unix(t0)));
  }

  /** An identifier is accepted for its address exactly while its time stamp is timely. */
  lemma AcceptedIff(mac: Mac, key: Bytes, ip: Bytes, t0: int, t: int, skew: int)
    requires 0 <= Unix(t0) < 0x1_0000_0000
    ensures Accepts(mac, key, IdOf(mac, key, ip, t0), ip, t, skew)
      <==> t <= Unix(t0) * SECOND + TTL && Unix(t0) * SECOND <= t + skew
  {
    IdParts(mac, key, ip, t0);
  }

  /** The 32-bit time stamp wraps: from 2^32 seconds on, no identifier is accepted even at the time it is made. */
  lemma AcceptedAtOnceIff(mac: Mac, key: Bytes, ip: Bytes, t: nat, skew: nat)
    ensures Accepts(mac, key, IdOf(mac, key, ip, t), ip, t, skew) <==> Unix(t) < 0x1_0000_0000
  {
    IdParts(mac, key, ip, t);
    assert Unix(t) * SECOND <= t < Unix(t) * SECOND + SECOND;
    if Unix(t) >= 0x1_0000_0000 {
      assert Wrap32(Unix(t)) + 0x1_0000_0000 <= Unix(t);
    }
  }

  /** For another address it is accepted exactly when the tags of time stamp and address collide in four bytes. */
  lemma AcceptedElsewhereIff(mac: Mac, key: Bytes, ip: Bytes, ip': Bytes, t0: int, t: int, skew: int)
    requires Accepts(mac, key, IdOf(mac, key, ip, t0), ip, t, skew)
    ensures var stamp := Uint32BE(Wrap32(Unix(t0)));
      Accepts(mac, key, IdOf(mac, key, ip, t0), ip', t, skew)
      <==> mac(key, stamp + ip')[..4] == mac(key, stamp + ip)[..4]
  {
    IdParts(mac, key, ip, t0);
  }

  lemma Uint32RoundTrip(b: Bytes)
    requires |b| == 4
    ensures Uint32BE(FromUint32BE(b)) == b
  {
    var n := FromUint32BE(b);
    var b0: int, b1: int, b2: int, b3: int := b[0], b[1], b[2], b[3];
    assert n == 256 * (256 * (256 * b0 + b1) + b2) + b3;
    LastByte(256 * (256 * b0 + b1) + b2, b3);
    LastByte(256 * b0 + b1, b2);
    LastByte(b0, b1);
    DivideTwice(n);
  }

  lemma LastByte(high: int, low: byte)
    ensures (256 * high + low) / 256 == high && (256 * high + low) % 256 == low
  {
  }

  lemma MadeAtItsStamp(mac: Mac, key: Bytes, id: Bytes, ip: Bytes)
    requires |id| >= 4 && id[4..] == Token(mac, key, id[..4], ip)
    ensures id == IdOf(mac, key, ip, FromUint32BE(id[..4]) * SECOND)
  {
    var second := FromUint32BE(id[..4]);
    Uint32RoundTrip(id[..4]);
    WholeSecond(second);
    assert id == id[..4] + id[4..];
  }

  lemma WholeSecond(second: uint32)
    ensures Unix(second * SECOND) == second && Wrap32(second) == second
  {
  }

  /** The accepted identifiers are exactly those made for the address at some timely second. */
  lemma OnlyMadeIdsAreAccepted(mac: Mac, key: Bytes, id: Bytes, ip: Bytes, now: int, skew: int)
    requires |id| >= 4
    ensures Accepts(mac, key, id, ip, now, skew)
      <==> exists second: uint32 :: Timely(second, now, skew) && id == IdOf(mac, key, ip, second * SECOND)
  {
    if Accepts(mac, key, id, ip, now, skew) {
      MadeAtItsStamp(mac, key, id, ip);
      assert Timely(FromUint32BE(id[..4]), now, skew);
    }
    forall second: uint32 | Timely(second, now, skew) && id == IdOf(mac, key, ip, second * SECOND)
      ensures Accepts(mac, key, id, ip, now, skew)
    {
      WholeSecond(second);
      IdParts(mac, key, ip, second * SECOND);
    }
  }

  // ---------- the generator ----------

  class ConnectionIDGenerator {
    const mac: Mac
    const key: Bytes
    /** What was written to the keyed hash since its last reset. */
    var message: Bytes
    const connID: array<byte>
    var scratch: Bytes

    ghost predicate Valid()
      reads this
    {
      connID.Length == 8
    }

    constructor (mac: Mac, key: Bytes)
      ensures Valid() && fresh(connID) && this.mac == mac && this.key == key
    {
      this.mac, this.key, message := mac, key, [];
      connID := new byte[8](_ => 0);
      scratch := seq(32, _ => 0);
    }

    method Reset()
      modifies this
      ensures message == [] && scratch == []
    {
      message := [];
      scratch := [];
    }

    /** The identifier is left in connID, which the next call overwrites. */
    method Generate(ip: Bytes, now: int) returns (id: array<byte>)
      requires Valid()
      modifies this, connID
      ensures Valid() && id == connID
      ensures id[..] == IdOf(mac, key, ip, now)
    {
      Reset();
      var stamp := Uint32BE(Wrap32(Unix(now)));
      connID[0], connID[1], connID[2], connID[3] := stamp[0], stamp[1], stamp[2], stamp[3];
      assert connID[..4] == stamp;
      message := message + connID[..4];
      message := message + ip;
      assert message == stamp + ip;
      scratch := scratch + mac(key, message);
      assert scratch[..4] == Token(mac, key, stamp, ip);
      connID[4], connID[5], connID[6], connID[7] := scratch[0], scratch[1], scratch[2], scratch[3];
      assert connID[..] == stamp + scratch[..4];
      id := connID;
    }

    method Validate(connectionID: Bytes, ip: Bytes, now: int, maxClockSkew: int) returns (ok: bool)
      requires Valid() && |connectionID| >= 4  // a slice expression panics below that
      modifies this
      ensures Valid() && connID[..] == old(connID[..])
      ensures ok <==> Accepts(mac, key, connectionID, ip, now, maxClockSkew)
    {
      var ts := FromUint32BE(connectionID[..4]) * SECOND;
      if now > ts + TTL || ts > now + maxClockSkew {
        return false;
      }
      Reset();
      message := message + connectionID[..4];
      message := message + ip;
      assert message == connectionID[..4] + ip;
      scratch := scratch + mac(key, message);
      assert scratch[..4] == Token(mac, key, connectionID[..4], ip);
      ok := scratch[..4] == connectionID[4..];
    }
  }

  // ---------- reuse ----------

  datatype Call =
    | Generating(ip: Bytes, now: int)
    | Validating(id: Bytes, ip: Bytes, now: int, skew: int)

  datatype Reply = Id(id: Bytes) | Verdict(ok: bool)

  method NewConnectionID(mac: Mac, key: Bytes, ip: Bytes, now: int) returns (id: Bytes)
    ensures id == IdOf(mac, key, ip, now)
  {
    var g := new ConnectionIDGenerator(mac, key);
    var a := g.Generate(ip, now);
    id := a[..];
  }

  method ValidConnectionID(mac: Mac, key: Bytes, id: Bytes, ip: Bytes, now: int, skew: int) returns (ok: bool)
    requires |id| >= 4
    ensures ok <==> Accepts(mac, key, id, ip, now, skew)
  {
    var g := new ConnectionIDGenerator(mac, key);
    ok := g.Validate(id, ip, now, skew);
  }

  /** Each call on one generator answers as it does on a generator of its own. */
  method Reuse(g: ConnectionIDGenerator, calls: seq<Call>) returns (replies: seq<Reply>)
    requires g.Valid()
    requires forall i :: 0 <= i < |calls| && calls[i].Validating? ==> |calls[i].id| >= 4
    modifies g, g.connID
    ensures |replies| == |calls|
    ensures forall i :: 0 <= i < |calls| ==>
      replies[i] == match calls[i]
        case Generating(ip, now) => Id(IdOf(g.mac, g.key, ip, now))
        case Validating(id, ip, now, skew) => Verdict(Accepts(g.mac, g.key, id, ip, now, skew))
  {
    replies := [];
    for n := 0 to |calls|
      invariant g.Valid() && |replies| == n
      invariant forall i :: 0 <= i < n ==>
        replies[i] == match calls[i]
          case Generating(ip, now) => Id(IdOf(g.mac, g.key, ip, now))
          case Validating(id, ip, now, skew) => Verdict(Accepts(g.mac, g.key, id, ip, now, skew))
    {
      match calls[n]
      case Generating(ip, now) =>
        var a := g.Generate(ip, now);
        replies := replies + [Id(a[..])];
      case Validating(id, ip, now, skew) =>
        var ok := g.Validate(id, ip, now, skew);
        replies := replies + [Verdict(ok)];
    }
  }
}
