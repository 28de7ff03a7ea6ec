/** The interval variation of middleware/varinterval, on the draws of middleware/pkg/random. */
module VarInterval {
  import opened BitTorrent
  import opened XorShift
  import opened Responses

  const DRAWS: int64 := 0x100_0000

  datatype Config = Config(modifyResponseProbability: real, maxIncreaseDelta: int64, modifyMinInterval: bool)

  datatype ConfigError = Fine | ErrInvalidModifyResponseProbability | ErrInvalidMaxIncreaseDelta

  function CheckConfig(cfg: Config): ConfigError {
    if cfg.modifyResponseProbability <= 0.0 || cfg.modifyResponseProbability > 1.0 then
      ErrInvalidModifyResponseProbability
    else if cfg.maxIncreaseDelta <= 0 then ErrInvalidMaxIncreaseDelta
    else Fine
  }

  // ---------- the state a request starts from ----------

  function FromUint64BE(b: Bytes): uint64
    requires |b| == 8
  {
    0x1_0000_0000 * FromUint32BE(b[..4]) + FromUint32BE(b[4..])
  }

  /** The sum of the first two words of an identifier. */
  function HalvesSum(id: Id20): uint64 {
    (FromUint64BE(id[..8]) as int + FromUint64BE(id[8..16])) % 0x1_0000_0000_0000_0000
  }

  function Word(id: Id20): bv64 { HalvesSum(id) as bv64 }

  /** DeriveEntropyFromRequest. */
  function Derive(ih: InfoHash, peer: PeerID): State {
    State(Word(ih), Word(peer))
  }

  function IdOfWord(n: uint64): Id20 {
    Uint32BE(n / 0x1_0000_0000) + Uint32BE(n % 0x1_0000_0000) + seq(12, _ => 0)
  }

  lemma WordOfId(n: uint64)
    ensures Word(IdOfWord(n)) == n as bv64
  {
    var id := IdOfWord(n);
    var high, low := n / 0x1_0000_0000, n % 0x1_0000_0000;
    BigEndianRoundTrip(high, 0);
    BigEndianRoundTrip(low, 0);
    assert id[..8][..4] == Uint32BE(high) && id[..8][4..] == Uint32BE(low);
    BigEndianRoundTrip(0, 0);
    assert id[8..16][..4] == Uint32BE(0) && id[8..16][4..] == Uint32BE(0);
  }

  /** Every state of the generator is derived from some request. */
  lemma EveryStateIsDerived(s: State) returns (ih: InfoHash, peer: PeerID)
    ensures Derive(ih, peer) == s
  {
    ih, peer := IdOfWord(s.s0 as int), IdOfWord(s.s1 as int);
    WordOfId(s.s0 as int);
    WordOfId(s.s1 as int);
  }

  // ---------- the hook ----------

  /** The probability drawn for a request, a multiple of 2^-24 that a 32-bit float holds exactly. */
  function Chance(s: State): real {
    Bounded(Drawn(s) as int, DRAWS) as real / DRAWS as real
  }

  predicate Modifies(cfg: Config, s: State) {
    cfg.modifyResponseProbability == 1.0 || Chance(s) < cfg.modifyResponseProbability
  }

  /** The seconds added to a modified response, from the state after the first draw. */
  function Increase(next: State, maxIncreaseDelta: int64): int
    requires maxIncreaseDelta > 0
  {
    Bounded(Drawn(next) as int, maxIncreaseDelta) + 1
  }

  function Added(ns: int64, seconds: int): int64 {
    Wrap64(ns + Wrap64(seconds * SECOND))
  }

  method HandleAnnounce(cfg: Config, ih: InfoHash, peer: PeerID, resp: AnnounceResponse)
    requires CheckConfig(cfg).Fine?
    modifies resp
    ensures var s := Derive(ih, peer); var d := Increase(Advance(s), cfg.maxIncreaseDelta);
      && resp.interval == (if Modifies(cfg, s) then Added(old(resp.interval), d) else old(resp.interval))
      && resp.minInterval ==
           (if Modifies(cfg, s) && cfg.modifyMinInterval then Added(old(resp.minInterval), d)
            else old(resp.minInterval))
    ensures resp.complete == old(resp.complete) && resp.incomplete == old(resp.incomplete)
    ensures resp.ipv4Peers == old(resp.ipv4Peers) && resp.ipv6Peers == old(resp.ipv6Peers)
  {
    var s := Derive(ih, peer);
    var first := Intn(s, DRAWS).value;
    var p := first.0 as real / DRAWS as real;
    if cfg.modifyResponseProbability == 1.0 || p < cfg.modifyResponseProbability {
      var second := Intn(first.1, cfg.maxIncreaseDelta).value;
      var delta := Wrap64((second.0 + 1) * SECOND);
      resp.interval := Wrap64(resp.interval + delta);
      if cfg.modifyMinInterval {
        resp.minInterval := Wrap64(resp.minInterval + delta);
      }
    }
  }

  // ---------- what is added ----------

  /** The chance is always in [0, 1), since the number of draws is a power of two. */
  lemma ChanceIsProbability(s: State)
    ensures 0.0 <= Chance(s) < 1.0
  {
    assert TWO63 % DRAWS == 0;
    BoundedInRangeIff(Drawn(s) as int, DRAWS);
  }

  /** A response is modified exactly if the distance of the first draw, in 2^24 parts, falls below the probability. */
  lemma ModifiesIff(cfg: Config, s: State)
    requires CheckConfig(cfg).Fine?
    ensures Modifies(cfg, s) <==>
      (FromZero(Drawn(s) as int) % DRAWS) as real < cfg.modifyResponseProbability * DRAWS as real
  {
    ChanceIsProbability(s);
    ChanceIsDistance(Drawn(s) as int);
    Scaled((FromZero(Drawn(s) as int) % DRAWS) as real, cfg.modifyResponseProbability);
  }

  lemma ChanceIsDistance(v: int)
    requires 0 <= v < 2 * TWO63
    ensures Bounded(v, DRAWS) == FromZero(v) % DRAWS
  {
    BoundedValue(v, DRAWS);
    assert TWO63 % DRAWS == 0;
  }

  lemma Scaled(x: real, p: real)
    ensures x / DRAWS as real < p <==> x < p * DRAWS as real
  {
  }

  /** The increase is one more than the distance of the second draw, modulo the maximum, but for the draw 2^63. */
  lemma IncreaseValue(next: State, n: int64)
    requires n > 0
    ensures Increase(next, n) - 1 ==
      if Drawn(next) as int == TWO63 then -(TWO63 % n) else FromZero(Drawn(next) as int) % n
  {
    BoundedValue(Drawn(next) as int, n);
  }

  /** Requests start from one state if, for info hash and peer ID alike, the first two words add up alike. */
  lemma SameSumsSameState(ih: InfoHash, peer: PeerID, ih': InfoHash, peer': PeerID)
    requires SameSum(ih, ih') && SameSum(peer, peer')
    ensures Derive(ih, peer) == Derive(ih', peer')
  {
    SumIff(ih, ih');
    SumIff(peer, peer');
  }

  lemma SumIff(a: Id20, b: Id20)
    ensures HalvesSum(a) == HalvesSum(b) <==> SameSum(a, b)
  {
    SameRemainder(FromUint64BE(a[..8]) as int + FromUint64BE(a[8..16]),
                  FromUint64BE(b[..8]) as int + FromUint64BE(b[8..16]));
  }

  predicate SameSum(a: Id20, b: Id20) {
    (FromUint64BE(a[..8]) as int + FromUint64BE(a[8..16]) - (FromUint64BE(b[..8]) as int + FromUint64BE(b[8..16])))
      % 0x1_0000_0000_0000_0000 == 0
  }

  lemma SameRemainder(x: int, y: int)
    ensures x % 0x1_0000_0000_0000_0000 == y % 0x1_0000_0000_0000_0000 <==> (x - y) % 0x1_0000_0000_0000_0000 == 0
  {
  }

  lemma WrapTwice(ns: int64, y: int)
    ensures Wrap64(ns + Wrap64(y)) == Wrap64(ns + y)
  {
  }

  lemma WrapFits(y: int)
    ensures Wrap64(y) == y <==> -TWO63 <= y < TWO63
  {
  }

  /**
   The increase is added as it is, between one second and the configured maximum, exactly when the draw is
   not 2^63 or the maximum is a power of two, and the sum fits an int64.
   */
  lemma AddedInRangeIff(next: State, n: int64, ns: int64)
    requires n > 0
    ensures var d := Increase(next, n);
      1 <= d <= n && Added(ns, d) == ns + d * SECOND
      <==> (Drawn(next) as int != TWO63 || PowerOfTwo(n)) && -TWO63 <= ns + d * SECOND < TWO63
  {
    BoundedInRangeIff(Drawn(next) as int, n);
    DividesIff(n);
    WrapTwice(ns, Increase(next, n) * SECOND);
    WrapFits(ns + Increase(next, n) * SECOND);
  }

  /** A state with the chance 0, so that every configuration modifies the response, and 2^63 as its second draw. */
  const ODD := State(0x8078_1fff_0fff_fe10, 0x1f0)

  lemma OddDraws()
    ensures Drawn(ODD) == 0x8078_1fff_1000_0000 && Drawn(Advance(ODD)) == 0x8000_0000_0000_0000
  {
    assert Left(ODD.s0) == 0xff87_ffff_0800_0000;
    assert Xor(ODD.s0, Left(ODD.s0)) == 0x7fff_e000_07ff_fe10;
  }

  lemma OddIsAlwaysModified(cfg: Config)
    requires CheckConfig(cfg).Fine?
    ensures Modifies(cfg, ODD)
  {
    OddDraws();
    assert Drawn(ODD) as int == 0x8078_1fff_1000_0000;
    BoundedValue(0x8078_1fff_1000_0000, DRAWS);
    assert Chance(ODD) == 0.0;
  }

  /** For a maximum that is no power of two, some request is modified and gets nothing added, or less. */
  lemma SomeRequestFails(cfg: Config) returns (ih: InfoHash, peer: PeerID)
    requires CheckConfig(cfg).Fine? && !PowerOfTwo(cfg.maxIncreaseDelta)
    ensures Modifies(cfg, Derive(ih, peer)) && Increase(Advance(Derive(ih, peer)), cfg.maxIncreaseDelta) < 1
  {
    OddDraws();
    OddIsAlwaysModified(cfg);
    ih, peer := EveryStateIsDerived(ODD);
    DrawOf2To63(Advance(ODD), cfg.maxIncreaseDelta);
  }

  lemma DrawOf2To63(next: State, n: int64)
    requires n > 0 && !PowerOfTwo(n) && Drawn(next) == 0x8000_0000_0000_0000
    ensures Increase(next, n) < 1
  {
    assert Drawn(next) as int == TWO63;
    BoundedInRangeIff(TWO63, n);
    DividesIff(n);
  }

  /** A state with the chance 0 and the largest second draw, which takes the whole of a maximum that divides 2^63. */
  const LAST := State(0xa176_97bd_12ef_7a2a, 0x21085d6)

  lemma LastDraws()
    ensures Drawn(LAST) == 0xa176_97bd_1500_0000 && Drawn(Advance(LAST)) == 0x7fff_ffff_ffff_ffff
  {
    assert Left(LAST.s0) == 0xde89_77bd_1500_0000;
    assert Xor(LAST.s0, Left(LAST.s0)) == 0x7fff_e000_07ef_7a2a;
  }

  lemma LastIsAlwaysModified(cfg: Config)
    requires CheckConfig(cfg).Fine?
    ensures Modifies(cfg, LAST)
  {
    LastDraws();
    assert Drawn(LAST) as int == 0xa176_97bd_1500_0000;
    BoundedValue(0xa176_97bd_1500_0000, DRAWS);
    assert Chance(LAST) == 0.0;
  }

  lemma LargestDraw(next: State, n: int64)
    requires n > 0 && PowerOfTwo(n) && Drawn(next) == 0x7fff_ffff_ffff_ffff
    ensures Increase(next, n) == n
  {
    assert Drawn(next) as int == TWO63 - 1;
    BoundedValue(TWO63 - 1, n);
    DividesIff(n);
    BelowMultiple(TWO63, n);
  }

  lemma BelowMultiple(a: nat, n: nat)
    requires 0 < n <= a && a % n == 0
    ensures (a - 1) % n == n - 1
  {
    var q := a / n;
    assert a - 1 == n * (q - 1) + (n - 1);
    assert (a - 1) - (n - 1) == n * (q - 1);
    Multiple(n * (q - 1), n, q - 1);
    RemainderOf(n * (q - 1), n, n - 1);
  }

  lemma RemainderOf(m: int, n: int, r: int)
    requires n > 0 && m % n == 0 && 0 <= r < n
    ensures (m + r) % n == r
  {
    var q, q' := m / n, (m + r) / n;
    var r' := (m + r) % n;
    assert n * (q' - q) == r - r';
    assert q' - q >= 1 ==> n * (q' - q) >= n;
    assert q' - q <= -1 ==> n * (q' - q) <= -n;
  }

  /** For a maximum that is a power of two, some request is modified and gets all of it. */
  lemma SomeRequestGetsAll(cfg: Config) returns (ih: InfoHash, peer: PeerID)
    requires CheckConfig(cfg).Fine? && PowerOfTwo(cfg.maxIncreaseDelta)
    ensures Modifies(cfg, Derive(ih, peer))
    ensures Increase(Advance(Derive(ih, peer)), cfg.maxIncreaseDelta) == cfg.maxIncreaseDelta
  {
    LastDraws();
    LastIsAlwaysModified(cfg);
    ih, peer := EveryStateIsDerived(LAST);
    LargestDraw(Advance(LAST), cfg.maxIncreaseDelta);
  }

  /** The response of a request, if it is modified, gets between one second and the maximum added to this interval. */
  ghost predicate VariesInRange(cfg: Config, ns: int64, ih: InfoHash, peer: PeerID)
    requires CheckConfig(cfg).Fine?
  {
    Modifies(cfg, Derive(ih, peer)) ==>
      var d := Increase(Advance(Derive(ih, peer)), cfg.maxIncreaseDelta);
      1 <= d <= cfg.maxIncreaseDelta && Added(ns, d) == ns + d * SECOND
  }

  /** Every request is served so exactly when the maximum is a power of two and, added whole, does not overflow. */
  lemma AlwaysInRangeIff(cfg: Config, ns: int64)
    requires CheckConfig(cfg).Fine?
    ensures (forall ih: InfoHash, peer: PeerID :: VariesInRange(cfg, ns, ih, peer))
      <==> PowerOfTwo(cfg.maxIncreaseDelta) && ns + cfg.maxIncreaseDelta * SECOND < TWO63
  {
    var max := cfg.maxIncreaseDelta;
    if !PowerOfTwo(max) {
      var ih, peer := SomeRequestFails(cfg);
      assert !VariesInRange(cfg, ns, ih, peer);
    } else if ns + max * SECOND >= TWO63 {
      var ih, peer := SomeRequestGetsAll(cfg);
      AddedInRangeIff(Advance(Derive(ih, peer)), max, ns);
      assert !VariesInRange(cfg, ns, ih, peer);
    } else {
      forall ih: InfoHash, peer: PeerID ensures VariesInRange(cfg, ns, ih, peer) {
        InRangeFor(cfg, ns, Advance(Derive(ih, peer)));
      }
    }
  }

  lemma InRangeFor(cfg: Config, ns: int64, next: State)
    requires CheckConfig(cfg).Fine? && PowerOfTwo(cfg.maxIncreaseDelta) && ns + cfg.maxIncreaseDelta * SECOND < TWO63
    ensures var d := Increase(next, cfg.maxIncreaseDelta);
      1 <= d <= cfg.maxIncreaseDelta && Added(ns, d) == ns + d * SECOND
  {
    IntnInRangeIff(next, cfg.maxIncreaseDelta);
    AddedInRangeIff(next, cfg.maxIncreaseDelta, ns);
  }
}
