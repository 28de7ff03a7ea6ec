/**
 AnnouncePeers of the Redis store beside other threads: it reads the leechers with one HKEYS and the seeders
 with the next, and anything may run in between.
 */
module RedisAnnounce {
  import opened BitTorrent
  import opened PeerStoreSpec
  import opened PeerSelection
  import opened AnnounceSpec
  import opened RedisCommands
  import opened RedisProtocol
  import opened RedisWitnesses
  import R = RedisStore

  /** The classes of an answer to a leecher, from the swarms at the first read and at the second. */
  function TornClasses(first: Swarms, second: Swarms, ih: InfoHash, af: AddressFamily): seq<set<PeerKey>> {
    [KeysOf(second, af, Seeder, ih), KeysOf(first, af, Leecher, ih)]
  }

  /** With nothing in between they are the classes of the store. */
  lemma UntornClasses(s: Swarms, ih: InfoHash, af: AddressFamily)
    ensures TornClasses(s, s, ih, af) == R.RedisClasses(s, ih, false, af)
  {
  }

  lemma TornAvailable(first: Swarms, second: Swarms, ih: InfoHash, af: AddressFamily)
    ensures var cs := TornClasses(first, second, ih, af);
      && Available(cs[..1]) == |cs[0]| && Available(cs[..0 + 1]) == |cs[0]|
      && Available(cs) == |cs[0]| + |cs[1]|
  {
    var cs := TornClasses(first, second, ih, af);
    AvailableUpTo(cs, 0);
    AvailableUpTo(cs, 1);
    assert cs[..0] == [] && cs[..2] == cs;
  }

  /** Some answer names a peer twice exactly when a peer is in both reads and the seeders leave room. */
  lemma RepeatsIff(first: Swarms, second: Swarms, ih: InfoHash, af: AddressFamily, numWant: nat)
    ensures (exists keys :: Selection(keys, TornClasses(first, second, ih, af), numWant) && !Distinct(keys)) <==>
      exists pk :: pk in KeysOf(first, af, Leecher, ih) && pk in KeysOf(second, af, Seeder, ih)
        && numWant > |KeysOf(second, af, Seeder, ih)|
  {
    var cs := TornClasses(first, second, ih, af);
    TornAvailable(first, second, ih, af);
    if pk :| pk in cs[1] && pk in cs[0] && numWant > |cs[0]| {
      var keys := RepeatingAnswer(cs, numWant, pk);
      assert Selection(keys, cs, numWant) && !Distinct(keys);
    }
    forall keys | Selection(keys, cs, numWant) && !Distinct(keys)
      ensures exists pk :: pk in cs[1] && pk in cs[0] && numWant > |cs[0]|
    {
      if numWant <= |cs[0]| {
        FirstOnlyIsDistinct(keys, cs, numWant);
      }
      if cs[0] !! cs[1] {
        SelectionDistinct(keys, cs, numWant);
      }
      var pk :| pk in cs[1] && pk in cs[0];
    }
  }

  lemma FirstOnlyIsDistinct(keys: seq<PeerKey>, cs: seq<set<PeerKey>>, numWant: nat)
    requires cs != [] && Selection(keys, cs, numWant) && numWant <= |cs[0]|
    ensures Distinct(keys)
  {
    assert keys == keys[..numWant] + keys[numWant..];
    assert keys == keys[..numWant];
  }

  /** All seeders, then the peer again as the first leecher. */
  lemma RepeatingAnswer(cs: seq<set<PeerKey>>, numWant: nat, pk: PeerKey) returns (keys: seq<PeerKey>)
    requires |cs| == 2 && pk in cs[0] && pk in cs[1] && numWant > |cs[0]| && Available(cs[..1]) == |cs[0]|
    ensures Selection(keys, cs, numWant) && !Distinct(keys)
  {
    keys := SelectionHolding(cs, numWant, 1, pk);
    var n := |cs[0]|;
    DistinctCovers(keys[..n], cs[0], pk);
    var i :| 0 <= i < n && keys[..n][i] == pk;
    assert keys[i] == pk && keys[n] == pk;
  }

  /** A peer that was no seeder at the first read is in both only if it was written as one in between. */
  lemma BothReadsNeedWrite(s: State, run: seq<Move>, ih: InfoHash, af: AddressFamily, pk: PeerKey)
    requires Legal(s, run) && pk !in KeysOf(s.redis.swarms, af, Seeder, ih)
    requires pk in KeysOf(Final(s, run).redis.swarms, af, Seeder, ih)
    ensures LastWrite(run, SwarmKey(af, Seeder, ih), pk).Some?
  {
    RunTime(s, run, SwarmKey(af, Seeder, ih), pk);
  }

  /** From the empty database: a leecher that graduates between the two reads fills an answer of two on its own. */
  lemma GraduateIsNamedTwice(s: State, ih: InfoHash, af: AddressFamily, pk: PeerKey, t0: int, t1: int)
      returns (before: seq<Move>, between: seq<Move>)
    requires Initial(s) && |s.threads| > 0
    ensures Legal(s, before) && Legal(Final(s, before), between)
    ensures pk !in KeysOf(Final(s, before).redis.swarms, af, Seeder, ih)
    ensures var first, second := Final(s, before).redis.swarms, Final(Final(s, before), between).redis.swarms;
      forall keys :: Selection(keys, TornClasses(first, second, ih, af), 2) ==> keys == [pk, pk]
  {
    var l, k := SwarmKey(af, Leecher, ih), SwarmKey(af, Seeder, ih);
    before := PutFirst(s, l, pk, t0);
    var s1 := Final(s, before);
    var m := Move(0, DoGraduate(af, ih, pk, t1));
    between := [m];
    Extend(s1, [], m);
    assert [] + [m] == between;
    NextSwarms(s1, m);
    var first, second := s1.redis.swarms, Final(s1, between).redis.swarms;
    GraduateAlone(first, ih, af, pk, t0, t1);
    assert second == SwarmsAfter(first, s1.threads[0], m.action);
    forall keys | Selection(keys, TornClasses(first, second, ih, af), 2) ensures keys == [pk, pk] {
      TwoOfOne(keys, pk);
    }
  }

  lemma GraduateAlone(first: Swarms, ih: InfoHash, af: AddressFamily, pk: PeerKey, t0: int, t1: int)
    requires first == map[SwarmKey(af, Leecher, ih) := map[pk := t0]]
    ensures KeysOf(first, af, Leecher, ih) == {pk} && KeysOf(first, af, Seeder, ih) == {}
    ensures var gone := Remove(first, SwarmKey(af, Leecher, ih), pk);
      KeysOf(Put(gone, SwarmKey(af, Seeder, ih), pk, t1), af, Seeder, ih) == {pk}
  {
    var l, k := SwarmKey(af, Leecher, ih), SwarmKey(af, Seeder, ih);
    var gone := Remove(first, l, pk);
    HashOfWithHash(first, l, HashOf(first, l) - {pk}, k);
    HashOfWithHash(gone, k, HashOf(gone, k)[pk := t1], k);
  }

  lemma TwoOfOne(keys: seq<PeerKey>, pk: PeerKey)
    requires Selection(keys, [{pk}, {pk}], 2)
    ensures keys == [pk, pk]
  {
    var cs: seq<set<PeerKey>> := [{pk}, {pk}];
    assert cs[1..] == [{pk}] && [{pk}][1..] == [];
    assert Available([{pk}]) == 1;
    SelectionLength(keys, cs, 2);
    SelectionWithin(keys, cs, 2);
    UnionHas(cs, keys[0]);
    UnionHas(cs, keys[1]);
    assert keys[0] in keys && keys[1] in keys;
  }
}
