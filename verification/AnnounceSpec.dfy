/** Which peers an announce may be answered with, over the abstract store. */
module AnnounceSpec {
  import opened BitTorrent
  import opened PeerStoreSpec
  import opened PeerSelection

  function KeysOf(s: Swarms, af: AddressFamily, role: Role, ih: InfoHash): set<PeerKey> {
    HashOf(s, SwarmKey(af, role, ih)).Keys
  }

  /** The sum of two counts, as the program keeps it. */
  function Together(a: set<PeerKey>, b: set<PeerKey>): uint32 { Wrap32(|a| + |b|) }

  /** What ScrapeSwarm counts: in dual-stack mode both families. */
  function Scraped(s: Swarms, dual: bool, ih: InfoHash, af: AddressFamily, role: Role): uint32 {
    if dual then Together(KeysOf(s, IPv4, role, ih), KeysOf(s, IPv6, role, ih))
    else Wrap32(|KeysOf(s, af, role, ih)|)
  }

  /** The classes of peers of AnnouncePeers in the order it uses them; `self` is the announcer's key. */
  function Classes(s: Swarms, dual: bool, ih: InfoHash, seeder: bool, af: AddressFamily,
                   self: PeerKey): seq<set<PeerKey>> {
    var other := OtherFamily(af);
    if dual then
      if seeder then [KeysOf(s, af, Leecher, ih), KeysOf(s, other, Leecher, ih)]
      else [KeysOf(s, af, Seeder, ih), KeysOf(s, other, Seeder, ih),
            KeysOf(s, af, Leecher, ih) - {self}, KeysOf(s, other, Leecher, ih)]
    else
      if seeder then [KeysOf(s, af, Leecher, ih)]
      else [KeysOf(s, af, Seeder, ih), KeysOf(s, af, Leecher, ih) - {self}]
  }

  /** The info hash has a swarm of the given family. */
  predicate Tracked(s: Swarms, af: AddressFamily, ih: InfoHash) {
    KeysOf(s, af, Seeder, ih) != {} || KeysOf(s, af, Leecher, ih) != {}
  }

  lemma PresentIsTracked(s: Swarms, k: SwarmKey, pk: PeerKey)
    requires Present(s, k, pk)
    ensures Tracked(s, k.af, k.ih)
  {
    match k.role
    case Seeder => assert pk in KeysOf(s, k.af, Seeder, k.ih);
    case Leecher => assert pk in KeysOf(s, k.af, Leecher, k.ih);
  }

  lemma UntrackedIsEmpty(s: Swarms, k: SwarmKey)
    requires !Tracked(s, k.af, k.ih)
    ensures HashOf(s, k) == map[]
  {
    match k.role
    case Seeder => assert KeysOf(s, k.af, Seeder, k.ih) == HashOf(s, k).Keys;
    case Leecher => assert KeysOf(s, k.af, Leecher, k.ih) == HashOf(s, k).Keys;
  }

  /** When AnnouncePeers reports a missing resource. */
  predicate Missing(s: Swarms, dual: bool, ih: InfoHash, af: AddressFamily) {
    !Tracked(s, af, ih) && (dual ==> !Tracked(s, OtherFamily(af), ih))
  }

  /** A missing resource is reported exactly if nobody is stored, in either role, in the families that are searched. */
  lemma MissingIff(s: Swarms, dual: bool, ih: InfoHash, af: AddressFamily)
    ensures Missing(s, dual, ih, af) <==>
      forall f, role, pk :: (f == af || dual) ==> !Present(s, SwarmKey(f, role, ih), pk)
  {
    forall f, role, pk | Present(s, SwarmKey(f, role, ih), pk) ensures Tracked(s, f, ih) {
      PresentIsTracked(s, SwarmKey(f, role, ih), pk);
    }
    forall f | Tracked(s, f, ih) ensures exists role, pk :: Present(s, SwarmKey(f, role, ih), pk) {
      var role := if KeysOf(s, f, Seeder, ih) != {} then Seeder else Leecher;
      var pk :| pk in KeysOf(s, f, role, ih);
      assert Present(s, SwarmKey(f, role, ih), pk);
    }
  }

  /** Every stored key has the form of its swarm's family. */
  ghost predicate KeysTyped(s: Swarms) {
    forall k, pk :: Present(s, k, pk) ==> KeyOfFamily(k.af, pk)
  }

  lemma ClassesTyped(s: Swarms, dual: bool, ih: InfoHash, seeder: bool, af: AddressFamily, self: PeerKey, pk: PeerKey)
    requires KeysTyped(s) && pk in Union(Classes(s, dual, ih, seeder, af, self))
    ensures KeyOfFamily(af, pk) || (dual && KeyOfFamily(OtherFamily(af), pk))
  {
    var cs := Classes(s, dual, ih, seeder, af, self);
    UnionHas(cs, pk);
    var i :| 0 <= i < |cs| && pk in cs[i];
    var f := if dual && i % 2 == 1 then OtherFamily(af) else af;
    if pk in KeysOf(s, f, Seeder, ih) {
      assert Present(s, SwarmKey(f, Seeder, ih), pk);
    } else {
      assert Present(s, SwarmKey(f, Leecher, ih), pk);
    }
  }

  lemma SelectedKeysTyped(s: Swarms, dual: bool, ih: InfoHash, seeder: bool, af: AddressFamily, self: PeerKey,
                          keys: seq<PeerKey>, numWant: int, pk: PeerKey)
    requires KeysTyped(s) && Selection(keys, Classes(s, dual, ih, seeder, af, self), numWant) && pk in keys
    ensures KeyOfFamily(af, pk) || (dual && KeyOfFamily(OtherFamily(af), pk))
  {
    SelectionWithin(keys, Classes(s, dual, ih, seeder, af, self), numWant);
    ClassesTyped(s, dual, ih, seeder, af, self, pk);
  }

  lemma SelectedKeysDecode(s: Swarms, dual: bool, ih: InfoHash, seeder: bool, af: AddressFamily, self: PeerKey,
                           keys: seq<PeerKey>, numWant: int)
    requires KeysTyped(s) && Selection(keys, Classes(s, dual, ih, seeder, af, self), numWant)
    ensures forall pk :: pk in keys ==> DecodePeerKey(pk).Some?
  {
    forall pk | pk in keys ensures DecodePeerKey(pk).Some? {
      SelectedKeysTyped(s, dual, ih, seeder, af, self, keys, numWant, pk);
      StoredKeyDecodes(if KeyOfFamily(af, pk) then af else OtherFamily(af), pk);
    }
  }

  function DecodeAll(keys: seq<PeerKey>): (peers: seq<Peer>)
    requires forall k :: k in keys ==> DecodePeerKey(k).Some?
    ensures |peers| == |keys|
    ensures forall i :: 0 <= i < |keys| ==> DecodePeerKey(keys[i]) == Some(peers[i])
  {
    seq(|keys|, i requires 0 <= i < |keys| => DecodePeerKey(keys[i]).value)
  }

  // ---------- what a scrape counts ----------

  /** The peers of a role that a scrape is about: those of one family, or in dual-stack mode of both. */
  ghost predicate InSwarm(s: Swarms, dual: bool, ih: InfoHash, af: AddressFamily, role: Role, pk: PeerKey) {
    exists f :: (f == af || dual) && Present(s, SwarmKey(f, role, ih), pk)
  }

  /** A scrape counts them all, each once, modulo 2^32. */
  lemma ScrapedCounts(s: Swarms, dual: bool, ih: InfoHash, af: AddressFamily, role: Role, peers: set<PeerKey>)
    requires KeysTyped(s) && forall pk :: pk in peers <==> InSwarm(s, dual, ih, af, role, pk)
    ensures Scraped(s, dual, ih, af, role) == Wrap32(|peers|)
  {
    if dual {
      BothFamilies(s, ih, af, role, peers);
      SizeTogether(KeysOf(s, IPv4, role, ih), KeysOf(s, IPv6, role, ih), peers);
    } else {
      OneFamily(s, ih, af, role, peers);
    }
  }

  lemma OneFamily(s: Swarms, ih: InfoHash, af: AddressFamily, role: Role, peers: set<PeerKey>)
    requires forall pk :: pk in peers <==> InSwarm(s, false, ih, af, role, pk)
    ensures peers == KeysOf(s, af, role, ih)
  {
    forall pk ensures pk in peers <==> pk in KeysOf(s, af, role, ih) {
      assert InSwarm(s, false, ih, af, role, pk) <==> Present(s, SwarmKey(af, role, ih), pk);
    }
  }

  lemma BothFamilies(s: Swarms, ih: InfoHash, af: AddressFamily, role: Role, peers: set<PeerKey>)
    requires KeysTyped(s) && forall pk :: pk in peers <==> InSwarm(s, true, ih, af, role, pk)
    ensures KeysOf(s, IPv4, role, ih) !! KeysOf(s, IPv6, role, ih)
    ensures peers == KeysOf(s, IPv4, role, ih) + KeysOf(s, IPv6, role, ih)
  {
    var a, b := KeysOf(s, IPv4, role, ih), KeysOf(s, IPv6, role, ih);
    forall pk ensures !(pk in a && pk in b) && (pk in peers <==> pk in a || pk in b) {
      var v4, v6 := Present(s, SwarmKey(IPv4, role, ih), pk), Present(s, SwarmKey(IPv6, role, ih), pk);
      assert InSwarm(s, true, ih, af, role, pk) <==> v4 || v6;
    }
  }

  lemma SizeTogether(a: set<PeerKey>, b: set<PeerKey>, c: set<PeerKey>)
    requires a !! b && c == a + b
    ensures Together(a, b) == Wrap32(|c|)
  {
    assert |c| == |a| + |b|;
  }
}
