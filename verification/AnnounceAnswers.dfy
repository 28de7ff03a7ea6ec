/** What the answers of AnnouncePeers promise a client, for every store and every answer it may give. */
module AnnounceAnswers {
  import opened BitTorrent
  import opened PeerStoreSpec
  import opened PeerSelection
  import opened AnnounceSpec

  /** `keys` is a possible answer to an announce of a sanitised peer. */
  ghost predicate IsAnswer(s: Swarms, dual: bool, ih: InfoHash, seeder: bool, announcer: Peer, numWant: int,
                           keys: seq<PeerKey>) {
    && KeysTyped(s) && Sanitized(announcer)
    && Selection(keys, Classes(s, dual, ih, seeder, announcer.ip.family, NewPeerKey(announcer)), numWant)
  }

  /** No peer is both seeder and leecher of the info hash. */
  ghost predicate RolesDisjoint(s: Swarms, ih: InfoHash) {
    forall af :: KeysOf(s, af, Seeder, ih) !! KeysOf(s, af, Leecher, ih)
  }

  lemma ClassesDisjoint(s: Swarms, dual: bool, ih: InfoHash, seeder: bool, af: AddressFamily, self: PeerKey)
    requires KeysTyped(s) && RolesDisjoint(s, ih)
    ensures PairwiseDisjoint(Classes(s, dual, ih, seeder, af, self))
  {
    forall r, r' ensures KeysOf(s, af, r, ih) !! KeysOf(s, OtherFamily(af), r', ih) {
      forall pk | pk in KeysOf(s, af, r, ih) && pk in KeysOf(s, OtherFamily(af), r', ih) ensures false {
        assert Present(s, SwarmKey(af, r, ih), pk) && Present(s, SwarmKey(OtherFamily(af), r', ih), pk);
      }
    }
    assert KeysOf(s, af, Seeder, ih) !! KeysOf(s, af, Leecher, ih);
    assert KeysOf(s, OtherFamily(af), Seeder, ih) !! KeysOf(s, OtherFamily(af), Leecher, ih);
  }

  /** The answer has exactly min(numWant, available) peers. */
  lemma AnswerLength(s: Swarms, dual: bool, ih: InfoHash, seeder: bool, announcer: Peer, numWant: nat,
                     keys: seq<PeerKey>)
    requires IsAnswer(s, dual, ih, seeder, announcer, numWant, keys)
    ensures |keys| == Min(numWant, Available(Classes(s, dual, ih, seeder, announcer.ip.family, NewPeerKey(announcer))))
  {
    SelectionLength(keys, Classes(s, dual, ih, seeder, announcer.ip.family, NewPeerKey(announcer)), numWant);
  }

  /** No peer is returned twice. */
  lemma AnswerHasNoDuplicates(s: Swarms, dual: bool, ih: InfoHash, seeder: bool, announcer: Peer, numWant: int,
                              keys: seq<PeerKey>, peers: seq<Peer>)
    requires IsAnswer(s, dual, ih, seeder, announcer, numWant, keys) && RolesDisjoint(s, ih)
    requires |peers| == |keys| && forall i :: 0 <= i < |keys| ==> DecodePeerKey(keys[i]) == Some(peers[i])
    ensures Distinct(keys) && Distinct(peers)
  {
    var af, self := announcer.ip.family, NewPeerKey(announcer);
    ClassesDisjoint(s, dual, ih, seeder, af, self);
    SelectionDistinct(keys, Classes(s, dual, ih, seeder, af, self), numWant);
    forall i | 0 <= i < |keys| ensures NewPeerKey(peers[i]) == keys[i] {
      SelectedKeysTyped(s, dual, ih, seeder, af, self, keys, numWant, keys[i]);
      StoredKeyDecodes(if KeyOfFamily(af, keys[i]) then af else OtherFamily(af), keys[i]);
    }
  }

  lemma NotElsewhere(s: Swarms, dual: bool, ih: InfoHash, af: AddressFamily, self: PeerKey, c: nat)
    requires KeysTyped(s) && KeyOfFamily(af, self) && self !in KeysOf(s, af, Seeder, ih)
    requires c < |Classes(s, dual, ih, false, af, self)|
    ensures self !in Classes(s, dual, ih, false, af, self)[c]
  {
    if dual && self in Classes(s, dual, ih, false, af, self)[c] {
      ClassFamily(s, ih, false, af, self, c, self);
    }
  }

  /** A leecher is sent to itself only if it is also recorded as a seeder. */
  lemma LeecherNeverMeetsItself(s: Swarms, dual: bool, ih: InfoHash, announcer: Peer, numWant: int, keys: seq<PeerKey>)
    requires IsAnswer(s, dual, ih, false, announcer, numWant, keys)
    requires NewPeerKey(announcer) !in KeysOf(s, announcer.ip.family, Seeder, ih)
    ensures NewPeerKey(announcer) !in keys
  {
    var af, self := announcer.ip.family, NewPeerKey(announcer);
    PeerKeyRoundTrip(announcer);
    var cs := Classes(s, dual, ih, false, af, self);
    SelectionWithin(keys, cs, numWant);
    UnionHas(cs, self);
    forall c: nat | c < |cs| ensures self !in cs[c] {
      NotElsewhere(s, dual, ih, af, self, c);
    }
  }

  /**
   Exactly: some answer sends a leecher to itself if and only if it is recorded as a seeder and anybody
   is asked for.
   */
  lemma MeetsItselfIff(s: Swarms, dual: bool, ih: InfoHash, announcer: Peer, numWant: nat)
    requires KeysTyped(s) && Sanitized(announcer)
    ensures (exists keys :: IsAnswer(s, dual, ih, false, announcer, numWant, keys) && NewPeerKey(announcer) in keys)
      <==> numWant > 0 && NewPeerKey(announcer) in KeysOf(s, announcer.ip.family, Seeder, ih)
  {
    var af, self := announcer.ip.family, NewPeerKey(announcer);
    var cs := Classes(s, dual, ih, false, af, self);
    forall keys | IsAnswer(s, dual, ih, false, announcer, numWant, keys) && self in keys
      ensures numWant > 0 && self in KeysOf(s, af, Seeder, ih)
    {
      if self !in KeysOf(s, af, Seeder, ih) {
        LeecherNeverMeetsItself(s, dual, ih, announcer, numWant, keys);
      }
      var c := UsedIsReached(keys, cs, numWant, self);
    }
    if numWant > 0 && self in KeysOf(s, af, Seeder, ih) {
      assert cs[..0] == [];
      var keys := SelectionHolding(cs, numWant, 0, self);
      assert IsAnswer(s, dual, ih, false, announcer, numWant, keys);
    }
  }

  /** In single-stack mode every peer of the answer has the announcer's family. */
  lemma SingleStackAnswerIsPure(s: Swarms, ih: InfoHash, seeder: bool, announcer: Peer, numWant: int,
                                keys: seq<PeerKey>, peers: seq<Peer>)
    requires IsAnswer(s, false, ih, seeder, announcer, numWant, keys)
    requires |peers| == |keys| && forall i :: 0 <= i < |keys| ==> DecodePeerKey(keys[i]) == Some(peers[i])
    ensures forall i :: 0 <= i < |peers| ==> Sanitized(peers[i]) && peers[i].ip.family == announcer.ip.family
  {
    var af, self := announcer.ip.family, NewPeerKey(announcer);
    forall i | 0 <= i < |keys| ensures Sanitized(peers[i]) && peers[i].ip.family == af {
      SelectedKeysTyped(s, false, ih, seeder, af, self, keys, numWant, keys[i]);
      StoredKeyDecodes(af, keys[i]);
    }
  }

  /** The other family's peers are needed to fill the answer. */
  predicate Overflows(s: Swarms, ih: InfoHash, seeder: bool, af: AddressFamily, self: PeerKey, numWant: int) {
    var other := OtherFamily(af);
    if seeder then numWant > |KeysOf(s, af, Leecher, ih)| && KeysOf(s, other, Leecher, ih) != {}
    else
      || (numWant > |KeysOf(s, af, Seeder, ih)| && KeysOf(s, other, Seeder, ih) != {})
      || (numWant > |KeysOf(s, af, Seeder, ih)| + |KeysOf(s, other, Seeder, ih)| + |KeysOf(s, af, Leecher, ih) - {self}|
          && KeysOf(s, other, Leecher, ih) != {})
  }

  /**
   The interface asks for peers of one family only. Dual-stack answers keep to the announcer's family
   exactly when numWant is met before the other family's classes are reached, or those classes are empty.
   */
  lemma DualStackAnswerIsPureIff(s: Swarms, ih: InfoHash, seeder: bool, announcer: Peer, numWant: nat,
                                 keys: seq<PeerKey>)
    requires IsAnswer(s, true, ih, seeder, announcer, numWant, keys)
    ensures (forall pk :: pk in keys ==> KeyOfFamily(announcer.ip.family, pk)) <==>
            !Overflows(s, ih, seeder, announcer.ip.family, NewPeerKey(announcer), numWant)
  {
    var af, self := announcer.ip.family, NewPeerKey(announcer);
    OverflowsIffReached(s, ih, seeder, af, self, numWant);
    var cs := Classes(s, true, ih, seeder, af, self);
    if c: nat :| Odd(c) && Reached(cs, c, numWant) {
      var i := ReachedIsUsed(keys, cs, numWant, c);
      ClassFamily(s, ih, seeder, af, self, c, keys[i]);
      assert keys[i] in keys;
    }
    forall pk | pk in keys && !KeyOfFamily(af, pk) ensures exists c: nat :: Odd(c) && Reached(cs, c, numWant) {
      var c := UsedIsReached(keys, cs, numWant, pk);
      ClassFamily(s, ih, seeder, af, self, c, pk);
      assert Odd(c);
    }
  }

  /** The positions of the other family's classes. */
  predicate Odd(c: nat) { c == 1 || c == 3 }

  lemma OverflowsIffReached(s: Swarms, ih: InfoHash, seeder: bool, af: AddressFamily, self: PeerKey, numWant: nat)
    ensures Overflows(s, ih, seeder, af, self, numWant) <==>
      exists c: nat :: Odd(c) && Reached(Classes(s, true, ih, seeder, af, self), c, numWant)
  {
    var cs := Classes(s, true, ih, seeder, af, self);
    ReachedSecond(cs, numWant);
    if !seeder {
      ReachedFourth(cs, numWant);
    }
    assert Odd(1) && Odd(3);
    assert Overflows(s, ih, seeder, af, self, numWant) <==> Reached(cs, 1, numWant) || Reached(cs, 3, numWant);
  }

  lemma ReachedSecond(cs: seq<set<PeerKey>>, numWant: nat)
    requires |cs| > 1
    ensures Reached(cs, 1, numWant) <==> cs[1] != {} && numWant > |cs[0]|
  {
    assert cs[..1] == [cs[0]];
    AvailableOne(cs[0]);
  }

  lemma ReachedFourth(cs: seq<set<PeerKey>>, numWant: nat)
    requires |cs| > 3
    ensures Reached(cs, 3, numWant) <==> cs[3] != {} && numWant > |cs[0]| + |cs[1]| + |cs[2]|
  {
    assert cs[..3] == [cs[0], cs[1], cs[2]];
    AvailableThree(cs[0], cs[1], cs[2]);
  }

  lemma ClassFamily(s: Swarms, ih: InfoHash, seeder: bool, af: AddressFamily, self: PeerKey, c: nat, pk: PeerKey)
    requires KeysTyped(s) && c < |Classes(s, true, ih, seeder, af, self)|
    requires pk in Classes(s, true, ih, seeder, af, self)[c]
    ensures KeyOfFamily(af, pk) <==> c == 0 || c == 2
  {
    var f := if c == 0 || c == 2 then af else OtherFamily(af);
    var role := if seeder || c >= 2 then Leecher else Seeder;
    assert Present(s, SwarmKey(f, role, ih), pk);
    assert KeyOfFamily(f, pk);
  }

  lemma AvailableThree(a: set<PeerKey>, b: set<PeerKey>, c: set<PeerKey>)
    ensures Available([a, b, c]) == |a| + |b| + |c|
  {
    assert [a, b, c][1..] == [b, c] && [b, c][1..] == [c];
    AvailableOne(c);
  }

  // ---------- who is in an answer, from the stored peers alone ----------

  /** A stored peer, in one of its roles. */
  datatype Listed = Listed(af: AddressFamily, role: Role, pk: PeerKey)

  /** Whom an announce may be answered with: a seeder with leechers only, a leecher with anybody but itself. */
  predicate Eligible(s: Swarms, dual: bool, ih: InfoHash, seeder: bool, af: AddressFamily, self: PeerKey, x: Listed) {
    && Present(s, SwarmKey(x.af, x.role, ih), x.pk)
    && (x.af == af || dual)
    && (seeder ==> x.role == Leecher)
    && (!seeder && x.af == af && x.role == Leecher ==> x.pk != self)
  }

  /** Seeders come before leechers, and within a role the announcer's family before the other. */
  predicate Earlier(af: AddressFamily, x: Listed, y: Listed) {
    if x.role == y.role then x.af == af && y.af != af else x.role == Seeder
  }

  /** The eligible peers, or those that come before one of them, or not after it. */
  ghost function AllEligible(s: Swarms, dual: bool, ih: InfoHash, seeder: bool, af: AddressFamily,
                             self: PeerKey): set<Listed> {
    set f, role, pk | f in {IPv4, IPv6} && role in {Seeder, Leecher} && pk in KeysOf(s, f, role, ih)
      && Eligible(s, dual, ih, seeder, af, self, Listed(f, role, pk)) :: Listed(f, role, pk)
  }

  ghost function Before(s: Swarms, dual: bool, ih: InfoHash, seeder: bool, af: AddressFamily, self: PeerKey,
                        x: Listed): set<Listed> {
    set y | y in AllEligible(s, dual, ih, seeder, af, self) && Earlier(af, y, x)
  }

  ghost function UpTo(s: Swarms, dual: bool, ih: InfoHash, seeder: bool, af: AddressFamily, self: PeerKey,
                      x: Listed): set<Listed> {
    set y | y in AllEligible(s, dual, ih, seeder, af, self) && !Earlier(af, x, y)
  }

  /** Some answer holds a peer exactly if more are asked for than come before it. */
  lemma InSomeAnswerIff(s: Swarms, dual: bool, ih: InfoHash, seeder: bool, announcer: Peer, numWant: nat, pk: PeerKey)
    requires KeysTyped(s) && Sanitized(announcer)
    ensures var af, self := announcer.ip.family, NewPeerKey(announcer);
      (exists keys :: IsAnswer(s, dual, ih, seeder, announcer, numWant, keys) && pk in keys) <==>
      exists x :: x in AllEligible(s, dual, ih, seeder, af, self) && x.pk == pk
             && numWant > |Before(s, dual, ih, seeder, af, self, x)|
  {
    var af, self := announcer.ip.family, NewPeerKey(announcer);
    var cs := Classes(s, dual, ih, seeder, af, self);
    PeerKeyRoundTrip(announcer);
    InSomeIff(cs, numWant, pk);
    if c: nat :| c < |cs| && pk in cs[c] && numWant > Available(cs[..c]) {
      var x := Labelled(s, dual, ih, seeder, af, self, c, pk);
      assert x in AllEligible(s, dual, ih, seeder, af, self);
    }
    if x :| x in AllEligible(s, dual, ih, seeder, af, self) && x.pk == pk
            && numWant > |Before(s, dual, ih, seeder, af, self, x)| {
      var c := ClassOfListed(s, dual, ih, seeder, af, self, x);
      assert pk in cs[c] && numWant > Available(cs[..c]);
    }
    AnswersAreSelections(s, dual, ih, seeder, announcer, numWant, pk);
  }

  lemma AnswersAreSelections(s: Swarms, dual: bool, ih: InfoHash, seeder: bool, announcer: Peer, numWant: nat,
                             pk: PeerKey)
    requires KeysTyped(s) && Sanitized(announcer)
    ensures var cs := Classes(s, dual, ih, seeder, announcer.ip.family, NewPeerKey(announcer));
      (exists keys :: IsAnswer(s, dual, ih, seeder, announcer, numWant, keys) && pk in keys)
      <==> exists keys :: Selection(keys, cs, numWant) && pk in keys
  {
    var cs := Classes(s, dual, ih, seeder, announcer.ip.family, NewPeerKey(announcer));
    if keys :| Selection(keys, cs, numWant) && pk in keys {
      assert IsAnswer(s, dual, ih, seeder, announcer, numWant, keys);
    }
  }

  /** Every answer holds it exactly if as many are asked for as come before it or with it. */
  lemma InEveryAnswerIff(s: Swarms, dual: bool, ih: InfoHash, seeder: bool, announcer: Peer, numWant: nat, pk: PeerKey)
    requires KeysTyped(s) && Sanitized(announcer)
    ensures var af, self := announcer.ip.family, NewPeerKey(announcer);
      (forall keys :: IsAnswer(s, dual, ih, seeder, announcer, numWant, keys) ==> pk in keys) <==>
      exists x :: x in AllEligible(s, dual, ih, seeder, af, self) && x.pk == pk
             && numWant >= |UpTo(s, dual, ih, seeder, af, self, x)|
  {
    var af, self := announcer.ip.family, NewPeerKey(announcer);
    var cs := Classes(s, dual, ih, seeder, af, self);
    PeerKeyRoundTrip(announcer);
    InEveryIff(cs, numWant, pk);
    forall keys ensures IsAnswer(s, dual, ih, seeder, announcer, numWant, keys) <==> Selection(keys, cs, numWant) {}
    if c: nat :| c < |cs| && pk in cs[c] && numWant >= Available(cs[..c + 1]) {
      var x := Labelled(s, dual, ih, seeder, af, self, c, pk);
      assert x in AllEligible(s, dual, ih, seeder, af, self);
    }
    if x :| x in AllEligible(s, dual, ih, seeder, af, self) && x.pk == pk
            && numWant >= |UpTo(s, dual, ih, seeder, af, self, x)| {
      var c := ClassOfListed(s, dual, ih, seeder, af, self, x);
      assert pk in cs[c] && numWant >= Available(cs[..c + 1]);
    }
  }

  // ---------- the classes, label by label ----------

  /** Family and role of each class. */
  function Labels(dual: bool, seeder: bool, af: AddressFamily): seq<(AddressFamily, Role)> {
    var other := OtherFamily(af);
    if dual then
      if seeder then [(af, Leecher), (other, Leecher)]
      else [(af, Seeder), (other, Seeder), (af, Leecher), (other, Leecher)]
    else
      if seeder then [(af, Leecher)] else [(af, Seeder), (af, Leecher)]
  }

  ghost function Tagged(classes: seq<set<PeerKey>>, labels: seq<(AddressFamily, Role)>): set<Listed>
    requires |classes| == |labels|
  {
    if classes == [] then {}
    else (set pk | pk in classes[0] :: Listed(labels[0].0, labels[0].1, pk)) + Tagged(classes[1..], labels[1..])
  }

  lemma {:induction false} TagSize(c: set<PeerKey>, af: AddressFamily, role: Role)
    ensures |set pk | pk in c :: Listed(af, role, pk)| == |c|
    decreases |c|
  {
    var tagged := set pk | pk in c :: Listed(af, role, pk);
    if c == {} {
      assert tagged == {};
    } else {
      var x :| x in c;
      TagSize(c - {x}, af, role);
      assert tagged == (set pk | pk in c - {x} :: Listed(af, role, pk)) + {Listed(af, role, x)};
    }
  }

  lemma {:induction false} TaggedHas(classes: seq<set<PeerKey>>, labels: seq<(AddressFamily, Role)>, x: Listed)
    requires |classes| == |labels|
    ensures x in Tagged(classes, labels) <==>
      exists i :: 0 <= i < |classes| && labels[i] == (x.af, x.role) && x.pk in classes[i]
    decreases |classes|
  {
    if classes != [] {
      TaggedHas(classes[1..], labels[1..], x);
      if i :| 0 <= i < |classes| && labels[i] == (x.af, x.role) && x.pk in classes[i] {
        if i > 0 {
          assert labels[1..][i - 1] == (x.af, x.role) && x.pk in classes[1..][i - 1];
        }
      }
      if i :| 0 <= i < |classes[1..]| && labels[1..][i] == (x.af, x.role) && x.pk in classes[1..][i] {
        assert labels[i + 1] == (x.af, x.role) && x.pk in classes[i + 1];
      }
    }
  }

  lemma {:induction false} TaggedSize(classes: seq<set<PeerKey>>, labels: seq<(AddressFamily, Role)>)
    requires |classes| == |labels| && Distinct(labels)
    ensures |Tagged(classes, labels)| == Available(classes)
    decreases |classes|
  {
    if classes != [] {
      var first := set pk | pk in classes[0] :: Listed(labels[0].0, labels[0].1, pk);
      TagSize(classes[0], labels[0].0, labels[0].1);
      TaggedSize(classes[1..], labels[1..]);
      forall x | x in first ensures x !in Tagged(classes[1..], labels[1..]) {
        TaggedHas(classes[1..], labels[1..], x);
      }
    }
  }

  /** A class holds the eligible peers of its label, and every eligible peer has a label. */
  lemma ClassIsEligible(s: Swarms, dual: bool, ih: InfoHash, seeder: bool, af: AddressFamily, self: PeerKey,
                        x: Listed, c: nat)
    requires c < |Labels(dual, seeder, af)| && Labels(dual, seeder, af)[c] == (x.af, x.role)
    requires KeysTyped(s) && KeyOfFamily(af, self)
    ensures |Classes(s, dual, ih, seeder, af, self)| == |Labels(dual, seeder, af)|
    ensures x.pk in Classes(s, dual, ih, seeder, af, self)[c] <==> x in AllEligible(s, dual, ih, seeder, af, self)
  {
    assert x == Listed(x.af, x.role, x.pk);
    assert x in AllEligible(s, dual, ih, seeder, af, self) <==> Eligible(s, dual, ih, seeder, af, self, x);
  }

  lemma BeforeIsTagged(s: Swarms, dual: bool, ih: InfoHash, seeder: bool, af: AddressFamily, self: PeerKey, x: Listed,
                       c: nat)
    requires c < |Labels(dual, seeder, af)| && Labels(dual, seeder, af)[c] == (x.af, x.role)
    requires KeysTyped(s) && KeyOfFamily(af, self)
    ensures |Classes(s, dual, ih, seeder, af, self)| == |Labels(dual, seeder, af)|
    ensures |Before(s, dual, ih, seeder, af, self, x)| == Available(Classes(s, dual, ih, seeder, af, self)[..c])
    ensures |UpTo(s, dual, ih, seeder, af, self, x)| == Available(Classes(s, dual, ih, seeder, af, self)[..c + 1])
  {
    var cs, ls := Classes(s, dual, ih, seeder, af, self), Labels(dual, seeder, af);
    var before, upTo := Before(s, dual, ih, seeder, af, self, x), UpTo(s, dual, ih, seeder, af, self, x);
    forall y
      ensures y in before <==> y in Tagged(cs[..c], ls[..c])
      ensures y in upTo <==> y in Tagged(cs[..c + 1], ls[..c + 1])
    {
      Position(s, dual, ih, seeder, af, self, x, c, y);
    }
    LabelsDistinct(dual, seeder, af);
    SizeByTags(before, cs, ls, c);
    SizeByTags(upTo, cs, ls, c + 1);
  }

  lemma LabelsDistinct(dual: bool, seeder: bool, af: AddressFamily)
    ensures Distinct(Labels(dual, seeder, af))
  {
  }

  lemma SizeByTags(listed: set<Listed>, cs: seq<set<PeerKey>>, ls: seq<(AddressFamily, Role)>, c: nat)
    requires |cs| == |ls| && c <= |ls| && Distinct(ls)
    requires forall y :: y in listed <==> y in Tagged(cs[..c], ls[..c])
    ensures |listed| == Available(cs[..c])
  {
    assert listed == Tagged(cs[..c], ls[..c]);
    TaggedSize(cs[..c], ls[..c]);
  }

  lemma Position(s: Swarms, dual: bool, ih: InfoHash, seeder: bool, af: AddressFamily, self: PeerKey, x: Listed,
                 c: nat, y: Listed)
    requires c < |Labels(dual, seeder, af)| && Labels(dual, seeder, af)[c] == (x.af, x.role)
    requires KeysTyped(s) && KeyOfFamily(af, self)
    ensures |Classes(s, dual, ih, seeder, af, self)| == |Labels(dual, seeder, af)|
    ensures var cs, ls := Classes(s, dual, ih, seeder, af, self), Labels(dual, seeder, af);
      && (y in Before(s, dual, ih, seeder, af, self, x) <==> y in Tagged(cs[..c], ls[..c]))
      && (y in UpTo(s, dual, ih, seeder, af, self, x) <==> y in Tagged(cs[..c + 1], ls[..c + 1]))
  {
    var cs, ls := Classes(s, dual, ih, seeder, af, self), Labels(dual, seeder, af);
    TaggedHas(cs[..c], ls[..c], y);
    TaggedHas(cs[..c + 1], ls[..c + 1], y);
    if i :| 0 <= i < |ls| && ls[i] == (y.af, y.role) {
      ClassIsEligible(s, dual, ih, seeder, af, self, y, i);
      LabelOrder(dual, seeder, af, i, c);
      assert Earlier(af, y, x) <==> i < c;
      assert Earlier(af, x, y) <==> c < i;
      if i <= c {
        assert ls[..c + 1][i] == ls[i] && cs[..c + 1][i] == cs[i];
      }
    } else {
      EligibleHasLabel(s, dual, ih, seeder, af, self, y);
    }
  }

  lemma LabelOrder(dual: bool, seeder: bool, af: AddressFamily, i: nat, j: nat)
    requires i < |Labels(dual, seeder, af)| && j < |Labels(dual, seeder, af)|
    ensures var (f, r), (f', r') := Labels(dual, seeder, af)[i], Labels(dual, seeder, af)[j];
      i < j <==> if r == r' then f == af && f' != af else r == Seeder
  {
  }

  lemma EligibleHasLabel(s: Swarms, dual: bool, ih: InfoHash, seeder: bool, af: AddressFamily, self: PeerKey, x: Listed)
    ensures x in AllEligible(s, dual, ih, seeder, af, self) ==> (x.af, x.role) in Labels(dual, seeder, af)
  {
  }

  lemma Labelled(s: Swarms, dual: bool, ih: InfoHash, seeder: bool, af: AddressFamily, self: PeerKey, c: nat,
                 pk: PeerKey) returns (x: Listed)
    requires KeysTyped(s) && KeyOfFamily(af, self)
    requires c < |Classes(s, dual, ih, seeder, af, self)| && pk in Classes(s, dual, ih, seeder, af, self)[c]
    ensures x in AllEligible(s, dual, ih, seeder, af, self) && x.pk == pk
    ensures |Before(s, dual, ih, seeder, af, self, x)| == Available(Classes(s, dual, ih, seeder, af, self)[..c])
    ensures |UpTo(s, dual, ih, seeder, af, self, x)| == Available(Classes(s, dual, ih, seeder, af, self)[..c + 1])
  {
    var l := Labels(dual, seeder, af)[c];
    x := Listed(l.0, l.1, pk);
    ClassIsEligible(s, dual, ih, seeder, af, self, x, c);
    BeforeIsTagged(s, dual, ih, seeder, af, self, x, c);
  }

  lemma ClassOfListed(s: Swarms, dual: bool, ih: InfoHash, seeder: bool, af: AddressFamily, self: PeerKey,
                      x: Listed) returns (c: nat)
    requires KeysTyped(s) && KeyOfFamily(af, self) && x in AllEligible(s, dual, ih, seeder, af, self)
    ensures c < |Classes(s, dual, ih, seeder, af, self)| && x.pk in Classes(s, dual, ih, seeder, af, self)[c]
    ensures |Before(s, dual, ih, seeder, af, self, x)| == Available(Classes(s, dual, ih, seeder, af, self)[..c])
    ensures |UpTo(s, dual, ih, seeder, af, self, x)| == Available(Classes(s, dual, ih, seeder, af, self)[..c + 1])
  {
    EligibleHasLabel(s, dual, ih, seeder, af, self, x);
    c :| c < |Labels(dual, seeder, af)| && Labels(dual, seeder, af)[c] == (x.af, x.role);
    ClassIsEligible(s, dual, ih, seeder, af, self, x, c);
    BeforeIsTagged(s, dual, ih, seeder, af, self, x, c);
  }
}
