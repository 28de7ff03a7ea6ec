/** How AnnouncePeers picks peers: class by class, in priority order, until numWant is met. */
module PeerSelection {
  import opened BitTorrent

  ghost predicate Distinct<T>(s: seq<T>) {
    forall i, j :: 0 <= i < j < |s| ==> s[i] != s[j]
  }

  ghost predicate Within<T>(s: seq<T>, c: set<T>) {
    forall x :: x in s ==> x in c
  }

  /** `s` lists the elements of `c`, each once. */
  ghost predicate Enumerates<T(!new)>(s: seq<T>, c: set<T>) {
    Distinct(s) && (forall x :: x in s <==> x in c) && |s| == |c|
  }

  lemma EnumeratesSnoc<T(!new)>(s: seq<T>, c: set<T>, x: T)
    requires Enumerates(s, c) && x !in c
    ensures Enumerates(s + [x], c + {x})
  {
    forall y ensures y in s + [x] <==> y in c + {x} {
      assert y in s + [x] <==> y in s || y == x;
    }
  }

  /** The elements of a set in some order, as ranging over a map yields its keys. */
  method Listing<T(==,!new)>(c: set<T>) returns (s: seq<T>)
    ensures Enumerates(s, c)
  {
    s := [];
    var left := c;
    assert c - left == {};
    while left != {}
      invariant left <= c && Enumerates(s, c - left)
      decreases |left|
    {
      var x :| x in left;
      EnumeratesSnoc(s, c - left, x);
      assert c - (left - {x}) == (c - left) + {x};
      s := s + [x];
      left := left - {x};
    }
    assert c - left == c;
  }

  /** How many peers one class contributes; the counter of the loop stops at zero, so a negative want takes all. */
  function Taken<K>(c: set<K>, want: int): nat {
    if want < 0 then |c| else Min(want, |c|)
  }

  /** `keys` is a possible answer from `classes`: each class is exhausted before the next one is used. */
  ghost predicate Selection<K>(keys: seq<K>, classes: seq<set<K>>, want: int)
    decreases |classes|
  {
    if classes == [] then keys == []
    else
      var n := Taken(classes[0], want);
      && n <= |keys|
      && Distinct(keys[..n]) && Within(keys[..n], classes[0])
      && (if want - n > 0 then Selection(keys[n..], classes[1..], want - n) else keys[n..] == [])
  }

  function Available<K>(classes: seq<set<K>>): nat {
    if classes == [] then 0 else |classes[0]| + Available(classes[1..])
  }

  /** Exactly min(numWant, available) peers are returned. */
  lemma {:induction false} SelectionLength<K>(keys: seq<K>, classes: seq<set<K>>, want: nat)
    requires Selection(keys, classes, want)
    ensures |keys| == Min(want, Available(classes))
    decreases |classes|
  {
    if classes != [] {
      var n := Taken(classes[0], want);
      if want - n > 0 {
        SelectionLength(keys[n..], classes[1..], want - n);
      }
    }
  }

  /** A negative number is never counted down to zero: the whole first class is returned, and nothing else. */
  lemma NegativeWantTakesFirst<K(!new)>(keys: seq<K>, classes: seq<set<K>>, want: int)
    requires Selection(keys, classes, want) && want < 0 && classes != []
    ensures Enumerates(keys, classes[0])
  {
    var n := |classes[0]|;
    assert keys == keys[..n] + keys[n..] == keys[..n];
    forall x | x in classes[0] ensures x in keys {
      DistinctCovers(keys, classes[0], x);
    }
  }

  /** The i-th answer comes from the first class whose cumulative size exceeds i, so no class is skipped. */
  lemma {:induction false} SelectionPriority<K>(keys: seq<K>, classes: seq<set<K>>, want: nat, i: nat, c: nat)
    requires Selection(keys, classes, want) && i < |keys|
    requires c < |classes| && Available(classes[..c]) <= i < Available(classes[..c + 1])
    ensures keys[i] in classes[c]
    decreases |classes|
  {
    var n := Taken(classes[0], want);
    if c == 0 {
      assert classes[..1][1..] == [];
      assert i < n && keys[i] == keys[..n][i];
    } else {
      assert classes[..c][1..] == classes[1..][..c - 1];
      assert classes[..c + 1][1..] == classes[1..][..c];
      assert i >= |classes[0]| >= n;
      assert want - n > 0;
      SelectionPriority(keys[n..], classes[1..], want - n, i - n, c - 1);
    }
  }

  lemma {:induction false} AvailableSplit<K>(classes: seq<set<K>>, c: nat)
    requires c <= |classes|
    ensures Available(classes) == Available(classes[..c]) + Available(classes[c..])
  {
    if c > 0 {
      assert classes[..c][1..] == classes[1..][..c - 1];
      assert classes[c..] == classes[1..][c - 1..];
      AvailableSplit(classes[1..], c - 1);
    } else {
      assert classes[..0] == [] && classes[0..] == classes;
    }
  }

  lemma AvailableUpTo<K>(classes: seq<set<K>>, c: nat)
    requires c < |classes|
    ensures Available(classes[..c + 1]) == Available(classes[..c]) + |classes[c]|
    ensures Available(classes[..c + 1]) <= Available(classes)
  {
    var front := classes[..c + 1];
    AvailableSplit(front, c);
    assert front[..c] == classes[..c];
    assert front[c..] == [classes[c]];
    AvailableOne(classes[c]);
    AvailableSplit(classes, c + 1);
  }

  lemma AvailableOne<K>(c: set<K>)
    ensures Available([c]) == |c|
  {
    assert [c][1..] == [];
  }

  /** Every position of an answer lies in exactly one class. */
  lemma {:induction false} ClassOf<K>(classes: seq<set<K>>, i: nat) returns (c: nat)
    requires i < Available(classes)
    ensures c < |classes| && Available(classes[..c]) <= i < Available(classes[..c + 1])
  {
    c := 0;
    assert classes[..0] == [] && classes[..|classes|] == classes;
    while !(i < Available(classes[..c + 1]))
      invariant c < |classes| && Available(classes[..c]) <= i
      decreases |classes| - c
    {
      AvailableUpTo(classes, c);
      c := c + 1;
    }
  }

  ghost predicate Uses<K>(keys: seq<K>, c: set<K>) {
    exists k :: k in keys && k in c
  }

  /** A selection gets as far as a class and finds somebody there. */
  predicate Reached<K>(classes: seq<set<K>>, c: nat, want: int) {
    c < |classes| && classes[c] != {} && want > Available(classes[..c])
  }

  lemma ReachedIsUsed<K>(keys: seq<K>, classes: seq<set<K>>, want: nat, c: nat) returns (i: nat)
    requires Selection(keys, classes, want) && Reached(classes, c, want)
    ensures i == Available(classes[..c]) && i < |keys| && keys[i] in classes[c]
  {
    i := Available(classes[..c]);
    SelectionLength(keys, classes, want);
    AvailableUpTo(classes, c);
    SelectionPriority(keys, classes, want, i, c);
  }

  /** The class a position of an answer was filled from. */
  lemma ClassAt<K>(keys: seq<K>, classes: seq<set<K>>, want: nat, i: nat) returns (c: nat)
    requires Selection(keys, classes, want) && i < |keys|
    ensures c < |classes| && keys[i] in classes[c] && Available(classes[..c]) <= i < Available(classes[..c + 1])
    ensures i < want
  {
    SelectionLength(keys, classes, want);
    c := ClassOf(classes, i);
    SelectionPriority(keys, classes, want, i, c);
  }

  lemma UsedIsReached<K>(keys: seq<K>, classes: seq<set<K>>, want: nat, k: K) returns (c: nat)
    requires Selection(keys, classes, want) && k in keys
    ensures Reached(classes, c, want) && k in classes[c]
  {
    var i :| 0 <= i < |keys| && keys[i] == k;
    c := ClassAt(keys, classes, want, i);
  }

  ghost predicate PairwiseDisjoint<K>(classes: seq<set<K>>) {
    forall i, j :: 0 <= i < j < |classes| ==> classes[i] !! classes[j]
  }

  /** A class of disjoint ones is used exactly when it has a member and the classes before it do not suffice. */
  lemma SelectionUsesClassIff<K>(keys: seq<K>, classes: seq<set<K>>, want: nat, c: nat)
    requires Selection(keys, classes, want) && PairwiseDisjoint(classes) && c < |classes|
    ensures Uses(keys, classes[c]) <==> Reached(classes, c, want)
  {
    if Reached(classes, c, want) {
      var i := ReachedIsUsed(keys, classes, want, c);
      assert keys[i] in keys;
    }
    forall k | k in keys && k in classes[c] ensures Reached(classes, c, want) {
      var d := UsedIsReached(keys, classes, want, k);
      assert d == c;
    }
  }

  ghost function Union<K>(classes: seq<set<K>>): set<K> {
    if classes == [] then {} else classes[0] + Union(classes[1..])
  }

  lemma {:induction false} UnionHas<K>(classes: seq<set<K>>, k: K)
    ensures k in Union(classes) <==> exists i :: 0 <= i < |classes| && k in classes[i]
  {
    if classes != [] {
      UnionHas(classes[1..], k);
      assert forall i :: 0 <= i < |classes[1..]| ==> classes[1..][i] == classes[i + 1];
      if exists i :: 0 <= i < |classes| && k in classes[i] {
        var i :| 0 <= i < |classes| && k in classes[i];
        assert i > 0 ==> k in classes[1..][i - 1];
      }
      if exists i :: 0 <= i < |classes[1..]| && k in classes[1..][i] {
        var i :| 0 <= i < |classes[1..]| && k in classes[1..][i];
        assert k in classes[i + 1];
      }
    }
  }

  lemma {:induction false} SelectionWithin<K>(keys: seq<K>, classes: seq<set<K>>, want: int)
    requires Selection(keys, classes, want)
    ensures Within(keys, Union(classes))
    decreases |classes|
  {
    if classes != [] {
      var n := Taken(classes[0], want);
      assert keys == keys[..n] + keys[n..];
      if want - n > 0 {
        SelectionWithin(keys[n..], classes[1..], want - n);
      }
    }
  }

  /** Disjoint classes never yield the same peer twice. */
  lemma {:induction false} SelectionDistinct<K>(keys: seq<K>, classes: seq<set<K>>, want: int)
    requires Selection(keys, classes, want) && PairwiseDisjoint(classes)
    ensures Distinct(keys)
    decreases |classes|
  {
    if classes != [] {
      var n := Taken(classes[0], want);
      var rest := classes[1..];
      assert keys == keys[..n] + keys[n..];
      if want - n > 0 {
        assert forall i :: 0 <= i < |rest| ==> rest[i] == classes[i + 1];
        SelectionDistinct(keys[n..], rest, want - n);
        SelectionWithin(keys[n..], rest, want - n);
        forall k | k in Union(rest) ensures k !in classes[0] {
          UnionHas(rest, k);
        }
        ConcatDistinct(keys[..n], keys[n..], classes[0]);
      }
    }
  }

  lemma ConcatDistinct<K>(a: seq<K>, b: seq<K>, c: set<K>)
    requires Distinct(a) && Distinct(b) && Within(a, c) && forall x :: x in b ==> x !in c
    ensures Distinct(a + b)
  {
    forall i, j | 0 <= i < j < |a + b| ensures (a + b)[i] != (a + b)[j] {
      if i < |a| <= j { assert a[i] in a && b[j - |a|] in b; }
    }
  }

  function Without<K>(all: set<K>, skip: Option<K>): set<K> {
    if skip.Some? then all - {skip.value} else all
  }

  /** What one loop over a class appends. */
  ghost predicate Picks<K>(picked: seq<K>, c: set<K>, want: int) {
    |picked| == Taken(c, want) && Distinct(picked) && Within(picked, c)
  }

  /**
   One of the `for pk := range` loops of AnnouncePeers: takes peers of a class in arbitrary order until
   numWant reaches zero. `skip` is a key the loop passes over.
   */
  method PickFrom<K(==,!new)>(all: set<K>, skip: Option<K>, numWant: int) returns (picked: seq<K>, numWant': int)
    ensures Picks(picked, Without(all, skip), numWant)
    ensures numWant' == numWant - |picked|
  {
    var left := all;
    ghost var c := Without(all, skip);
    picked, numWant' := [], numWant;
    assert c - left == {};
    while left != {}
      invariant left <= all
      invariant numWant' == numWant - |picked|
      invariant Enumerates(picked, c - left)
      invariant numWant >= 0 ==> numWant' >= 0
      decreases |left|
    {
      var pk :| pk in left;
      LeftWithout(c, left, pk);
      if skip == Some(pk) {
      } else if numWant' == 0 {
        break;
      } else {
        EnumeratesSnoc(picked, c - left, pk);
        picked := picked + [pk];
        numWant' := numWant' - 1;
      }
      left := left - {pk};
    }
    SubsetSize(c - left, c);
    if left == {} { assert c - left == c; }
  }

  lemma LeftWithout<K>(c: set<K>, left: set<K>, k: K)
    requires k in left
    ensures c - (left - {k}) == if k in c then (c - left) + {k} else c - left
  {
  }

  lemma SubsetSize<K>(a: set<K>, b: set<K>)
    requires a <= b
    ensures |a| <= |b|
    ensures a < b ==> |a| < |b|
  {
    assert b == a + (b - a);
    if a < b { assert b - a != {}; }
  }

  /** Appending one more class to a selection. */
  lemma {:induction false} SelectionSnoc<K>(keys: seq<K>, classes: seq<set<K>>, want: int, more: seq<K>, c: set<K>)
    requires Selection(keys, classes, want) && classes != []
    requires if want - |keys| > 0 then Picks(more, c, want - |keys|) else more == []
    ensures Selection(keys + more, classes + [c], want)
    decreases |classes|
  {
    var n := Taken(classes[0], want);
    assert (classes + [c])[1..] == classes[1..] + [c];
    assert (keys + more)[..n] == keys[..n];
    assert (keys + more)[n..] == keys[n..] + more;
    if want - n > 0 {
      if classes[1..] == [] {
        assert keys[n..] == [] && |keys| == n;
        var m := Taken(c, want - n);
        assert ([] + more)[..m] == more && ([] + more)[m..] == [];
        assert classes[1..] + [c] == [c];
        assert [c][1..] == [];
      } else {
        SelectionSnoc(keys[n..], classes[1..], want - n, more, c);
      }
    }
  }

  lemma SelectionFirst<K>(keys: seq<K>, c: set<K>, want: int)
    requires Picks(keys, c, want)
    ensures Selection(keys, [c], want)
  {
    assert keys[..|keys|] == keys && keys[|keys|..] == [];
    assert [c][1..] == [];
  }

  // ---------- which answers are possible ----------

  lemma {:induction false} SomeListing<T(!new)>(c: set<T>) returns (s: seq<T>)
    ensures Enumerates(s, c)
    decreases |c|
  {
    s := [];
    if c != {} {
      var x :| x in c;
      s := SomeListing(c - {x});
      EnumeratesSnoc(s, c - {x}, x);
      assert c - {x} + {x} == c;
      s := s + [x];
    }
  }

  lemma FrontPicks<K(!new)>(s: seq<K>, c: set<K>, want: int)
    requires Enumerates(s, c)
    ensures Picks(s[..Taken(c, want)], c, want)
  {
    var p := s[..Taken(c, want)];
    forall x | x in p ensures x in c { assert x in s; }
  }

  lemma SomePick<K(!new)>(c: set<K>, want: int) returns (p: seq<K>)
    ensures Picks(p, c, want)
  {
    var s := SomeListing(c);
    FrontPicks(s, c, want);
    p := s[..Taken(c, want)];
  }

  /** A class can give any of its members first, and can leave out any if it need not give all. */
  lemma PickHolding<K(!new)>(c: set<K>, want: int, x: K) returns (p: seq<K>)
    requires x in c && want > 0
    ensures Picks(p, c, want) && p[0] == x
  {
    var others := SomeListing(c - {x});
    var s := [x] + others;
    assert Enumerates(s, c) by {
      forall y ensures y in s <==> y in c { assert y in s <==> y == x || y in others; }
    }
    FrontPicks(s, c, want);
    p := s[..Taken(c, want)];
  }

  lemma PickAvoiding<K(!new)>(c: set<K>, want: nat, x: K) returns (p: seq<K>)
    requires x in c && want < |c|
    ensures Picks(p, c, want) && x !in p
  {
    var s := SomeListing(c - {x});
    FrontPicks(s, c - {x}, want);
    p := s[..want];
  }

  lemma JoinSelection<K>(p: seq<K>, rest: seq<K>, classes: seq<set<K>>, want: int)
    requires classes != [] && Picks(p, classes[0], want)
    requires if want - |p| > 0 then Selection(rest, classes[1..], want - |p|) else rest == []
    ensures Selection(p + rest, classes, want)
  {
    assert (p + rest)[..|p|] == p && (p + rest)[|p|..] == rest;
  }

  lemma {:induction false} SelectionExists<K(!new)>(classes: seq<set<K>>, want: int) returns (keys: seq<K>)
    ensures Selection(keys, classes, want)
    decreases |classes|
  {
    keys := [];
    if classes != [] {
      var p := SomePick(classes[0], want);
      var rest := [];
      if want - |p| > 0 {
        rest := SelectionExists(classes[1..], want - |p|);
      }
      JoinSelection(p, rest, classes, want);
      keys := p + rest;
    }
  }

  /** Any member of a class that is reached can be the first taken from it. */
  lemma {:induction false} SelectionHolding<K(!new)>(classes: seq<set<K>>, want: nat, c: nat, x: K)
      returns (keys: seq<K>)
    requires c < |classes| && x in classes[c] && want > Available(classes[..c])
    ensures Selection(keys, classes, want) && |keys| > Available(classes[..c]) && keys[Available(classes[..c])] == x
    decreases |classes|
  {
    var p, rest: seq<K> := [], [];
    if c == 0 {
      p := PickHolding(classes[0], want, x);
      if want - |p| > 0 {
        rest := SelectionExists(classes[1..], want - |p|);
      }
    } else {
      assert classes[..c][1..] == classes[1..][..c - 1];
      p := SomePick(classes[0], want);
      rest := SelectionHolding(classes[1..], want - |p|, c - 1, x);
    }
    JoinSelection(p, rest, classes, want);
    keys := p + rest;
  }

  /** Some answer holds x exactly when a class that has x is reached. */
  lemma InSomeIff<K(!new)>(classes: seq<set<K>>, want: nat, x: K)
    ensures (exists keys :: Selection(keys, classes, want) && x in keys) <==>
      exists c: nat :: c < |classes| && x in classes[c] && want > Available(classes[..c])
  {
    forall keys | Selection(keys, classes, want) && x in keys
      ensures exists c: nat :: c < |classes| && x in classes[c] && want > Available(classes[..c])
    {
      var c := UsedIsReached(keys, classes, want, x);
    }
    forall c: nat | c < |classes| && x in classes[c] && want > Available(classes[..c])
      ensures exists keys :: Selection(keys, classes, want) && x in keys
    {
      var keys := SelectionHolding(classes, want, c, x);
      assert keys[Available(classes[..c])] in keys;
    }
  }

  lemma {:induction false} DistinctCovers<K>(s: seq<K>, c: set<K>, x: K)
    requires Distinct(s) && Within(s, c) && |s| >= |c| && x in c
    ensures x in s
    decreases |s|
  {
    if s != [] && s[0] != x {
      forall y | y in s[1..] ensures y in c - {s[0]} {
        assert y in s;
      }
      assert s[0] in s;
      DistinctCovers(s[1..], c - {s[0]}, x);
    }
  }

  /** Every member of a class that is used up is in the answer. */
  lemma {:induction false} UsedUpIsHeld<K>(keys: seq<K>, classes: seq<set<K>>, want: nat, c: nat, x: K)
    requires Selection(keys, classes, want)
    requires c < |classes| && x in classes[c] && want >= Available(classes[..c + 1])
    ensures x in keys
    decreases |classes|
  {
    var n := Taken(classes[0], want);
    if c == 0 {
      AvailableUpTo(classes, 0);
      assert classes[..0] == [];
      DistinctCovers(keys[..n], classes[0], x);
    } else {
      assert classes[..c + 1][1..] == classes[1..][..c];
      AvailableUpTo(classes[1..], c - 1);
      SubsetSize({x}, classes[c]);
      UsedUpIsHeld(keys[n..], classes[1..], want - n, c - 1, x);
    }
  }

  lemma {:induction false} SelectionAvoiding<K(!new)>(classes: seq<set<K>>, want: nat, x: K) returns (keys: seq<K>)
    requires forall c: nat :: c < |classes| && x in classes[c] ==> want < Available(classes[..c + 1])
    ensures Selection(keys, classes, want) && x !in keys
    decreases |classes|
  {
    keys := [];
    if classes != [] {
      var p, rest: seq<K> := [], [];
      if x in classes[0] {
        AvailableUpTo(classes, 0);
        assert classes[..0] == [];
        p := PickAvoiding(classes[0], want, x);
      } else {
        p := SomePick(classes[0], want);
        if want - |p| > 0 {
          forall c: nat | c < |classes[1..]| && x in classes[1..][c]
            ensures want - |p| < Available(classes[1..][..c + 1])
          {
            assert x in classes[c + 1];
            assert classes[..c + 2][1..] == classes[1..][..c + 1];
          }
          rest := SelectionAvoiding(classes[1..], want - |p|, x);
        }
      }
      JoinSelection(p, rest, classes, want);
      keys := p + rest;
    }
  }

  /** Every answer holds x exactly when a class that has x is used up. */
  lemma InEveryIff<K(!new)>(classes: seq<set<K>>, want: nat, x: K)
    ensures (forall keys :: Selection(keys, classes, want) ==> x in keys) <==>
      exists c: nat :: c < |classes| && x in classes[c] && want >= Available(classes[..c + 1])
  {
    if c: nat :| c < |classes| && x in classes[c] && want >= Available(classes[..c + 1]) {
      forall keys | Selection(keys, classes, want) ensures x in keys {
        UsedUpIsHeld(keys, classes, want, c, x);
      }
    } else {
      var keys := SelectionAvoiding(classes, want, x);
    }
  }
}
