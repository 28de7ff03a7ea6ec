/** The encoder as the program runs it, and what its output decodes to. */
module BencodeEncoder {
  import opened BitTorrent
  import opened Decimal
  import opened PeerSelection
  import opened Bencode

  /** What marshal is called with; `[]Dict` is a list of maps, and Dict and List marshal as what they hold. */
  datatype Data =
    | DBytes(b: Bytes)
    | DStr(s: Bytes)
    | DStrs(strs: seq<Bytes>)
    | DInt(i: int64)
    | DUint(u: uint64)
    | DDuration(ns: int64)
    | DMap(m: map<Bytes, Data>)
    | DList(items: seq<Data>)
    | DUnsupported

  predicate Supported(d: Data) {
    match d
    case DMap(m) => forall k :: k in m ==> Supported(m[k])
    case DList(items) => forall i :: 0 <= i < |items| ==> Supported(items[i])
    case DUnsupported => false
    case _ => true
  }

  /** A piece of data occurs in another, at any depth. */
  ghost predicate Occurs(x: Data, d: Data)
    decreases d
  {
    || x == d
    || (d.DMap? && exists k :: k in d.m && Occurs(x, d.m[k]))
    || (d.DList? && exists i :: 0 <= i < |d.items| && Occurs(x, d.items[i]))
  }

  /** Data is supported exactly if nothing of an unsupported type occurs in it. */
  lemma {:induction false} SupportedIff(d: Data)
    ensures Supported(d) <==> !Occurs(DUnsupported, d)
    decreases d
  {
    match d
    case DMap(m) => forall k | k in m { SupportedIff(m[k]); }
    case DList(items) => forall i | 0 <= i < |items| { SupportedIff(items[i]); }
    case _ =>
  }

  function Strs(strs: seq<Bytes>): seq<Tree> {
    seq(|strs|, i requires 0 <= i < |strs| => TStr(strs[i]))
  }

  function KeysIn(entries: seq<Entry>): seq<Bytes> {
    seq(|entries|, i requires 0 <= i < |entries| => entries[i].key)
  }

  /** `t` is what the encoder may write for `d`: each map in some order of its keys. */
  ghost predicate Orders(t: Tree, d: Data)
    decreases d
  {
    match d
    case DBytes(b) => t == TStr(b)
    case DStr(s) => t == TStr(s)
    case DStrs(strs) => t == TList(Strs(strs))
    case DInt(n) => t == TInt(n)
    case DUint(n) => t == TInt(n)
    case DDuration(ns) => t == TInt(TruncDiv(ns, SECOND))
    case DMap(m) =>
      && t.TDict? && Enumerates(KeysIn(t.entries), m.Keys)
      && forall i :: 0 <= i < |t.entries| ==> t.entries[i].key in m && Orders(t.entries[i].val, m[t.entries[i].key])
    case DList(items) =>
      t.TList? && |t.items| == |items| && forall i :: 0 <= i < |items| ==> Orders(t.items[i], items[i])
    case DUnsupported => false
  }

  class Writer {
    var out: Bytes

    constructor ()
      ensures out == []
    {
      out := [];
    }

    method Write(b: Bytes)
      modifies this
      ensures out == old(out) + b
    {
      out := out + b;
    }
  }

  /** Brackets around a body, written piece by piece. */
  lemma Bracketed(a: Bytes, open: Bytes, body: Bytes, close: Bytes)
    ensures a + open + body + close == a + (open + body + close)
  {
  }

  lemma {:induction false} EncodeItemsSnoc(items: seq<Tree>, t: Tree)
    ensures EncodeItems(items + [t]) == EncodeItems(items) + Encode(t)
  {
    if items == [] {
      assert items + [t] == [t] && [t][1..] == [];
      assert EncodeItems([t]) == Encode(t) + [];
    } else {
      assert (items + [t])[0] == items[0] && (items + [t])[1..] == items[1..] + [t];
      EncodeItemsSnoc(items[1..], t);
    }
  }

  lemma {:induction false} EncodeEntriesSnoc(entries: seq<Entry>, e: Entry)
    ensures EncodeEntries(entries + [e]) == EncodeEntries(entries) + (EncodeStr(e.key) + Encode(e.val))
  {
    if entries == [] {
      assert entries + [e] == [e] && [e][1..] == [];
      assert EncodeEntries([e]) == EncodeStr(e.key) + Encode(e.val) + [];
    } else {
      assert (entries + [e])[0] == entries[0] && (entries + [e])[1..] == entries[1..] + [e];
      EncodeEntriesSnoc(entries[1..], e);
    }
  }

  method MarshalInt(w: Writer, n: int)
    modifies w
    ensures w.out == old(w.out) + Encode(TInt(n))
  {
    w.Write([BYTE_I]);
    w.Write(FormatInt(n));
    w.Write([BYTE_E]);
  }

  method MarshalBytes(w: Writer, b: Bytes)
    modifies w
    ensures w.out == old(w.out) + EncodeStr(b)
  {
    w.Write(FormatInt(|b|));
    w.Write([COLON]);
    w.Write(b);
  }

  method MarshalStrs(w: Writer, strs: seq<Bytes>)
    modifies w
    ensures w.out == old(w.out) + Encode(TList(Strs(strs)))
  {
    w.Write([BYTE_L]);
    ghost var start := w.out;
    for i := 0 to |strs|
      invariant w.out == start + EncodeItems(Strs(strs[..i]))
    {
      MarshalBytes(w, strs[i]);
      ghost var ts, t := Strs(strs[..i]), TStr(strs[i]);
      assert Strs(strs[..i + 1]) == ts + [t];
      EncodeItemsSnoc(ts, t);
      Assoc(start, EncodeItems(ts), Encode(t));
    }
    assert strs[..|strs|] == strs;
    w.Write([BYTE_E]);
    Bracketed(old(w.out), [BYTE_L], EncodeItems(Strs(strs)), [BYTE_E]);
  }

  /** marshal: succeeds exactly on supported data, and then appends an encoding of it in some order. */
  method Marshal(w: Writer, d: Data) returns (ok: bool, ghost t: Tree)
    modifies w
    ensures ok <==> Supported(d)
    ensures ok ==> Orders(t, d) && w.out == old(w.out) + Encode(t)
    decreases d, 3
  {
    ok, t := true, TList([]);
    match d
    case DBytes(b) => MarshalBytes(w, b); t := TStr(b);
    case DStr(s) => MarshalBytes(w, s); t := TStr(s);
    case DStrs(strs) => MarshalStrs(w, strs); t := TList(Strs(strs));
    case DInt(n) => MarshalInt(w, n); t := TInt(n);
    case DUint(n) => MarshalInt(w, n); t := TInt(n);
    case DDuration(ns) => MarshalInt(w, TruncDiv(ns, SECOND)); t := TInt(TruncDiv(ns, SECOND));
    case DMap(m) => ok, t := MarshalMap(w, d);
    case DList(items) => ok, t := MarshalList(w, d);
    case DUnsupported => ok := false;
  }

  method MarshalList(w: Writer, d: Data) returns (ok: bool, ghost t: Tree)
    requires d.DList?
    modifies w
    ensures ok <==> Supported(d)
    ensures ok ==> Orders(t, d) && w.out == old(w.out) + Encode(t)
    decreases d, 1
  {
    ghost var ts: seq<Tree> := [];
    w.Write([BYTE_L]);
    ghost var start := w.out;
    for i := 0 to |d.items|
      invariant |ts| == i && forall j :: 0 <= j < i ==> Supported(d.items[j]) && Orders(ts[j], d.items[j])
      invariant w.out == start + EncodeItems(ts)
    {
      var good;
      ghost var u;
      good, u := Marshal(w, d.items[i]);
      if !good {
        return false, TList(ts);
      }
      EncodeItemsSnoc(ts, u);
      Assoc(start, EncodeItems(ts), Encode(u));
      ts := ts + [u];
    }
    w.Write([BYTE_E]);
    Bracketed(old(w.out), [BYTE_L], EncodeItems(ts), [BYTE_E]);
    ok, t := true, TList(ts);
  }

  /** One round of marshalMap's loop: a key and its value. */
  method MarshalEntry(w: Writer, d: Data, key: Bytes) returns (ok: bool, ghost e: Entry)
    requires d.DMap? && key in d.m
    modifies w
    ensures ok <==> Supported(d.m[key])
    ensures ok ==> e.key == key && Orders(e.val, d.m[key])
    ensures ok ==> w.out == old(w.out) + (EncodeStr(key) + Encode(e.val))
    decreases d, 0
  {
    MarshalBytes(w, key);
    ghost var u;
    ok, u := Marshal(w, d.m[key]);
    e := Entry(key, u);
  }

  ghost predicate EntryOrders(e: Entry, key: Bytes, m: map<Bytes, Data>) {
    key in m && Supported(m[key]) && e.key == key && Orders(e.val, m[key])
  }

  ghost predicate EntriesOrder(es: seq<Entry>, order: seq<Bytes>, m: map<Bytes, Data>) {
    |es| <= |order| && forall j :: 0 <= j < |es| ==> EntryOrders(es[j], order[j], m)
  }

  lemma EntriesOrderSnoc(es: seq<Entry>, order: seq<Bytes>, m: map<Bytes, Data>, e: Entry)
    requires EntriesOrder(es, order, m) && |es| < |order| && EntryOrders(e, order[|es|], m)
    ensures EntriesOrder(es + [e], order, m)
  {
    forall j | 0 <= j < |es + [e]| ensures EntryOrders((es + [e])[j], order[j], m) {
      if j < |es| {
        assert (es + [e])[j] == es[j];
      }
    }
  }

  lemma AllEntries(es: seq<Entry>, order: seq<Bytes>, d: Data)
    requires d.DMap? && Enumerates(order, d.m.Keys) && |es| == |order| && EntriesOrder(es, order, d.m)
    ensures Supported(d) && Orders(TDict(es), d)
  {
    assert KeysIn(es) == order;
    forall k | k in d.m ensures Supported(d.m[k]) {
      assert k in order;
    }
  }

  /** marshalMap's loop. */
  method MarshalEntries(w: Writer, d: Data, order: seq<Bytes>) returns (ok: bool, ghost es: seq<Entry>)
    requires d.DMap? && forall i :: 0 <= i < |order| ==> order[i] in d.m
    modifies w
    ensures ok ==> |es| == |order| && EntriesOrder(es, order, d.m) && w.out == old(w.out) + EncodeEntries(es)
    ensures !ok ==> exists i :: 0 <= i < |order| && !Supported(d.m[order[i]])
    decreases d, 1
  {
    es := [];
    for i := 0 to |order|
      invariant |es| == i && EntriesOrder(es, order, d.m)
      invariant w.out == old(w.out) + EncodeEntries(es)
    {
      var good;
      ghost var e;
      good, e := MarshalEntry(w, d, order[i]);
      if !good {
        return false, es;
      }
      EncodeEntriesSnoc(es, e);
      Assoc(old(w.out), EncodeEntries(es), EncodeStr(e.key) + Encode(e.val));
      EntriesOrderSnoc(es, order, d.m, e);
      es := es + [e];
    }
    ok := true;
  }

  method MarshalMap(w: Writer, d: Data) returns (ok: bool, ghost t: Tree)
    requires d.DMap?
    modifies w
    ensures ok <==> Supported(d)
    ensures ok ==> Orders(t, d) && w.out == old(w.out) + Encode(t)
    decreases d, 2
  {
    w.Write([BYTE_D]);
    var order := Listing(d.m.Keys);
    forall i | 0 <= i < |order| ensures order[i] in d.m { assert order[i] in order; }
    ghost var es;
    ok, es := MarshalEntries(w, d, order);
    t := TDict(es);
    if ok {
      w.Write([BYTE_E]);
      Bracketed(old(w.out), [BYTE_D], EncodeEntries(es), [BYTE_E]);
      EncodedDict(es);
      AllEntries(es, order, d);
    } else {
      SomeEntryBad(d, order);
    }
  }

  lemma EncodedDict(es: seq<Entry>)
    ensures Encode(TDict(es)) == [BYTE_D] + EncodeEntries(es) + [BYTE_E]
  {
  }

  lemma SomeEntryBad(d: Data, order: seq<Bytes>)
    requires d.DMap? && forall i :: 0 <= i < |order| ==> order[i] in d.m
    requires exists i :: 0 <= i < |order| && !Supported(d.m[order[i]])
    ensures !Supported(d)
  {
    var i :| 0 <= i < |order| && !Supported(d.m[order[i]]);
    assert order[i] in d.m;
  }

  // ---------- what comes back ----------

  /** The value a decoder should see. */
  function Normal(d: Data): Value {
    match d
    case DBytes(b) => VStr(b)
    case DStr(s) => VStr(s)
    case DStrs(strs) => VList(seq(|strs|, i requires 0 <= i < |strs| => VStr(strs[i])))
    case DInt(n) => VInt(n)
    case DUint(n) => VInt(n)
    case DDuration(ns) => VInt(TruncDiv(ns, SECOND))
    case DMap(m) => VDict(map k | k in m :: Normal(m[k]))
    case DList(items) => VList(seq(|items|, i requires 0 <= i < |items| => Normal(items[i])))
    case DUnsupported => VList([])
  }

  /** Every unsigned integer fits int64, and every string can be allocated. */
  predicate Fits(d: Data) {
    match d
    case DBytes(b) => |b| <= MAX_ALLOC
    case DStr(s) => |s| <= MAX_ALLOC
    case DStrs(strs) => forall i :: 0 <= i < |strs| ==> |strs[i]| <= MAX_ALLOC
    case DUint(n) => n <= MAX_INT64
    case DMap(m) => forall k :: k in m ==> |k| <= MAX_ALLOC && Fits(m[k])
    case DList(items) => forall i :: 0 <= i < |items| ==> Fits(items[i])
    case _ => true
  }

  lemma {:induction false} ValuesOfAt(items: seq<Tree>, i: nat)
    requires i < |items|
    ensures |ValuesOf(items)| == |items| && ValuesOf(items)[i] == ValueOf(items[i])
    decreases items
  {
    if |items| > 1 { ValuesOfAt(items[1..], if i > 0 then i - 1 else 0); }
  }

  lemma MergedAt(entries: seq<Entry>, acc: map<Bytes, Value>, k: Bytes)
    requires Distinct(KeysIn(entries))
    ensures k !in KeysIn(entries) ==>
      (k in Merged(entries, acc) <==> k in acc) && (k in acc ==> Merged(entries, acc)[k] == acc[k])
    ensures forall i :: 0 <= i < |entries| && entries[i].key == k ==>
      k in Merged(entries, acc) && Merged(entries, acc)[k] == ValueOf(entries[i].val)
  {
    var ks := KeysIn(entries);
    assert forall i :: 0 <= i < |entries| ==> ks[i] == entries[i].key;
    if k !in ks {
      MergedKeeps(entries, acc, k);
    }
    forall i | 0 <= i < |entries| && entries[i].key == k
      ensures k in Merged(entries, acc) && Merged(entries, acc)[k] == ValueOf(entries[i].val)
    {
      LastEntryWins(entries, acc, k, i);
    }
  }

  /** Whatever the order, an encoding stands for the same value. */
  lemma {:induction false} OrdersValue(t: Tree, d: Data)
    requires Orders(t, d)
    ensures ValueOf(t) == Normal(d)
    decreases d
  {
    match d
    case DStrs(strs) =>
      forall i | 0 <= i < |strs| { ValuesOfAt(Strs(strs), i); }
      assert |ValuesOf(Strs(strs))| == |strs| by { if strs != [] { ValuesOfAt(Strs(strs), 0); } }
      assert ValuesOf(Strs(strs)) == Normal(d).items;
    case DList(items) =>
      forall i | 0 <= i < |items|
        ensures ValuesOf(t.items)[..] != [] && i < |ValuesOf(t.items)| && ValuesOf(t.items)[i] == Normal(items[i])
      {
        ValuesOfAt(t.items, i);
        OrdersValue(t.items[i], items[i]);
      }
      assert |ValuesOf(t.items)| == |items| by { if items != [] { ValuesOfAt(t.items, 0); } }
      assert ValuesOf(t.items) == Normal(d).items;
    case DMap(m) =>
      var ks, merged := KeysIn(t.entries), Merged(t.entries, map[]);
      forall k ensures k in merged <==> k in m
        ensures k in m ==> merged[k] == Normal(m[k])
      {
        MergedAt(t.entries, map[], k);
        if k in m {
          assert k in ks;
          var i :| 0 <= i < |ks| && ks[i] == k;
          assert t.entries[i].key == k;
          OrdersValue(t.entries[i].val, m[k]);
        }
      }
      assert merged == Normal(d).entries;
    case _ =>
  }

  lemma {:induction false} OrdersInRange(t: Tree, d: Data)
    requires Orders(t, d)
    ensures InRange(t) <==> Fits(d)
    decreases d, 1
  {
    match d
    case DStrs(strs) => assert forall i :: 0 <= i < |strs| ==> Strs(strs)[i] == TStr(strs[i]);
    case DList(items) => ItemsInRange(t, d);
    case DMap(m) => MapInRange(t, d);
    case _ =>
  }

  lemma {:induction false} ItemsInRange(t: Tree, d: Data)
    requires Orders(t, d) && d.DList?
    ensures InRange(t) <==> Fits(d)
    decreases d, 0
  {
    forall i | 0 <= i < |d.items| ensures InRange(t.items[i]) <==> Fits(d.items[i]) {
      OrdersInRange(t.items[i], d.items[i]);
    }
  }

  lemma DictInRange(entries: seq<Entry>)
    ensures InRange(TDict(entries)) <==>
      forall i :: 0 <= i < |entries| ==> |entries[i].key| <= MAX_ALLOC && InRange(entries[i].val)
  {
  }

  lemma MapFits(m: map<Bytes, Data>)
    ensures Fits(DMap(m)) <==> forall k :: k in m ==> |k| <= MAX_ALLOC && Fits(m[k])
  {
  }

  lemma {:induction false} MapInRange(t: Tree, d: Data)
    requires Orders(t, d) && d.DMap?
    ensures InRange(t) <==> Fits(d)
    decreases d, 0
  {
    forall i | 0 <= i < |t.entries|
      ensures InRange(t.entries[i].val) <==> Fits(d.m[t.entries[i].key])
    {
      OrdersInRange(t.entries[i].val, d.m[t.entries[i].key]);
    }
    EntriesInRange(t.entries, d.m);
    DictInRange(t.entries);
    MapFits(d.m);
  }

  lemma EntriesInRange(entries: seq<Entry>, m: map<Bytes, Data>)
    requires Enumerates(KeysIn(entries), m.Keys)
    requires forall i :: 0 <= i < |entries| ==>
      entries[i].key in m && (InRange(entries[i].val) <==> Fits(m[entries[i].key]))
    ensures (forall i :: 0 <= i < |entries| ==> |entries[i].key| <= MAX_ALLOC && InRange(entries[i].val))
       <==> (forall k :: k in m ==> |k| <= MAX_ALLOC && Fits(m[k]))
  {
    var ks := KeysIn(entries);
    if forall i :: 0 <= i < |entries| ==> |entries[i].key| <= MAX_ALLOC && InRange(entries[i].val) {
      forall k | k in m ensures |k| <= MAX_ALLOC && Fits(m[k]) {
        assert k in ks;
        var i :| 0 <= i < |ks| && ks[i] == k;
        assert entries[i].key == k;
      }
    }
  }

  /**
   Whatever order the encoder writes its maps in, its output followed by anything decodes to the value and
   leaves the rest, if the data fits; and does not decode at all otherwise.
   */
  lemma MarshalledDecodes(t: Tree, d: Data, rest: Bytes)
    requires Orders(t, d)
    ensures Fits(d) ==> Parse(Encode(t) + rest) == Ok(Normal(d), rest)
    ensures !Fits(d) ==> Parse(Encode(t) + rest).Fail?
  {
    OrdersValue(t, d);
    OrdersInRange(t, d);
    if Fits(d) { DecodeEncode(t, rest); } else { OutOfRangeFails(t, rest); }
  }
}
