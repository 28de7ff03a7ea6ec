/** Bencoding: the encoder over every dictionary order, the decoder, and that one undoes the other. */
module Bencode {
  import opened BitTorrent
  import opened Decimal

  const BYTE_I := 105
  const BYTE_L := 108
  const BYTE_D := 100
  const BYTE_E := 101

  /** What the decoder yields. */
  datatype Value = VInt(n: int) | VStr(s: Bytes) | VList(items: seq<Value>) | VDict(entries: map<Bytes, Value>)

  /** A value with its dictionaries in some order. */
  datatype Tree = TInt(n: int) | TStr(s: Bytes) | TList(items: seq<Tree>) | TDict(entries: seq<Entry>)
  datatype Entry = Entry(key: Bytes, val: Tree)

  function Encode(t: Tree): Bytes
    decreases t, 0
  {
    match t
    case TInt(n) => [BYTE_I] + FormatInt(n) + [BYTE_E]
    case TStr(s) => EncodeStr(s)
    case TList(items) => [BYTE_L] + EncodeItems(items) + [BYTE_E]
    case TDict(entries) => [BYTE_D] + EncodeEntries(entries) + [BYTE_E]
  }

  function EncodeStr(s: Bytes): Bytes { Digits(|s|) + [COLON] + s }

  function EncodeItems(items: seq<Tree>): Bytes
    decreases items, 1
  {
    if items == [] then [] else Encode(items[0]) + EncodeItems(items[1..])
  }

  function EncodeEntries(entries: seq<Entry>): Bytes
    decreases entries, 1
  {
    if entries == [] then []
    else EncodeStr(entries[0].key) + Encode(entries[0].val) + EncodeEntries(entries[1..])
  }

  function ValueOf(t: Tree): Value
    decreases t, 0
  {
    match t
    case TInt(n) => VInt(n)
    case TStr(s) => VStr(s)
    case TList(items) => VList(ValuesOf(items))
    case TDict(entries) => VDict(Merged(entries, map[]))
  }

  function ValuesOf(items: seq<Tree>): seq<Value>
    decreases items, 1
  {
    if items == [] then [] else [ValueOf(items[0])] + ValuesOf(items[1..])
  }

  /** Entries assigned one after the other, so a later one wins. */
  function Merged(entries: seq<Entry>, acc: map<Bytes, Value>): map<Bytes, Value>
    decreases entries, 1
  {
    if entries == [] then acc else Merged(entries[1..], acc[entries[0].key := ValueOf(entries[0].val)])
  }

  /** Every integer fits int64, and every string can be allocated. */
  predicate InRange(t: Tree)
    decreases t
  {
    match t
    case TInt(n) => MIN_INT64 <= n <= MAX_INT64
    case TStr(s) => |s| <= MAX_ALLOC
    case TList(items) => forall i :: 0 <= i < |items| ==> InRange(items[i])
    case TDict(entries) => forall i :: 0 <= i < |entries| ==> |entries[i].key| <= MAX_ALLOC && InRange(entries[i].val)
  }

  // ---------- the decoder, as a function of the bytes left ----------

  /** The longest byte slice: 2^48 bytes of address space, as on linux/amd64. */
  const MAX_ALLOC: int := 0x1_0000_0000_0000

  datatype DecodeError =
    | EOF | EmptyInteger | BadInteger | UnknownSequence | ShortRead | NonStringKey | Panic | BufferFull

  datatype Parsed<T> = Ok(v: T, rest: Bytes) | Fail(e: DecodeError)

  function Find(s: Bytes, b: int): (i: nat)
    ensures i <= |s| && (i < |s| ==> s[i] == b) && forall j :: 0 <= j < i ==> s[j] != b
  {
    if s == [] || s[0] == b then 0 else 1 + Find(s[1..], b)
  }

  /** readTerminatedInt. */
  function ParseTerminatedInt(s: Bytes, term: int): (r: Parsed<int>)
    ensures r.Ok? ==> |r.rest| < |s|
  {
    var i := Find(s, term);
    if i == |s| then Fail(EOF)
    else if i == 0 then Fail(EmptyInteger)
    else match ParseInt(s[..i])
      case Some(n) => Ok(n, s[i + 1..])
      case None => Fail(BadInteger)
  }

  /** The default case of unmarshal: a length, a colon and that many bytes. */
  function ParseStr(s: Bytes): (r: Parsed<Bytes>)
    ensures r.Ok? ==> |r.rest| < |s|
  {
    match ParseTerminatedInt(s, COLON)
    case Fail(_) => Fail(UnknownSequence)
    case Ok(length, rest) =>
      if length < 0 || length > MAX_ALLOC then Fail(Panic)  // make([]byte, length)
      else if length > 0 && rest == [] then Fail(EOF)
      else if length > |rest| then Fail(ShortRead)
      else Ok(rest[..length], rest[length..])
  }

  /** unmarshal. */
  function Parse(s: Bytes): (r: Parsed<Value>)
    ensures r.Ok? ==> |r.rest| < |s|
    decreases |s|, 0
  {
    if s == [] then Fail(EOF)
    else if s[0] == BYTE_I then
      match ParseTerminatedInt(s[1..], BYTE_E)
      case Ok(n, rest) => Ok(VInt(n), rest)
      case Fail(e) => Fail(e)
    else if s[0] == BYTE_L then
      match ParseItems(s[1..], [])
      case Ok(items, rest) => Ok(VList(items), rest)
      case Fail(e) => Fail(e)
    else if s[0] == BYTE_D then
      match ParseEntries(s[1..], map[])
      case Ok(entries, rest) => Ok(VDict(entries), rest)
      case Fail(e) => Fail(e)
    else
      match ParseStr(s)
      case Ok(str, rest) => Ok(VStr(str), rest)
      case Fail(e) => Fail(e)
  }

  /** readList, having read `acc`. */
  function ParseItems(s: Bytes, acc: seq<Value>): (r: Parsed<seq<Value>>)
    ensures r.Ok? ==> |r.rest| < |s|
    decreases |s|, 1
  {
    if s == [] then Fail(EOF)
    else if s[0] == BYTE_E then Ok(acc, s[1..])
    else match Parse(s)
      case Fail(e) => Fail(e)
      case Ok(v, rest) => ParseItems(rest, acc + [v])
  }

  /** readDict, having read `acc`. */
  function ParseEntries(s: Bytes, acc: map<Bytes, Value>): (r: Parsed<map<Bytes, Value>>)
    ensures r.Ok? ==> |r.rest| < |s|
    decreases |s|, 1
  {
    if s == [] then Fail(EOF)
    else if s[0] == BYTE_E then Ok(acc, s[1..])
    else match Parse(s)
      case Fail(e) => Fail(e)
      case Ok(key, rest) =>
        if !key.VStr? then Fail(NonStringKey)
        else match Parse(rest)
          case Fail(e) => Fail(e)
          case Ok(v, rest') => ParseEntries(rest', acc[key.s := v])
  }

  // ---------- decoding an encoding ----------

  lemma FindAt(s: Bytes, b: int, i: nat)
    requires i < |s| && s[i] == b && forall j :: 0 <= j < i ==> s[j] != b
    ensures Find(s, b) == i
  {
  }

  lemma ParsePrintedInt(n: int, term: byte, rest: Bytes)
    requires term == BYTE_E || term == COLON
    ensures ParseTerminatedInt(FormatInt(n) + [term] + rest, term)
         == if MIN_INT64 <= n <= MAX_INT64 then Ok(n, rest) else Fail(BadInteger)
  {
    var p := FormatInt(n);
    var s := p + [term] + rest;
    forall j | 0 <= j < |p| ensures s[j] != term { FormatIntBytes(n, j); }
    FindAt(s, term, |p|);
    assert s[..|p|] == p && s[|p| + 1..] == rest;
    ParseFormat(n);
  }

  lemma StrSplit(str: Bytes, rest: Bytes)
    ensures EncodeStr(str) + rest == FormatInt(|str|) + [COLON] + (str + rest)
    ensures (str + rest)[..|str|] == str && (str + rest)[|str|..] == rest
  {
  }

  lemma ParseEncodedStr(str: Bytes, rest: Bytes)
    requires |str| <= MAX_ALLOC
    ensures ParseStr(EncodeStr(str) + rest) == Ok(str, rest)
    ensures Parse(EncodeStr(str) + rest) == Ok(VStr(str), rest)
  {
    var s := EncodeStr(str) + rest;
    StrSplit(str, rest);
    ParsePrintedInt(|str|, COLON, str + rest);
    assert s[0] == Digits(|str|)[0];
  }

  // How the pieces of an encoding lie, whatever follows it.

  lemma Unbracket(open: byte, body: Bytes, rest: Bytes)
    ensures var s := [open] + body + [BYTE_E] + rest; s[0] == open && s[1..] == body + ([BYTE_E] + rest)
  {
  }

  lemma ItemsSplit(items: seq<Tree>, tail: Bytes)
    requires items != []
    ensures EncodeItems(items) + tail == Encode(items[0]) + (EncodeItems(items[1..]) + tail)
  {
    Assoc(Encode(items[0]), EncodeItems(items[1..]), tail);
  }

  lemma EntriesSplit(entries: seq<Entry>, tail: Bytes)
    requires entries != []
    ensures EncodeEntries(entries) + tail
      == EncodeStr(entries[0].key) + (Encode(entries[0].val) + (EncodeEntries(entries[1..]) + tail))
  {
    var k, v, more := EncodeStr(entries[0].key), Encode(entries[0].val), EncodeEntries(entries[1..]);
    Assoc(k + v, more, tail);
    Assoc(k, v, more + tail);
  }

  lemma Ended(rest: Bytes)
    ensures var s := [] + ([BYTE_E] + rest); s == [BYTE_E] + rest && s[0] == BYTE_E && s[1..] == rest
  {
  }

  /** An encoded value never starts like the end of a list. */
  lemma EncodingStart(t: Tree)
    ensures Encode(t) != [] && Encode(t)[0] != BYTE_E
  {
  }

  /** Decoding an encoding followed by anything yields the value and leaves exactly that rest. */
  lemma {:induction false} DecodeEncode(t: Tree, rest: Bytes)
    requires InRange(t)
    ensures Parse(Encode(t) + rest) == Ok(ValueOf(t), rest)
    decreases t, 0
  {
    var s := Encode(t) + rest;
    match t
    case TInt(n) =>
      Unbracket(BYTE_I, FormatInt(n), rest);
      Assoc(FormatInt(n), [BYTE_E], rest);
      ParsePrintedInt(n, BYTE_E, rest);
    case TStr(str) => ParseEncodedStr(str, rest);
    case TList(items) =>
      Unbracket(BYTE_L, EncodeItems(items), rest);
      DecodeItems(items, [], rest);
      assert [] + ValuesOf(items) == ValuesOf(items);
    case TDict(entries) =>
      Unbracket(BYTE_D, EncodeEntries(entries), rest);
      DecodeEntries(entries, map[], rest);
  }

  lemma {:induction false} ItemStep(t: Tree, more: Bytes, acc: seq<Value>)
    requires InRange(t)
    ensures ParseItems(Encode(t) + more, acc) == ParseItems(more, acc + [ValueOf(t)])
    decreases t, 1
  {
    EncodingStart(t);
    DecodeEncode(t, more);
    assert (Encode(t) + more)[0] == Encode(t)[0];
  }

  lemma {:induction false} EntryStep(key: Bytes, val: Tree, more: Bytes, acc: map<Bytes, Value>)
    requires |key| <= MAX_ALLOC && InRange(val)
    ensures ParseEntries(EncodeStr(key) + (Encode(val) + more), acc) == ParseEntries(more, acc[key := ValueOf(val)])
    decreases val, 1
  {
    assert (EncodeStr(key) + (Encode(val) + more))[0] == Digits(|key|)[0];
    ParseEncodedStr(key, Encode(val) + more);
    DecodeEncode(val, more);
  }

  lemma {:induction false} DecodeItems(items: seq<Tree>, acc: seq<Value>, rest: Bytes)
    requires forall i :: 0 <= i < |items| ==> InRange(items[i])
    ensures ParseItems(EncodeItems(items) + ([BYTE_E] + rest), acc) == Ok(acc + ValuesOf(items), rest)
    decreases items, 2
  {
    if items == [] {
      Ended(rest);
      assert acc + [] == acc;
    } else {
      var more := EncodeItems(items[1..]) + ([BYTE_E] + rest);
      ItemsSplit(items, [BYTE_E] + rest);
      ItemStep(items[0], more, acc);
      DecodeItems(items[1..], acc + [ValueOf(items[0])], rest);
      AppendFirst(acc, ValueOf(items[0]), ValuesOf(items[1..]));
    }
  }

  lemma AppendFirst(acc: seq<Value>, v: Value, vs: seq<Value>)
    ensures acc + [v] + vs == acc + ([v] + vs)
  {
  }

  lemma {:induction false} DecodeEntries(entries: seq<Entry>, acc: map<Bytes, Value>, rest: Bytes)
    requires forall i :: 0 <= i < |entries| ==> |entries[i].key| <= MAX_ALLOC && InRange(entries[i].val)
    ensures ParseEntries(EncodeEntries(entries) + ([BYTE_E] + rest), acc) == Ok(Merged(entries, acc), rest)
    decreases entries, 2
  {
    if entries == [] {
      Ended(rest);
    } else {
      var Entry(key, val) := entries[0];
      var more := EncodeEntries(entries[1..]) + ([BYTE_E] + rest);
      EntriesSplit(entries, [BYTE_E] + rest);
      EntryStep(key, val, more, acc);
      DecodeEntries(entries[1..], acc[key := ValueOf(val)], rest);
    }
  }

  /** Encodings are prefix-free, up to dictionary order. */
  lemma EncodingsArePrefixFree(t: Tree, u: Tree, a: Bytes, b: Bytes)
    requires InRange(t) && InRange(u) && Encode(t) + a == Encode(u) + b
    ensures ValueOf(t) == ValueOf(u) && a == b
  {
    DecodeEncode(t, a);
    DecodeEncode(u, b);
  }

  /** Beyond that range, where a uint64 can be, the encoding does not decode. */
  lemma {:induction false} OutOfRangeFails(t: Tree, rest: Bytes)
    requires !InRange(t)
    ensures Parse(Encode(t) + rest).Fail?
    decreases t, 0
  {
    var s := Encode(t) + rest;
    match t
    case TInt(n) =>
      Unbracket(BYTE_I, FormatInt(n), rest);
      Assoc(FormatInt(n), [BYTE_E], rest);
      ParsePrintedInt(n, BYTE_E, rest);
    case TStr(str) => LongStrFails(str, rest);
    case TList(items) =>
      Unbracket(BYTE_L, EncodeItems(items), rest);
      ItemsFail(items, [], rest);
    case TDict(entries) =>
      Unbracket(BYTE_D, EncodeEntries(entries), rest);
      EntriesFail(entries, map[], rest);
  }

  lemma LongStrFails(str: Bytes, rest: Bytes)
    requires |str| > MAX_ALLOC
    ensures Parse(EncodeStr(str) + rest).Fail?
  {
    var s := EncodeStr(str) + rest;
    StrSplit(str, rest);
    ParsePrintedInt(|str|, COLON, str + rest);
    assert s[0] == Digits(|str|)[0];
  }

  lemma {:induction false} ItemsFail(items: seq<Tree>, acc: seq<Value>, rest: Bytes)
    requires exists i :: 0 <= i < |items| && !InRange(items[i])
    ensures ParseItems(EncodeItems(items) + ([BYTE_E] + rest), acc).Fail?
    decreases items, 2
  {
    var more := EncodeItems(items[1..]) + ([BYTE_E] + rest);
    ItemsSplit(items, [BYTE_E] + rest);
    if InRange(items[0]) {
      ItemStep(items[0], more, acc);
      var i :| 0 <= i < |items| && !InRange(items[i]);
      assert items[1..][i - 1] == items[i];
      ItemsFail(items[1..], acc + [ValueOf(items[0])], rest);
    } else {
      EncodingStart(items[0]);
      assert (Encode(items[0]) + more)[0] == Encode(items[0])[0];
      OutOfRangeFails(items[0], more);
    }
  }

  predicate EntryInRange(e: Entry) { |e.key| <= MAX_ALLOC && InRange(e.val) }

  lemma {:induction false} EntryFails(e: Entry, more: Bytes, acc: map<Bytes, Value>)
    requires !EntryInRange(e)
    ensures ParseEntries(EncodeStr(e.key) + (Encode(e.val) + more), acc).Fail?
    decreases e, 1
  {
    var s := EncodeStr(e.key) + (Encode(e.val) + more);
    assert s[0] == Digits(|e.key|)[0];
    if |e.key| > MAX_ALLOC {
      LongStrFails(e.key, Encode(e.val) + more);
    } else {
      ParseEncodedStr(e.key, Encode(e.val) + more);
      OutOfRangeFails(e.val, more);
    }
  }

  lemma {:induction false} EntriesFail(entries: seq<Entry>, acc: map<Bytes, Value>, rest: Bytes)
    requires exists i :: 0 <= i < |entries| && !EntryInRange(entries[i])
    ensures ParseEntries(EncodeEntries(entries) + ([BYTE_E] + rest), acc).Fail?
    decreases entries, 2
  {
    var e := entries[0];
    var more := EncodeEntries(entries[1..]) + ([BYTE_E] + rest);
    EntriesSplit(entries, [BYTE_E] + rest);
    if EntryInRange(e) {
      EntryStep(e.key, e.val, more, acc);
      var i :| 0 <= i < |entries| && !EntryInRange(entries[i]);
      assert entries[1..][i - 1] == entries[i];
      EntriesFail(entries[1..], acc[e.key := ValueOf(e.val)], rest);
    } else {
      EntryFails(e, more, acc);
    }
  }

  /** An encoding decodes if and only if its integers fit int64 and its strings can be allocated. */
  lemma DecodesIffInRange(t: Tree, rest: Bytes)
    ensures Parse(Encode(t) + rest).Ok? <==> InRange(t)
  {
    if InRange(t) { DecodeEncode(t, rest); } else { OutOfRangeFails(t, rest); }
  }

  // ---------- repeated keys ----------

  lemma {:induction false} MergedKeeps(entries: seq<Entry>, acc: map<Bytes, Value>, k: Bytes)
    requires forall i :: 0 <= i < |entries| ==> entries[i].key != k
    ensures k in Merged(entries, acc) <==> k in acc
    ensures k in acc ==> Merged(entries, acc)[k] == acc[k]
    decreases |entries|
  {
    if entries != [] {
      MergedKeeps(entries[1..], acc[entries[0].key := ValueOf(entries[0].val)], k);
    }
  }

  /** Of several entries with one key the last counts; and there are no other keys. */
  lemma {:induction false} LastEntryWins(entries: seq<Entry>, acc: map<Bytes, Value>, k: Bytes, i: nat)
    requires i < |entries| && entries[i].key == k && forall j :: i < j < |entries| ==> entries[j].key != k
    ensures k in Merged(entries, acc) && Merged(entries, acc)[k] == ValueOf(entries[i].val)
    decreases |entries|
  {
    var acc' := acc[entries[0].key := ValueOf(entries[0].val)];
    if i == 0 {
      MergedKeeps(entries[1..], acc', k);
    } else {
      LastEntryWins(entries[1..], acc', k, i - 1);
    }
  }

  /** A dictionary decodes to the last value of each of its keys, and nothing else. */
  lemma DictDecodes(entries: seq<Entry>, rest: Bytes)
    requires InRange(TDict(entries))
    ensures var p := Parse(Encode(TDict(entries)) + rest);
      && p.Ok? && p.v.VDict? && p.rest == rest
      && (forall k :: k in p.v.entries ==> exists i :: 0 <= i < |entries| && entries[i].key == k)
      && (forall i :: 0 <= i < |entries| && (forall j :: i < j < |entries| ==> entries[j].key != entries[i].key) ==>
            entries[i].key in p.v.entries && p.v.entries[entries[i].key] == ValueOf(entries[i].val))
  {
    DecodeEncode(TDict(entries), rest);
    var merged := Merged(entries, map[]);
    forall k | k in merged ensures exists i :: 0 <= i < |entries| && entries[i].key == k {
      if forall i :: 0 <= i < |entries| ==> entries[i].key != k {
        MergedKeeps(entries, map[], k);
      }
    }
    forall i | 0 <= i < |entries| && (forall j :: i < j < |entries| ==> entries[j].key != entries[i].key)
      ensures entries[i].key in merged && merged[entries[i].key] == ValueOf(entries[i].val)
    {
      LastEntryWins(entries, map[], entries[i].key, i);
    }
  }
}
