/**
 The decoder's grammar as a bufio.Reader lets it see the input: of the bytes left, so many are buffered, and
 a string is read with a single read of them. What that costs, exactly.
 */
module BencodeWindow {
  import opened BitTorrent
  import opened Decimal
  import opened Bencode

  /** The size of a bufio.Reader's buffer. */
  const SIZE: nat := 4096

  /** As Parsed, with how many bytes of the rest are buffered. */
  datatype Windowed<T> = WOk(v: T, rest: Bytes, buffered: nat) | WFail(e: DecodeError)

  /** How many bytes are buffered once there is need for one, of so many that are left. */
  function Topped(buffered: nat, left: nat): nat { if buffered == 0 then Min(SIZE, left) else buffered }

  /** How many bytes are buffered behind a field of h bytes: a field that is not all buffered slides the buffer. */
  function Behind(buffered: nat, left: nat, h: nat): int {
    (if h <= buffered then buffered else Min(SIZE, left)) - h
  }

  /** How many bytes are buffered behind a string of n bytes; None where one read does not get it. */
  function BehindString(buffered: nat, left: nat, n: nat): Option<nat>
    requires n <= left
  {
    if n == 0 then Some(buffered)
    else if buffered == 0 && n >= SIZE then Some(0)  // read past the empty buffer
    else if n <= Topped(buffered, left) then Some(Topped(buffered, left) - n)
    else None
  }

  // ---------- the grammar through the window ----------

  /** readTerminatedInt. */
  function WInt(s: Bytes, buffered: nat, term: int): (r: Windowed<int>)
    requires buffered <= |s| && buffered <= SIZE
    ensures r.WOk? ==> |r.rest| < |s| && r.buffered <= |r.rest| && r.buffered <= SIZE
  {
    var i := Find(s, term);
    if i >= Min(SIZE, |s|) then WFail(if |s| >= SIZE then BufferFull else EOF)
    else if i == 0 then WFail(EmptyInteger)
    else match ParseInt(s[..i])
      case Some(n) => WOk(n, s[i + 1..], Behind(buffered, |s|, i + 1))
      case None => WFail(BadInteger)
  }

  /** The default branch of unmarshal. */
  function WStr(s: Bytes, buffered: nat): (r: Windowed<Bytes>)
    requires buffered <= |s| && buffered <= SIZE
    ensures r.WOk? ==> |r.rest| < |s| && r.buffered <= |r.rest| && r.buffered <= SIZE
  {
    match WInt(s, buffered, COLON)
    case WFail(_) => WFail(UnknownSequence)
    case WOk(length, rest, b) =>
      if length < 0 || length > MAX_ALLOC then WFail(Panic)
      else if length > 0 && rest == [] then WFail(EOF)
      else if length > |rest| then WFail(ShortRead)
      else match BehindString(b, |rest|, length)
        case None => WFail(ShortRead)
        case Some(b') => WOk(rest[..length], rest[length..], b')
  }

  /** unmarshal. */
  function WParse(s: Bytes, buffered: nat): (r: Windowed<Value>)
    requires buffered <= |s| && buffered <= SIZE
    ensures r.WOk? ==> |r.rest| < |s| && r.buffered <= |r.rest| && r.buffered <= SIZE
    decreases |s|, 0
  {
    if s == [] then WFail(EOF)
    else
      var b := Topped(buffered, |s|);
      if s[0] == BYTE_I then
        match WInt(s[1..], b - 1, BYTE_E)
        case WOk(n, rest, b') => WOk(VInt(n), rest, b')
        case WFail(e) => WFail(e)
      else if s[0] == BYTE_L then
        match WItems(s[1..], b - 1, [])
        case WOk(items, rest, b') => WOk(VList(items), rest, b')
        case WFail(e) => WFail(e)
      else if s[0] == BYTE_D then
        match WEntries(s[1..], b - 1, map[])
        case WOk(entries, rest, b') => WOk(VDict(entries), rest, b')
        case WFail(e) => WFail(e)
      else
        match WStr(s, b)
        case WOk(str, rest, b') => WOk(VStr(str), rest, b')
        case WFail(e) => WFail(e)
  }

  /** readList, having read `acc`. */
  function WItems(s: Bytes, buffered: nat, acc: seq<Value>): (r: Windowed<seq<Value>>)
    requires buffered <= |s| && buffered <= SIZE
    ensures r.WOk? ==> |r.rest| < |s| && r.buffered <= |r.rest| && r.buffered <= SIZE
    decreases |s|, 1
  {
    if s == [] then WFail(EOF)
    else
      var b := Topped(buffered, |s|);
      if s[0] == BYTE_E then WOk(acc, s[1..], b - 1)
      else match WParse(s, b)
        case WFail(e) => WFail(e)
        case WOk(v, rest, b') => WItems(rest, b', acc + [v])
  }

  /** readDict, having read `acc`. */
  function WEntries(s: Bytes, buffered: nat, acc: map<Bytes, Value>): (r: Windowed<map<Bytes, Value>>)
    requires buffered <= |s| && buffered <= SIZE
    ensures r.WOk? ==> |r.rest| < |s| && r.buffered <= |r.rest| && r.buffered <= SIZE
    decreases |s|, 1
  {
    if s == [] then WFail(EOF)
    else
      var b := Topped(buffered, |s|);
      if s[0] == BYTE_E then WOk(acc, s[1..], b - 1)
      else match WParse(s, b)
        case WFail(e) => WFail(e)
        case WOk(key, rest, b') =>
          if !key.VStr? then WFail(NonStringKey)
          else match WParse(rest, b')
            case WFail(e) => WFail(e)
            case WOk(v, rest', b'') => WEntries(rest', b'', acc[key.s := v])
  }

  // ---------- it gives nothing wrong, and everything of an input that fits ----------

  /** Where the buffer holds all that is left, now or as soon as there is need. */
  predicate Whole(s: Bytes, buffered: nat) { |s| <= SIZE && (buffered == |s| || buffered == 0) }

  /** A result through the window is right; and if the input fits the buffer, so is a failure. */
  ghost predicate Agrees<T>(w: Windowed<T>, p: Parsed<T>, whole: bool) {
    && (w.WOk? ==> p == Ok(w.v, w.rest))
    && (whole ==> match p { case Ok(v, rest) => w == WOk(v, rest, |rest|) case Fail(e) => w == WFail(e) })
  }

  lemma IntAgrees(s: Bytes, buffered: nat, term: int)
    requires buffered <= |s| && buffered <= SIZE
    ensures Agrees(WInt(s, buffered, term), ParseTerminatedInt(s, term), |s| < SIZE && buffered == |s|)
    ensures |s| <= SIZE && buffered == |s| && ParseTerminatedInt(s, term).Ok? ==>
      Agrees(WInt(s, buffered, term), ParseTerminatedInt(s, term), true)
  {
  }

  lemma StrAgrees(s: Bytes, buffered: nat)
    requires buffered <= |s| && buffered <= SIZE
    ensures Agrees(WStr(s, buffered), ParseStr(s), |s| <= SIZE && buffered == |s|)
  {
    IntAgrees(s, buffered, COLON);
  }

  lemma {:induction false} ParseAgrees(s: Bytes, buffered: nat)
    requires buffered <= |s| && buffered <= SIZE
    ensures Agrees(WParse(s, buffered), Parse(s), Whole(s, buffered))
    decreases |s|, 0
  {
    if s != [] {
      var b := Topped(buffered, |s|);
      if s[0] == BYTE_I {
        IntAgrees(s[1..], b - 1, BYTE_E);
      } else if s[0] == BYTE_L {
        ItemsAgree(s[1..], b - 1, []);
      } else if s[0] == BYTE_D {
        EntriesAgree(s[1..], b - 1, map[]);
      } else {
        StrAgrees(s, b);
      }
    }
  }

  lemma {:induction false} ItemsAgree(s: Bytes, buffered: nat, acc: seq<Value>)
    requires buffered <= |s| && buffered <= SIZE
    ensures Agrees(WItems(s, buffered, acc), ParseItems(s, acc), Whole(s, buffered))
    decreases |s|, 1
  {
    if s != [] && s[0] != BYTE_E {
      var b := Topped(buffered, |s|);
      ParseAgrees(s, b);
      var w := WParse(s, b);
      if w.WOk? {
        ItemsAgree(w.rest, w.buffered, acc + [w.v]);
      }
    }
  }

  lemma {:induction false} EntriesAgree(s: Bytes, buffered: nat, acc: map<Bytes, Value>)
    requires buffered <= |s| && buffered <= SIZE
    ensures Agrees(WEntries(s, buffered, acc), ParseEntries(s, acc), Whole(s, buffered))
    decreases |s|, 1
  {
    if s != [] && s[0] != BYTE_E {
      var b := Topped(buffered, |s|);
      ParseAgrees(s, b);
      var w := WParse(s, b);
      if w.WOk? && w.v.VStr? {
        ParseAgrees(w.rest, w.buffered);
        var w' := WParse(w.rest, w.buffered);
        if w'.WOk? {
          EntriesAgree(w'.rest, w'.buffered, acc[w.v.s := w'.v]);
        }
      }
    }
  }

  // ---------- when the encoding of a value gets through ----------

  /** How many bytes are buffered behind an encoded string, starting with so many buffered of so many left. */
  function ThroughStr(str: Bytes, buffered: nat, left: nat): Option<nat>
    requires |EncodeStr(str)| <= left && buffered <= left
  {
    var h := |Digits(|str|)| + 1;
    var b := Topped(buffered, left);
    if h > SIZE then None else BehindString(Behind(b, left, h), left - h, |str|)
  }

  /** The same for any value; None where some string in it is not got by one read. */
  function Through(t: Tree, buffered: nat, left: nat): (r: Option<nat>)
    requires |Encode(t)| <= left && buffered <= left && buffered <= SIZE
    ensures r.Some? ==> r.value <= left - |Encode(t)| && r.value <= SIZE
    decreases t, 0
  {
    var b := Topped(buffered, left);
    match t
    case TInt(n) => if |FormatInt(n)| + 1 > SIZE then None else Some(Behind(b - 1, left - 1, |FormatInt(n)| + 1))
    case TStr(str) => ThroughStr(str, buffered, left)
    case TList(items) => ThroughItems(items, b - 1, left - 1)
    case TDict(entries) => ThroughEntries(entries, b - 1, left - 1)
  }

  function ThroughItems(items: seq<Tree>, buffered: nat, left: nat): (r: Option<nat>)
    requires |EncodeItems(items)| + 1 <= left && buffered <= left && buffered <= SIZE
    ensures r.Some? ==> r.value <= left - |EncodeItems(items)| - 1 && r.value <= SIZE
    decreases items, 1
  {
    var b := Topped(buffered, left);
    if items == [] then Some(b - 1)
    else match Through(items[0], b, left)
      case None => None
      case Some(b') => ThroughItems(items[1..], b', left - |Encode(items[0])|)
  }

  /** A key and its value. */
  function ThroughEntry(e: Entry, buffered: nat, left: nat): (r: Option<nat>)
    requires |EncodeStr(e.key)| + |Encode(e.val)| <= left && buffered <= left && buffered <= SIZE
    ensures r.Some? ==> r.value <= left - |EncodeStr(e.key)| - |Encode(e.val)| && r.value <= SIZE
    decreases e, 1
  {
    match ThroughStr(e.key, Topped(buffered, left), left)
    case None => None
    case Some(b) => Through(e.val, b, left - |EncodeStr(e.key)|)
  }

  function ThroughEntries(entries: seq<Entry>, buffered: nat, left: nat): (r: Option<nat>)
    requires |EncodeEntries(entries)| + 1 <= left && buffered <= left && buffered <= SIZE
    ensures r.Some? ==> r.value <= left - |EncodeEntries(entries)| - 1 && r.value <= SIZE
    decreases entries, 1
  {
    if entries == [] then Some(Topped(buffered, left) - 1)
    else match ThroughEntry(entries[0], buffered, left)
      case None => None
      case Some(b) =>
        ThroughEntries(entries[1..], b, left - |EncodeStr(entries[0].key)| - |Encode(entries[0].val)|)
  }

  /** The parse lands right behind the encoding with this much buffered, or fails where it does not get through. */
  ghost predicate Lands<T>(w: Windowed<T>, through: Option<nat>, rest: Bytes) {
    match through
    case Some(b) => w.WOk? && w.rest == rest && w.buffered == b
    case None => w.WFail?
  }

  lemma IntLands(n: int, term: byte, rest: Bytes, buffered: nat)
    requires MIN_INT64 <= n <= MAX_INT64 && (term == BYTE_E || term == COLON)
    requires var s := FormatInt(n) + [term] + rest; buffered <= |s| && buffered <= SIZE
    ensures var s, h := FormatInt(n) + [term] + rest, |FormatInt(n)| + 1;
      WInt(s, buffered, term) == if h <= SIZE then WOk(n, rest, Behind(buffered, |s|, h))
        else WFail(if |s| >= SIZE then BufferFull else EOF)
  {
    var p := FormatInt(n);
    var s := p + [term] + rest;
    forall j | 0 <= j < |p| ensures s[j] != term { FormatIntBytes(n, j); }
    FindAt(s, term, |p|);
    assert s[..|p|] == p && s[|p| + 1..] == rest;
    ParseFormat(n);
  }

  lemma StrContentLands(str: Bytes, rest: Bytes, buffered: nat)
    requires |str| <= MAX_ALLOC && 0 < buffered <= |EncodeStr(str) + rest| && buffered <= SIZE
    ensures var s := EncodeStr(str) + rest; Lands(WStr(s, buffered), ThroughStr(str, buffered, |s|), rest)
    ensures WStr(EncodeStr(str) + rest, buffered).WOk? ==> WStr(EncodeStr(str) + rest, buffered).v == str
  {
    StrSplit(str, rest);
    IntLands(|str|, COLON, str + rest, buffered);
  }

  lemma StrLands(str: Bytes, rest: Bytes, buffered: nat)
    requires |str| <= MAX_ALLOC && buffered <= |EncodeStr(str) + rest| && buffered <= SIZE
    ensures var s := EncodeStr(str) + rest;
      s[0] != BYTE_E && Lands(WParse(s, buffered), ThroughStr(str, buffered, |s|), rest)
    ensures WParse(EncodeStr(str) + rest, buffered).WOk? ==> WParse(EncodeStr(str) + rest, buffered).v == VStr(str)
  {
    var s := EncodeStr(str) + rest;
    assert s[0] == Digits(|str|)[0];
    StrContentLands(str, rest, Topped(buffered, |s|));
  }

  lemma IntTreeLands(n: int, rest: Bytes, buffered: nat)
    requires MIN_INT64 <= n <= MAX_INT64 && buffered <= |Encode(TInt(n)) + rest| && buffered <= SIZE
    ensures var s := Encode(TInt(n)) + rest; Lands(WParse(s, buffered), Through(TInt(n), buffered, |s|), rest)
  {
    var s := Encode(TInt(n)) + rest;
    Unbracket(BYTE_I, FormatInt(n), rest);
    Assoc(FormatInt(n), [BYTE_E], rest);
    IntLands(n, BYTE_E, rest, Topped(buffered, |s|) - 1);
  }

  lemma {:induction false} TreeLands(t: Tree, rest: Bytes, buffered: nat)
    requires InRange(t) && buffered <= |Encode(t) + rest| && buffered <= SIZE
    ensures Lands(WParse(Encode(t) + rest, buffered), Through(t, buffered, |Encode(t) + rest|), rest)
    decreases t, 0
  {
    match t
    case TInt(n) => IntTreeLands(n, rest, buffered);
    case TStr(str) => StrLands(str, rest, buffered);
    case TList(items) => ListLands(items, rest, buffered);
    case TDict(entries) => DictLands(entries, rest, buffered);
  }

  lemma {:induction false} ListLands(items: seq<Tree>, rest: Bytes, buffered: nat)
    requires InRange(TList(items)) && buffered <= |Encode(TList(items)) + rest| && buffered <= SIZE
    ensures var s := Encode(TList(items)) + rest; Lands(WParse(s, buffered), Through(TList(items), buffered, |s|), rest)
    decreases items, 3
  {
    var s := Encode(TList(items)) + rest;
    Unbracket(BYTE_L, EncodeItems(items), rest);
    ItemsLand(items, [], rest, Topped(buffered, |s|) - 1);
  }

  lemma {:induction false} DictLands(entries: seq<Entry>, rest: Bytes, buffered: nat)
    requires InRange(TDict(entries)) && buffered <= |Encode(TDict(entries)) + rest| && buffered <= SIZE
    ensures var s := Encode(TDict(entries)) + rest;
      Lands(WParse(s, buffered), Through(TDict(entries), buffered, |s|), rest)
    decreases entries, 3
  {
    var s := Encode(TDict(entries)) + rest;
    Unbracket(BYTE_D, EncodeEntries(entries), rest);
    EntriesLand(entries, map[], rest, Topped(buffered, |s|) - 1);
  }

  lemma {:induction false} ItemsLand(items: seq<Tree>, acc: seq<Value>, rest: Bytes, buffered: nat)
    requires forall i :: 0 <= i < |items| ==> InRange(items[i])
    requires var s := EncodeItems(items) + ([BYTE_E] + rest); buffered <= |s| && buffered <= SIZE
    ensures var s := EncodeItems(items) + ([BYTE_E] + rest);
      Lands(WItems(s, buffered, acc), ThroughItems(items, buffered, |s|), rest)
    decreases items, 2
  {
    var s := EncodeItems(items) + ([BYTE_E] + rest);
    if items == [] {
      Ended(rest);
    } else {
      var more := EncodeItems(items[1..]) + ([BYTE_E] + rest);
      var b := Topped(buffered, |s|);
      ItemsSplit(items, [BYTE_E] + rest);
      EncodingStart(items[0]);
      assert s[0] == Encode(items[0])[0];
      TreeLands(items[0], more, b);
      var w := WParse(s, b);
      if w.WOk? {
        ItemsLand(items[1..], acc + [w.v], rest, w.buffered);
      }
    }
  }

  lemma EntriesUnfold(s: Bytes, buffered: nat, acc: map<Bytes, Value>)
    requires s != [] && s[0] != BYTE_E && buffered <= |s| && buffered <= SIZE
    ensures var w := WParse(s, Topped(buffered, |s|));
      && (w.WFail? ==> WEntries(s, buffered, acc).WFail?)
      && (w.WOk? && w.v.VStr? ==>
            var w' := WParse(w.rest, w.buffered);
            if w'.WFail? then WEntries(s, buffered, acc).WFail?
            else WEntries(s, buffered, acc) == WEntries(w'.rest, w'.buffered, acc[w.v.s := w'.v]))
  {
  }

  /** One entry is read past, or its key or its value does not get through. */
  lemma {:induction false} EntryLands(e: Entry, more: Bytes, acc: map<Bytes, Value>, buffered: nat) returns (v: Value)
    requires |e.key| <= MAX_ALLOC && InRange(e.val)
    requires var s := EncodeStr(e.key) + (Encode(e.val) + more); buffered <= |s| && buffered <= SIZE
    ensures var s := EncodeStr(e.key) + (Encode(e.val) + more);
      match ThroughEntry(e, buffered, |s|)
      case None => WEntries(s, buffered, acc).WFail?
      case Some(b) => WEntries(s, buffered, acc) == WEntries(more, b, acc[e.key := v])
    decreases e, 1
  {
    var tail := Encode(e.val) + more;
    var s := EncodeStr(e.key) + tail;
    var b := Topped(buffered, |s|);
    assert |s| - |EncodeStr(e.key)| == |tail|;
    StrLands(e.key, tail, b);
    EntriesUnfold(s, buffered, acc);
    var w := WParse(s, b);
    v := VInt(0);
    if w.WOk? {
      TreeLands(e.val, more, w.buffered);
      var w' := WParse(tail, w.buffered);
      if w'.WOk? {
        v := w'.v;
      }
    }
  }

  lemma {:induction false} EntriesLand(entries: seq<Entry>, acc: map<Bytes, Value>, rest: Bytes, buffered: nat)
    requires forall i :: 0 <= i < |entries| ==> |entries[i].key| <= MAX_ALLOC && InRange(entries[i].val)
    requires var s := EncodeEntries(entries) + ([BYTE_E] + rest); buffered <= |s| && buffered <= SIZE
    ensures var s := EncodeEntries(entries) + ([BYTE_E] + rest);
      Lands(WEntries(s, buffered, acc), ThroughEntries(entries, buffered, |s|), rest)
    decreases entries, 2
  {
    var s := EncodeEntries(entries) + ([BYTE_E] + rest);
    if entries == [] {
      Ended(rest);
    } else {
      var more := EncodeEntries(entries[1..]) + ([BYTE_E] + rest);
      EntriesSplit(entries, [BYTE_E] + rest);
      var v := EntryLands(entries[0], more, acc, buffered);
      var through := ThroughEntry(entries[0], buffered, |s|);
      ThroughUnfold(entries, buffered, |s|, |more|);
      if through.Some? {
        EntriesLand(entries[1..], acc[entries[0].key := v], rest, through.value);
      }
    }
  }

  lemma ThroughUnfold(entries: seq<Entry>, buffered: nat, left: nat, more: nat)
    requires entries != [] && |EncodeEntries(entries)| + 1 <= left && buffered <= left && buffered <= SIZE
    requires more == left - |EncodeStr(entries[0].key)| - |Encode(entries[0].val)|
    ensures ThroughEntries(entries, buffered, left) == match ThroughEntry(entries[0], buffered, left)
      case None => None
      case Some(b) => ThroughEntries(entries[1..], b, more)
  {
    assert |EncodeEntries(entries)|
        == |EncodeStr(entries[0].key)| + |Encode(entries[0].val)| + |EncodeEntries(entries[1..])|;
  }
}
