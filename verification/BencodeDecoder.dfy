/** The decoder as the program runs it: a bufio.Reader advanced by mutually recursive methods. */
module BencodeDecoder {
  import opened BitTorrent
  import opened Decimal
  import opened Bencode
  import opened BencodeWindow

  datatype Result<T> = Got(v: T) | Failed(e: DecodeError)

  lemma Cut(s: Bytes, i: nat, n: nat)
    requires i + n <= |s|
    ensures s[i..][..n] == s[i..i + n] && s[i..][n..] == s[i + n..]
  {
  }

  /** A bufio.Reader over a byte buffer: the bytes from `pos` to `end` are buffered, those behind it not yet read. */
  class Reader {
    const buf: Bytes
    var pos: nat
    var end: nat

    constructor (buf: Bytes)
      ensures this.buf == buf && Valid() && Rest() == buf && Buffered() == 0
    {
      this.buf, pos, end := buf, 0, 0;
    }

    ghost predicate Valid()
      reads this
    {
      pos <= end <= |buf| && end - pos <= SIZE
    }

    ghost function Rest(): Bytes
      requires Valid()
      reads this
    {
      buf[pos..]
    }

    ghost function Buffered(): nat
      requires Valid()
      reads this
    {
      end - pos
    }

    method Fill()
      requires Valid()
      modifies this`end
      ensures Valid() && end == Min(pos + SIZE, |buf|)
    {
      end := Min(pos + SIZE, |buf|);
    }

    /** Copies n buffered bytes out. */
    method Take(n: nat) returns (bytes: Bytes)
      requires Valid() && n <= Buffered()
      modifies this`pos
      ensures Valid() && pos == old(pos) + n && Buffered() == old(Buffered()) - n
      ensures bytes == old(Rest())[..n] && Rest() == old(Rest())[n..]
    {
      Cut(buf, pos, n);
      bytes := buf[pos..pos + n];
      pos := pos + n;
    }

    /** Copies as much as there is out, past the empty buffer. */
    method ReadPast(length: nat) returns (bytes: Bytes)
      requires Valid() && Buffered() == 0
      modifies this
      ensures Valid() && Buffered() == 0
      ensures var n := Min(length, |old(Rest())|); bytes == old(Rest())[..n] && Rest() == old(Rest())[n..]
    {
      var n := Min(length, |buf| - pos);
      Cut(buf, pos, n);
      bytes := buf[pos..pos + n];
      pos, end := pos + n, pos + n;
    }

    method ReadByte() returns (r: Result<byte>)
      requires Valid()
      modifies this
      ensures Valid()
      ensures old(Rest()) == [] ==> r == Failed(EOF)
      ensures old(Rest()) != [] ==>
        && r == Got(old(Rest())[0]) && pos == old(pos) + 1 && Rest() == old(Rest())[1..]
        && Buffered() == Topped(old(Buffered()), |old(Rest())|) - 1
    {
      if pos == end {
        Fill();
      }
      if pos == end {
        return Failed(EOF);
      }
      r := Got(buf[pos]);
      pos := pos + 1;
    }

    method UnreadByte()
      requires Valid() && pos > 0 && Buffered() < SIZE
      modifies this`pos
      ensures Valid() && pos == old(pos) - 1 && Buffered() == old(Buffered()) + 1
    {
      pos := pos - 1;
    }

    /** ReadSlice: the bytes up to and including the delimiter, which must stand among the next SIZE bytes. */
    method ReadSlice(delim: byte) returns (r: Result<Bytes>)
      requires Valid()
      modifies this
      ensures Valid()
      ensures var rest, i := old(Rest()), Find(old(Rest()), delim);
        if i < Min(SIZE, |rest|) then
          && r == Got(rest[..i + 1]) && pos == old(pos) + i + 1 && Rest() == rest[i + 1..]
          && Buffered() == Behind(old(Buffered()), |rest|, i + 1)
        else r == Failed(if |rest| >= SIZE then BufferFull else EOF)
    {
      var i := Look(delim);
      if i == end - pos {
        return Failed(if end - pos >= SIZE then BufferFull else EOF);
      }
      var line := Take(i + 1);
      r := Got(line);
    }

    /** The search for a delimiter, in what is buffered and then in all that can be. */
    method Look(delim: byte) returns (i: nat)
      requires Valid()
      modifies this`end
      ensures Valid() && i <= end - pos
      ensures i < end - pos ==>
        i == Find(Rest(), delim) && end - pos == if i < old(Buffered()) then old(Buffered()) else Min(SIZE, |Rest()|)
      ensures i == end - pos ==> end - pos == Min(SIZE, |Rest()|) <= Find(Rest(), delim)
    {
      i := LookInBuffer(delim);
      if i == end - pos && end - pos < SIZE {
        Fill();
        i := LookInBuffer(delim);
      }
    }

    method LookInBuffer(delim: byte) returns (i: nat)
      requires Valid()
      ensures i <= end - pos <= Find(Rest(), delim) || i == Find(Rest(), delim) < end - pos
      ensures i == end - pos || i == Find(Rest(), delim)
    {
      FindInFront(Rest(), end - pos, delim);
      Cut(buf, pos, end - pos);
      i := Search(buf[pos..end], delim);
    }

    /** Read: one read of what is buffered, or past an empty buffer if the slice is as large; never more than that. */
    method Read(length: nat) returns (r: Result<Bytes>)
      requires Valid()
      modifies this
      ensures Valid()
      ensures length > 0 && old(Rest()) == [] ==> r == Failed(EOF)
      ensures !(length > 0 && old(Rest()) == []) ==>
        && r.Got? && |r.v| <= length
        && (|r.v| == length <==>
              length <= |old(Rest())| && BehindString(old(Buffered()), |old(Rest())|, length).Some?)
        && (|r.v| == length ==>
              && r.v == old(Rest())[..length] && Rest() == old(Rest())[length..]
              && BehindString(old(Buffered()), |old(Rest())|, length) == Some(Buffered()))
    {
      if length == 0 {
        return Got([]);
      }
      if pos == |buf| {
        return Failed(EOF);
      }
      var bytes;
      if pos == end && length >= SIZE {
        bytes := ReadPast(length);
      } else {
        if pos == end {
          Fill();
        }
        bytes := Take(Min(length, end - pos));
      }
      r := Got(bytes);
    }
  }

  method Search(s: Bytes, delim: byte) returns (i: nat)
    ensures i == Find(s, delim)
  {
    i := 0;
    while i < |s| && s[i] != delim
      invariant i <= |s| && forall j :: 0 <= j < i ==> s[j] != delim
    {
      i := i + 1;
    }
    FindUnique(s, delim, i);
  }

  lemma FindUnique(s: Bytes, b: int, i: nat)
    requires i <= |s| && (i < |s| ==> s[i] == b) && forall j :: 0 <= j < i ==> s[j] != b
    ensures Find(s, b) == i
  {
  }

  /** A byte is found among the first n bytes, and then where it is found in all of them, or beyond them. */
  lemma FindInFront(s: Bytes, n: nat, b: int)
    requires n <= |s|
    ensures if Find(s[..n], b) < n then Find(s, b) == Find(s[..n], b) else Find(s, b) >= n
  {
    var i := Find(s[..n], b);
    assert forall j :: 0 <= j < n ==> s[..n][j] == s[j];
    if i < n {
      FindUnique(s, b, i);
    }
  }

  /** A method's result and the reader it leaves are those of the specification. */
  ghost predicate Matches<T>(w: Windowed<T>, r: Result<T>, rest: Bytes, buffered: nat) {
    match w
    case WOk(v, rest', buffered') => r == Got(v) && rest == rest' && buffered == buffered'
    case WFail(e) => r == Failed(e)
  }

  method ReadTerminator(r: Reader, term: byte) returns (ok: Result<bool>)
    requires r.Valid()
    modifies r
    ensures r.Valid()
    ensures old(r.Rest()) == [] ==> ok == Failed(EOF)
    ensures old(r.Rest()) != [] && old(r.Rest())[0] == term ==>
      && ok == Got(true) && r.Rest() == old(r.Rest())[1..]
      && r.Buffered() == Topped(old(r.Buffered()), |old(r.Rest())|) - 1
    ensures old(r.Rest()) != [] && old(r.Rest())[0] != term ==>
      ok == Got(false) && r.pos == old(r.pos) && r.Buffered() == Topped(old(r.Buffered()), |old(r.Rest())|)
  {
    var tok := r.ReadByte();
    if tok.Failed? {
      return Failed(tok.e);
    } else if tok.v == term {
      return Got(true);
    }
    r.UnreadByte();
    ok := Got(false);
  }

  method ReadTerminatedInt(r: Reader, term: byte) returns (n: Result<int>)
    requires r.Valid()
    modifies r
    ensures r.Valid() && Matches(WInt(old(r.Rest()), old(r.Buffered()), term), n, r.Rest(), r.Buffered())
  {
    var buf := r.ReadSlice(term);
    if buf.Failed? {
      return Failed(buf.e);
    } else if |buf.v| <= 1 {
      return Failed(EmptyInteger);
    }
    ghost var i := Find(old(r.Rest()), term);
    assert buf.v[..|buf.v| - 1] == old(r.Rest())[..i];
    var parsed := ParseInt(buf.v[..|buf.v| - 1]);
    n := if parsed.Some? then Got(parsed.value) else Failed(BadInteger);
  }

  /** The default branch of unmarshal, its first byte unread. */
  method ReadString(r: Reader) returns (v: Result<Bytes>)
    requires r.Valid()
    modifies r
    ensures r.Valid() && Matches(WStr(old(r.Rest()), old(r.Buffered())), v, r.Rest(), r.Buffered())
  {
    var length := ReadTerminatedInt(r, COLON);
    if length.Failed? {
      return Failed(UnknownSequence);
    }
    if length.v < 0 || length.v > MAX_ALLOC {
      return Failed(Panic);
    }
    var buf := r.Read(length.v);
    if buf.Failed? {
      return Failed(buf.e);
    } else if |buf.v| != length.v {
      return Failed(ShortRead);
    }
    v := Got(buf.v);
  }

  /** unmarshal, exactly as the window lets it see the input. */
  method Unmarshal(r: Reader) returns (v: Result<Value>)
    requires r.Valid()
    modifies r
    ensures r.Valid() && Matches(WParse(old(r.Rest()), old(r.Buffered())), v, r.Rest(), r.Buffered())
    decreases |r.buf| - r.pos, 0
  {
    ghost var rest, b := r.Rest(), r.Buffered();
    var tok := r.ReadByte();
    if tok.Failed? {
      return Failed(tok.e);
    }
    assert r.Rest() == rest[1..] && r.Buffered() == Topped(b, |rest|) - 1;
    if tok.v == BYTE_I {
      var n := ReadTerminatedInt(r, BYTE_E);
      v := if n.Got? then Got(VInt(n.v)) else Failed(n.e);
    } else if tok.v == BYTE_L {
      var items := ReadList(r);
      v := if items.Got? then Got(VList(items.v)) else Failed(items.e);
    } else if tok.v == BYTE_D {
      var entries := ReadDict(r);
      v := if entries.Got? then Got(VDict(entries.v)) else Failed(entries.e);
    } else {
      r.UnreadByte();
      assert r.Rest() == rest && r.Buffered() == Topped(b, |rest|);
      var str := ReadString(r);
      v := if str.Got? then Got(VStr(str.v)) else Failed(str.e);
    }
  }

  method ReadList(r: Reader) returns (list: Result<seq<Value>>)
    requires r.Valid()
    modifies r
    ensures r.Valid() && Matches(WItems(old(r.Rest()), old(r.Buffered()), []), list, r.Rest(), r.Buffered())
    decreases |r.buf| - r.pos, 1
  {
    var items: seq<Value> := [];
    while true
      invariant r.Valid() && r.pos >= old(r.pos)
      invariant WItems(old(r.Rest()), old(r.Buffered()), []) == WItems(r.Rest(), r.Buffered(), items)
      decreases |r.buf| - r.pos
    {
      var ok := ReadTerminator(r, BYTE_E);
      if ok.Failed? {
        return Failed(ok.e);
      } else if ok.v {
        return Got(items);
      }
      var v := Unmarshal(r);
      if v.Failed? {
        return Failed(v.e);
      }
      items := items + [v.v];
    }
  }

  method ReadDict(r: Reader) returns (dict: Result<map<Bytes, Value>>)
    requires r.Valid()
    modifies r
    ensures r.Valid() && Matches(WEntries(old(r.Rest()), old(r.Buffered()), map[]), dict, r.Rest(), r.Buffered())
    decreases |r.buf| - r.pos, 1
  {
    var entries: map<Bytes, Value> := map[];
    while true
      invariant r.Valid() && r.pos >= old(r.pos)
      invariant WEntries(old(r.Rest()), old(r.Buffered()), map[]) == WEntries(r.Rest(), r.Buffered(), entries)
      decreases |r.buf| - r.pos
    {
      var ok := ReadTerminator(r, BYTE_E);
      if ok.Failed? {
        return Failed(ok.e);
      } else if ok.v {
        return Got(entries);
      }
      var key := Unmarshal(r);
      if key.Failed? {
        return Failed(key.e);
      }
      if !key.v.VStr? {
        return Failed(NonStringKey);
      }
      var v := Unmarshal(r);
      if v.Failed? {
        return Failed(v.e);
      }
      entries := entries[key.v.s := v.v];
    }
  }

  // ---------- what the caller of Unmarshal gets ----------

  /** A value decoded is the one the grammar gives; and of an input that fits the buffer everything is decoded so. */
  method Decode(input: Bytes) returns (v: Result<Value>)
    ensures v.Got? ==> Parse(input).Ok? && Parse(input).v == v.v
    ensures |input| <= SIZE ==> v == match Parse(input) { case Ok(value, _) => Got(value) case Fail(e) => Failed(e) }
  {
    var r := new Reader(input);
    ParseAgrees(input, 0);
    v := Unmarshal(r);
  }

  /** The encoding of any value, followed by anything, decodes exactly when it is in range and gets through. */
  method DecodeTree(t: Tree, rest: Bytes) returns (v: Result<Value>)
    ensures if InRange(t) && Through(t, 0, |Encode(t)| + |rest|).Some? then v == Got(ValueOf(t)) else v.Failed?
  {
    var r := new Reader(Encode(t) + rest);
    ParseAgrees(Encode(t) + rest, 0);
    if InRange(t) {
      TreeLands(t, rest, 0);
      DecodeEncode(t, rest);
    } else {
      OutOfRangeFails(t, rest);
    }
    v := Unmarshal(r);
  }

  /** A string at the head of any input decodes exactly when its encoding fits the buffer. */
  method DecodeString(str: Bytes, rest: Bytes) returns (v: Result<Value>)
    ensures if |EncodeStr(str)| <= SIZE then v == Got(VStr(str)) else v.Failed?
  {
    if |str| <= MAX_ALLOC {
      StringGetsThrough(str, |EncodeStr(str)| + |rest|);
    }
    v := DecodeTree(TStr(str), rest);
  }

  lemma StringGetsThrough(str: Bytes, left: nat)
    requires |str| <= MAX_ALLOC && |EncodeStr(str)| <= left
    ensures Through(TStr(str), 0, left).Some? <==> |EncodeStr(str)| <= SIZE
  {
    assert Pow10(9) == 1_000_000_000 && Pow10(10) == 10_000_000_000;
    Pow10Add(9, 10);
    DigitsLength(|str|, 19);
  }
}
