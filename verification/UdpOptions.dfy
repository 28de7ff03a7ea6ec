/** The option stream that may follow a UDP announce (BEP 41), and the parser of frontend/udp/parser.go. */
module UdpOptions {
  import opened BitTorrent
  import UrlParams

  const END_OF_OPTIONS: byte := 0
  const NOP: byte := 1
  const URL_DATA: byte := 2

  // ---------- the format ----------

  type Chunk = b: Bytes | |b| <= 255

  datatype Item = Nop | UrlData(chunk: Chunk) {
    function Encoded(): (b: Bytes)
      ensures b != [] && !Stops(b)
    {
      match this
      case Nop => [NOP]
      case UrlData(chunk) => [URL_DATA, |chunk|] + chunk
    }

    function Text(): Bytes {
      if UrlData? then chunk else []
    }
  }

  function Stream(items: seq<Item>): Bytes {
    if items == [] then [] else items[0].Encoded() + Stream(items[1..])
  }

  /** The URL the chunks spell out. */
  function Url(items: seq<Item>): Bytes {
    if items == [] then [] else items[0].Text() + Url(items[1..])
  }

  datatype Outcome = Parsed(url: Bytes) | ErrMalformedPacket | ErrUnknownOptionType

  /**
   No further item starts the bytes: nothing is left, or a marker that ends the stream, or something
   that is no item.
   */
  predicate Stops(tail: Bytes) {
    || tail == []
    || (tail[0] != NOP && tail[0] != URL_DATA)
    || (tail[0] == URL_DATA && (|tail| == 1 || 2 + tail[1] > |tail|))
  }

  function Verdict(items: seq<Item>, tail: Bytes): Outcome {
    if tail == [] || tail[0] == END_OF_OPTIONS then Parsed(Url(items))
    else if tail[0] == URL_DATA then ErrMalformedPacket
    else ErrUnknownOptionType
  }

  // ---------- every packet is one list of items and what stops it ----------

  lemma {:induction false} StreamSnoc(items: seq<Item>, item: Item)
    ensures Stream(items + [item]) == Stream(items) + item.Encoded()
    ensures Url(items + [item]) == Url(items) + item.Text()
  {
    var all := items + [item];
    if items == [] {
      assert all[0] == item && all[1..] == [];
    } else {
      assert all[0] == items[0] && all[1..] == items[1..] + [item];
      StreamSnoc(items[1..], item);
      Assoc(items[0].Encoded(), Stream(items[1..]), item.Encoded());
      Assoc(items[0].Text(), Url(items[1..]), item.Text());
    }
  }

  lemma ItemGoesOn(item: Item, rest: Bytes)
    ensures !Stops(item.Encoded() + rest)
  {
    var p := item.Encoded() + rest;
    assert p[0] == item.Encoded()[0];
    if item.UrlData? {
      assert p[1] == item.Encoded()[1];
    }
  }

  lemma SameItem(a: Item, b: Item, ra: Bytes, rb: Bytes)
    requires a.Encoded() + ra == b.Encoded() + rb
    ensures a == b && ra == rb
  {
    var p, q := a.Encoded() + ra, b.Encoded() + rb;
    assert p[0] == a.Encoded()[0] && q[0] == b.Encoded()[0];
    if a.UrlData? {
      assert p[1] == a.Encoded()[1] && q[1] == b.Encoded()[1];
      assert a.chunk == p[2..2 + |a.chunk|];
      assert b.chunk == q[2..2 + |b.chunk|];
    }
    assert ra == p[|a.Encoded()|..] && rb == q[|b.Encoded()|..];
  }

  ghost predicate Splits(packet: Bytes, items: seq<Item>, tail: Bytes) {
    Stops(tail) && packet == Stream(items) + tail
  }

  lemma SplitFirst(packet: Bytes, items: seq<Item>, tail: Bytes)
    requires Splits(packet, items, tail)
    ensures items == [] ==> packet == tail
    ensures items != [] ==> packet == items[0].Encoded() + (Stream(items[1..]) + tail) && !Stops(packet)
  {
    if items == [] {
      assert [] + tail == tail;
    } else {
      Assoc(items[0].Encoded(), Stream(items[1..]), tail);
      ItemGoesOn(items[0], Stream(items[1..]) + tail);
    }
  }

  /** The items of a packet are determined by its bytes. */
  lemma {:induction false} SplitIsUnique(packet: Bytes, items: seq<Item>, tail: Bytes, items': seq<Item>, tail': Bytes)
    requires Splits(packet, items, tail) && Splits(packet, items', tail')
    ensures items == items' && tail == tail'
    decreases |items|
  {
    SplitFirst(packet, items, tail);
    SplitFirst(packet, items', tail');
    if items != [] {
      var rest := Stream(items[1..]) + tail;
      SameItem(items[0], items'[0], rest, Stream(items'[1..]) + tail');
      SplitIsUnique(rest, items[1..], tail, items'[1..], tail');
      assert items == [items[0]] + items[1..];
      assert items' == [items'[0]] + items'[1..];
    }
  }

  // ---------- the parser ----------

  /** The packet is a stream of items and a tail in just one way, and that way decides the outcome. */
  ghost predicate Settles(packet: Bytes, r: Outcome) {
    && (exists items, tail :: Splits(packet, items, tail))
    && (forall items, tail :: Splits(packet, items, tail) ==> r == Verdict(items, tail))
  }

  /** The loop of handleOptionalParameters; what it parses is handed to ParseURLData. */
  method ScanOptions(packet: Bytes) returns (r: Outcome)
    ensures Settles(packet, r)
  {
    ghost var items: seq<Item> := [];
    var buf: Bytes := [];
    var i := 0;
    while i < |packet|
      invariant 0 <= i <= |packet|
      invariant Stream(items) == packet[..i]
      invariant buf == Url(items)
    {
      var option := packet[i];
      if option == END_OF_OPTIONS {
        r := Parsed(buf);
        Decided(packet, items, i);
        return;
      } else if option == NOP {
        NopRead(packet, items, i);
        items := items + [Nop];
        i := i + 1;
      } else if option == URL_DATA {
        if i + 1 >= |packet| {
          r := ErrMalformedPacket;
          Decided(packet, items, i);
          return;
        }
        var length := packet[i + 1];
        if i + 2 + length > |packet| {
          r := ErrMalformedPacket;
          Decided(packet, items, i);
          return;
        }
        ChunkRead(packet, items, i, length);
        items := items + [UrlData(packet[i + 2..i + 2 + length])];
        buf := buf + packet[i + 2..i + 2 + length];
        i := i + 2 + length;
      } else {
        r := ErrUnknownOptionType;
        Decided(packet, items, i);
        return;
      }
    }
    r := Parsed(buf);
    Decided(packet, items, i);
  }

  lemma Advance(packet: Bytes, items: seq<Item>, i: nat, item: Item)
    requires i + |item.Encoded()| <= |packet| && packet[i..i + |item.Encoded()|] == item.Encoded()
    requires Stream(items) == packet[..i]
    ensures Stream(items + [item]) == packet[..i + |item.Encoded()|]
    ensures Url(items + [item]) == Url(items) + item.Text()
  {
    StreamSnoc(items, item);
    assert packet[..i] + packet[i..i + |item.Encoded()|] == packet[..i + |item.Encoded()|];
  }

  lemma NopRead(packet: Bytes, items: seq<Item>, i: nat)
    requires i < |packet| && packet[i] == NOP && Stream(items) == packet[..i]
    ensures Stream(items + [Nop]) == packet[..i + 1] && Url(items + [Nop]) == Url(items)
  {
    Advance(packet, items, i, Nop);
    assert Url(items) + [] == Url(items);
  }

  lemma ChunkRead(packet: Bytes, items: seq<Item>, i: nat, length: byte)
    requires i + 2 + length <= |packet| && packet[i] == URL_DATA && packet[i + 1] == length
    requires Stream(items) == packet[..i]
    ensures var chunk := packet[i + 2..i + 2 + length];
      && Stream(items + [UrlData(chunk)]) == packet[..i + 2 + length]
      && Url(items + [UrlData(chunk)]) == Url(items) + chunk
  {
    var item := UrlData(packet[i + 2..i + 2 + length]);
    assert packet[i..i + 2 + length] == item.Encoded();
    Advance(packet, items, i, item);
  }

  /** Where the loop stops, it has an answer. */
  lemma Decided(packet: Bytes, items: seq<Item>, i: nat)
    requires i <= |packet| && Stream(items) == packet[..i]
    requires i == |packet| || packet[i] !in {NOP, URL_DATA} ||
             (packet[i] == URL_DATA && (i + 1 == |packet| || i + 2 + packet[i + 1] > |packet|))
    ensures Settles(packet,
      if i == |packet| || packet[i] == END_OF_OPTIONS then Parsed(Url(items))
      else if packet[i] == URL_DATA then ErrMalformedPacket
      else ErrUnknownOptionType)
  {
    var tail := packet[i..];
    assert i < |packet| ==> tail[0] == packet[i];
    assert i + 1 < |packet| ==> tail[1] == packet[i + 1];
    assert packet == packet[..i] + tail;
    assert Splits(packet, items, tail);
    forall items', tail' | Splits(packet, items', tail') ensures Verdict(items', tail') == Verdict(items, tail) {
      SplitIsUnique(packet, items, tail, items', tail');
    }
  }

  datatype Response = Params(result: UrlParams.Result) | Rejected(outcome: Outcome)

  ghost predicate Handles(codec: UrlParams.Codec, packet: Bytes, r: Response) {
    forall items, tail :: Splits(packet, items, tail) ==>
      match Verdict(items, tail)
      case Parsed(url) => r.Params? && UrlParams.ParsesTo(codec, url, r.result)
      case error => r == Rejected(error)
  }

  method HandleOptionalParameters(packet: Bytes, codec: UrlParams.Codec) returns (r: Response)
    ensures Handles(codec, packet, r)
  {
    if |packet| == 0 {
      var q := UrlParams.ParseURLData([], codec);
      Decided(packet, [], 0);
      return Params(q);
    }
    var outcome := ScanOptions(packet);
    if outcome.Parsed? {
      var q := UrlParams.ParseURLData(outcome.url, codec);
      r := Params(q);
    } else {
      r := Rejected(outcome);
    }
  }

  /** The chunks of `items` with no-ops between them, then nothing or an end marker and any bytes. */
  ghost predicate Carries(packet: Bytes, items: seq<Item>, tail: Bytes) {
    packet == Stream(items) + tail && (tail == [] || tail[0] == END_OF_OPTIONS)
  }

  /** However a URL is cut into chunks, its packet parses as the URL does; and no packet of another form parses. */
  lemma OptionsParseAsUrl(codec: UrlParams.Codec, packet: Bytes, r: Response, result: UrlParams.Result)
    requires Handles(codec, packet, r)
    ensures forall items, tail :: Carries(packet, items, tail) ==>
      (UrlParams.ParsesTo(codec, Url(items), result) <==> r == Params(result))
    ensures r.Params? ==> exists items, tail :: Carries(packet, items, tail)
  {
    forall items, tail | Carries(packet, items, tail)
      ensures UrlParams.ParsesTo(codec, Url(items), result) <==> r == Params(result)
    {
      assert Splits(packet, items, tail);
      if UrlParams.ParsesTo(codec, Url(items), result) {
        UrlParams.ParseIsUnique(codec, Url(items), r.result, result);
      }
    }
    if r.Params? {
      var items, tail := SplitExists(packet);
      assert Carries(packet, items, tail);
    }
  }

  lemma {:induction false} SplitExists(packet: Bytes) returns (items: seq<Item>, tail: Bytes)
    ensures Splits(packet, items, tail)
    decreases |packet|
  {
    if Stops(packet) {
      items, tail := [], packet;
      assert [] + tail == packet;
    } else {
      var item := if packet[0] == NOP then Nop else UrlData(packet[2..2 + packet[1]]);
      var n := |item.Encoded()|;
      assert packet == item.Encoded() + packet[n..];
      items, tail := SplitExists(packet[n..]);
      Assoc(item.Encoded(), Stream(items), tail);
      items := [item] + items;
    }
  }

  /** A packet that has items and then these bytes. */
  ghost predicate Has(packet: Bytes, items: seq<Item>, tail: Bytes) {
    packet == Stream(items) + tail && tail != []
  }

  /** The errors: a URL option cut short, or an option of any other type, behind well-formed ones. */
  lemma ErrorsIff(packet: Bytes, r: Outcome)
    requires Settles(packet, r)
    ensures r == ErrMalformedPacket <==>
      exists items, tail :: Has(packet, items, tail) && tail[0] == 2 && (|tail| == 1 || |tail| - 2 < tail[1])
    ensures r == ErrUnknownOptionType <==> exists items, tail :: Has(packet, items, tail) && tail[0] > 2
  {
    var items, tail := SplitExists(packet);
    assert r == Verdict(items, tail);
    if r == ErrMalformedPacket || r == ErrUnknownOptionType {
      assert Has(packet, items, tail);
    }
    forall items', tail' | Has(packet, items', tail') && Stops(tail') ensures r == Verdict(items', tail') {
      assert Splits(packet, items', tail');
    }
  }
}
