/** The URL data of a request, as bittorrent/params.go parses it. */
module UrlParams {
  import opened BitTorrent

  const AMPERSAND: byte := 38
  const SEMICOLON: byte := 59
  const EQUALS: byte := 61
  const QUESTION_MARK: byte := 63
  const INFO_HASH: Bytes := [105, 110, 102, 111, 95, 104, 97, 115, 104]

  /** url.QueryUnescape and strings.ToLower, which the parser calls. */
  datatype Codec = Codec(unescape: Bytes -> Option<Bytes>, lower: Bytes -> Bytes)

  datatype Error = ErrInvalidQueryEscape | ErrInvalidInfohash

  datatype QueryParams = QueryParams(path: Bytes, query: Bytes, params: map<Bytes, Bytes>, infoHashes: seq<InfoHash>)

  datatype Result = Ok(q: QueryParams) | Err(error: Error)

  // ---------- tokens ----------

  /** Where the first of two bytes stands; the length where neither occurs. */
  function IndexAny(s: Bytes, a: byte, b: byte): (i: nat)
    ensures i <= |s| && a !in s[..i] && b !in s[..i]
    ensures i < |s| ==> s[i] == a || s[i] == b
  {
    if s == [] || s[0] == a || s[0] == b then 0
    else
      var i := 1 + IndexAny(s[1..], a, b);
      assert s[..i] == [s[0]] + s[1..][..i - 1];
      i
  }

  lemma IndexAnyOf(pre: Bytes, cut: byte, rest: Bytes, a: byte, b: byte)
    requires a !in pre && b !in pre && (cut == a || cut == b)
    ensures IndexAny(pre + [cut] + rest, a, b) == |pre|
    ensures IndexAny(pre, a, b) == |pre|
  {
    var s := pre + [cut] + rest;
    assert s[|pre|] == cut && forall k :: 0 <= k < |pre| ==> s[k] == pre[k];
  }

  /** What follows the cut. */
  function After(s: Bytes, i: nat): Bytes
    requires i <= |s|
  {
    if i < |s| then s[i + 1..] else []
  }

  function Tokens(query: Bytes): seq<Bytes>
    decreases |query|
  {
    if query == [] then []
    else
      var i := IndexAny(query, AMPERSAND, SEMICOLON);
      (if i == 0 then [] else [query[..i]]) + Tokens(After(query, i))
  }

  // ---------- what a list of tokens means ----------

  datatype Field = Field(key: Bytes, value: Bytes)

  datatype Reading = Read(field: Field) | Unreadable(error: Error)

  function ReadToken(codec: Codec, token: Bytes): Reading {
    var i := IndexAny(token, EQUALS, EQUALS);
    ReadField(codec, token[..i], After(token, i))
  }

  function ReadField(codec: Codec, rawKey: Bytes, rawValue: Bytes): Reading {
    match codec.unescape(rawKey)
    case None => Unreadable(ErrInvalidQueryEscape)
    case Some(key) =>
      match codec.unescape(rawValue)
      case None => Unreadable(ErrInvalidQueryEscape)
      case Some(value) =>
        if key == INFO_HASH && |value| != 20 then Unreadable(ErrInvalidInfohash) else Read(Field(key, value))
  }

  /** The values of the info_hash fields, in order. */
  function Hashes(fields: seq<Field>): seq<Bytes> {
    if fields == [] then []
    else
      var last := fields[|fields| - 1];
      Hashes(fields[..|fields| - 1]) + (if last.key == INFO_HASH then [last.value] else [])
  }

  /** The last value given for a key, whatever its case; info_hash, spelled exactly so, is no such key. */
  function LastValue(codec: Codec, fields: seq<Field>, key: Bytes): Option<Bytes> {
    if fields == [] then None
    else
      var last := fields[|fields| - 1];
      if last.key != INFO_HASH && codec.lower(last.key) == key then Some(last.value)
      else LastValue(codec, fields[..|fields| - 1], key)
  }

  ghost predicate Readings(codec: Codec, tokens: seq<Bytes>, fields: seq<Field>) {
    && |fields| == |tokens|
    && forall i :: 0 <= i < |tokens| ==> ReadToken(codec, tokens[i]) == Read(fields[i])
  }

  ghost predicate Holds(codec: Codec, fields: seq<Field>, params: map<Bytes, Bytes>, infoHashes: seq<InfoHash>) {
    && infoHashes == Hashes(fields)
    && forall k :: (k in params <==> LastValue(codec, fields, k).Some?)
                && (k in params ==> params[k] == LastValue(codec, fields, k).value)
  }

  /** The first token that cannot be read. */
  ghost predicate FailsAt(codec: Codec, tokens: seq<Bytes>, i: int, error: Error) {
    && 0 <= i < |tokens|
    && ReadToken(codec, tokens[i]) == Unreadable(error)
    && forall j :: 0 <= j < i ==> ReadToken(codec, tokens[j]).Read?
  }

  /** The parse of a URL: split at the first question mark, then by tokens. */
  ghost predicate ParsesTo(codec: Codec, url: Bytes, r: Result) {
    var i := IndexAny(url, QUESTION_MARK, QUESTION_MARK);
    var tokens := Tokens(After(url, i));
    match r
    case Err(error) => exists n :: FailsAt(codec, tokens, n, error)
    case Ok(q) =>
      && q.path == url[..i]
      && q.query == After(url, i)
      && exists fields :: Readings(codec, tokens, fields) && Holds(codec, fields, q.params, q.infoHashes)
  }

  /** A URL has one parse. */
  lemma ParseIsUnique(codec: Codec, url: Bytes, r: Result, r': Result)
    requires ParsesTo(codec, url, r) && ParsesTo(codec, url, r')
    ensures r == r'
  {
    var tokens := Tokens(After(url, IndexAny(url, QUESTION_MARK, QUESTION_MARK)));
    if r.Err? && r'.Err? {
      var n :| FailsAt(codec, tokens, n, r.error);
      var n' :| FailsAt(codec, tokens, n', r'.error);
      assert n == n';
    } else if r.Ok? && r'.Ok? {
      var fields :| Readings(codec, tokens, fields) && Holds(codec, fields, r.q.params, r.q.infoHashes);
      var fields' :| Readings(codec, tokens, fields') && Holds(codec, fields', r'.q.params, r'.q.infoHashes);
      ReadingsAreUnique(codec, tokens, fields, fields');
      assert r.q.params == r'.q.params;
    }
  }

  lemma ReadingsAreUnique(codec: Codec, tokens: seq<Bytes>, fields: seq<Field>, fields': seq<Field>)
    requires Readings(codec, tokens, fields) && Readings(codec, tokens, fields')
    ensures fields == fields'
  {
    assert forall i :: 0 <= i < |fields| ==> ReadToken(codec, tokens[i]) == Read(fields[i]) == Read(fields'[i]);
  }

  // ---------- the parser ----------

  lemma FieldAdded(codec: Codec, fields: seq<Field>, params: map<Bytes, Bytes>, infoHashes: seq<InfoHash>, f: Field)
    requires Holds(codec, fields, params, infoHashes)
    ensures f.key == INFO_HASH && |f.value| == 20 ==> Holds(codec, fields + [f], params, infoHashes + [f.value])
    ensures f.key != INFO_HASH ==> Holds(codec, fields + [f], params[codec.lower(f.key) := f.value], infoHashes)
  {
    var all := fields + [f];
    assert all[..|all| - 1] == fields && all[|all| - 1] == f;
    assert Hashes(all) == Hashes(fields) + (if f.key == INFO_HASH then [f.value] else []);
  }

  /** One turn of the loop: a token in front of the rest. */
  lemma TokenTaken(query: Bytes, done: seq<Bytes>, rest: Bytes)
    requires rest != [] && Tokens(query) == done + Tokens(rest)
    ensures var i := IndexAny(rest, AMPERSAND, SEMICOLON);
      if i == 0 then Tokens(query) == done + Tokens(After(rest, i))
      else Tokens(query) == (done + [rest[..i]]) + Tokens(After(rest, i)) && Tokens(query)[|done|] == rest[..i]
  {
    var i := IndexAny(rest, AMPERSAND, SEMICOLON);
    if i == 0 {
      assert Tokens(rest) == Tokens(After(rest, i));
    } else {
      assert done + ([rest[..i]] + Tokens(After(rest, i))) == (done + [rest[..i]]) + Tokens(After(rest, i));
    }
  }

  lemma ReadingsGrow(codec: Codec, done: seq<Bytes>, fields: seq<Field>, token: Bytes, f: Field)
    requires Readings(codec, done, fields) && ReadToken(codec, token) == Read(f)
    ensures Readings(codec, done + [token], fields + [f])
  {
  }

  lemma Fails(codec: Codec, tokens: seq<Bytes>, done: seq<Bytes>, fields: seq<Field>, error: Error)
    requires Readings(codec, done, fields) && |done| < |tokens| && tokens[..|done|] == done
    requires ReadToken(codec, tokens[|done|]) == Unreadable(error)
    ensures FailsAt(codec, tokens, |done|, error)
  {
    assert forall j :: 0 <= j < |done| ==> tokens[j] == done[j];
  }

  /** One token, split at its first equals sign and unescaped. */
  method ParseToken(token: Bytes, codec: Codec) returns (r: Reading)
    ensures r == ReadToken(codec, token)
  {
    var rawKey, rawValue := token, [];
    var i := IndexAny(token, EQUALS, EQUALS);
    if i < |token| {
      rawKey, rawValue := token[..i], token[i + 1..];
    }
    assert rawKey == token[..i] && rawValue == After(token, i);
    var key := codec.unescape(rawKey);
    if key.None? {
      return Unreadable(ErrInvalidQueryEscape);
    }
    var value := codec.unescape(rawValue);
    if value.None? {
      return Unreadable(ErrInvalidQueryEscape);
    }
    if key.value == INFO_HASH && |value.value| != 20 {
      return Unreadable(ErrInvalidInfohash);
    }
    r := Read(Field(key.value, value.value));
  }

  method ParseQuery(query: Bytes, codec: Codec) returns (params: map<Bytes, Bytes>, infoHashes: seq<InfoHash>,
                    error: Option<Error>)
    ensures error.None? ==>
      exists fields :: Readings(codec, Tokens(query), fields) && Holds(codec, fields, params, infoHashes)
    ensures error.Some? ==> exists n :: FailsAt(codec, Tokens(query), n, error.value)
  {
    params, infoHashes, error := map[], [], None;
    var rest := query;
    ghost var done: seq<Bytes> := [];
    ghost var fields: seq<Field> := [];
    while rest != []
      invariant Tokens(query) == done + Tokens(rest)
      invariant Readings(codec, done, fields)
      invariant Holds(codec, fields, params, infoHashes)
      decreases |rest|
    {
      TokenTaken(query, done, rest);
      var i := IndexAny(rest, AMPERSAND, SEMICOLON);
      var token := rest[..i];
      rest := After(rest, i);
      if token != [] {
        var reading := ParseToken(token, codec);
        if reading.Unreadable? {
          Fails(codec, Tokens(query), done, fields, reading.error);
          error := Some(reading.error);
          return;
        }
        var f := reading.field;
        FieldAdded(codec, fields, params, infoHashes, f);
        ReadingsGrow(codec, done, fields, token, f);
        if f.key == INFO_HASH {
          infoHashes := infoHashes + [f.value];
        } else {
          params := params[codec.lower(f.key) := f.value];
        }
        done, fields := done + [token], fields + [f];
      }
    }
    assert Tokens(query) == done;
  }

  method ParseURLData(url: Bytes, codec: Codec) returns (r: Result)
    ensures ParsesTo(codec, url, r)
  {
    var i := IndexAny(url, QUESTION_MARK, QUESTION_MARK);
    var path, query := url, [];
    if i < |url| {
      path, query := url[..i], url[i + 1..];
    }
    assert path == url[..i] && query == After(url, i);
    var params, infoHashes, error := ParseQuery(query, codec);
    if error.Some? {
      return Err(error.value);
    }
    r := Ok(QueryParams(path, query, params, infoHashes));
  }

  // ---------- reading back what a client wrote ----------

  /** A field as a client writes it, already escaped, with or without a value, and the separators after it. */
  datatype Written = Written(rawKey: Bytes, rawValue: Option<Bytes>, separators: Bytes) {
    predicate Clean() {
      && AMPERSAND !in rawKey && SEMICOLON !in rawKey && EQUALS !in rawKey
      && (rawValue.Some? ==> AMPERSAND !in rawValue.value && SEMICOLON !in rawValue.value)
      && (rawKey != [] || rawValue.Some?)
      && AllSeparators(separators)
    }

    function Token(): Bytes {
      rawKey + (if rawValue.Some? then [EQUALS] + rawValue.value else [])
    }

    /** A field without a value has an empty one. */
    function Raw(): Bytes {
      if rawValue.Some? then rawValue.value else []
    }
  }

  predicate AllSeparators(s: Bytes) {
    forall i :: 0 <= i < |s| ==> s[i] == AMPERSAND || s[i] == SEMICOLON
  }

  ghost predicate AllClean(written: seq<Written>) {
    forall i :: 0 <= i < |written| ==> written[i].Clean() && (i < |written| - 1 ==> written[i].separators != [])
  }

  function WriteQuery(written: seq<Written>): Bytes {
    if written == [] then [] else written[0].Token() + written[0].separators + WriteQuery(written[1..])
  }

  lemma TokenReads(codec: Codec, w: Written)
    requires w.Clean()
    ensures ReadToken(codec, w.Token()) == ReadField(codec, w.rawKey, w.Raw())
  {
    var t := w.Token();
    if w.rawValue.Some? {
      assert t == w.rawKey + [EQUALS] + w.Raw();
      IndexAnyOf(w.rawKey, EQUALS, w.Raw(), EQUALS, EQUALS);
      assert t[..|w.rawKey|] == w.rawKey && t[|w.rawKey| + 1..] == w.Raw();
    } else {
      IndexAnyOf(w.rawKey, EQUALS, [], EQUALS, EQUALS);
      assert t == w.rawKey && t[..|t|] == t;
    }
  }

  lemma {:induction false} SeparatorsSkipped(separators: Bytes, rest: Bytes)
    requires AllSeparators(separators)
    ensures Tokens(separators + rest) == Tokens(rest)
    decreases |separators|
  {
    var s := separators + rest;
    if separators == [] {
      assert s == rest;
    } else {
      assert s[0] == separators[0] && s[1..] == separators[1..] + rest;
      assert IndexAny(s, AMPERSAND, SEMICOLON) == 0;
      SeparatorsSkipped(separators[1..], rest);
    }
  }

  lemma TokenBytes(w: Written)
    requires w.Clean()
    ensures w.Token() != [] && AMPERSAND !in w.Token() && SEMICOLON !in w.Token()
  {
    var t := w.Token();
    assert forall i :: 0 <= i < |t| ==> t[i] in w.rawKey || t[i] == EQUALS || t[i] in w.Raw();
  }

  lemma TokenIsWhole(w: Written, rest: Bytes)
    requires w.Clean() && (w.separators == [] ==> rest == [])
    ensures Tokens(w.Token() + w.separators + rest) == [w.Token()] + Tokens(rest)
  {
    var t, s := w.Token(), w.Token() + w.separators + rest;
    TokenBytes(w);
    if w.separators == [] {
      assert s == t && t[..|t|] == t;
      IndexAnyOf(t, AMPERSAND, [], AMPERSAND, SEMICOLON);
    } else {
      var cut, more := w.separators[0], w.separators[1..] + rest;
      assert s == t + [cut] + more;
      IndexAnyOf(t, cut, more, AMPERSAND, SEMICOLON);
      assert s[..|t|] == t && After(s, |t|) == more;
      SeparatorsSkipped(w.separators[1..], rest);
    }
  }

  function TokensWritten(written: seq<Written>): (r: seq<Bytes>)
    ensures |r| == |written|
    ensures forall i :: 0 <= i < |written| ==> r[i] == written[i].Token()
  {
    if written == [] then [] else [written[0].Token()] + TokensWritten(written[1..])
  }

  lemma {:induction false} TokensOfWritten(written: seq<Written>)
    requires AllClean(written)
    ensures Tokens(WriteQuery(written)) == TokensWritten(written)
  {
    if written != [] {
      var rest := written[1..];
      assert forall i :: 0 <= i < |rest| ==> rest[i] == written[i + 1];
      TokenIsWhole(written[0], WriteQuery(rest));
      TokensOfWritten(rest);
    }
  }

  lemma UrlSplit(path: Bytes, query: Bytes)
    requires QUESTION_MARK !in path
    ensures var url := path + [QUESTION_MARK] + query;
      && IndexAny(url, QUESTION_MARK, QUESTION_MARK) == |path|
      && url[..|path|] == path && After(url, |path|) == query
  {
    IndexAnyOf(path, QUESTION_MARK, query, QUESTION_MARK, QUESTION_MARK);
  }

  // ---------- what a client's fields come to, from the fields alone ----------

  predicate Escapes(codec: Codec, w: Written) {
    codec.unescape(w.rawKey).Some? && codec.unescape(w.Raw()).Some?
  }

  function KeyOf(codec: Codec, w: Written): Bytes
    requires Escapes(codec, w)
  {
    codec.unescape(w.rawKey).value
  }

  function ValueOf(codec: Codec, w: Written): Bytes
    requires Escapes(codec, w)
  {
    codec.unescape(w.Raw()).value
  }

  /** Both halves unescape, and an info hash has 20 bytes. */
  predicate Readable(codec: Codec, w: Written) {
    Escapes(codec, w) && (KeyOf(codec, w) == INFO_HASH ==> |ValueOf(codec, w)| == 20)
  }

  predicate GivesHash(codec: Codec, w: Written) {
    Readable(codec, w) && KeyOf(codec, w) == INFO_HASH
  }

  predicate GivesParam(codec: Codec, w: Written, key: Bytes) {
    Readable(codec, w) && KeyOf(codec, w) != INFO_HASH && codec.lower(KeyOf(codec, w)) == key
  }

  /** No later field gives the parameter. */
  predicate LastOf(codec: Codec, written: seq<Written>, i: nat, key: Bytes) {
    && i < |written| && GivesParam(codec, written[i], key)
    && forall j :: i < j < |written| ==> !GivesParam(codec, written[j], key)
  }

  /** The info hashes are those of the fields at these positions, which are all that give one, in order. */
  ghost predicate HashesAt(codec: Codec, written: seq<Written>, hashes: seq<Bytes>, at: seq<nat>) {
    && |at| == |hashes|
    && (forall j :: 0 <= j < |at| ==>
          && at[j] < |written| && GivesHash(codec, written[at[j]])
          && hashes[j] == ValueOf(codec, written[at[j]]))
    && (forall j, l :: 0 <= j < l < |at| ==> at[j] < at[l])
    && (forall i: nat :: i < |written| && GivesHash(codec, written[i]) ==> i in at)
  }

  ghost predicate FirstBad(codec: Codec, written: seq<Written>, i: nat, error: Error) {
    && i < |written| && !Readable(codec, written[i]) && (forall j :: 0 <= j < i ==> Readable(codec, written[j]))
    && error == if Escapes(codec, written[i]) then ErrInvalidInfohash else ErrInvalidQueryEscape
  }

  /** A client's fields, one to one. */
  ghost predicate FieldsOf(codec: Codec, written: seq<Written>, fields: seq<Field>) {
    && |fields| == |written|
    && forall i :: 0 <= i < |written| ==>
         Readable(codec, written[i]) && fields[i] == Field(KeyOf(codec, written[i]), ValueOf(codec, written[i]))
  }

  lemma ReadingsAreFields(codec: Codec, written: seq<Written>, fields: seq<Field>)
    requires AllClean(written) && Readings(codec, TokensWritten(written), fields)
    ensures FieldsOf(codec, written, fields)
  {
    forall i | 0 <= i < |written|
      ensures Readable(codec, written[i]) && fields[i] == Field(KeyOf(codec, written[i]), ValueOf(codec, written[i]))
    {
      TokenReads(codec, written[i]);
      assert ReadToken(codec, TokensWritten(written)[i]) == Read(fields[i]);
    }
  }

  lemma {:induction false} LastValueIs(codec: Codec, written: seq<Written>, fields: seq<Field>, key: Bytes)
    requires FieldsOf(codec, written, fields)
    ensures LastValue(codec, fields, key).Some? <==>
      exists i :: 0 <= i < |written| && GivesParam(codec, written[i], key)
    ensures forall i: nat :: LastOf(codec, written, i, key) ==>
      LastValue(codec, fields, key) == Some(ValueOf(codec, written[i]))
    decreases |fields|
  {
    if fields != [] {
      var n := |fields| - 1;
      assert fields[n] == Field(KeyOf(codec, written[n]), ValueOf(codec, written[n]));
      LastValueIs(codec, written[..n], fields[..n], key);
      forall i: nat | LastOf(codec, written, i, key)
        ensures LastValue(codec, fields, key) == Some(ValueOf(codec, written[i]))
      {
        if i < n {
          assert LastOf(codec, written[..n], i, key);
        }
      }
      if i :| 0 <= i < |written| && GivesParam(codec, written[i], key) {
        assert i < n ==> GivesParam(codec, written[..n][i], key);
      }
      if i :| 0 <= i < n && GivesParam(codec, written[..n][i], key) {
        assert GivesParam(codec, written[i], key);
      }
    }
  }

  lemma {:induction false} HashesAre(codec: Codec, written: seq<Written>, fields: seq<Field>) returns (at: seq<nat>)
    requires FieldsOf(codec, written, fields)
    ensures HashesAt(codec, written, Hashes(fields), at)
    decreases |fields|
  {
    at := [];
    if fields != [] {
      var n := |fields| - 1;
      assert fields[n] == Field(KeyOf(codec, written[n]), ValueOf(codec, written[n]));
      var front := HashesAre(codec, written[..n], fields[..n]);
      at := front + (if GivesHash(codec, written[n]) then [n] else []);
      HashesGrow(codec, written, Hashes(fields[..n]), front, n);
    }
  }

  lemma HashesGrow(codec: Codec, written: seq<Written>, hashes: seq<Bytes>, at: seq<nat>, n: nat)
    requires n + 1 == |written| && HashesAt(codec, written[..n], hashes, at) && Readable(codec, written[n])
    ensures GivesHash(codec, written[n]) ==>
      HashesAt(codec, written, hashes + [ValueOf(codec, written[n])], at + [n])
    ensures !GivesHash(codec, written[n]) ==> HashesAt(codec, written, hashes + [], at + [])
  {
    assert at + [] == at && hashes + [] == hashes;
    forall i: nat | i < |written| && GivesHash(codec, written[i]) ensures i in at || i == n {
      assert i < n ==> GivesHash(codec, written[..n][i]);
    }
  }

  /**
   A query that a client wrote, with values or without and any run of separators between its fields, is accepted
   exactly when every field is readable, and else refused for the first that is not. What is accepted holds the
   last value of every key, whatever its case, and the info hashes in order.
   */
  lemma WrittenQueryParses(codec: Codec, path: Bytes, written: seq<Written>, r: Result)
    requires AllClean(written) && QUESTION_MARK !in path
    requires ParsesTo(codec, path + [QUESTION_MARK] + WriteQuery(written), r)
    ensures r.Ok? <==> forall i :: 0 <= i < |written| ==> Readable(codec, written[i])
    ensures r.Err? ==> exists i :: FirstBad(codec, written, i, r.error)
    ensures r.Ok? ==> r.q.path == path && r.q.query == WriteQuery(written)
    ensures r.Ok? ==> exists at :: HashesAt(codec, written, r.q.infoHashes, at)
    ensures r.Ok? ==> forall key ::
      key in r.q.params <==> exists i :: 0 <= i < |written| && GivesParam(codec, written[i], key)
    ensures r.Ok? ==> forall key, i: nat :: LastOf(codec, written, i, key) ==>
      key in r.q.params && r.q.params[key] == ValueOf(codec, written[i])
  {
    UrlSplit(path, WriteQuery(written));
    TokensOfWritten(written);
    var tokens := TokensWritten(written);
    if r.Ok? {
      var fields :| Readings(codec, tokens, fields) && Holds(codec, fields, r.q.params, r.q.infoHashes);
      AcceptedHolds(codec, written, fields, r.q.params, r.q.infoHashes);
    } else {
      var n :| FailsAt(codec, tokens, n, r.error);
      RefusedFirst(codec, written, n, r.error);
    }
  }

  lemma AcceptedHolds(codec: Codec, written: seq<Written>, fields: seq<Field>, params: map<Bytes, Bytes>,
                      infoHashes: seq<InfoHash>)
    requires AllClean(written) && Readings(codec, TokensWritten(written), fields)
    requires Holds(codec, fields, params, infoHashes)
    ensures forall i :: 0 <= i < |written| ==> Readable(codec, written[i])
    ensures exists at :: HashesAt(codec, written, infoHashes, at)
    ensures forall key :: key in params <==> exists i :: 0 <= i < |written| && GivesParam(codec, written[i], key)
    ensures forall key, i: nat :: LastOf(codec, written, i, key) ==>
      key in params && params[key] == ValueOf(codec, written[i])
  {
    ReadingsAreFields(codec, written, fields);
    var at := HashesAre(codec, written, fields);
    assert HashesAt(codec, written, infoHashes, at);
    ParamsHeld(codec, written, fields, params, infoHashes);
  }

  lemma ParamsHeld(codec: Codec, written: seq<Written>, fields: seq<Field>, params: map<Bytes, Bytes>,
                   infoHashes: seq<InfoHash>)
    requires FieldsOf(codec, written, fields) && Holds(codec, fields, params, infoHashes)
    ensures forall key :: key in params <==> exists i :: 0 <= i < |written| && GivesParam(codec, written[i], key)
    ensures forall key, i: nat :: LastOf(codec, written, i, key) ==>
      key in params && params[key] == ValueOf(codec, written[i])
  {
    forall key ensures key in params <==> exists i :: 0 <= i < |written| && GivesParam(codec, written[i], key) {
      LastValueIs(codec, written, fields, key);
    }
    forall key, i: nat | LastOf(codec, written, i, key)
      ensures key in params && params[key] == ValueOf(codec, written[i])
    {
      LastValueIs(codec, written, fields, key);
    }
  }

  lemma RefusedFirst(codec: Codec, written: seq<Written>, n: nat, error: Error)
    requires AllClean(written) && FailsAt(codec, TokensWritten(written), n, error)
    ensures FirstBad(codec, written, n, error)
  {
    TokenReads(codec, written[n]);
    forall j | 0 <= j < n ensures Readable(codec, written[j]) {
      TokenReads(codec, written[j]);
      assert ReadToken(codec, TokensWritten(written)[j]).Read?;
    }
  }
}
