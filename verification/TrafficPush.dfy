/** The traffic accounting of middleware/trafficpush: what whole runs of announces push to the stream. */
module TrafficPush {
  import opened BitTorrent

  /** Whose counters an announce reports. */
  datatype Account = Account(passkey: string, ih: InfoHash, peer: PeerID)

  datatype Snapshot = Snapshot(uploaded: uint64, downloaded: uint64, ts: int64)

  /** A stream entry: the fields that account for traffic. */
  datatype Entry = Entry(account: Account, du: uint64, dd: uint64, ts: int64, dt: int)

  /** One announce, and how Redis answers: the read and the write of the snapshot, and each attempt to push. */
  datatype Announce = Announce(account: Account, uploaded: uint64, downloaded: uint64, now: int64,
                               readOk: bool, writeOk: bool, attempts: nat -> bool)

  // ---------- names ----------

  function LastKey(prefix: string, a: Account): string {
    prefix + ":" + a.passkey + ":" + Hex(a.ih) + ":" + Hex(a.peer)
  }

  lemma LastKeyShape(prefix: string, a: Account)
    ensures var name := LastKey(prefix, a); var n := |name|;
      && n == |prefix| + |a.passkey| + 83
      && name[|prefix| + 1..n - 82] == a.passkey
      && name[n - 81..n - 41] == Hex(a.ih)
      && name[n - 40..] == Hex(a.peer)
  {
  }

  /** Two accounts never share a snapshot, even when a passkey holds the separator. */
  lemma LastKeyInjective(prefix: string, a: Account, b: Account)
    requires LastKey(prefix, a) == LastKey(prefix, b)
    ensures a == b
  {
    LastKeyShape(prefix, a);
    LastKeyShape(prefix, b);
    HexInjective(a.ih, b.ih);
    HexInjective(a.peer, b.peer);
  }

  // ---------- the hook ----------

  /** A counter that fell is a client that started again from nothing. */
  function Delta(now: uint64, last: uint64): uint64 {
    if now >= last then now - last else now
  }

  ghost predicate Delivered(a: Announce, retries: nat) {
    exists i: nat :: i < retries && a.attempts(i)
  }

  ghost function Previous(prefix: string, last: map<string, Snapshot>, a: Announce): Snapshot {
    var key := LastKey(prefix, a.account);
    if a.readOk && key in last then last[key] else Snapshot(0, 0, 0)
  }

  ghost function EntryOf(prefix: string, last: map<string, Snapshot>, a: Announce): Entry {
    var p := Previous(prefix, last, a);
    Entry(a.account, Delta(a.uploaded, p.uploaded), Delta(a.downloaded, p.downloaded), a.now,
          if p.ts > 0 then a.now - p.ts else 0)
  }

  ghost function LastAfter(prefix: string, last: map<string, Snapshot>, a: Announce): map<string, Snapshot> {
    if a.writeOk then last[LastKey(prefix, a.account) := Snapshot(a.uploaded, a.downloaded, a.now)] else last
  }

  class Hook {
    const prefix: string
    const retryCount: int
    /** In Redis: the snapshots and the stream. */
    var last: map<string, Snapshot>
    var stream: seq<Entry>

    constructor (prefix: string, retryCount: int)
      ensures this.prefix == if prefix == "" then "tracker:last" else prefix
      ensures this.retryCount == if retryCount <= 0 then 3 else retryCount
      ensures last == map[] && stream == []
    {
      this.prefix := if prefix == "" then "tracker:last" else prefix;
      this.retryCount := if retryCount <= 0 then 3 else retryCount;
      last, stream := map[], [];
    }

    method HandleAnnounce(a: Announce)
      requires retryCount > 0
      modifies this
      ensures last == LastAfter(prefix, old(last), a)
      ensures stream == old(stream) + (if Delivered(a, retryCount) then [EntryOf(prefix, old(last), a)] else [])
    {
      var key := LastKey(prefix, a.account);
      var lastUp: uint64, lastDown: uint64, lastTs: int64 := 0, 0, 0;
      if a.readOk && key in last {
        lastUp, lastDown, lastTs := last[key].uploaded, last[key].downloaded, last[key].ts;
      }
      var du: uint64, dd: uint64 := 0, 0;
      if a.uploaded >= lastUp {
        du := a.uploaded - lastUp;
      } else {
        du := a.uploaded;
      }
      if a.downloaded >= lastDown {
        dd := a.downloaded - lastDown;
      } else {
        dd := a.downloaded;
      }
      // The snapshot moves on before the push, whether or not the push then succeeds.
      if a.writeOk {
        last := last[key := Snapshot(a.uploaded, a.downloaded, a.now)];
      }
      var dt := 0;
      if lastTs > 0 {
        dt := a.now - lastTs;
      }
      ghost var before := stream;
      var i := 0;
      while i < retryCount
        invariant 0 <= i <= retryCount && stream == before
        invariant last == LastAfter(prefix, old(last), a)
        invariant forall j: nat :: j < i ==> !a.attempts(j)
      {
        if a.attempts(i) {
          stream := stream + [Entry(a.account, du, dd, a.now, dt)];
          assert Delivered(a, retryCount);
          return;
        }
        i := i + 1;
      }
    }
  }

  // ---------- whole runs ----------

  datatype State = State(last: map<string, Snapshot>, stream: seq<Entry>)

  ghost function Step(prefix: string, retries: nat, s: State, a: Announce): State {
    State(LastAfter(prefix, s.last, a),
          s.stream + (if Delivered(a, retries) then [EntryOf(prefix, s.last, a)] else []))
  }

  ghost function Run(prefix: string, retries: nat, s: State, announces: seq<Announce>): State {
    if announces == [] then s
    else Step(prefix, retries, Run(prefix, retries, s, announces[..|announces| - 1]), announces[|announces| - 1])
  }

  /** A sequence of announces on one hook. */
  method Serve(hook: Hook, announces: seq<Announce>)
    requires hook.retryCount > 0
    modifies hook
    ensures State(hook.last, hook.stream)
      == Run(hook.prefix, hook.retryCount, State(old(hook.last), old(hook.stream)), announces)
  {
    for n := 0 to |announces|
      invariant State(hook.last, hook.stream)
        == Run(hook.prefix, hook.retryCount, State(old(hook.last), old(hook.stream)), announces[..n])
    {
      assert announces[..n + 1][..n] == announces[..n];
      hook.HandleAnnounce(announces[n]);
    }
    assert announces[..|announces|] == announces;
  }

  // ---------- the books ----------

  datatype Counter = Uploaded | Downloaded

  function Reported(a: Announce, c: Counter): uint64 {
    if c == Uploaded then a.uploaded else a.downloaded
  }

  function Amount(e: Entry, c: Counter): uint64 {
    if c == Uploaded then e.du else e.dd
  }

  /** The counter in the snapshot of an account; none counts as zero. */
  function Recorded(prefix: string, last: map<string, Snapshot>, account: Account, c: Counter): uint64 {
    var key := LastKey(prefix, account);
    if key !in last then 0 else if c == Uploaded then last[key].uploaded else last[key].downloaded
  }

  /** What the stream says an account moved. */
  function Pushed(stream: seq<Entry>, account: Account, c: Counter): nat {
    if stream == [] then 0
    else
      var e := stream[|stream| - 1];
      Pushed(stream[..|stream| - 1], account, c) + (if e.account == account then Amount(e, c) else 0)
  }

  /** What the announces of an account computed and could not push on any attempt. */
  ghost function Lost(prefix: string, retries: nat, s: State, announces: seq<Announce>, account: Account,
                      c: Counter): nat {
    if announces == [] then 0
    else
      var front, a := announces[..|announces| - 1], announces[|announces| - 1];
      Lost(prefix, retries, s, front, account, c) +
      (if a.account == account && !Delivered(a, retries)
       then Amount(EntryOf(prefix, Run(prefix, retries, s, front).last, a), c) else 0)
  }

  /** What a client had reported each time its counter fell, from the reports alone. */
  function BeforeDrops(start: uint64, announces: seq<Announce>, account: Account, c: Counter): nat {
    if announces == [] then 0
    else
      var front, a := announces[..|announces| - 1], announces[|announces| - 1];
      var was := LastReport(start, front, account, c);
      BeforeDrops(start, front, account, c) + (if a.account == account && Reported(a, c) < was then was else 0)
  }

  function LastReport(start: uint64, announces: seq<Announce>, account: Account, c: Counter): uint64 {
    if announces == [] then start
    else
      var a := announces[|announces| - 1];
      if a.account == account then Reported(a, c) else LastReport(start, announces[..|announces| - 1], account, c)
  }

  ghost predicate Stored(announces: seq<Announce>) {
    forall i :: 0 <= i < |announces| ==> announces[i].readOk && announces[i].writeOk
  }

  lemma {:induction false} RecordedIsLastReport(prefix: string, retries: nat, s: State, announces: seq<Announce>,
                                                account: Account, c: Counter)
    requires Stored(announces)
    ensures Recorded(prefix, Run(prefix, retries, s, announces).last, account, c)
      == LastReport(Recorded(prefix, s.last, account, c), announces, account, c)
  {
    if announces != [] {
      var front, a := announces[..|announces| - 1], announces[|announces| - 1];
      RecordedIsLastReport(prefix, retries, s, front, account, c);
      if a.account != account && LastKey(prefix, a.account) == LastKey(prefix, account) {
        LastKeyInjective(prefix, a.account, account);
      }
    }
  }

  lemma StepPushes(prefix: string, retries: nat, s: State, a: Announce, account: Account, c: Counter)
    ensures Pushed(Step(prefix, retries, s, a).stream, account, c) == Pushed(s.stream, account, c)
      + (if a.account == account && Delivered(a, retries) then Amount(EntryOf(prefix, s.last, a), c) else 0)
  {
    var stream, e := s.stream, EntryOf(prefix, s.last, a);
    assert (stream + [e])[..|stream|] == stream && stream + [] == stream;
  }

  lemma AmountIsDelta(prefix: string, last: map<string, Snapshot>, a: Announce, c: Counter)
    requires a.readOk
    ensures Amount(EntryOf(prefix, last, a), c) == Delta(Reported(a, c), Recorded(prefix, last, a.account, c))
  {
  }

  /**
   Traffic is conserved: what is pushed and what is lost add up to the last report and the reports before
   each drop, less what the snapshot already held.
   */
  lemma {:induction false} TrafficIsConserved(prefix: string, retries: nat, s: State, announces: seq<Announce>,
                                              account: Account, c: Counter)
    requires Stored(announces)
    ensures var start := Recorded(prefix, s.last, account, c);
      Pushed(Run(prefix, retries, s, announces).stream, account, c) - Pushed(s.stream, account, c)
        + Lost(prefix, retries, s, announces, account, c)
      == LastReport(start, announces, account, c) + BeforeDrops(start, announces, account, c) - start
  {
    if announces != [] {
      var front, a := announces[..|announces| - 1], announces[|announces| - 1];
      var mid := Run(prefix, retries, s, front);
      TrafficIsConserved(prefix, retries, s, front, account, c);
      RecordedIsLastReport(prefix, retries, s, front, account, c);
      StepPushes(prefix, retries, mid, a, account, c);
      AmountIsDelta(prefix, mid.last, a, c);
    }
  }

  /** An announce of an account whose every attempt failed and whose counter had moved. */
  ghost predicate Drowned(prefix: string, retries: nat, s: State, announces: seq<Announce>, account: Account,
                          c: Counter, i: nat) {
    && i < |announces| && announces[i].account == account
    && (forall j: nat :: j < retries ==> !announces[i].attempts(j))
    && 0 < Delta(Reported(announces[i], c),
                 LastReport(Recorded(prefix, s.last, account, c), announces[..i], account, c))
  }

  lemma LostStep(prefix: string, retries: nat, s: State, announces: seq<Announce>, account: Account, c: Counter)
    requires Stored(announces) && announces != []
    ensures var n := |announces| - 1;
      var lost := Lost(prefix, retries, s, announces, account, c);
      var before := Lost(prefix, retries, s, announces[..n], account, c);
      && lost >= before
      && (lost > before <==> Drowned(prefix, retries, s, announces, account, c, n))
  {
    var front, a := announces[..|announces| - 1], announces[|announces| - 1];
    RecordedIsLastReport(prefix, retries, s, front, account, c);
    AmountIsDelta(prefix, Run(prefix, retries, s, front).last, a, c);
  }

  lemma DrownedBefore(prefix: string, retries: nat, s: State, announces: seq<Announce>, account: Account, c: Counter,
                      n: nat, i: nat)
    requires i < n <= |announces|
    ensures Drowned(prefix, retries, s, announces, account, c, i)
      <==> Drowned(prefix, retries, s, announces[..n], account, c, i)
  {
    assert announces[..n][..i] == announces[..i];
  }

  /** Nothing is made up for later: traffic goes missing exactly when some moved counter could not be pushed. */
  lemma {:induction false} LostIff(prefix: string, retries: nat, s: State, announces: seq<Announce>,
                                   account: Account, c: Counter)
    requires Stored(announces)
    ensures Lost(prefix, retries, s, announces, account, c) > 0
      <==> exists i: nat :: Drowned(prefix, retries, s, announces, account, c, i)
  {
    if announces != [] {
      var n := |announces| - 1;
      var front := announces[..n];
      LostIff(prefix, retries, s, front, account, c);
      LostStep(prefix, retries, s, announces, account, c);
      forall i: nat | i < n
        ensures Drowned(prefix, retries, s, announces, account, c, i)
          <==> Drowned(prefix, retries, s, front, account, c, i)
      {
        DrownedBefore(prefix, retries, s, announces, account, c, n, i);
      }
      assert forall i: nat :: Drowned(prefix, retries, s, front, account, c, i) ==> i < n;
      assert forall i: nat :: Drowned(prefix, retries, s, announces, account, c, i) ==> i <= n;
    }
  }

  /**
   From an empty store, the stream is exact for an account if and only if none of its moved counters
   failed to be pushed.
   */
  lemma StreamIsExactIff(prefix: string, retries: nat, announces: seq<Announce>, account: Account, c: Counter)
    requires Stored(announces)
    ensures var s := State(map[], []);
      Pushed(Run(prefix, retries, s, announces).stream, account, c)
        == LastReport(0, announces, account, c) + BeforeDrops(0, announces, account, c)
      <==> !exists i: nat :: Drowned(prefix, retries, s, announces, account, c, i)
  {
    var s := State(map[], []);
    TrafficIsConserved(prefix, retries, s, announces, account, c);
    LostIff(prefix, retries, s, announces, account, c);
  }

  /** An announce that is not delivered moves the snapshot and nothing else. */
  lemma UndeliveredMovesSnapshot(prefix: string, retries: nat, s: State, a: Announce, c: Counter)
    requires !Delivered(a, retries) && a.writeOk
    ensures Step(prefix, retries, s, a).stream == s.stream
    ensures Recorded(prefix, Step(prefix, retries, s, a).last, a.account, c) == Reported(a, c)
  {
    assert s.stream + [] == s.stream;
  }

  /**
   A push that fails is not repeated with the next announce, although the snapshot is said to be kept for that:
   from any state, after a failed push the same counter reported again adds nothing to the stream.
   */
  lemma FailedPushIsNotMadeUp(prefix: string, retries: nat, s: State, a1: Announce, a2: Announce, c: Counter)
    requires a1.account == a2.account && Reported(a1, c) == Reported(a2, c)
    requires !Delivered(a1, retries) && a1.writeOk && a2.readOk
    ensures Pushed(Step(prefix, retries, Step(prefix, retries, s, a1), a2).stream, a1.account, c)
      == Pushed(s.stream, a1.account, c)
  {
    var mid := Step(prefix, retries, s, a1);
    UndeliveredMovesSnapshot(prefix, retries, s, a1, c);
    StepPushes(prefix, retries, mid, a2, a1.account, c);
    AmountIsDelta(prefix, mid.last, a2, c);
  }

  // ---------- the times ----------

  ghost function DeliveredOf(announces: seq<Announce>, retries: nat): seq<Announce> {
    if announces == [] then []
    else
      var a := announces[|announces| - 1];
      DeliveredOf(announces[..|announces| - 1], retries) + (if Delivered(a, retries) then [a] else [])
  }

  /** The stream names exactly the delivered announces, in their order and with their times. */
  lemma {:induction false} StreamIsDelivered(prefix: string, retries: nat, s: State, announces: seq<Announce>)
    ensures var stream, delivered := Run(prefix, retries, s, announces).stream, DeliveredOf(announces, retries);
      && |stream| == |s.stream| + |delivered| && stream[..|s.stream|] == s.stream
      && forall i :: 0 <= i < |delivered| ==>
           stream[|s.stream| + i].account == delivered[i].account && stream[|s.stream| + i].ts == delivered[i].now
  {
    if announces != [] {
      StreamIsDelivered(prefix, retries, s, announces[..|announces| - 1]);
    }
  }

  /** How long the stream says an account was active. */
  function Spent(stream: seq<Entry>, account: Account): int {
    if stream == [] then 0
    else
      var e := stream[|stream| - 1];
      Spent(stream[..|stream| - 1], account) + (if e.account == account then e.dt else 0)
  }

  /** What the announces that could not be pushed would have said. */
  ghost function Unsaid(prefix: string, retries: nat, s: State, announces: seq<Announce>, account: Account): int {
    if announces == [] then 0
    else
      var front, a := announces[..|announces| - 1], announces[|announces| - 1];
      Unsaid(prefix, retries, s, front, account) +
      (if a.account == account && !Delivered(a, retries)
       then EntryOf(prefix, Run(prefix, retries, s, front).last, a).dt else 0)
  }

  /** When the snapshot of an account was taken; none counts as zero. */
  function TakenAt(prefix: string, last: map<string, Snapshot>, account: Account): int {
    var key := LastKey(prefix, account);
    if key in last then last[key].ts else 0
  }

  function LastSeen(start: int, announces: seq<Announce>, account: Account): int {
    if announces == [] then start
    else
      var a := announces[|announces| - 1];
      if a.account == account then a.now else LastSeen(start, announces[..|announces| - 1], account)
  }

  /** The start, if there is one, or the first announce. */
  function FirstSeen(start: int, announces: seq<Announce>, account: Account): int {
    if announces == [] || start > 0 then start
    else
      var front, a := announces[..|announces| - 1], announces[|announces| - 1];
      var before := FirstSeen(start, front, account);
      if before <= 0 && a.account == account then a.now else before
  }

  lemma {:induction false} TakenAtIsLastSeen(prefix: string, retries: nat, s: State, announces: seq<Announce>,
                                             account: Account)
    requires Stored(announces)
    ensures TakenAt(prefix, Run(prefix, retries, s, announces).last, account)
      == LastSeen(TakenAt(prefix, s.last, account), announces, account)
  {
    if announces != [] {
      var front, a := announces[..|announces| - 1], announces[|announces| - 1];
      TakenAtIsLastSeen(prefix, retries, s, front, account);
      if a.account != account && LastKey(prefix, a.account) == LastKey(prefix, account) {
        LastKeyInjective(prefix, a.account, account);
      }
    }
  }

  lemma {:induction false} SeenTogether(start: int, announces: seq<Announce>, account: Account)
    requires forall i :: 0 <= i < |announces| ==> announces[i].now > 0
    ensures FirstSeen(start, announces, account) > 0 <==> LastSeen(start, announces, account) > 0
    ensures LastSeen(start, announces, account) <= 0 ==>
      FirstSeen(start, announces, account) == LastSeen(start, announces, account) == start
  {
    if announces != [] {
      SeenTogether(start, announces[..|announces| - 1], account);
    }
  }

  lemma StepSpends(prefix: string, retries: nat, s: State, a: Announce, account: Account)
    ensures Spent(Step(prefix, retries, s, a).stream, account) == Spent(s.stream, account)
      + (if a.account == account && Delivered(a, retries) then EntryOf(prefix, s.last, a).dt else 0)
  {
    var stream, e := s.stream, EntryOf(prefix, s.last, a);
    assert (stream + [e])[..|stream|] == stream && stream + [] == stream;
  }

  /**
   Time is conserved: over every run whose clock is past the epoch, interleaved with other accounts, the durations
   pushed and those lost add up to the time from the first announce, or the snapshot, to the last.
   */
  lemma {:induction false} TimeIsConserved(prefix: string, retries: nat, s: State, announces: seq<Announce>,
                                           account: Account)
    requires Stored(announces) && forall i :: 0 <= i < |announces| ==> announces[i].now > 0
    ensures var start := TakenAt(prefix, s.last, account);
      Spent(Run(prefix, retries, s, announces).stream, account) - Spent(s.stream, account)
        + Unsaid(prefix, retries, s, announces, account)
      == LastSeen(start, announces, account) - FirstSeen(start, announces, account)
  {
    if announces != [] {
      var front, a := announces[..|announces| - 1], announces[|announces| - 1];
      var start, mid := TakenAt(prefix, s.last, account), Run(prefix, retries, s, front);
      TimeIsConserved(prefix, retries, s, front, account);
      TakenAtIsLastSeen(prefix, retries, s, front, account);
      StepSpends(prefix, retries, mid, a, account);
      SeenTogether(start, front, account);
      FirstSeenOnce(start, announces, account);
      if a.account == account {
        DurationSinceLast(prefix, mid.last, a);
      }
    }
  }

  lemma DurationSinceLast(prefix: string, last: map<string, Snapshot>, a: Announce)
    requires a.readOk
    ensures var was := TakenAt(prefix, last, a.account);
      EntryOf(prefix, last, a).dt == if was > 0 then a.now - was else 0
  {
  }

  lemma FirstSeenOnce(start: int, announces: seq<Announce>, account: Account)
    requires announces != []
    ensures var before, a := FirstSeen(start, announces[..|announces| - 1], account), announces[|announces| - 1];
      FirstSeen(start, announces, account) == if before <= 0 && a.account == account then a.now else before
  {
  }
}
