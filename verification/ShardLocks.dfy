/**
 The locks of the in-memory store. Shards are guarded by Go's sync.RWMutex: a writer that has announced itself
 keeps new readers and writers out while it waits for the readers inside. Some operations read two shards, the
 IPv4 one at `idx` and the IPv6 one at `idx + n`.
 */
module ShardLocks {
  import opened BitTorrent
  import opened MemoryStore

  /** A critical section and the order in which it takes its locks. */
  datatype Section =
    | Read(i: nat)     // RLock(i) ... RUnlock(i)
    | Write(i: nat)    // Lock(i) ... Unlock(i)
    | Up(idx: nat)     // RLock(idx), RLock(idx + n) ... RUnlock(idx + n), RUnlock(idx)
    | Down(idx: nat)   // RLock(idx + n), RLock(idx) ... RUnlock(idx), RUnlock(idx + n)

  /**
   A goroutine: its remaining critical sections and where it is in the first one.
   Read:     0 wants the lock, 1 has it.
   Write:    0 wants to announce itself, 1 has, and waits for the readers inside, 2 has the lock.
   Up, Down: 0 wants the first lock, 1 has it and wants the second, 2 has both, 3 has the first.
   */
  datatype Thread = Thread(todo: seq<Section>, pc: nat)

  predicate Finished(th: Thread) { th.todo == [] }

  predicate Reading(th: Thread, n: nat, i: nat) {
    !Finished(th) &&
    match th.todo[0]
    case Read(j) => th.pc == 1 && i == j
    case Write(_) => false
    case Up(idx) => (1 <= th.pc <= 3 && i == idx) || (th.pc == 2 && i == idx + n)
    case Down(idx) => (1 <= th.pc <= 3 && i == idx + n) || (th.pc == 2 && i == idx)
  }

  predicate Announced(th: Thread, i: nat) {
    !Finished(th) && th.todo[0] == Write(i) && 1 <= th.pc <= 2
  }

  /** The lock a thread needs for its next step to acquire for reading, if any. */
  function WantsRead(th: Thread, n: nat): Option<nat> {
    if Finished(th) then None
    else match th.todo[0]
      case Read(i) => if th.pc == 0 then Some(i) else None
      case Write(_) => None
      case Up(idx) => if th.pc == 0 then Some(idx) else if th.pc == 1 then Some(idx + n) else None
      case Down(idx) => if th.pc == 0 then Some(idx + n) else if th.pc == 1 then Some(idx) else None
  }

  /** Nobody stands in the way of the thread's next step. */
  ghost predicate CanStep(s: seq<Thread>, n: nat, t: nat)
    requires t < |s|
  {
    var th := s[t];
    && !Finished(th)
    && (WantsRead(th, n).Some? ==> !HasWriter(s, WantsRead(th, n).value))
    && (th.todo[0].Write? && th.pc == 0 ==> !HasWriter(s, th.todo[0].i))
    && (th.todo[0].Write? && th.pc == 1 ==> !HasReader(s, n, th.todo[0].i))
  }

  ghost predicate HasWriter(s: seq<Thread>, i: nat) {
    exists u :: 0 <= u < |s| && Announced(s[u], i)
  }

  ghost predicate HasReader(s: seq<Thread>, n: nat, i: nat) {
    exists u :: 0 <= u < |s| && Reading(s[u], n, i)
  }

  /** The number of steps of a section. */
  function Length(section: Section): nat {
    match section
    case Read(_) => 2
    case Write(_) => 3
    case _ => 4
  }

  function Advance(th: Thread): Thread
    requires !Finished(th)
  {
    if th.pc + 1 >= Length(th.todo[0]) then Thread(th.todo[1..], 0) else th.(pc := th.pc + 1)
  }

  function Step(s: seq<Thread>, t: nat): seq<Thread>
    requires t < |s| && !Finished(s[t])
  {
    s[t := Advance(s[t])]
  }

  /** A schedule: which thread moves at each point. */
  ghost predicate Legal(s: seq<Thread>, n: nat, run: seq<nat>)
    decreases |run|
  {
    run == [] || (run[0] < |s| && CanStep(s, n, run[0]) && Legal(Step(s, run[0]), n, run[1..]))
  }

  ghost function Final(s: seq<Thread>, n: nat, run: seq<nat>): seq<Thread>
    requires Legal(s, n, run)
    decreases |run|
  {
    if run == [] then s else Final(Step(s, run[0]), n, run[1..])
  }

  ghost predicate Unfinished(s: seq<Thread>) {
    exists t :: 0 <= t < |s| && !Finished(s[t])
  }

  /** Somebody still has work to do and nobody can move. */
  ghost predicate Deadlocked(s: seq<Thread>, n: nat) {
    Unfinished(s) && forall t :: 0 <= t < |s| ==> !CanStep(s, n, t)
  }

  /** All pairs of a section lie in the two halves, and control points are in range. */
  ghost predicate Ranged(s: seq<Thread>, n: nat) {
    forall t :: 0 <= t < |s| ==>
      && (forall j :: 0 <= j < |s[t].todo| ==>
            match s[t].todo[j] { case Up(idx) => idx < n case Down(idx) => idx < n case _ => true })
      && (s[t].todo != [] ==> s[t].pc < Length(s[t].todo[0]))
  }

  // ---------- what a deadlock looks like ----------

  ghost predicate At(s: seq<Thread>, t: int, section: Section) {
    0 <= t < |s| && !Finished(s[t]) && s[t].todo[0] == section && s[t].pc == 1
  }

  /** A reader going up, a reader going down, and an announced writer on either shard of the pair. */
  ghost predicate Knot(s: seq<Thread>, n: nat, idx: nat) {
    SomeAt(s, Up(idx)) && SomeAt(s, Down(idx)) && SomeAt(s, Write(idx)) && SomeAt(s, Write(idx + n))
  }

  ghost predicate SomeAt(s: seq<Thread>, section: Section) {
    exists t :: At(s, t, section)
  }

  /** In a deadlock, a lock with an announced writer has a reader stuck inside. */
  lemma WriterHasReader(s: seq<Thread>, n: nat, i: nat) returns (c: int, v: int)
    requires Deadlocked(s, n) && Ranged(s, n) && HasWriter(s, i)
    ensures At(s, c, Write(i)) && 0 <= v < |s| && Reading(s[v], n, i)
  {
    c :| 0 <= c < |s| && Announced(s[c], i);
    assert !CanStep(s, n, c);
    assert HasReader(s, n, i);
    v :| 0 <= v < |s| && Reading(s[v], n, i);
  }

  /** In a deadlock, a reader inside a lock waits for the other lock of its pair. */
  lemma StuckReader(s: seq<Thread>, n: nat, v: int, i: nat) returns (idx: nat)
    requires Deadlocked(s, n) && Ranged(s, n) && 0 <= v < |s| && Reading(s[v], n, i)
    ensures idx < n
    ensures (At(s, v, Up(idx)) && i == idx && HasWriter(s, idx + n))
         || (At(s, v, Down(idx)) && i == idx + n && HasWriter(s, idx))
  {
    assert !CanStep(s, n, v);
    assert WantsRead(s[v], n).Some?;
    idx := s[v].todo[0].idx;
  }

  /** Every deadlock contains a knot. */
  lemma DeadlockHasKnot(s: seq<Thread>, n: nat) returns (idx: nat)
    requires Deadlocked(s, n) && Ranged(s, n)
    ensures idx < n && Knot(s, n, idx)
  {
    var t :| 0 <= t < |s| && !Finished(s[t]);
    assert !CanStep(s, n, t);
    var i: nat := *;
    var v: int := *;
    if WantsRead(s[t], n).Some? {
      i := WantsRead(s[t], n).value;
      var c;
      c, v := WriterHasReader(s, n, i);
    } else {
      i := s[t].todo[0].i;
      if s[t].pc == 0 {
        var c;
        c, v := WriterHasReader(s, n, i);
      } else {
        v :| 0 <= v < |s| && Reading(s[v], n, i);
      }
    }
    idx := StuckReader(s, n, v, i);
    var c, w := WriterHasReader(s, n, if At(s, v, Up(idx)) then idx + n else idx);
    var idx' := StuckReader(s, n, w, if At(s, v, Up(idx)) then idx + n else idx);
    assert idx' == idx;
    var c', w' := WriterHasReader(s, n, if At(s, v, Up(idx)) then idx else idx + n);
  }

  // ---------- runs of arbitrary programs ----------

  ghost predicate Start(s: seq<Thread>, n: nat) {
    Ranged(s, n) && forall t :: 0 <= t < |s| ==> s[t].pc == 0
  }

  /** The section occurs in the program of some thread. */
  ghost predicate Occurs(s: seq<Thread>, section: Section) {
    exists t :: 0 <= t < |s| && section in s[t].todo
  }

  lemma StepKeeps(s: seq<Thread>, n: nat, t: nat)
    requires Ranged(s, n) && t < |s| && CanStep(s, n, t)
    ensures Ranged(Step(s, t), n)
    ensures forall section :: Occurs(Step(s, t), section) ==> Occurs(s, section)
  {
    var s' := Step(s, t);
    assert s'[t].todo == s[t].todo || s'[t].todo == s[t].todo[1..];
    forall j | 0 <= j < |s'[t].todo| ensures s'[t].todo[j] in s[t].todo {
      assert s'[t].todo[j] == s[t].todo[j] || s'[t].todo[j] == s[t].todo[j + 1];
    }
    forall section | Occurs(s', section) ensures Occurs(s, section) {
      var u :| 0 <= u < |s'| && section in s'[u].todo;
      assert section in s[u].todo;
    }
    forall u | 0 <= u < |s'| ensures
      && (forall j :: 0 <= j < |s'[u].todo| ==>
            match s'[u].todo[j] { case Up(idx) => idx < n case Down(idx) => idx < n case _ => true })
      && (s'[u].todo != [] ==> s'[u].pc < Length(s'[u].todo[0]))
    {
      if u != t { assert s'[u] == s[u]; }
    }
  }

  lemma {:induction false} RunKeeps(s: seq<Thread>, n: nat, run: seq<nat>)
    requires Ranged(s, n) && Legal(s, n, run)
    ensures Ranged(Final(s, n, run), n)
    ensures forall section :: Occurs(Final(s, n, run), section) ==> Occurs(s, section)
    decreases |run|
  {
    if run != [] {
      StepKeeps(s, n, run[0]);
      RunKeeps(Step(s, run[0]), n, run[1..]);
    }
  }

  // ---------- mutual exclusion ----------

  predicate Writing(th: Thread, i: nat) {
    !Finished(th) && th.todo[0] == Write(i) && th.pc == 2
  }

  /** Two threads do not get in each other's way: one announced writer to a shard, and nobody reads where it writes. */
  ghost predicate Apart(a: Thread, b: Thread, n: nat) {
    forall i: nat :: (Announced(a, i) ==> !Announced(b, i)) && (Writing(a, i) ==> !Reading(b, n, i))
  }

  ghost predicate Exclusive(s: seq<Thread>, n: nat) {
    forall t, u :: 0 <= t < |s| && 0 <= u < |s| && t != u ==> Apart(s[t], s[u], n)
  }

  /** A step takes a lock for reading only where no writer is announced, and for writing only where nobody is. */
  lemma StepStaysApart(s: seq<Thread>, n: nat, t: nat, u: nat)
    requires Ranged(s, n) && t < |s| && u < |s| && t != u && CanStep(s, n, t)
    requires Apart(s[t], s[u], n) && Apart(s[u], s[t], n)
    ensures Apart(Advance(s[t]), s[u], n) && Apart(s[u], Advance(s[t]), n)
  {
    var a, b := Advance(s[t]), s[u];
    forall i: nat
      ensures (Announced(a, i) ==> !Announced(b, i)) && (Writing(a, i) ==> !Reading(b, n, i))
      ensures Writing(b, i) ==> !Reading(a, n, i)
    {
      if Announced(b, i) {
        assert HasWriter(s, i);
      }
      if Reading(b, n, i) {
        assert HasReader(s, n, i);
      }
    }
  }

  lemma StepKeepsExclusive(s: seq<Thread>, n: nat, t: nat)
    requires Ranged(s, n) && t < |s| && CanStep(s, n, t) && Exclusive(s, n)
    ensures Exclusive(Step(s, t), n)
  {
    var s' := Step(s, t);
    forall v, u | 0 <= v < |s'| && 0 <= u < |s'| && v != u ensures Apart(s'[v], s'[u], n) {
      if v == t {
        StepStaysApart(s, n, t, u);
      } else if u == t {
        StepStaysApart(s, n, t, v);
      }
    }
  }

  lemma {:induction false} RunKeepsExclusive(s: seq<Thread>, n: nat, run: seq<nat>)
    requires Ranged(s, n) && Legal(s, n, run) && Exclusive(s, n)
    ensures Exclusive(Final(s, n, run), n)
    decreases |run|
  {
    if run != [] {
      StepKeeps(s, n, run[0]);
      StepKeepsExclusive(s, n, run[0]);
      RunKeepsExclusive(Step(s, run[0]), n, run[1..]);
    }
  }

  /** In every schedule of any programs a shard has one writer at a time, and no reader while it is written. */
  lemma MutualExclusion(s: seq<Thread>, n: nat, run: seq<nat>, t: nat, u: nat, i: nat)
    requires Start(s, n) && Legal(s, n, run) && t < |s| && u < |s| && t != u
    ensures |Final(s, n, run)| == |s|
    ensures Writing(Final(s, n, run)[t], i) ==> !Writing(Final(s, n, run)[u], i) && !Reading(Final(s, n, run)[u], n, i)
  {
    RunKeepsExclusive(s, n, run);
    SameThreads(s, n, run);
    assert Apart(Final(s, n, run)[t], Final(s, n, run)[u], n);
    assert forall v, j :: 0 <= v < |s| && Writing(Final(s, n, run)[v], j) ==> Announced(Final(s, n, run)[v], j);
  }

  lemma {:induction false} SameThreads(s: seq<Thread>, n: nat, run: seq<nat>)
    requires Legal(s, n, run)
    ensures |Final(s, n, run)| == |s|
    decreases |run|
  {
    if run != [] {
      SameThreads(Step(s, run[0]), n, run[1..]);
    }
  }

  // ---------- deadlock needs a conflict ----------

  /** The four operations that can block one another on the pair of shards idx and idx + n. */
  ghost predicate Conflict(s: seq<Thread>, n: nat, idx: nat) {
    Occurs(s, Up(idx)) && Occurs(s, Down(idx)) && Occurs(s, Write(idx)) && Occurs(s, Write(idx + n))
  }

  /** Any number of goroutines with any programs: a deadlock needs all four operations on one pair. */
  lemma DeadlockNeedsConflict(s: seq<Thread>, n: nat, run: seq<nat>) returns (idx: nat)
    requires Start(s, n) && Legal(s, n, run) && Deadlocked(Final(s, n, run), n)
    ensures idx < n && Conflict(s, n, idx)
  {
    RunKeeps(s, n, run);
    var f := Final(s, n, run);
    idx := DeadlockHasKnot(f, n);
    forall section | SomeAt(f, section) ensures Occurs(s, section) {
      var t :| At(f, t, section);
      assert section in f[t].todo;
      assert Occurs(f, section);
    }
  }

  /** So if every double acquisition takes the IPv4 shard first, nothing ever deadlocks. */
  lemma OrderedNeverDeadlocks(s: seq<Thread>, n: nat, run: seq<nat>)
    requires Start(s, n) && Legal(s, n, run)
    requires forall idx :: !Occurs(s, Down(idx))
    ensures !Deadlocked(Final(s, n, run), n)
  {
    if Deadlocked(Final(s, n, run), n) {
      var idx := DeadlockNeedsConflict(s, n, run);
    }
  }

  // ---------- the conflict is also sufficient ----------

  /** One goroutine per operation. */
  function Pool(ops: seq<Section>): seq<Thread> {
    seq(|ops|, i requires 0 <= i < |ops| => Thread([ops[i]], 0))
  }

  ghost predicate Quad(s: seq<Thread>, n: nat, idx: nat, a: int, b: int, c: int, d: int) {
    At(s, a, Up(idx)) && At(s, b, Down(idx)) && At(s, c, Write(idx)) && At(s, d, Write(idx + n))
  }

  /** Once tied, the knot stays: its members cannot move and nobody else touches them. */
  lemma QuadStays(s: seq<Thread>, n: nat, idx: nat, a: int, b: int, c: int, d: int, t: nat)
    requires Quad(s, n, idx, a, b, c, d) && t < |s| && CanStep(s, n, t)
    ensures Quad(Step(s, t), n, idx, a, b, c, d)
  {
    assert Announced(s[c], idx) && Announced(s[d], idx + n);
    assert Reading(s[a], n, idx) && Reading(s[b], n, idx + n);
  }

  lemma {:induction false} QuadStaysThroughout(s: seq<Thread>, n: nat, idx: nat, a: int, b: int, c: int, d: int,
                                               run: seq<nat>)
    requires Quad(s, n, idx, a, b, c, d) && Legal(s, n, run)
    ensures Quad(Final(s, n, run), n, idx, a, b, c, d)
    decreases |run|
  {
    if run != [] {
      QuadStays(s, n, idx, a, b, c, d, run[0]);
      QuadStaysThroughout(Step(s, run[0]), n, idx, a, b, c, d, run[1..]);
    }
  }

  /** The steps a thread has left. */
  function WorkOf(todo: seq<Section>): nat {
    if todo == [] then 0 else Length(todo[0]) + WorkOf(todo[1..])
  }

  function Work(s: seq<Thread>): int {
    if s == [] then 0 else WorkOf(s[0].todo) - s[0].pc + Work(s[1..])
  }

  lemma {:induction false} WorkUpdate(s: seq<Thread>, t: nat, th: Thread)
    requires t < |s|
    ensures Work(s[t := th]) == Work(s) - (WorkOf(s[t].todo) - s[t].pc) + (WorkOf(th.todo) - th.pc)
  {
    if t == 0 {
      assert s[0 := th][1..] == s[1..];
    } else {
      assert s[t := th][1..] == s[1..][t - 1 := th];
      WorkUpdate(s[1..], t - 1, th);
    }
  }

  lemma {:induction false} WorkNonNegative(s: seq<Thread>, n: nat)
    requires Ranged(s, n) && forall t :: 0 <= t < |s| && s[t].todo == [] ==> s[t].pc == 0
    ensures Work(s) >= 0
  {
    if s != [] {
      assert forall t :: 0 <= t < |s[1..]| ==> s[1..][t] == s[t + 1];
      WorkNonNegative(s[1..], n);
    }
  }

  /** Every state can be run on until nobody can move. */
  lemma {:induction false} RunOut(s: seq<Thread>, n: nat) returns (run: seq<nat>)
    requires Ranged(s, n) && forall t :: 0 <= t < |s| && s[t].todo == [] ==> s[t].pc == 0
    ensures Legal(s, n, run) && |Final(s, n, run)| == |s|
    ensures forall t :: 0 <= t < |s| ==> !CanStep(Final(s, n, run), n, t)
    decreases Work(s)
  {
    WorkNonNegative(s, n);
    if t: nat :| t < |s| && CanStep(s, n, t) {
      StepKeeps(s, n, t);
      WorkUpdate(s, t, Advance(s[t]));
      WorkNonNegative(Step(s, t), n);
      var rest := RunOut(Step(s, t), n);
      run := [t] + rest;
      assert run[1..] == rest;
    } else {
      run := [];
    }
  }

  lemma {:induction false} Concat(s: seq<Thread>, n: nat, a: seq<nat>, b: seq<nat>)
    requires Legal(s, n, a) && Legal(Final(s, n, a), n, b)
    ensures Legal(s, n, a + b) && Final(s, n, a + b) == Final(Final(s, n, a), n, b)
    decreases |a|
  {
    if a == [] {
      assert a + b == b;
    } else {
      assert (a + b)[0] == a[0] && (a + b)[1..] == a[1..] + b;
      Concat(Step(s, a[0]), n, a[1..], b);
    }
  }

  lemma Prepend(s: seq<Thread>, n: nat, t: nat, rest: seq<nat>)
    requires t < |s| && CanStep(s, n, t) && Legal(Step(s, t), n, rest)
    ensures Legal(s, n, [t] + rest) && Final(s, n, [t] + rest) == Final(Step(s, t), n, rest)
  {
    assert ([t] + rest)[1..] == rest;
  }

  /** The two readers get inside one shard each, then the two writers announce themselves. */
  lemma TieKnot(ops: seq<Section>, n: nat, idx: nat, a: nat, b: nat, c: nat, d: nat) returns (run: seq<nat>)
    requires 0 < n && a < |ops| && b < |ops| && c < |ops| && d < |ops|
    requires ops[a] == Up(idx) && ops[b] == Down(idx) && ops[c] == Write(idx) && ops[d] == Write(idx + n)
    ensures Legal(Pool(ops), n, run) && Quad(Final(Pool(ops), n, run), n, idx, a, b, c, d)
  {
    var s0 := Pool(ops);
    var s1 := Step(s0, a);
    var s2 := Step(s1, b);
    var s3 := Step(s2, c);
    assert forall i :: !HasWriter(s0, i) && !HasWriter(s1, i) && !HasWriter(s2, i);
    assert !HasWriter(s3, idx + n);
    Prepend(s3, n, d, []);
    Prepend(s2, n, c, [d] + []);
    Prepend(s1, n, b, [c] + ([d] + []));
    Prepend(s0, n, a, [b] + ([c] + ([d] + [])));
    run := [a] + ([b] + ([c] + ([d] + [])));
  }

  ghost predicate CanDeadlock(s: seq<Thread>, n: nat) {
    exists run :: Legal(s, n, run) && Deadlocked(Final(s, n, run), n)
  }

  /** Concurrent operations can deadlock exactly when four of them conflict on one pair of shards. */
  lemma PoolDeadlocksIff(ops: seq<Section>, n: nat)
    requires 0 < n && Start(Pool(ops), n)
    ensures CanDeadlock(Pool(ops), n) <==>
      exists idx: nat :: idx < n && Up(idx) in ops && Down(idx) in ops && Write(idx) in ops && Write(idx + n) in ops
  {
    var s := Pool(ops);
    forall section ensures Occurs(s, section) <==> section in ops {
      if section in ops {
        var t :| 0 <= t < |ops| && ops[t] == section;
        assert section in s[t].todo;
      }
    }
    if CanDeadlock(s, n) {
      var run :| Legal(s, n, run) && Deadlocked(Final(s, n, run), n);
      var idx := DeadlockNeedsConflict(s, n, run);
      assert Occurs(s, Up(idx));
    }
    if idx: nat :| idx < n && Up(idx) in ops && Down(idx) in ops && Write(idx) in ops && Write(idx + n) in ops {
      ConflictDeadlocks(ops, n, idx);
    }
  }

  lemma ConflictDeadlocks(ops: seq<Section>, n: nat, idx: nat)
    requires 0 < n && Start(Pool(ops), n)
    requires Up(idx) in ops && Down(idx) in ops && Write(idx) in ops && Write(idx + n) in ops
    ensures CanDeadlock(Pool(ops), n)
  {
    var s := Pool(ops);
    var a: nat :| a < |ops| && ops[a] == Up(idx);
    var b: nat :| b < |ops| && ops[b] == Down(idx);
    var c: nat :| c < |ops| && ops[c] == Write(idx);
    var d: nat :| d < |ops| && ops[d] == Write(idx + n);
    var tie := TieKnot(ops, n, idx, a, b, c, d);
    var s4 := Final(s, n, tie);
    RunKeeps(s, n, tie);
    FinishedAtZero(s, n, tie);
    var rest := RunOut(s4, n);
    Concat(s, n, tie, rest);
    QuadStaysThroughout(s4, n, idx, a, b, c, d, rest);
    var f := Final(s, n, tie + rest);
    assert !Finished(f[a]);
    assert Deadlocked(f, n);
  }

  lemma {:induction false} FinishedAtZero(s: seq<Thread>, n: nat, run: seq<nat>)
    requires Legal(s, n, run) && forall t :: 0 <= t < |s| && s[t].todo == [] ==> s[t].pc == 0
    ensures forall t :: 0 <= t < |Final(s, n, run)| && Final(s, n, run)[t].todo == [] ==> Final(s, n, run)[t].pc == 0
    decreases |run|
  {
    if run != [] {
      FinishedAtZero(Step(s, run[0]), n, run[1..]);
    }
  }

  // ---------- the store's own operations ----------

  datatype Call =
    | Mutate(ih: InfoHash, af: AddressFamily)    // Put, Delete, Graduate
    | Announce(ih: InfoHash, af: AddressFamily)  // AnnouncePeers, by the announcer's family
    | Scrape(ih: InfoHash, af: AddressFamily)
    | GcList(shard: nat)                         // the collector, or the metrics, reading a shard
    | GcVisit(shard: nat)                        // the collector visiting one info hash

  /** The locks a call takes, in its order. */
  function SectionOf(call: Call, dual: bool, n: nat): Section
    requires ValidShardCount(n)
  {
    match call
    case Mutate(ih, af) => Write(IndexOf(ih, af, n))
    case Announce(ih, af) =>
      if !dual then Read(IndexOf(ih, af, n))
      else if af == IPv4 then Up(IndexOf(ih, IPv4, n)) else Down(IndexOf(ih, IPv4, n))
    case Scrape(ih, af) => if dual then Up(IndexOf(ih, IPv4, n)) else Read(IndexOf(ih, af, n))
    case GcList(i) => Read(i)
    case GcVisit(i) => Write(i)
  }

  function Sections(calls: seq<Call>, dual: bool, n: nat): (r: seq<Section>)
    requires ValidShardCount(n)
    ensures |r| == |calls| && forall i :: 0 <= i < |calls| ==> r[i] == SectionOf(calls[i], dual, n)
  {
    seq(|calls|, i requires 0 <= i < |calls| => SectionOf(calls[i], dual, n))
  }

  /** Goroutines that each make a sequence of calls. */
  function Programs(progs: seq<seq<Call>>, dual: bool, n: nat): (r: seq<Thread>)
    requires ValidShardCount(n)
    ensures |r| == |progs| && forall t :: 0 <= t < |progs| ==> r[t] == Thread(Sections(progs[t], dual, n), 0)
  {
    seq(|progs|, t requires 0 <= t < |progs| => Thread(Sections(progs[t], dual, n), 0))
  }

  /** Without dual-stack announces by IPv6 peers the store never deadlocks, whatever its goroutines do. */
  lemma NoIPv6AnnouncerNoDeadlock(progs: seq<seq<Call>>, dual: bool, n: nat, run: seq<nat>)
    requires ValidShardCount(n) && Legal(Programs(progs, dual, n), n, run)
    requires dual ==> forall t, ih :: 0 <= t < |progs| ==> Announce(ih, IPv6) !in progs[t]
    ensures !Deadlocked(Final(Programs(progs, dual, n), n, run), n)
  {
    var s := Programs(progs, dual, n);
    forall t, j | 0 <= t < |s| && 0 <= j < |s[t].todo| ensures !s[t].todo[j].Down? {
      assert progs[t][j] in progs[t];
    }
    OrderedNeverDeadlocks(s, n, run);
  }

  /** Which shards a call works on, and whether it changes them. */
  predicate WorksOn(call: Call, dual: bool, n: nat, i: nat)
    requires ValidShardCount(n)
  {
    match call
    case Mutate(ih, af) => i == IndexOf(ih, af, n)
    case Announce(ih, af) => i == IndexOf(ih, af, n) || (dual && i == IndexOf(ih, OtherFamily(af), n))
    case Scrape(ih, af) => i == IndexOf(ih, af, n) || (dual && i == IndexOf(ih, OtherFamily(af), n))
    case GcList(shard) => i == shard
    case GcVisit(shard) => i == shard
  }

  predicate Changes(call: Call) { call.Mutate? || call.GcVisit? }

  /** At some point of its section a call holds a shard for reading, or for writing, exactly if it has to. */
  lemma LocksHeldIff(call: Call, dual: bool, n: nat, i: nat)
    requires ValidShardCount(n)
    ensures var todo := [SectionOf(call, dual, n)];
      && ((exists pc: nat :: Writing(Thread(todo, pc), i)) <==> Changes(call) && WorksOn(call, dual, n, i))
      && ((exists pc: nat :: Reading(Thread(todo, pc), n, i)) <==> !Changes(call) && WorksOn(call, dual, n, i))
  {
    var todo := [SectionOf(call, dual, n)];
    assert Writing(Thread(todo, 2), i) <==> Changes(call) && WorksOn(call, dual, n, i);
    if !Changes(call) && WorksOn(call, dual, n, i) {
      assert Reading(Thread(todo, 1), n, i) || Reading(Thread(todo, 2), n, i);
    }
  }

  /** An announce by an IPv6 peer of an info hash of the pair: it locks the IPv6 shard first. */
  ghost predicate GoesDown(calls: seq<Call>, n: nat, idx: nat)
    requires ValidShardCount(n)
  {
    exists ih :: Announce(ih, IPv6) in calls && IndexOf(ih, IPv4, n) == idx
  }

  /** An announce by an IPv4 peer, or a scrape by anybody: it locks the IPv4 shard first. */
  ghost predicate GoesUp(calls: seq<Call>, n: nat, idx: nat)
    requires ValidShardCount(n)
  {
    || (exists ih :: Announce(ih, IPv4) in calls && IndexOf(ih, IPv4, n) == idx)
    || (exists ih, af :: Scrape(ih, af) in calls && IndexOf(ih, IPv4, n) == idx)
  }

  /** A put, delete or graduation of an info hash of the shard, or a collector's visit to it. */
  ghost predicate Writes(calls: seq<Call>, n: nat, i: nat)
    requires ValidShardCount(n)
  {
    GcVisit(i) in calls || exists ih, af :: Mutate(ih, af) in calls && IndexOf(ih, af, n) == i
  }

  ghost predicate Entangled(calls: seq<Call>, n: nat, idx: nat)
    requires ValidShardCount(n)
  {
    GoesDown(calls, n, idx) && GoesUp(calls, n, idx) && Writes(calls, n, idx) && Writes(calls, n, idx + n)
  }

  lemma EntangledIff(calls: seq<Call>, dual: bool, n: nat, idx: nat)
    requires ValidShardCount(n)
    ensures var ops := Sections(calls, dual, n);
      Up(idx) in ops && Down(idx) in ops && Write(idx) in ops && Write(idx + n) in ops
      <==> dual && Entangled(calls, n, idx)
  {
    WhoGoes(calls, dual, n, idx);
    WhoWrites(calls, dual, n, idx);
    WhoWrites(calls, dual, n, idx + n);
  }

  lemma SectionsOfCalls(calls: seq<Call>, dual: bool, n: nat, section: Section)
    requires ValidShardCount(n)
    ensures section in Sections(calls, dual, n) <==> exists call :: call in calls && SectionOf(call, dual, n) == section
  {
    var ops := Sections(calls, dual, n);
    if section in ops {
      var i :| 0 <= i < |ops| && ops[i] == section;
      assert calls[i] in calls;
    }
    if call :| call in calls && SectionOf(call, dual, n) == section {
      var i :| 0 <= i < |calls| && calls[i] == call;
      assert ops[i] == section;
    }
  }

  lemma WhoGoes(calls: seq<Call>, dual: bool, n: nat, idx: nat)
    requires ValidShardCount(n)
    ensures Up(idx) in Sections(calls, dual, n) <==> dual && GoesUp(calls, n, idx)
    ensures Down(idx) in Sections(calls, dual, n) <==> dual && GoesDown(calls, n, idx)
  {
    SectionsOfCalls(calls, dual, n, Up(idx));
    SectionsOfCalls(calls, dual, n, Down(idx));
    if call :| call in calls && SectionOf(call, dual, n) == Up(idx) {
      assert call == (if call.Scrape? then Scrape(call.ih, call.af) else Announce(call.ih, IPv4));
    }
    if call :| call in calls && SectionOf(call, dual, n) == Down(idx) {
      assert call == Announce(call.ih, IPv6);
    }
    forall call | call in calls && dual ensures SectionOf(call, dual, n) in Sections(calls, dual, n) {
      SectionsOfCalls(calls, dual, n, SectionOf(call, dual, n));
    }
  }

  lemma WhoWrites(calls: seq<Call>, dual: bool, n: nat, i: nat)
    requires ValidShardCount(n)
    ensures Write(i) in Sections(calls, dual, n) <==> Writes(calls, n, i)
  {
    SectionsOfCalls(calls, dual, n, Write(i));
    if call :| call in calls && SectionOf(call, dual, n) == Write(i) {
      assert call == (if call.GcVisit? then GcVisit(i) else Mutate(call.ih, call.af));
    }
    forall call | call in calls ensures SectionOf(call, dual, n) in Sections(calls, dual, n) {
      SectionsOfCalls(calls, dual, n, SectionOf(call, dual, n));
    }
  }

  /**
   With one goroutine per call, exactly these calls can deadlock, and only in dual-stack mode: an IPv6 announcer,
   an IPv4 announcer or a scrape, all of one pair of shards, and somebody who writes to either shard of the pair.
   */
  lemma CallsDeadlockIff(calls: seq<Call>, dual: bool, n: nat)
    requires ValidShardCount(n)
    ensures CanDeadlock(Pool(Sections(calls, dual, n)), n) <==>
      dual && exists idx: nat :: idx < n && Entangled(calls, n, idx)
  {
    var ops := Sections(calls, dual, n);
    PoolDeadlocksIff(ops, n);
    if idx: nat :| idx < n && Up(idx) in ops && Down(idx) in ops && Write(idx) in ops && Write(idx + n) in ops {
      EntangledIff(calls, dual, n, idx);
    }
    if idx: nat :| dual && idx < n && Entangled(calls, n, idx) {
      EntangledIff(calls, dual, n, idx);
    }
  }

  /** Four calls on one info hash are enough. */
  lemma FourCallsDeadlock(ih: InfoHash, n: nat)
    requires ValidShardCount(n)
    ensures var calls := [Announce(ih, IPv4), Announce(ih, IPv6), Mutate(ih, IPv4), Mutate(ih, IPv6)];
      CanDeadlock(Pool(Sections(calls, true, n)), n) && !CanDeadlock(Pool(Sections(calls, false, n)), n)
  {
    var calls := [Announce(ih, IPv4), Announce(ih, IPv6), Mutate(ih, IPv4), Mutate(ih, IPv6)];
    var idx := IndexOf(ih, IPv4, n);
    CallsDeadlockIff(calls, true, n);
    CallsDeadlockIff(calls, false, n);
    assert Mutate(ih, IPv4) in calls && Mutate(ih, IPv6) in calls && Announce(ih, IPv6) in calls;
    assert Entangled(calls, n, idx);
  }
}
