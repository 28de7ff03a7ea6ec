/**
 A collection of the in-memory store interleaved with other operations: the collector lists a shard's info
 hashes under a read lock, then visits them one lock acquisition at a time; anything may happen in between.
 */
module MemoryGc {
  import opened BitTorrent
  import opened PeerStoreSpec
  import opened PeerSelection
  import opened AnnounceSpec
  import opened MemoryStore

  /** The collector: the shard it is at, and what is left of the list it took there. */
  datatype Gc = Gc(shard: nat, todo: Option<seq<InfoHash>>)

  datatype State = State(flat: Swarms, gc: Gc)

  datatype Step =
    | Other(op: Op)              // any operation of another goroutine
    | List(order: seq<InfoHash>) // the collector lists its shard
    | VisitNext                  // the collector visits the next info hash of its list
    | NextShard                  // the list is used up

  /** A pass over n shards per family with a given cutoff. */
  datatype Pass = Pass(n: nat, cutoff: int) {
    ghost predicate Ok() { ValidShardCount(n) }

    ghost predicate Enabled(s: State, step: Step)
      requires Ok()
    {
      match step
      case Other(_) => true
      case List(order) =>
        && s.gc.shard < 2 * n && s.gc.todo.None?
        && Distinct(order) && forall ih :: ih in order <==> InShard(s.flat, n, s.gc.shard, ih)
      case VisitNext => s.gc.todo.Some? && s.gc.todo.value != []
      case NextShard => s.gc.todo == Some([])
    }

    ghost function Next(s: State, step: Step): State
      requires Ok() && Enabled(s, step)
    {
      match step
      case Other(op) => s.(flat := Apply(s.flat, op))
      case List(order) => s.(gc := Gc(s.gc.shard, Some(order)))
      case VisitNext =>
        State(Visit(s.flat, FamilyOfShard(s.gc.shard, n), s.gc.todo.value[0], cutoff),
              Gc(s.gc.shard, Some(s.gc.todo.value[1..])))
      case NextShard => s.(gc := Gc(s.gc.shard + 1, None))
    }

    ghost predicate Legal(s: State, run: seq<Step>)
      requires Ok()
      decreases |run|
    {
      run == [] || (Enabled(s, run[0]) && Legal(Next(s, run[0]), run[1..]))
    }

    ghost function Final(s: State, run: seq<Step>): State
      requires Ok() && Legal(s, run)
      decreases |run|
    {
      if run == [] then s else Final(Next(s, run[0]), run[1..])
    }

    ghost predicate Begins(s: State) { s.gc == Gc(0, None) }

    ghost predicate Ends(s: State) { s.gc.shard >= 2 * n }

    /** The peer is due in every state of a run. */
    ghost predicate DueThroughout(s: State, run: seq<Step>, k: SwarmKey, pk: PeerKey)
      requires Ok() && Legal(s, run)
      decreases |run|
    {
      Due(s.flat, k, pk, cutoff) && (run == [] || DueThroughout(Next(s, run[0]), run[1..], k, pk))
    }

    /** The collector's visits take only peers that are due at that moment. */
    lemma VisitTakesOnlyDue(s: State, k: SwarmKey, pk: PeerKey)
      requires Ok() && Enabled(s, VisitNext) && Present(s.flat, k, pk) && !Due(s.flat, k, pk, cutoff)
      ensures var s' := Next(s, VisitNext); Present(s'.flat, k, pk) && s'.flat[k][pk] == s.flat[k][pk]
    {
      HashOfVisit(s.flat, FamilyOfShard(s.gc.shard, n), s.gc.todo.value[0], cutoff, k);
      assert pk in Fresh(s.flat[k], cutoff);
    }

    /** The collector has still to visit the swarm. */
    ghost predicate Ahead(gc: Gc, k: SwarmKey)
      requires Ok()
    {
      var i := IndexOf(k.ih, k.af, n);
      i > gc.shard || (i == gc.shard && (gc.todo.None? || k.ih in gc.todo.value))
    }

    lemma DueStaysAhead(s: State, step: Step, k: SwarmKey, pk: PeerKey)
      requires Ok() && Enabled(s, step) && Ahead(s.gc, k)
      requires Due(s.flat, k, pk, cutoff) && Due(Next(s, step).flat, k, pk, cutoff)
      ensures Ahead(Next(s, step).gc, k)
    {
      var i, s' := IndexOf(k.ih, k.af, n), Next(s, step);
      if step.List? && i == s.gc.shard {
        assert k.af == FamilyOfShard(i, n);
        PresentIsTracked(s.flat, k, pk);
        assert InShard(s.flat, n, i, k.ih);
      } else if step.VisitNext? && i == s.gc.shard {
        assert k.af == FamilyOfShard(i, n);
        var todo := s.gc.todo.value;
        if k.ih == todo[0] {
          HashOfVisit(s.flat, k.af, k.ih, cutoff, k);
        } else {
          assert todo == [todo[0]] + todo[1..];
        }
      }
    }

    lemma {:induction false} DueRunStaysAhead(s: State, run: seq<Step>, k: SwarmKey, pk: PeerKey)
      requires Ok() && Legal(s, run) && DueThroughout(s, run, k, pk) && Ahead(s.gc, k)
      ensures Ahead(Final(s, run).gc, k)
      decreases |run|
    {
      if run != [] {
        DueStaysAhead(s, run[0], k, pk);
        DueRunStaysAhead(Next(s, run[0]), run[1..], k, pk);
      }
    }

    /** No peer stays due through a whole pass, whatever runs beside it and however stale the lists get. */
    lemma NothingDueSurvivesAPass(s: State, run: seq<Step>, k: SwarmKey, pk: PeerKey)
      requires Ok() && Legal(s, run) && Begins(s) && Ends(Final(s, run))
      ensures !DueThroughout(s, run, k, pk)
    {
      if DueThroughout(s, run, k, pk) {
        DueRunStaysAhead(s, run, k, pk);
      }
    }

    /** Every clock reading in the run is beyond the cutoff, as the cutoff lies a peer lifetime in the past. */
    ghost predicate ClocksBeyondCutoff(run: seq<Step>) {
      forall i :: 0 <= i < |run| && run[i].Other? ==>
        match run[i].op
        case OpPut(_, _, now) => now > cutoff
        case OpGraduate(_, _, _, now) => now > cutoff
        case _ => true
    }

    lemma {:induction false} DueAtEndWasDueThroughout(s: State, run: seq<Step>, k: SwarmKey, pk: PeerKey)
      requires Ok() && Legal(s, run) && ClocksBeyondCutoff(run) && Due(Final(s, run).flat, k, pk, cutoff)
      ensures DueThroughout(s, run, k, pk)
      decreases |run|
    {
      if run != [] {
        assert forall i :: 0 <= i < |run[1..]| ==> run[1..][i] == run[i + 1];
        DueAtEndWasDueThroughout(Next(s, run[0]), run[1..], k, pk);
        DueBefore(s, run[0], k, pk);
      }
    }

    lemma DueBefore(s: State, step: Step, k: SwarmKey, pk: PeerKey)
      requires Ok() && Enabled(s, step) && ClocksBeyondCutoff([step]) && Due(Next(s, step).flat, k, pk, cutoff)
      ensures Due(s.flat, k, pk, cutoff)
    {
      assert [step][0] == step;
      match step
      case Other(op) => DueBeforeOp(s.flat, op, k, pk);
      case VisitNext => HashOfVisit(s.flat, FamilyOfShard(s.gc.shard, n), s.gc.todo.value[0], cutoff, k);
      case _ =>
    }

    lemma DueBeforeOp(flat: Swarms, op: Op, k: SwarmKey, pk: PeerKey)
      requires op.OpPut? ==> op.now > cutoff
      requires op.OpGraduate? ==> op.now > cutoff
      requires Due(Apply(flat, op), k, pk, cutoff)
      ensures Due(flat, k, pk, cutoff)
    {
    }

    /** So when a pass ends, every peer in the store announced after its cutoff. */
    lemma PassLeavesOnlyFreshPeers(s: State, run: seq<Step>, k: SwarmKey, pk: PeerKey)
      requires Ok() && Legal(s, run) && Begins(s) && Ends(Final(s, run)) && ClocksBeyondCutoff(run)
      requires Present(Final(s, run).flat, k, pk)
      ensures Final(s, run).flat[k][pk] > cutoff
    {
      if Due(Final(s, run).flat, k, pk, cutoff) {
        DueAtEndWasDueThroughout(s, run, k, pk);
        NothingDueSurvivesAPass(s, run, k, pk);
      }
    }
  }
}
