/** What the sweeps of the pairing table remove, and what they spare, while other threads go on: those of the workers
    and those of the flush. */
module Expiry {
  import opened Bytes
  import opened HyperLogLog
  import opened PendingTable
  import opened CollectorMachine
  import SweepTrigger

  const TWO_SECONDS := 2_000_000_000

  /** In the first n shards no request numbered below `since` is older than the cutoff. */
  ghost predicate Cleared(p: Pending, n: nat, since: nat, cutoff: int)
    requires |p.shards| == SHARDS && n <= SHARDS
  {
    && since <= p.book.issued
    && forall j, k :: 0 <= j < n && k in p.shards[j] && k in p.book.owners && p.book.owners[k] < since ==>
         p.shards[j][k] >= cutoff
  }

  /** Requests that come later do not count, and the others can only leave. */
  lemma OpKeepsCleared(p: Pending, at: Placement, op: PendingOp, n: nat, since: nat, cutoff: int)
    requires |p.shards| == SHARDS && n <= SHARDS && Cleared(p, n, since, cutoff)
    ensures Cleared(ApplyPending(p, at, op), n, since, cutoff)
  {
  }

  lemma SweepClearsOneMore(p: Pending, at: Placement, i: ShardId, since: nat, cutoff: int)
    requires |p.shards| == SHARDS && Cleared(p, i, since, cutoff)
    ensures Cleared(SweepStep(p, at, i, cutoff), i + 1, since, cutoff)
  {
  }

  /** What the sweeps under way have done so far. */
  ghost predicate SweepsClear(s: State)
    requires |s.pending.shards| == SHARDS
  {
    && (forall w :: 0 <= w < |s.pcs| && s.pcs[w].Sweeping? ==>
          Cleared(s.pending, s.pcs[w].next, s.pcs[w].since, s.pcs[w].f.ts - TWO_SECONDS))
    && (s.flush.Expiring? ==> Cleared(s.pending, s.flush.shard, s.flush.since, s.flush.wall - TWO_SECONDS))
  }

  /** Where a sweep stands after a step: where it stood, one shard on, or at its beginning. */
  lemma SweepMoves(s: State, env: Env, e: Event, w: nat)
    requires Shaped(s, env) && w < |s.pcs| && w < |Step(s, env, e).pcs| && Step(s, env, e).pcs[w].Sweeping?
    ensures var pc, pc' := s.pcs[w], Step(s, env, e).pcs[w];
      || pc' == pc
      || (pc' == Sweeping(pc'.f, 0, s.pending.book.issued) && OpOf(s, e).Keep?)
      || (pc.Sweeping? && pc'.next == pc.next + 1 && pc' == Sweeping(pc.f, pc'.next, pc.since)
          && OpOf(s, e) == SweepOp(pc.next, pc.f.ts - TWO_SECONDS))
  {
  }

  lemma ExpiryMoves(s: State, env: Env, e: Event)
    requires Shaped(s, env) && Step(s, env, e).flush.Expiring?
    ensures var f, f' := s.flush, Step(s, env, e).flush;
      || f' == f
      || (e.Flush? && f' == Expiring(0, e.wall, s.pending.book.issued) && OpOf(s, e).Keep?)
      || (f.Expiring? && f'.shard == f.shard + 1 && f' == Expiring(f'.shard, f.wall, f.since)
          && OpOf(s, e) == SweepOp(f.shard, f.wall - TWO_SECONDS))
  {
  }

  lemma MoveClears(p: Pending, at: Placement, op: PendingOp, n: nat, since: nat, cutoff: int, n': nat)
    requires |p.shards| == SHARDS && n <= n' <= SHARDS && Cleared(p, n, since, cutoff)
    requires n' == n || (n' == n + 1 && op == SweepOp(n, cutoff))
    ensures Cleared(ApplyPending(p, at, op), n', since, cutoff)
  {
    if n' == n { OpKeepsCleared(p, at, op, n, since, cutoff); } else { SweepClearsOneMore(p, at, n, since, cutoff); }
  }

  lemma WorkersClear(s: State, env: Env, e: Event, w: nat)
    requires Shaped(s, env) && SweepsClear(s) && w < |s.pcs| == |Step(s, env, e).pcs|
    requires Step(s, env, e).pcs[w].Sweeping?
    ensures var pc' := Step(s, env, e).pcs[w];
      Cleared(Step(s, env, e).pending, pc'.next, pc'.since, pc'.f.ts - TWO_SECONDS)
  {
    SweepMoves(s, env, e, w);
    StepPending(s, env, e);
    var pc, pc' := s.pcs[w], Step(s, env, e).pcs[w];
    if pc.Sweeping? && pc'.since == pc.since && pc'.f == pc.f && pc.next <= pc'.next {
      MoveClears(s.pending, env.at, OpOf(s, e), pc.next, pc.since, pc.f.ts - TWO_SECONDS, pc'.next);
    }
  }

  lemma FlushClears(s: State, env: Env, e: Event)
    requires Shaped(s, env) && SweepsClear(s) && Step(s, env, e).flush.Expiring?
    ensures var f' := Step(s, env, e).flush;
      Cleared(Step(s, env, e).pending, f'.shard, f'.since, f'.wall - TWO_SECONDS)
  {
    ExpiryMoves(s, env, e);
    StepPending(s, env, e);
    var f, f' := s.flush, Step(s, env, e).flush;
    if f.Expiring? && f'.since == f.since && f'.wall == f.wall && f.shard <= f'.shard {
      MoveClears(s.pending, env.at, OpOf(s, e), f.shard, f.since, f.wall - TWO_SECONDS, f'.shard);
    }
  }

  lemma SamePcs(s: State, env: Env, e: Event)
    requires Shaped(s, env)
    ensures |Step(s, env, e).pcs| == |s.pcs|
  {
  }

  lemma {:induction false} RunSweepsClear(workers: nat, env: Env, events: seq<Event>)
    requires Precision(env.p)
    ensures SweepsClear(Run(workers, env, events))
  {
    if events != [] {
      var init, e := events[..|events| - 1], events[|events| - 1];
      var s := Run(workers, env, init);
      RunSweepsClear(workers, env, init);
      SamePcs(s, env, e);
      forall w | 0 <= w < |s.pcs| && Step(s, env, e).pcs[w].Sweeping?
        ensures var pc' := Step(s, env, e).pcs[w];
          Cleared(Step(s, env, e).pending, pc'.next, pc'.since, pc'.f.ts - TWO_SECONDS)
      {
        WorkersClear(s, env, e, w);
      }
      if Step(s, env, e).flush.Expiring? { FlushClears(s, env, e); }
    }
  }

  /** Of the requests that had come before `since`, none older than the cutoff is pending in any shard. */
  ghost predicate NoneOlder(p: Pending, since: nat, cutoff: int)
    requires |p.shards| == SHARDS
  {
    forall j, k :: 0 <= j < SHARDS && k in p.shards[j] ==>
      k in p.book.owners && (p.book.owners[k] < since ==> p.shards[j][k] >= cutoff)
  }

  /** Every entry belongs to a request. */
  ghost predicate AllOwned(p: Pending)
    requires |p.shards| == SHARDS
  {
    forall j, k :: 0 <= j < SHARDS && k in p.shards[j] ==> k in p.book.owners
  }

  lemma RunAllOwned(workers: nat, env: Env, events: seq<Event>)
    requires Precision(env.p)
    ensures AllOwned(Run(workers, env, events).pending)
  {
    var p := Run(workers, env, events).pending;
    RunPending(workers, env, events);
    forall j, k | 0 <= j < SHARDS && k in p.shards[j] ensures k in p.book.owners {
      assert HomeOf(env.at)(k) == j;
    }
  }

  lemma ClearedAll(p: Pending, since: nat, cutoff: int)
    requires |p.shards| == SHARDS && AllOwned(p) && Cleared(p, SHARDS, since, cutoff)
    ensures NoneOlder(p, since, cutoff)
  {
  }

  /** The worker's sweep ends with this event. */
  ghost predicate SweepEnds(s: State, env: Env, e: Event)
    requires Shaped(s, env)
  {
    && e.Work? && e.w < |s.pcs| && s.pcs[e.w].Sweeping?
    && e.w < |Step(s, env, e).pcs| && !Step(s, env, e).pcs[e.w].Sweeping?
  }

  lemma LastSweepStep(s: State, env: Env, e: Event)
    requires Shaped(s, env) && SweepEnds(s, env, e)
    ensures var pc := s.pcs[e.w];
      pc.next + 1 == SHARDS && OpOf(s, e) == SweepOp(pc.next, pc.f.ts - 2_000_000_000)
  {
  }

  lemma SweepEndClears(s: State, env: Env, e: Event)
    requires Shaped(s, env) && SweepsClear(s) && SweepEnds(s, env, e)
    ensures Cleared(Step(s, env, e).pending, SHARDS, s.pcs[e.w].since, s.pcs[e.w].f.ts - 2_000_000_000)
  {
    var pc := s.pcs[e.w];
    LastSweepStep(s, env, e);
    StepPending(s, env, e);
    SweepClearsOneMore(s.pending, env.at, pc.next, pc.since, pc.f.ts - 2_000_000_000);
  }

  /** A worker's sweep visits every shard: when it ends, no request that had come when it began and is older than two
      seconds before its frame is pending. */
  lemma SweepLeavesNoneOlder(workers: nat, env: Env, events: seq<Event>, e: Event)
    requires Precision(env.p) && SweepEnds(Run(workers, env, events), env, e)
    ensures var pc := Run(workers, env, events).pcs[e.w];
      NoneOlder(Run(workers, env, events + [e]).pending, pc.since, pc.f.ts - 2_000_000_000)
  {
    var pc := Run(workers, env, events).pcs[e.w];
    RunSweepsClear(workers, env, events);
    SweepEndClears(Run(workers, env, events), env, e);
    StepOnce(workers, env, events, e);
    RunAllOwned(workers, env, events + [e]);
    ClearedAll(Run(workers, env, events + [e]).pending, pc.since, pc.f.ts - 2_000_000_000);
  }

  ghost predicate ExpiryEnds(s: State, env: Env, e: Event)
    requires Shaped(s, env)
  {
    e.Flush? && s.flush.Expiring? && !Step(s, env, e).flush.Expiring?
  }

  lemma LastExpiryStep(s: State, env: Env, e: Event)
    requires Shaped(s, env) && ExpiryEnds(s, env, e)
    ensures s.flush.shard + 1 == SHARDS && OpOf(s, e) == SweepOp(s.flush.shard, s.flush.wall - 2_000_000_000)
  {
  }

  lemma ExpiryEndClears(s: State, env: Env, e: Event)
    requires Shaped(s, env) && SweepsClear(s) && ExpiryEnds(s, env, e)
    ensures Cleared(Step(s, env, e).pending, SHARDS, s.flush.since, s.flush.wall - 2_000_000_000)
  {
    LastExpiryStep(s, env, e);
    StepPending(s, env, e);
    SweepClearsOneMore(s.pending, env.at, s.flush.shard, s.flush.since, s.flush.wall - 2_000_000_000);
  }

  /** So does the expiry of a flush, with two seconds before its reading of the wall clock. */
  lemma FlushLeavesNoneOlder(workers: nat, env: Env, events: seq<Event>, e: Event)
    requires Precision(env.p) && ExpiryEnds(Run(workers, env, events), env, e)
    ensures var f := Run(workers, env, events).flush;
      NoneOlder(Run(workers, env, events + [e]).pending, f.since, f.wall - 2_000_000_000)
  {
    var f := Run(workers, env, events).flush;
    RunSweepsClear(workers, env, events);
    ExpiryEndClears(Run(workers, env, events), env, e);
    StepOnce(workers, env, events, e);
    RunAllOwned(workers, env, events + [e]);
    ClearedAll(Run(workers, env, events + [e]).pending, f.since, f.wall - 2_000_000_000);
  }

  /** Both begin with the requests that have come so far: a sweep with the won swap, an expiry with a reading of the
      wall clock after the last eviction. */
  lemma SweepsBegin(s: State, env: Env, e: Event)
    requires Shaped(s, env)
    ensures e.Work? && e.w < |s.pcs| && s.pcs[e.w].Added? && SweepTrigger.Wins(s.trigger, e.w) ==>
      Step(s, env, e).pcs[e.w] == Sweeping(s.pcs[e.w].f, 0, s.pending.book.issued)
    ensures e.Flush? && s.flush.Evicting? && s.flush.shard + 1 == SHARDS ==>
      Step(s, env, e).flush == Expiring(0, e.wall, s.pending.book.issued)
  {
  }

  /** What takes an entry out: its response, or a sweep or an expiry for which it is older than two seconds. */
  lemma OnlyOldOrAnsweredLeave(s: State, env: Env, e: Event, j: ShardId, k: Bytes)
    requires Shaped(s, env) && k in s.pending.shards[j] && k !in Step(s, env, e).pending.shards[j]
    ensures var t := s.pending.shards[j][k];
      || (e.Work? && e.w < |s.pcs| && s.pcs[e.w].Pairing? && var f := s.pcs[e.w].f;
          f.dir.Response? && f.xid.Some? && k == f.ip + [124] + f.xid.value)
      || (e.Work? && e.w < |s.pcs| && s.pcs[e.w].Sweeping? && t < s.pcs[e.w].f.ts - 2_000_000_000)
      || (e.Flush? && s.flush.Expiring? && t < s.flush.wall - 2_000_000_000)
  {
    StepPending(s, env, e);
  }
}
