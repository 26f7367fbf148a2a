/** The active-clients gauge of a flush that walks the shards while workers go on entering requests. */
module GaugeBounds {
  import opened Bytes
  import opened MapCounts
  import opened HyperLogLog
  import opened PendingTable
  import opened ActiveClients
  import M = CollectorMachine

  /** A walk of the flush over the shards: the next one, the cutoff, the entries counted so far, and the length of the
      log when it began. */
  datatype Walk = Walk(shard: ShardId, cutoff: int, count: nat, since: nat)

  /** The part of the machine that concerns active clients. */
  datatype Clients = Clients(active: seq<Table>, log: seq<Call>, walk: Option<Walk>, gauge: nat)

  datatype Op = Keep | Enter(ip: Bytes, now: int) | Begin(now: int) | Next

  function Part(s: M.State): Clients {
    var f := s.flush;
    Clients(s.active, s.log, if f.Evicting? then Some(Walk(f.shard, f.cutoff, f.active, f.since)) else None, s.gauge)
  }

  /** The walk after a shard that keeps n entries. */
  function NextOf(w: Walk, n: nat): Option<Walk> {
    if w.shard + 1 == SHARDS then None else Some(Walk(w.shard + 1, w.cutoff, w.count + n, w.since))
  }

  function NextShard(c: Clients): (c': Clients)
    requires |c.active| == SHARDS && c.walk.Some?
    ensures |c'.active| == SHARDS
  {
    var w := c.walk.value;
    var kept := Sweep(c.active[w.shard], w.cutoff);
    c.(active := c.active[w.shard := kept], walk := NextOf(w, |kept|),
       gauge := if w.shard + 1 == SHARDS then w.count + |kept| else c.gauge)
  }

  function Do(c: Clients, at: Placement, op: Op): (c': Clients)
    requires |c.active| == SHARDS
    ensures |c'.active| == SHARDS
  {
    match op
    case Keep => c
    case Enter(ip, now) => c.(active := Touch(c.active, at, ip, now), log := c.log + [Request(ip, now)])
    case Begin(now) =>
      if c.walk.Some? then c
      else c.(walk := Some(Walk(0, now - ACTIVE_WINDOW, 0, |c.log| + 1)), log := c.log + [FlushAt(now)])
    case Next => if c.walk.None? then c else NextShard(c)
  }

  /** What an event of the machine does to that part. */
  function OpOf(s: M.State, e: M.Event): Op {
    match e
    case Begin(_, _) => Keep
    case Work(w, _, now, _) =>
      if w < |s.pcs| && s.pcs[w].Touching? then Enter(s.pcs[w].f.ip, now) else Keep
    case Flush(now, _, _) =>
      if s.flush.Evicting? then Next
      else if s.flush.Counters? && s.counts.phase.Resting? then Begin(now)
      else Keep
  }

  lemma StepPart(s: M.State, env: M.Env, e: M.Event)
    requires M.Shaped(s, env)
    ensures Part(M.Step(s, env, e)) == Do(Part(s), env.at, OpOf(s, e))
  {
  }

  // --- What holds while the clock never runs back

  /** A time not before the cutoff of any flush so far. */
  ghost predicate InForce(log: seq<Call>, t: int) {
    forall now :: FlushAt(now) in log ==> now - ACTIVE_WINDOW <= t
  }

  /** Every request of such a time has its entry, at least as late. */
  ghost predicate Present(active: seq<Table>, at: Placement, log: seq<Call>)
    requires |active| == SHARDS
  {
    forall ip, t :: Request(ip, t) in log && InForce(log, t) ==> ip in active[at(ip)] && t <= active[at(ip)][ip]
  }

  /** The walk's cutoff is that of the last flush in the log. */
  ghost predicate WalkIsLast(log: seq<Call>, w: Walk) {
    && w.since <= |log| && FlushAt(w.cutoff + ACTIVE_WINDOW) in log
    && InForce(log, w.cutoff)
  }

  /** The entries counted so far lie between the clients recent when the walk began and those recent now. */
  ghost predicate CountBounded(log: seq<Call>, at: Placement, w: Walk)
    requires w.since <= |log|
  {
    && |KeysBelow(RecentClients(log[..w.since], w.cutoff), at, w.shard)| <= w.count
    && w.count <= |KeysBelow(RecentClients(log, w.cutoff), at, w.shard)|
  }

  ghost predicate WalkTracked(log: seq<Call>, at: Placement, walk: Option<Walk>) {
    walk.Some? ==> WalkIsLast(log, walk.value) && CountBounded(log, at, walk.value)
  }

  ghost predicate Tracked(c: Clients, at: Placement)
    requires |c.active| == SHARDS
  {
    Backed(c.active, at, c.log) && Present(c.active, at, c.log) && WalkTracked(c.log, at, c.walk)
  }

  lemma OrderedBefore(log: seq<Call>, c: Call)
    requires ClockOrdered(log + [c])
    ensures ClockOrdered(log) && forall d :: d in log ==> d.now <= c.now
  {
    var all := log + [c];
    forall i, j | 0 <= i < j < |log| ensures log[i].now <= log[j].now { assert all[i].now <= all[j].now; }
    forall d | d in log ensures d.now <= c.now {
      var i :| 0 <= i < |log| && log[i] == d;
      assert all[i].now <= all[|log|].now;
    }
  }

  lemma InForceBefore(log: seq<Call>, c: Call, t: int)
    requires InForce(log + [c], t)
    ensures InForce(log, t)
  {
    forall now | FlushAt(now) in log ensures now - ACTIVE_WINDOW <= t { assert FlushAt(now) in log + [c]; }
  }

  lemma EnterPresent(active: seq<Table>, at: Placement, log: seq<Call>, ip: Bytes, now: int)
    requires |active| == SHARDS && Present(active, at, log) && forall d :: d in log ==> d.now <= now
    ensures Present(Touch(active, at, ip, now), at, log + [Request(ip, now)])
  {
    var all := log + [Request(ip, now)];
    forall k, t | Request(k, t) in all && InForce(all, t)
      ensures k in Touch(active, at, ip, now)[at(k)] && t <= Touch(active, at, ip, now)[at(k)][k]
    {
      if Request(k, t) in log { InForceBefore(log, Request(ip, now), t); }
    }
  }

  lemma BeginPresent(active: seq<Table>, at: Placement, log: seq<Call>, now: int)
    requires |active| == SHARDS && Present(active, at, log)
    ensures Present(active, at, log + [FlushAt(now)])
  {
    forall ip, t | Request(ip, t) in log + [FlushAt(now)] && InForce(log + [FlushAt(now)], t)
      ensures ip in active[at(ip)] && t <= active[at(ip)][ip]
    {
      InForceBefore(log, FlushAt(now), t);
    }
  }

  lemma NextPresent(active: seq<Table>, at: Placement, log: seq<Call>, i: ShardId, cutoff: int)
    requires |active| == SHARDS && Present(active, at, log) && FlushAt(cutoff + ACTIVE_WINDOW) in log
    ensures Present(active[i := Sweep(active[i], cutoff)], at, log)
  {
  }

  lemma EnterBacked(active: seq<Table>, at: Placement, log: seq<Call>, ip: Bytes, now: int)
    requires |active| == SHARDS && Backed(active, at, log)
    ensures Backed(Touch(active, at, ip, now), at, log + [Request(ip, now)])
  {
    assert (log + [Request(ip, now)])[|log|] == Request(ip, now);
  }

  lemma LogGrows(log: seq<Call>, c: Call, at: Placement, w: Walk)
    requires w.since <= |log| && CountBounded(log, at, w)
    ensures CountBounded(log + [c], at, w)
  {
    assert (log + [c])[..w.since] == log[..w.since];
    var was, now := KeysBelow(RecentClients(log, w.cutoff), at, w.shard),
                    KeysBelow(RecentClients(log + [c], w.cutoff), at, w.shard);
    assert was <= now;
    SubsetCount(was, now);
  }

  /** The clients of one shard among these. */
  ghost function KeysAt(keys: set<Bytes>, at: Placement, i: int): set<Bytes> { set k | k in keys && at(k) == i }

  lemma KeysBelowNext(keys: set<Bytes>, at: Placement, i: nat)
    ensures |KeysBelow(keys, at, i + 1)| == |KeysBelow(keys, at, i)| + |KeysAt(keys, at, i)|
  {
    assert KeysBelow(keys, at, i + 1) == KeysBelow(keys, at, i) + KeysAt(keys, at, i);
    assert KeysBelow(keys, at, i) !! KeysAt(keys, at, i);
  }

  lemma RecentIsKept(active: seq<Table>, at: Placement, log: seq<Call>, w: Walk, k: Bytes)
    requires |active| == SHARDS && Present(active, at, log) && WalkIsLast(log, w) && at(k) == w.shard
    requires k in RecentClients(log[..w.since], w.cutoff)
    ensures k in Sweep(active[w.shard], w.cutoff)
  {
    var r :| r in log[..w.since] && r.Request? && r.now >= w.cutoff && r.ip == k;
    assert Request(k, r.now) in log && InForce(log, r.now);
  }

  lemma BackedEntry(active: seq<Table>, at: Placement, log: seq<Call>, i: ShardId, k: Bytes)
    requires |active| == SHARDS && Backed(active, at, log) && k in active[i]
    ensures at(k) == i && Request(k, active[i][k]) in log
  {
  }

  lemma KeptIsRecent(active: seq<Table>, at: Placement, log: seq<Call>, i: ShardId, cutoff: int, k: Bytes)
    requires |active| == SHARDS && Backed(active, at, log) && k in Sweep(active[i], cutoff)
    ensures k in RecentClients(log, cutoff) && at(k) == i
  {
    assert k in active[i] && active[i][k] >= cutoff;
    BackedEntry(active, at, log, i, k);
    var r := Request(k, active[i][k]);
    assert r in log && r.now >= cutoff;
  }

  lemma KeptBetween(active: seq<Table>, at: Placement, log: seq<Call>, w: Walk)
    requires |active| == SHARDS && Backed(active, at, log) && Present(active, at, log) && WalkIsLast(log, w)
    ensures Between(log, at, w, Sweep(active[w.shard], w.cutoff))
  {
    var kept := Sweep(active[w.shard], w.cutoff).Keys;
    forall k | k in KeysAt(RecentClients(log[..w.since], w.cutoff), at, w.shard) ensures k in kept {
      RecentIsKept(active, at, log, w, k);
    }
    forall k | k in kept ensures k in KeysAt(RecentClients(log, w.cutoff), at, w.shard) {
      KeptIsRecent(active, at, log, w.shard, w.cutoff, k);
    }
  }

  lemma CountFromBelow(keys: set<Bytes>, at: Placement, i: nat, n: nat, kept: Table)
    requires |KeysBelow(keys, at, i)| <= n && KeysAt(keys, at, i) <= kept.Keys
    ensures |KeysBelow(keys, at, i + 1)| <= n + |kept|
  {
    KeysBelowNext(keys, at, i);
    SubsetCount(KeysAt(keys, at, i), kept.Keys);
    assert |kept| == |kept.Keys|;
  }

  lemma CountFromAbove(keys: set<Bytes>, at: Placement, i: nat, n: nat, kept: Table)
    requires n <= |KeysBelow(keys, at, i)| && kept.Keys <= KeysAt(keys, at, i)
    ensures n + |kept| <= |KeysBelow(keys, at, i + 1)|
  {
    KeysBelowNext(keys, at, i);
    SubsetCount(kept.Keys, KeysAt(keys, at, i));
    assert |kept| == |kept.Keys|;
  }

  /** A shard's entries lie between its clients recent when the walk began and those recent now. */
  ghost predicate Between(log: seq<Call>, at: Placement, w: Walk, kept: Table)
    requires w.since <= |log|
  {
    && KeysAt(RecentClients(log[..w.since], w.cutoff), at, w.shard) <= kept.Keys
    && kept.Keys <= KeysAt(RecentClients(log, w.cutoff), at, w.shard)
  }

  lemma NextCount(log: seq<Call>, at: Placement, w: Walk, kept: Table)
    requires w.since <= |log| && CountBounded(log, at, w) && Between(log, at, w, kept)
    ensures |KeysBelow(RecentClients(log[..w.since], w.cutoff), at, w.shard + 1)| <= w.count + |kept|
    ensures w.count + |kept| <= |KeysBelow(RecentClients(log, w.cutoff), at, w.shard + 1)|
  {
    CountFromBelow(RecentClients(log[..w.since], w.cutoff), at, w.shard, w.count, kept);
    CountFromAbove(RecentClients(log, w.cutoff), at, w.shard, w.count, kept);
  }

  lemma NextWalk(log: seq<Call>, at: Placement, w: Walk, kept: Table)
    requires WalkIsLast(log, w) && CountBounded(log, at, w) && Between(log, at, w, kept)
    ensures WalkTracked(log, at, NextOf(w, |kept|))
  {
    NextCount(log, at, w, kept);
  }

  lemma EnterTracked(c: Clients, at: Placement, ip: Bytes, now: int)
    requires |c.active| == SHARDS && Tracked(c, at) && forall d :: d in c.log ==> d.now <= now
    ensures Tracked(Do(c, at, Enter(ip, now)), at)
  {
    EnterBacked(c.active, at, c.log, ip, now);
    EnterPresent(c.active, at, c.log, ip, now);
    if c.walk.Some? { LogGrows(c.log, Request(ip, now), at, c.walk.value); }
  }

  lemma BeginTracked(c: Clients, at: Placement, now: int)
    requires |c.active| == SHARDS && Tracked(c, at) && c.walk.None? && forall d :: d in c.log ==> d.now <= now
    ensures Tracked(Do(c, at, Begin(now)), at)
  {
    var log, w := c.log + [FlushAt(now)], Walk(0, now - ACTIVE_WINDOW, 0, |c.log| + 1);
    assert log[|c.log|] == FlushAt(now);
    BeginPresent(c.active, at, c.log, now);
    assert KeysBelow(RecentClients(log[..w.since], w.cutoff), at, 0) == {};
  }

  lemma NextBacked(active: seq<Table>, at: Placement, log: seq<Call>, i: ShardId, cutoff: int)
    requires |active| == SHARDS && Backed(active, at, log)
    ensures Backed(active[i := Sweep(active[i], cutoff)], at, log)
  {
    var swept := active[i := Sweep(active[i], cutoff)];
    forall j, ip | 0 <= j < SHARDS && ip in swept[j] ensures at(ip) == j && Request(ip, swept[j][ip]) in log {
      assert ip in active[j] && swept[j][ip] == active[j][ip];
    }
  }

  lemma NextWalkTracked(c: Clients, at: Placement)
    requires |c.active| == SHARDS && Tracked(c, at) && c.walk.Some?
    ensures WalkTracked(c.log, at, NextShard(c).walk)
  {
    var w := c.walk.value;
    KeptBetween(c.active, at, c.log, w);
    NextWalk(c.log, at, w, Sweep(c.active[w.shard], w.cutoff));
  }

  lemma NextTracked(c: Clients, at: Placement)
    requires |c.active| == SHARDS && Tracked(c, at) && c.walk.Some?
    ensures Tracked(NextShard(c), at)
  {
    var w := c.walk.value;
    NextBacked(c.active, at, c.log, w.shard, w.cutoff);
    NextPresent(c.active, at, c.log, w.shard, w.cutoff);
    NextWalkTracked(c, at);
  }

  lemma DoTracked(c: Clients, at: Placement, op: Op)
    requires |c.active| == SHARDS && (ClockOrdered(c.log) ==> Tracked(c, at))
    ensures var c' := Do(c, at, op); ClockOrdered(c'.log) ==> Tracked(c', at)
  {
    var c' := Do(c, at, op);
    if ClockOrdered(c'.log) {
      match op
      case Keep =>
      case Enter(ip, now) =>
        OrderedBefore(c.log, Request(ip, now));
        EnterTracked(c, at, ip, now);
      case Begin(now) =>
        if c.walk.None? {
          OrderedBefore(c.log, FlushAt(now));
          BeginTracked(c, at, now);
        }
      case Next => if c.walk.Some? { NextTracked(c, at); }
    }
  }

  lemma {:induction false} RunTracked(workers: nat, env: M.Env, events: seq<M.Event>)
    requires Precision(env.p)
    ensures var s := M.Run(workers, env, events); ClockOrdered(s.log) ==> Tracked(Part(s), env.at)
  {
    if events != [] {
      var init, e := events[..|events| - 1], events[|events| - 1];
      var s := M.Run(workers, env, init);
      RunTracked(workers, env, init);
      StepPart(s, env, e);
      DoTracked(Part(s), env.at, OpOf(s, e));
    }
  }

  lemma AllBelow(keys: set<Bytes>, at: Placement)
    ensures KeysBelow(keys, at, SHARDS) == keys
  {
  }

  lemma LastShard(c: Clients, at: Placement)
    requires |c.active| == SHARDS && Tracked(c, at) && c.walk.Some? && c.walk.value.shard + 1 == SHARDS
    ensures var w := c.walk.value;
      |RecentClients(c.log[..w.since], w.cutoff)| <= NextShard(c).gauge <= |RecentClients(c.log, w.cutoff)|
  {
    var w := c.walk.value;
    var kept := Sweep(c.active[w.shard], w.cutoff);
    KeptBetween(c.active, at, c.log, w);
    NextCount(c.log, at, w, kept);
    AllBelow(RecentClients(c.log[..w.since], w.cutoff), at);
    AllBelow(RecentClients(c.log, w.cutoff), at);
  }

  /** In every interleaving whose clock readings never run back, the gauge a flush sets lies between the number of
      clients recent when it read the clock and the number of those recent, by the same cutoff, when it leaves the last
      shard. */
  lemma GaugeOfRun(workers: nat, env: M.Env, events: seq<M.Event>, e: M.Event)
    requires Precision(env.p) && e.Flush?
    requires var s := M.Run(workers, env, events);
      ClockOrdered(s.log) && s.flush.Evicting? && s.flush.shard + 1 == SHARDS
    ensures var s := M.Run(workers, env, events);
      && s.flush.since <= |s.log| && FlushAt(s.flush.cutoff + 300_000_000_000) in s.log
      && |RecentClients(s.log[..s.flush.since], s.flush.cutoff)| <= M.Step(s, env, e).gauge
      && M.Step(s, env, e).gauge <= |RecentClients(s.log, s.flush.cutoff)|
  {
    var s := M.Run(workers, env, events);
    RunTracked(workers, env, events);
    StepPart(s, env, e);
    LastShard(Part(s), env.at);
  }
}
