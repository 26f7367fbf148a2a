/** The collector of exporter/internal/aggregate/aggregate.go as one concurrent machine: any number of
    capture workers and one flusher, every mutex section and every atomic operation being one step.
    A run is any sequence of events; an event whose thread is elsewhere changes nothing. */
module CollectorMachine {
  import opened Bytes
  import opened HyperLogLog
  import HourRing
  import SweepTrigger
  import Breakdown
  import RequestBook
  import opened PendingTable
  import ActiveClients
  import opened AsnRanking
  import Parser = Frame

  // --- Threads

  /** The text of an address never contains the key separator. */
  type IpText = s: Bytes | BAR !in s witness []

  datatype Frame = Frame(
    dir: Parser.Direction, ip: IpText, family: string, version: string, xid: Option<Bytes>, ts: int)

  /** A frame that was counted, with what the lookup said of its address. */
  datatype Entry = Entry(f: Frame, geo: Breakdown.Geo)

  /** Where a worker stands in HandleFrame; `next` is the shard its sweep visits next, `since` the number of requests
      that had come to the pairing table when it began. */
  datatype Pc =
    | Idle
    | Added(f: Frame)
    | Sweeping(f: Frame, next: ShardId, since: nat)
    | Counting(f: Frame)
    | Touching(f: Frame)
    | Bucketing(f: Frame)
    | Pairing(f: Frame)

  /** Where the flusher stands; the counter phases are those of the breakdown. */
  datatype FlushPc =
    | Resting
    | Counters
    | Evicting(shard: ShardId, cutoff: int, active: nat, since: nat)  // since: the length of the log when it began
    | Expiring(shard: ShardId, wall: int, since: nat)
    | Merging

  datatype Env = Env(at: Placement, sha1: Hash, p: nat)

  datatype State = State(
    pcs: seq<Pc>,
    trigger: SweepTrigger.Trigger,
    sweeps: nat,                     // incremental sweeps completed
    counts: Breakdown.State,
    counted: seq<Entry>,             // the frames counted so far
    pending: Pending,
    active: seq<Table>,
    log: seq<ActiveClients.Call>,    // the requests entered in it, and the flushes that set out to evict
    ring: HourRing.Ring,
    visits: seq<HourRing.Visit>,     // the sections entered under hourlyMu so far
    flush: FlushPc,
    gauge: nat,                      // ntp_clients_active
    unique: Registers)               // the sketch last merged for ntp_clients_unique_daily

  datatype Event =
    | Begin(w: nat, f: Frame)
    | Work(w: nat, geo: Breakdown.Geo, now: int, wall: int)
    | Flush(now: int, wall: int, top: set<Asn>)

  const SECOND := 1_000_000_000

  /** The hour of a wall-clock reading in nanoseconds. */
  lemma HourOfWall(wall: int, h: int)
    ensures HourRing.AbsHour(wall / SECOND) == h
            <==> 3_600_000_000_000 * h <= wall < 3_600_000_000_000 * h + 3_600_000_000_000
  {
    HourRing.HourIs(wall / SECOND, h);
  }

  // --- Steps

  ghost function Start(workers: nat, env: Env): State
    requires Precision(env.p)
  {
    State(seq(workers, _ => Idle), SweepTrigger.Start(workers), 0, Breakdown.Start(workers), [], Empty(),
          seq(SHARDS, _ => map[]), [], HourRing.EmptyRing(env.p), [], Resting, 0, Zero(env.p))
  }

  ghost predicate Shaped(s: State, env: Env) {
    && Precision(env.p)
    && |s.trigger.held| == |s.counts.workers| == |s.pcs|
    && |s.pending.shards| == SHARDS && |s.active| == SHARDS
    && s.ring.Valid() && s.ring.p == env.p
  }

  ghost function Visit(s: State, env: Env, wall: int, key: Option<Bytes>): (s': State)
    requires Shaped(s, env)
    ensures Shaped(s', env)
  {
    var v := HourRing.Visit(HourRing.AbsHour(wall / SECOND), key);
    s.(visits := s.visits + [v], ring := HourRing.Enter(s.ring, v, env.sha1))
  }

  /** One step of worker w inside HandleFrame. */
  ghost function WorkStep(s: State, env: Env, w: nat, geo: Breakdown.Geo, now: int, wall: int): (s': State)
    requires Shaped(s, env) && w < |s.pcs|
    ensures Shaped(s', env)
  {
    match s.pcs[w]
    case Idle => s
    case Added(f) =>
      s.(trigger := SweepTrigger.Swap(s.trigger, w),
         pcs := s.pcs[w := if SweepTrigger.Wins(s.trigger, w)
                           then Sweeping(f, 0, s.pending.book.issued) else Counting(f)])
    case Sweeping(f, i, since) =>
      var last := i + 1 == SHARDS;
      s.(pending := SweepStep(s.pending, env.at, i, f.ts - PENDING_TTL),
         pcs := s.pcs[w := if last then Counting(f) else Sweeping(f, i + 1, since)],
         sweeps := if last then s.sweeps + 1 else s.sweeps)
    case Counting(f) =>
      s.(counts := Breakdown.Count(s.counts, w, Counted(f, geo)),
         counted := s.counted + [Entry(f, geo)],
         pcs := s.pcs[w := if f.dir.Request? then Touching(f) else if f.xid.Some? then Pairing(f) else Idle])
    case Touching(f) =>
      s.(active := ActiveClients.Touch(s.active, env.at, f.ip, now),
         log := s.log + [ActiveClients.Request(f.ip, now)],
         pcs := s.pcs[w := Bucketing(f)])
    case Bucketing(f) =>
      Visit(s, env, wall, Some(f.ip)).(pcs := s.pcs[w := if f.xid.Some? then Pairing(f) else Idle])
    case Pairing(f) =>
      s.(pending := if f.xid.None? then s.pending
                    else if f.dir.Request? then StoreStep(s.pending, env.at, f.ip, f.xid.value, f.ts)
                    else MatchStep(s.pending, env.at, f.ip, f.xid.value, f.ts),
         pcs := s.pcs[w := Idle])
  }

  function Counted(f: Frame, geo: Breakdown.Geo): Breakdown.Counters {
    if f.dir.Request? then Breakdown.OneRequest(geo, f.family, f.version) else Breakdown.OneResponse(geo)
  }

  /** One step of the flusher while it deals with the counters. */
  ghost function CountersStep(s: State, now: int, top: set<Asn>): State {
    if s.counts.phase.Resting?
    then s.(flush := Evicting(0, now - ActiveClients.ACTIVE_WINDOW, 0, |s.log| + 1),
            log := s.log + [ActiveClients.FlushAt(now)])
    else s.(counts := Breakdown.Advance(s.counts, top))
  }

  ghost function FlushStep(s: State, env: Env, now: int, wall: int, top: set<Asn>): (s': State)
    requires Shaped(s, env)
    ensures Shaped(s', env)
  {
    match s.flush
    case Resting =>
      s.(counts := if s.counts.phase.Resting? then s.counts.(phase := Breakdown.Taking(0)) else s.counts,
         flush := Counters)
    case Counters => CountersStep(s, now, top)
    case Evicting(i, cutoff, n, since) =>
      var kept := Sweep(s.active[i], cutoff);
      var t := s.(active := s.active[i := kept]);
      if i + 1 == SHARDS then t.(gauge := n + |kept|, flush := Expiring(0, wall, s.pending.book.issued))
      else t.(flush := Evicting(i + 1, cutoff, n + |kept|, since))
    case Expiring(i, read, since) =>
      s.(pending := SweepStep(s.pending, env.at, i, read - PENDING_TTL),
         flush := if i + 1 == SHARDS then Merging else Expiring(i + 1, read, since))
    case Merging =>
      var t := Visit(s, env, wall, None);
      t.(unique := HourRing.Merge(t.ring), flush := Resting)
  }

  ghost function Step(s: State, env: Env, e: Event): (s': State)
    requires Shaped(s, env)
    ensures Shaped(s', env)
  {
    match e
    case Begin(w, f) =>
      if w < |s.pcs| && s.pcs[w].Idle?
      then s.(trigger := SweepTrigger.Add(s.trigger, w), pcs := s.pcs[w := Added(f)]) else s
    case Work(w, geo, now, wall) =>
      if w < |s.pcs| then WorkStep(s, env, w, geo, now, wall) else s
    case Flush(now, wall, top) => FlushStep(s, env, now, wall, top)
  }

  ghost function Run(workers: nat, env: Env, events: seq<Event>): (s: State)
    requires Precision(env.p)
    ensures Shaped(s, env)
  {
    if events == [] then Start(workers, env)
    else Step(Run(workers, env, events[..|events| - 1]), env, events[|events| - 1])
  }

  // --- Counting threads

  ghost function CountPcs(pcs: seq<Pc>, which: Pc -> bool): nat {
    if pcs == [] then 0
    else CountPcs(pcs[..|pcs| - 1], which) + (if which(pcs[|pcs| - 1]) then 1 else 0)
  }

  lemma {:induction false} CountPcsUpdate(pcs: seq<Pc>, w: nat, pc: Pc, which: Pc -> bool)
    requires w < |pcs|
    ensures CountPcs(pcs[w := pc], which)
         == CountPcs(pcs, which) - (if which(pcs[w]) then 1 else 0) + (if which(pc) then 1 else 0)
  {
    var n := |pcs| - 1;
    if w == n {
      assert pcs[w := pc][..n] == pcs[..n];
    } else {
      CountPcsUpdate(pcs[..n], w, pc, which);
      assert pcs[w := pc][..n] == pcs[..n][w := pc];
    }
  }

  lemma {:induction false} CountPcsNone(pcs: seq<Pc>, which: Pc -> bool)
    requires forall w :: 0 <= w < |pcs| ==> !which(pcs[w])
    ensures CountPcs(pcs, which) == 0
  {
    if pcs != [] { CountPcsNone(pcs[..|pcs| - 1], which); }
  }

  predicate InSweep(pc: Pc) { pc.Sweeping? }

  predicate Uncounted(pc: Pc) { pc.Added? || pc.Sweeping? || pc.Counting? }

  // --- Threads: the sweep trigger and the tally of frames

  /** A worker holds a trigger value exactly between its add and its swap. */
  ghost predicate HeldMatches(s: State)
    requires |s.trigger.held| == |s.pcs|
  {
    forall w :: 0 <= w < |s.pcs| ==> (s.trigger.held[w].Some? <==> s.pcs[w].Added?)
  }

  /** Every reset of the counter is one sweep, finished or under way; every frame is counted once. */
  ghost predicate FramesTally(s: State) {
    && s.trigger.resets == s.sweeps + CountPcs(s.pcs, InSweep)
    && s.trigger.frames == |s.counts.done.requests| + |s.counts.done.responses| + CountPcs(s.pcs, Uncounted)
  }

  ghost predicate Threads(s: State) {
    |s.trigger.held| == |s.pcs| && SweepTrigger.Inv(s.trigger) && HeldMatches(s) && FramesTally(s)
  }

  lemma StartThreads(workers: nat, env: Env)
    requires Precision(env.p)
    ensures Threads(Start(workers, env))
  {
    var s := Start(workers, env);
    CountPcsNone(s.pcs, InSweep);
    CountPcsNone(s.pcs, Uncounted);
  }

  lemma MovePc(pcs: seq<Pc>, w: nat, pc: Pc)
    requires w < |pcs|
    ensures CountPcs(pcs[w := pc], InSweep)
         == CountPcs(pcs, InSweep) - (if InSweep(pcs[w]) then 1 else 0) + (if InSweep(pc) then 1 else 0)
    ensures CountPcs(pcs[w := pc], Uncounted)
         == CountPcs(pcs, Uncounted) - (if Uncounted(pcs[w]) then 1 else 0) + (if Uncounted(pc) then 1 else 0)
  {
    CountPcsUpdate(pcs, w, pc, InSweep);
    CountPcsUpdate(pcs, w, pc, Uncounted);
  }

  /** What a worker's step changes of the threads' bookkeeping. */
  lemma WorkFrame(s: State, env: Env, w: nat, geo: Breakdown.Geo, now: int, wall: int)
    requires Shaped(s, env) && w < |s.pcs|
    ensures var s' := WorkStep(s, env, w, geo, now, wall);
      && s'.pcs == s.pcs[w := s'.pcs[w]] && s'.flush == s.flush
      && s'.trigger == (if s.pcs[w].Added? then SweepTrigger.Swap(s.trigger, w) else s.trigger)
      && s'.sweeps == s.sweeps + (if InSweep(s.pcs[w]) && !InSweep(s'.pcs[w]) then 1 else 0)
      && s'.counts == (if s.pcs[w].Counting? then Breakdown.Count(s.counts, w, Counted(s.pcs[w].f, geo)) else s.counts)
  {
  }

  lemma WorkPcs(s: State, env: Env, w: nat, geo: Breakdown.Geo, now: int, wall: int)
    requires Shaped(s, env) && w < |s.pcs|
    ensures var pc := WorkStep(s, env, w, geo, now, wall).pcs[w];
      && !pc.Added?
      && (Uncounted(pc) <==> s.pcs[w].Added? || s.pcs[w].Sweeping?)
      && (InSweep(pc) ==> s.pcs[w].Sweeping? || (s.pcs[w].Added? && SweepTrigger.Wins(s.trigger, w)))
      && (s.pcs[w].Added? && SweepTrigger.Wins(s.trigger, w) ==> InSweep(pc))
  {
  }

  lemma WorkThreads(s: State, env: Env, w: nat, geo: Breakdown.Geo, now: int, wall: int)
    requires Shaped(s, env) && Threads(s) && w < |s.pcs|
    ensures Threads(WorkStep(s, env, w, geo, now, wall))
  {
    var s' := WorkStep(s, env, w, geo, now, wall);
    WorkFrame(s, env, w, geo, now, wall);
    WorkPcs(s, env, w, geo, now, wall);
    MovePc(s.pcs, w, s'.pcs[w]);
    SweepTrigger.SwapKeeps(s.trigger, w);
  }

  lemma StepThreads(s: State, env: Env, e: Event)
    requires Shaped(s, env) && Threads(s)
    ensures Threads(Step(s, env, e))
  {
    match e
    case Begin(w, f) =>
      if w < |s.pcs| && s.pcs[w].Idle? {
        SweepTrigger.AddKeeps(s.trigger, w);
        MovePc(s.pcs, w, Added(f));
      }
    case Work(w, geo, now, wall) => if w < |s.pcs| { WorkThreads(s, env, w, geo, now, wall); }
    case Flush(now, wall, top) => FlushLeavesThreads(s, env, now, wall, top);
  }

  lemma FlushLeavesThreads(s: State, env: Env, now: int, wall: int, top: set<Asn>)
    requires Shaped(s, env)
    ensures var s' := FlushStep(s, env, now, wall, top);
            s'.pcs == s.pcs && s'.trigger == s.trigger && s'.sweeps == s.sweeps && s'.counts.done == s.counts.done
  {
  }

  lemma StepOnce(workers: nat, env: Env, events: seq<Event>, e: Event)
    requires Precision(env.p)
    ensures Run(workers, env, events + [e]) == Step(Run(workers, env, events), env, e)
  {
    assert (events + [e])[..|events|] == events;
  }

  lemma {:induction false} RunThreads(workers: nat, env: Env, events: seq<Event>)
    requires Precision(env.p)
    ensures Threads(Run(workers, env, events))
  {
    if events == [] {
      StartThreads(workers, env);
    } else {
      var init := events[..|events| - 1];
      RunThreads(workers, env, init);
      StepThreads(Run(workers, env, init), env, events[|events| - 1]);
    }
  }

  ghost predicate Quiet(s: State) { forall w :: 0 <= w < |s.pcs| ==> s.pcs[w].Idle? }

  /** In every run: frames are in the counter or in a reset; a counter at the threshold has a worker about
      to swap exactly that value; each reset is exactly one sweep; and at rest the counter is below the
      threshold, every sweep stands for at least 1024 frames and every frame has been counted. */
  lemma SweepTriggerLaw(workers: nat, env: Env, events: seq<Event>)
    requires Precision(env.p)
    ensures var s := Run(workers, env, events);
      && s.trigger.frames == s.trigger.counter + s.trigger.resetSum
      && (s.trigger.counter >= 1024 ==>
            exists w :: 0 <= w < |s.pcs| && s.pcs[w].Added? && s.trigger.held[w] == Some(s.trigger.counter))
      && s.trigger.resets == s.sweeps + CountPcs(s.pcs, InSweep)
      && (Quiet(s) ==>
            && s.trigger.counter < 1024
            && s.trigger.resets == s.sweeps
            && 1024 * s.sweeps <= s.trigger.frames
            && s.trigger.frames == |s.counts.done.requests| + |s.counts.done.responses|)
  {
    var s := Run(workers, env, events);
    RunThreads(workers, env, events);
    if s.trigger.counter >= 1024 {
      var w :| 0 <= w < |s.trigger.held| && s.trigger.held[w] == Some(s.trigger.counter);
      assert s.pcs[w].Added?;
    }
    if Quiet(s) {
      CountPcsNone(s.pcs, InSweep);
      CountPcsNone(s.pcs, Uncounted);
    }
  }

  // --- Breakdowns

  ghost predicate CountsOk(s: State) {
    Breakdown.Inv(s.counts) && (s.flush.Counters? || s.counts.phase.Resting?)
  }

  lemma FlushCounts(s: State, env: Env, now: int, wall: int, top: set<Asn>)
    requires Shaped(s, env) && CountsOk(s)
    ensures CountsOk(FlushStep(s, env, now, wall, top))
  {
    FlushFrame(s, env, now, wall, top);
    if s.flush.Counters? {
      Breakdown.AdvanceKeeps(s.counts, top);
    } else if s.flush.Resting? {
      Breakdown.BeginKeeps(s.counts);
    }
  }

  lemma FlushFrame(s: State, env: Env, now: int, wall: int, top: set<Asn>)
    requires Shaped(s, env) && (s.flush.Counters? || s.counts.phase.Resting?)
    ensures var s' := FlushStep(s, env, now, wall, top);
      && s'.counts == (if s.flush.Counters? then Breakdown.Advance(s.counts, top)
                       else if s.flush.Resting? then s.counts.(phase := Breakdown.Taking(0)) else s.counts)
      && (s'.flush.Counters? || s'.counts.phase.Resting?)
  {
  }

  lemma WorkCounts(s: State, env: Env, w: nat, geo: Breakdown.Geo, now: int, wall: int)
    requires Shaped(s, env) && CountsOk(s) && w < |s.pcs|
    ensures CountsOk(WorkStep(s, env, w, geo, now, wall))
  {
    WorkFrame(s, env, w, geo, now, wall);
    if s.pcs[w].Counting? {
      CountedIsParallel(s.pcs[w].f, geo);
      Breakdown.CountKeeps(s.counts, w, Counted(s.pcs[w].f, geo));
    }
  }

  lemma CountedIsParallel(f: Frame, geo: Breakdown.Geo)
    ensures Breakdown.Parallel(Counted(f, geo))
  {
  }

  lemma StepCounts(s: State, env: Env, e: Event)
    requires Shaped(s, env) && CountsOk(s)
    ensures CountsOk(Step(s, env, e))
  {
    match e
    case Begin(w, f) =>
    case Work(w, geo, now, wall) => if w < |s.pcs| { WorkCounts(s, env, w, geo, now, wall); }
    case Flush(now, wall, top) => FlushCounts(s, env, now, wall, top);
  }

  /** Conservation: in every run, for each breakdown, what is published, held by the flush and still in the
      workers' maps is exactly what the workers counted, key by key. */
  lemma {:induction false} CountsConserved(workers: nat, env: Env, events: seq<Event>)
    requires Precision(env.p)
    ensures CountsOk(Run(workers, env, events))
    ensures Breakdown.Conserved(Run(workers, env, events).counts)
  {
    if events == [] {
      Breakdown.StartInv(workers);
    } else {
      var init := events[..|events| - 1];
      CountsConserved(workers, env, init);
      StepCounts(Run(workers, env, init), env, events[|events| - 1]);
    }
  }

  /** After a flush with no worker counting since, the four published totals are the number of requests. */
  lemma PublishedTotalsAgree(workers: nat, env: Env, events: seq<Event>)
    requires Precision(env.p)
    requires var s := Run(workers, env, events);
      !s.flush.Counters? && forall w :: 0 <= w < |s.counts.workers| ==> s.counts.workers[w] == Breakdown.NONE
    ensures var c := Run(workers, env, events).counts;
      && c.published.requests == c.done.requests && c.published.versions == c.done.versions
      && c.published.families == c.done.families && c.asnsOut == c.done.asns
      && |c.done.requests| == |c.published.requests| == |c.published.asns|
         == |c.published.versions| == |c.published.families|
  {
    CountsConserved(workers, env, events);
    Breakdown.QuiescentTotals(Run(workers, env, events).counts);
  }

  /** Drops: in every run and for every country, what is published as dropped lies between requests minus responses
      and requests over the windows flushed so far, and is the difference if and only if no window had more responses
      than requests. */
  lemma DropsOfRun(workers: nat, env: Env, events: seq<Event>, k: Breakdown.CountryKey)
    requires Precision(env.p)
    ensures var c := Run(workers, env, events).counts;
      && c.published.drops[k] <= c.published.requests[k] <= c.published.drops[k] + c.answered[k]
      && (c.published.drops[k] + c.answered[k] == c.published.requests[k]
          <==> forall i :: 0 <= i < |c.windows| ==> c.windows[i].responses[k] <= c.windows[i].requests[k])
  {
    CountsConserved(workers, env, events);
    Breakdown.DropsExact(Run(workers, env, events).counts, k);
  }

  /** Labels: in every run, an ASN's label under an organisation never counts more than what was taken of it, nor that
      more than what the workers counted, and the unknown label counts exactly what was taken without an ASN. */
  lemma LabelsOfRun(workers: nat, env: Env, events: seq<Event>, a: Asn, org: string)
    requires Precision(env.p)
    ensures var c := Run(workers, env, events).counts; var k := Breakdown.AsnKey(a, true, org);
      && c.published.asns[(Decimal(a), org)] <= c.asnsOut[k] <= c.done.asns[k]
      && c.published.asns[Breakdown.UNKNOWN_LABEL] == |Breakdown.Anonymous(c.asnsOut)|
  {
    var c := Run(workers, env, events).counts;
    CountsConserved(workers, env, events);
    assert Breakdown.Covered(c.published.asns, c.asnsOut, a, org);
    assert Breakdown.Balance(c, Breakdown.AsnsOf, c.asnsOut);
  }

  // --- The pending table

  datatype PendingOp = Keep | StoreOp(ip: IpText, xid: Bytes, ts: int) | MatchOp(ip: IpText, xid: Bytes, ts: int)
                     | SweepOp(i: ShardId, cutoff: int)

  ghost function ApplyPending(p: Pending, at: Placement, op: PendingOp): Pending
    requires |p.shards| == SHARDS
  {
    match op
    case Keep => p
    case StoreOp(ip, xid, ts) => StoreStep(p, at, ip, xid, ts)
    case MatchOp(ip, xid, ts) => MatchStep(p, at, ip, xid, ts)
    case SweepOp(i, cutoff) => SweepStep(p, at, i, cutoff)
  }

  /** What an event does to the pending table. */
  ghost function OpOf(s: State, e: Event): PendingOp {
    match e
    case Begin(_, _) => Keep
    case Work(w, _, _, _) =>
      if w >= |s.pcs| then Keep
      else if s.pcs[w].Sweeping? then SweepOp(s.pcs[w].next, s.pcs[w].f.ts - PENDING_TTL)
      else if s.pcs[w].Pairing? && s.pcs[w].f.xid.Some? then
        var f := s.pcs[w].f;
        if f.dir.Request? then StoreOp(f.ip, f.xid.value, f.ts) else MatchOp(f.ip, f.xid.value, f.ts)
      else Keep
    case Flush(_, _, _) => if s.flush.Expiring? then SweepOp(s.flush.shard, s.flush.wall - PENDING_TTL) else Keep
  }

  lemma StepPending(s: State, env: Env, e: Event)
    requires Shaped(s, env)
    ensures Step(s, env, e).pending == ApplyPending(s.pending, env.at, OpOf(s, e))
  {
  }

  lemma ApplyPendingKeeps(p: Pending, at: Placement, op: PendingOp)
    requires PendingTable.Inv(p, at)
    ensures PendingTable.Inv(ApplyPending(p, at, op), at)
    ensures RequestBook.Extends(p.book, ApplyPending(p, at, op).book)
  {
    match op
    case Keep =>
    case StoreOp(ip, xid, ts) => StoreKeeps(p, at, ip, xid, ts);
    case MatchOp(ip, xid, ts) => MatchKeeps(p, at, ip, xid, ts);
    case SweepOp(i, cutoff) => SweepKeeps(p, at, i, cutoff);
  }

  lemma {:induction false} RunPending(workers: nat, env: Env, events: seq<Event>)
    requires Precision(env.p)
    ensures PendingTable.Inv(Run(workers, env, events).pending, env.at)
  {
    if events == [] {
      EmptyInv(env.at);
    } else {
      var init, e := events[..|events| - 1], events[|events| - 1];
      var s := Run(workers, env, init);
      RunPending(workers, env, init);
      StepPending(s, env, e);
      ApplyPendingKeeps(s.pending, env.at, OpOf(s, e));
    }
  }

  /** The pairing ledger: in every run, each request with a transaction id is still pending in one shard or
      has exactly one fate; no shard exceeds its cap; and observations are one per request matched by a
      response that was not earlier, none negative. */
  lemma PairingLedger(workers: nat, env: Env, events: seq<Event>)
    requires Precision(env.p)
    ensures var s := Run(workers, env, events).pending; var b := s.book;
      && b.issued == |set n | n in b.fates && b.fates[n].Overflowed?|
                   + |set n | n in b.fates && b.fates[n].Overwritten?|
                   + |set n | n in b.fates && b.fates[n].Matched?|
                   + |set n | n in b.fates && b.fates[n].Swept?|
                   + Size(s.shards)
      && RequestBook.Apart(b) && RequestBook.ObservedOnce(b)
      && Bounded(s.shards)
  {
    RunPending(workers, env, events);
    RequestBook.CountsByFate(Run(workers, env, events).pending.book);
  }

  /** Requests are refused only by full shards: in every run, an event adds an overflow exactly when it is the pairing
      section of a request whose key its shard lacks while it holds 50000 entries. */
  lemma OverflowsWhenFull(workers: nat, env: Env, events: seq<Event>, e: Event)
    requires Precision(env.p)
    ensures var s := Run(workers, env, events); var b, b' := s.pending.book, Step(s, env, e).pending.book;
      && (RefusedBy(s, env, e) ==> |RequestBook.Overflows(b')| == |RequestBook.Overflows(b)| + 1)
      && (!RefusedBy(s, env, e) ==> RequestBook.Overflows(b') == RequestBook.Overflows(b))
  {
    var s := Run(workers, env, events);
    RunPending(workers, env, events);
    StepPending(s, env, e);
    OpOverflows(s.pending, env.at, OpOf(s, e));
    RefusedOp(s, env, e);
  }

  lemma RefusedOp(s: State, env: Env, e: Event)
    requires Shaped(s, env) && Bounded(s.pending.shards)
    ensures var op := OpOf(s, e);
      RefusedBy(s, env, e) <==> op.StoreOp? && !HasRoom(s.pending.shards[env.at(op.ip)], op.ip + [124] + op.xid)
  {
  }

  /** The event is a request's pairing section, and the client's shard is full and lacks the key. */
  ghost predicate RefusedBy(s: State, env: Env, e: Event)
    requires Shaped(s, env)
  {
    && e.Work? && e.w < |s.pcs| && s.pcs[e.w].Pairing?
    && var f := s.pcs[e.w].f;
       && f.dir.Request? && f.xid.Some? && |s.pending.shards[env.at(f.ip)]| == 50000
       && f.ip + [124] + f.xid.value !in s.pending.shards[env.at(f.ip)]
  }

  lemma OpOverflows(p: Pending, at: Placement, op: PendingOp)
    requires PendingTable.Inv(p, at)
    ensures var b, b' := p.book, ApplyPending(p, at, op).book;
      var refused := op.StoreOp? && !HasRoom(p.shards[at(op.ip)], op.ip + [124] + op.xid);
      && (refused ==> |RequestBook.Overflows(b')| == |RequestBook.Overflows(b)| + 1)
      && (!refused ==> RequestBook.Overflows(b') == RequestBook.Overflows(b))
  {
    match op
    case Keep =>
    case StoreOp(ip, xid, ts) =>
      RequestBook.RefuseOverflows(p.book);
      RequestBook.OthersDoNotOverflow(p.book, PendingKey(ip, xid), None, {});
    case MatchOp(ip, xid, ts) =>
      var i, k := at(ip), PendingKey(ip, xid);
      var d := if k in p.shards[i] then RequestBook.Latency(ts, p.shards[i][k]) else None;
      RequestBook.OthersDoNotOverflow(p.book, k, d, {});
    case SweepOp(i, cutoff) =>
      RequestBook.OthersDoNotOverflow(p.book, [], None, Expired(p.shards[i], cutoff));
  }

  /** The fates after the first run are still those after the second. */
  ghost predicate FatesKept(workers: nat, env: Env, events: seq<Event>, more: seq<Event>)
    requires Precision(env.p)
  {
    RequestBook.Extends(Run(workers, env, events).pending.book, Run(workers, env, more).pending.book)
  }

  lemma StepExtends(workers: nat, env: Env, events: seq<Event>, more: seq<Event>, e: Event)
    requires Precision(env.p) && FatesKept(workers, env, events, more)
    ensures FatesKept(workers, env, events, more + [e])
  {
    var s := Run(workers, env, more);
    StepOnce(workers, env, more, e);
    RunPending(workers, env, more);
    StepPending(s, env, e);
    ApplyPendingKeeps(s.pending, env.at, OpOf(s, e));
    ExtendsFurther(Run(workers, env, events).pending.book, s.pending.book,
                   Run(workers, env, more + [e]).pending.book);
  }

  lemma ExtendsFurther(a: RequestBook.Book, b: RequestBook.Book, c: RequestBook.Book)
    requires RequestBook.Extends(a, b) && RequestBook.Extends(b, c)
    ensures RequestBook.Extends(a, c)
  {
  }

  /** A fate, and with it a latency observation, is never revised by anything that follows. */
  lemma {:induction false} FatesAreFinal(workers: nat, env: Env, events: seq<Event>, later: seq<Event>)
    requires Precision(env.p)
    ensures FatesKept(workers, env, events, events + later)
    decreases |later|
  {
    if later == [] {
      assert events + later == events;
    } else {
      var init, e := later[..|later| - 1], later[|later| - 1];
      FatesAreFinal(workers, env, events, init);
      StepExtends(workers, env, events, events + init, e);
      assert events + later == events + init + [e];
    }
  }

  /** Sharding is invisible: while no request was refused, the 16 string-keyed maps are one table keyed by
      (address, transaction id), whichever workers handled the frames, and observed exactly its latencies. */
  lemma ShardsRefineOneTable(workers: nat, env: Env, events: seq<Event>, ip: IpText, xid: Bytes)
    requires Precision(env.p) && RequestBook.NoOverflow(Run(workers, env, events).pending.book)
    ensures var s := Run(workers, env, events).pending; var k := PendingKey(ip, xid);
      && ((ip, xid) in s.pairs <==> k in s.shards[env.at(ip)])
      && ((ip, xid) in s.pairs ==> s.pairs[(ip, xid)] == s.shards[env.at(ip)][k])
      && s.book.latencies == s.pairLatencies
      && (forall i :: 0 <= i < SHARDS && i != env.at(ip) ==> k !in s.shards[i])
  {
    var s := Run(workers, env, events).pending;
    RunPending(workers, env, events);
    PairsLookup(s.flat, s.pairs, ip, xid);
    PendingKeySplits(ip, xid);
    assert HomeOf(env.at)(PendingKey(ip, xid)) == env.at(ip);
  }

  // --- The hourly ring

  lemma VisitRuns(s: State, env: Env, wall: int, key: Option<Bytes>)
    requires Shaped(s, env) && s.ring == HourRing.Run(env.p, s.visits, env.sha1)
    ensures var s' := Visit(s, env, wall, key); s'.ring == HourRing.Run(env.p, s'.visits, env.sha1)
  {
    HourRing.RunSnoc(env.p, s.visits, HourRing.Visit(HourRing.AbsHour(wall / SECOND), key), env.sha1);
  }

  ghost function KeyOf(s: State, e: Event): Option<Bytes> {
    if e.Work? && e.w < |s.pcs| && s.pcs[e.w].Bucketing? then Some(s.pcs[e.w].f.ip) else None
  }

  lemma StepVisits(s: State, env: Env, e: Event)
    requires Shaped(s, env)
    ensures var s' := Step(s, env, e);
      (s'.ring == s.ring && s'.visits == s.visits)
      || (!e.Begin? && var t := Visit(s, env, e.wall, KeyOf(s, e)); s'.ring == t.ring && s'.visits == t.visits)
  {
  }

  lemma StepRing(s: State, env: Env, e: Event)
    requires Shaped(s, env) && s.ring == HourRing.Run(env.p, s.visits, env.sha1)
    ensures var s' := Step(s, env, e); s'.ring == HourRing.Run(env.p, s'.visits, env.sha1)
  {
    StepVisits(s, env, e);
    if !e.Begin? { VisitRuns(s, env, e.wall, KeyOf(s, e)); }
  }

  lemma {:induction false} RunRing(workers: nat, env: Env, events: seq<Event>)
    requires Precision(env.p)
    ensures var s := Run(workers, env, events); s.ring == HourRing.Run(env.p, s.visits, env.sha1)
  {
    if events != [] {
      var init := events[..|events| - 1];
      RunRing(workers, env, init);
      StepRing(Run(workers, env, init), env, events[|events| - 1]);
    }
  }

  /** The unique-clients sketch a flush merges is, in any run and whatever the wall clock does, that of the clients
      whose hour's slot no later section passed. */
  lemma UniqueClientsKept(workers: nat, env: Env, events: seq<Event>, now: int, wall: int, top: set<Asn>)
    requires Precision(env.p)
    requires Run(workers, env, events).flush.Merging?
    ensures var s := Run(workers, env, events + [Flush(now, wall, top)]);
      Represents(s.unique, env.p, env.sha1, HourRing.Kept(s.visits))
  {
    var e := Flush(now, wall, top);
    StepOnce(workers, env, events, e);
    RunRing(workers, env, events + [e]);
    HourRing.MergedIsKept(env.p, Run(workers, env, events + [e]).visits, env.sha1);
  }

  /** When the clock never runs back and never rests for a day, these are exactly the clients of the last 24 hours. */
  lemma UniqueClientsWindow(workers: nat, env: Env, events: seq<Event>, now: int, wall: int, top: set<Asn>)
    requires Precision(env.p)
    requires Run(workers, env, events).flush.Merging?
    requires HourRing.Steady(Run(workers, env, events + [Flush(now, wall, top)]).visits)
    ensures var s := Run(workers, env, events + [Flush(now, wall, top)]);
      Represents(s.unique, env.p, env.sha1, HourRing.Window(s.visits, HourRing.AbsHour(wall / SECOND)))
  {
    var e := Flush(now, wall, top);
    StepOnce(workers, env, events, e);
    UniqueClientsKept(workers, env, events, now, wall, top);
    HourRing.KeptIsWindow(Run(workers, env, events + [e]).visits);
  }
}
