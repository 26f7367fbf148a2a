/** A run of the collector machine in which more is published as dropped than requests minus responses: the response
    is flushed before its request. */
module EarlyResponse {
  import opened HyperLogLog
  import opened AsnRanking
  import opened PendingTable
  import opened CollectorMachine
  import B = Breakdown
  import SweepTrigger

  function Remaining(f: FlushPc): nat {
    match f
    case Resting => 0
    case Counters => 0
    case Evicting(i, _, _, _) => 2 * SHARDS + 1 - i
    case Expiring(i, _, _) => SHARDS + 1 - i
    case Merging => 1
  }

  /** Past its counters a flush only needs more steps to rest. */
  lemma {:induction false} FlushRests(workers: nat, env: Env, events: seq<Event>, e: Event) returns (all: seq<Event>)
    requires Precision(env.p) && e.Flush? && !Run(workers, env, events).flush.Counters?
    ensures var s, s' := Run(workers, env, events), Run(workers, env, all);
      s'.flush.Resting? && s'.counts == s.counts && s'.pcs == s.pcs
    decreases Remaining(Run(workers, env, events).flush)
  {
    if Run(workers, env, events).flush.Resting? {
      all := events;
    } else {
      StepOnce(workers, env, events, e);
      all := FlushRests(workers, env, events + [e], e);
    }
  }

  /** A run of one worker that leaves the flusher inside or outside its counter phases, with these counters. */
  ghost predicate Leads(env: Env, events: seq<Event>, inside: bool, c: B.State, pcs: seq<Pc>)
    requires Precision(env.p)
  {
    var s := Run(1, env, events);
    (if inside then s.flush.Counters? else s.flush.Resting?) && s.counts == c && s.pcs == pcs
  }

  lemma Advances(env: Env, events: seq<Event>, e: Event, c: B.State, pcs: seq<Pc>) returns (all: seq<Event>)
    requires Precision(env.p) && e.Flush? && !c.phase.Resting? && Leads(env, events, true, c, pcs)
    ensures Leads(env, all, true, B.Advance(c, e.top), pcs)
  {
    StepOnce(1, env, events, e);
    all := events + [e];
  }

  /** The counters once the flush has taken the only worker's maps. */
  function Taken(c: B.State): B.State
    requires |c.workers| == 1
  {
    B.Take(c.(phase := B.Taking(0))).(phase := B.Countries)
  }

  lemma TakesAll(env: Env, events: seq<Event>, e: Event, c: B.State, pcs: seq<Pc>) returns (all: seq<Event>)
    requires Precision(env.p) && e.Flush? && |c.workers| == 1 && c.phase.Resting? && Leads(env, events, false, c, pcs)
    ensures Leads(env, all, true, Taken(c), pcs)
  {
    var c0 := c.(phase := B.Taking(0));
    StepOnce(1, env, events, e);
    all := events + [e];
    assert Leads(env, all, true, c0, pcs);
    all := Advances(env, all, e, c0, pcs);
    all := Advances(env, all, e, B.Take(c0), pcs);
  }

  ghost function Twice(c: B.State, top: set<Asn>): B.State { B.Advance(B.Advance(c, top), top) }

  /** The counters after all four breakdowns are published. */
  ghost function PublishedAll(c: B.State, top: set<Asn>): B.State { Twice(Twice(c, top), top) }

  lemma TwiceFromCountries(c: B.State, top: set<Asn>)
    requires c.phase.Countries?
    ensures Twice(c, top) == B.PublishAsns(B.PublishCountries(c), top)
  {
  }

  lemma TwiceFromVersions(c: B.State, top: set<Asn>)
    requires c.phase.Versions?
    ensures Twice(c, top) == B.PublishFamilies(B.PublishVersions(c))
  {
  }

  lemma PublishedAllIs(c: B.State, top: set<Asn>)
    requires c.phase.Countries?
    ensures var r := PublishedAll(c, top);
      && r.phase.Resting? && r.workers == c.workers && r.held == B.NONE && r.done == c.done
      && r.published.requests == c.published.requests + c.held.requests
      && r.published.drops == c.published.drops + (c.held.requests - c.held.responses)
      && r.answered == c.answered + c.held.responses
  {
    var d := B.PublishAsns(B.PublishCountries(c), top);
    TwiceFromCountries(c, top);
    TwiceFromVersions(d, top);
    assert PublishedAll(c, top) == B.PublishFamilies(B.PublishVersions(d));
  }

  lemma PublishesTwo(env: Env, events: seq<Event>, e: Event, c: B.State, pcs: seq<Pc>) returns (all: seq<Event>)
    requires Precision(env.p) && e.Flush? && !c.phase.Resting? && Leads(env, events, true, c, pcs)
    requires !B.Advance(c, e.top).phase.Resting?
    ensures Leads(env, all, true, Twice(c, e.top), pcs)
  {
    all := Advances(env, events, e, c, pcs);
    all := Advances(env, all, e, B.Advance(c, e.top), pcs);
  }

  lemma PublishesAll(env: Env, events: seq<Event>, e: Event, c: B.State, pcs: seq<Pc>) returns (all: seq<Event>)
    requires Precision(env.p) && e.Flush? && c.phase.Countries? && Leads(env, events, true, c, pcs)
    ensures Leads(env, all, true, PublishedAll(c, e.top), pcs)
  {
    TwiceFromCountries(c, e.top);
    all := PublishesTwo(env, events, e, c, pcs);
    all := PublishesTwo(env, all, e, Twice(c, e.top), pcs);
  }

  /** A flush of a single worker from start to end. */
  lemma WholeFlush(env: Env, events: seq<Event>, e: Event, c: B.State, pcs: seq<Pc>) returns (all: seq<Event>)
    requires Precision(env.p) && e.Flush? && |c.workers| == 1 && c.phase.Resting? && Leads(env, events, false, c, pcs)
    ensures Leads(env, all, false, PublishedAll(Taken(c), e.top), pcs)
  {
    all := TakesAll(env, events, e, c, pcs);
    all := PublishesAll(env, all, e, Taken(c), pcs);
    PublishedAllIs(Taken(c), e.top);
    StepOnce(1, env, all, e);
    all := FlushRests(1, env, all + [e], e);
  }

  lemma FewFramesNoSweep(env: Env, events: seq<Event>, f: Frame)
    requires Precision(env.p)
    requires var s := Run(1, env, events);
      && s.pcs == [Idle]
      && |s.counts.done.requests| + |s.counts.done.responses| + 1 < SweepTrigger.SWEEP_EVERY
    ensures var t := Run(1, env, events).trigger; |t.held| == 1 && !SweepTrigger.Wins(SweepTrigger.Add(t, 0), 0)
  {
    var s := Run(1, env, events);
    RunThreads(1, env, events);
    assert s.pcs[..0] == [] && CountPcs(s.pcs, Uncounted) == 0;
  }

  /** A frame without transaction id counted by a single idle worker. */
  lemma CountsOne(env: Env, events: seq<Event>, f: Frame, geo: B.Geo, c: B.State)
      returns (all: seq<Event>)
    requires Precision(env.p) && f.xid.None? && |c.workers| == 1 && Leads(env, events, false, c, [Idle])
    requires |c.done.requests| + |c.done.responses| + 1 < SweepTrigger.SWEEP_EVERY
    ensures Leads(env, all, false, B.Count(c, 0, Counted(f, geo)), [if f.dir.Request? then Touching(f) else Idle])
  {
    var e := Work(0, geo, 0, 0);
    FewFramesNoSweep(env, events, f);
    StepOnce(1, env, events, Begin(0, f));
    all := events + [Begin(0, f)];
    StepOnce(1, env, all, e);
    all := all + [e];
    assert Run(1, env, all).pcs == [Counting(f)];
    StepOnce(1, env, all, e);
    all := all + [e];
  }

  /** The counters after one frame and one flush. */
  ghost function Round(c: B.State, f: Frame, geo: B.Geo, top: set<Asn>): B.State
    requires |c.workers| == 1
  {
    PublishedAll(Taken(B.Count(c, 0, Counted(f, geo))), top)
  }

  lemma TakenHolds(c: B.State, n: B.Counters)
    requires c.workers == [B.NONE] && c.held == B.NONE
    ensures var t := Taken(B.Count(c, 0, n));
      t.workers == [B.NONE] && t.held == n && t.published == c.published && t.answered == c.answered
      && t.done == B.Plus(c.done, n) && t.phase.Countries?
  {
    assert B.Plus(B.NONE, B.Plus(B.NONE, n)) == n;
  }

  lemma RoundPublishes(c: B.State, f: Frame, geo: B.Geo, top: set<Asn>)
    requires c.workers == [B.NONE] && c.held == B.NONE
    ensures var r := Round(c, f, geo, top); var n := Counted(f, geo);
      && r.workers == [B.NONE] && r.held == B.NONE && r.phase.Resting? && r.done == B.Plus(c.done, n)
      && r.published.requests == c.published.requests + n.requests
      && r.published.drops == c.published.drops + (n.requests - n.responses)
      && r.answered == c.answered + n.responses
  {
    TakenHolds(c, Counted(f, geo));
    PublishedAllIs(Taken(B.Count(c, 0, Counted(f, geo))), top);
  }

  lemma CountsAndFlushes(env: Env, events: seq<Event>, f: Frame, geo: B.Geo, e: Event, c: B.State)
      returns (all: seq<Event>)
    requires Precision(env.p) && e.Flush? && f.xid.None? && |c.workers| == 1 && c.phase.Resting?
    requires Leads(env, events, false, c, [Idle])
    requires |c.done.requests| + |c.done.responses| + 1 < SweepTrigger.SWEEP_EVERY
    ensures Leads(env, all, false, Round(c, f, geo, e.top), [if f.dir.Request? then Touching(f) else Idle])
  {
    all := CountsOne(env, events, f, geo, c);
    all := WholeFlush(env, all, e, B.Count(c, 0, Counted(f, geo)), [if f.dir.Request? then Touching(f) else Idle]);
  }

  /** A response, a flush, a request, a flush: one request and one response of a country, and yet one drop. */
  lemma EarlyResponseAddsDrop(env: Env, q: Frame, r: Frame, geo: B.Geo, e: Event) returns (all: seq<Event>)
    requires Precision(env.p) && e.Flush?
    requires q.dir.Request? && r.dir.Response? && q.xid.None? && r.xid.None?
    ensures var c := Run(1, env, all).counts; var k := B.CountryKey(geo.country, geo.continent);
      c.published.requests[k] == c.answered[k] == c.published.drops[k] == 1
  {
    var c := B.Start(1);
    all := CountsAndFlushes(env, [], r, geo, e, c);
    RoundPublishes(c, r, geo, e.top);
    c := Round(c, r, geo, e.top);
    all := CountsAndFlushes(env, all, q, geo, e, c);
    RoundPublishes(c, q, geo, e.top);
  }
}
