/** Every frame goes through each of its sections once, with its own contents: what the machine of CollectorMachine
    counted, entered and recorded, against the frames themselves. */
module Sections {
  import opened Bytes
  import opened MapCounts
  import opened HyperLogLog
  import opened AsnRanking
  import A = ActiveClients
  import B = Breakdown
  import HR = HourRing
  import opened CollectorMachine

  // --- The counters

  function IsRequest(k: B.CountryKey): Entry -> bool {
    (e: Entry) => e.f.dir.Request? && e.geo.country == k.country && e.geo.continent == k.continent
  }

  function IsResponse(k: B.CountryKey): Entry -> bool {
    (e: Entry) => e.f.dir.Response? && e.geo.country == k.country && e.geo.continent == k.continent
  }

  function HasAsn(k: B.AsnKey): Entry -> bool {
    (e: Entry) => e.f.dir.Request? && e.geo.asn == k.asn && e.geo.hasAsn == k.hasAsn && e.geo.org == k.org
  }

  /** The version of a request, a missing one being "other". */
  function HasVersion(v: string): Entry -> bool {
    (e: Entry) => e.f.dir.Request? && (if e.f.version == "" then v == "other" else e.f.version == v)
  }

  function HasFamily(x: string): Entry -> bool { (e: Entry) => e.f.dir.Request? && e.f.family == x }

  /** Each counter is the number of frames of its kind. */
  ghost predicate CountsFrames(c: B.Counters, frames: seq<Entry>) {
    && (forall k :: c.requests[k] == NumberOf(frames, IsRequest(k)))
    && (forall k :: c.responses[k] == NumberOf(frames, IsResponse(k)))
    && (forall k :: c.asns[k] == NumberOf(frames, HasAsn(k)))
    && (forall v :: c.versions[v] == NumberOf(frames, HasVersion(v)))
    && (forall x :: c.families[x] == NumberOf(frames, HasFamily(x)))
  }

  lemma RequestMore(c: B.Counters, frames: seq<Entry>, e: Entry, k: B.CountryKey)
    requires c.requests[k] == NumberOf(frames, IsRequest(k))
    ensures B.Plus(c, Counted(e.f, e.geo)).requests[k] == NumberOf(frames + [e], IsRequest(k))
  {
    NumberOfSnoc(frames, e, IsRequest(k));
  }

  lemma ResponseMore(c: B.Counters, frames: seq<Entry>, e: Entry, k: B.CountryKey)
    requires c.responses[k] == NumberOf(frames, IsResponse(k))
    ensures B.Plus(c, Counted(e.f, e.geo)).responses[k] == NumberOf(frames + [e], IsResponse(k))
  {
    NumberOfSnoc(frames, e, IsResponse(k));
  }

  lemma AsnMore(c: B.Counters, frames: seq<Entry>, e: Entry, k: B.AsnKey)
    requires c.asns[k] == NumberOf(frames, HasAsn(k))
    ensures B.Plus(c, Counted(e.f, e.geo)).asns[k] == NumberOf(frames + [e], HasAsn(k))
  {
    NumberOfSnoc(frames, e, HasAsn(k));
  }

  lemma VersionMore(c: B.Counters, frames: seq<Entry>, e: Entry, v: string)
    requires c.versions[v] == NumberOf(frames, HasVersion(v))
    ensures B.Plus(c, Counted(e.f, e.geo)).versions[v] == NumberOf(frames + [e], HasVersion(v))
  {
    NumberOfSnoc(frames, e, HasVersion(v));
  }

  lemma FamilyMore(c: B.Counters, frames: seq<Entry>, e: Entry, x: string)
    requires c.families[x] == NumberOf(frames, HasFamily(x))
    ensures B.Plus(c, Counted(e.f, e.geo)).families[x] == NumberOf(frames + [e], HasFamily(x))
  {
    NumberOfSnoc(frames, e, HasFamily(x));
  }

  lemma CountOneMore(c: B.Counters, frames: seq<Entry>, e: Entry, d: B.Counters)
    requires CountsFrames(c, frames) && d == B.Plus(c, Counted(e.f, e.geo))
    ensures CountsFrames(d, frames + [e])
  {
    forall k ensures d.requests[k] == NumberOf(frames + [e], IsRequest(k)) { RequestMore(c, frames, e, k); }
    forall k ensures d.responses[k] == NumberOf(frames + [e], IsResponse(k)) { ResponseMore(c, frames, e, k); }
    forall k ensures d.asns[k] == NumberOf(frames + [e], HasAsn(k)) { AsnMore(c, frames, e, k); }
    forall v ensures d.versions[v] == NumberOf(frames + [e], HasVersion(v)) { VersionMore(c, frames, e, v); }
    forall x ensures d.families[x] == NumberOf(frames + [e], HasFamily(x)) { FamilyMore(c, frames, e, x); }
  }

  lemma StepCounted(s: State, env: Env, e: Event)
    requires Shaped(s, env)
    ensures var s' := Step(s, env, e);
      (s'.counts.done == s.counts.done && s'.counted == s.counted)
      || exists x :: s'.counted == s.counted + [x] && s'.counts.done == B.Plus(s.counts.done, Counted(x.f, x.geo))
  {
    if e.Work? && e.w < |s.pcs| && s.pcs[e.w].Counting? {
      var x := Entry(s.pcs[e.w].f, e.geo);
      assert Step(s, env, e).counted == s.counted + [x];
    }
  }

  /** In every run each breakdown has counted exactly the frames of its kind: requests and responses by country and
      continent, requests by network, by version and by family. */
  lemma {:induction false} CountersCountFrames(workers: nat, env: Env, events: seq<Event>)
    requires Precision(env.p)
    ensures var s := Run(workers, env, events); CountsFrames(s.counts.done, s.counted)
  {
    if events != [] {
      var init, e := events[..|events| - 1], events[|events| - 1];
      var s := Run(workers, env, init);
      CountersCountFrames(workers, env, init);
      StepCounted(s, env, e);
      if Step(s, env, e).counted != s.counted {
        var x :| Step(s, env, e).counted == s.counted + [x]
          && Step(s, env, e).counts.done == B.Plus(s.counts.done, Counted(x.f, x.geo));
        CountOneMore(s.counts.done, s.counted, x, Step(s, env, e).counts.done);
      }
    }
  }

  /** So after a flush with empty worker maps every published counter is the number of frames of its kind. */
  lemma PublishedCountsFrames(workers: nat, env: Env, events: seq<Event>)
    requires Precision(env.p)
    requires var s := Run(workers, env, events);
      !s.flush.Counters? && forall w :: 0 <= w < |s.counts.workers| ==> s.counts.workers[w] == B.NONE
    ensures var s := Run(workers, env, events);
      && (forall k :: s.counts.published.requests[k] == NumberOf(s.counted, IsRequest(k)))
      && (forall v :: s.counts.published.versions[v] == NumberOf(s.counted, HasVersion(v)))
      && (forall x :: s.counts.published.families[x] == NumberOf(s.counted, HasFamily(x)))
      && (forall k :: s.counts.asnsOut[k] == NumberOf(s.counted, HasAsn(k)))
  {
    CountersCountFrames(workers, env, events);
    CountsConserved(workers, env, events);
    B.QuiescentTotals(Run(workers, env, events).counts);
  }

  // --- The sections of a request

  /** A counted request of this client; and where workers stand between the sections of one. */
  function RequestOf(ip: IpText): Entry -> bool { (e: Entry) => e.f.dir.Request? && e.f.ip == ip }

  function BeforeTouch(ip: IpText): Pc -> bool { (pc: Pc) => pc.Touching? && pc.f.ip == ip }

  function BeforeBucket(ip: IpText): Pc -> bool {
    (pc: Pc) => (pc.Touching? || pc.Bucketing?) && pc.f.ip == ip
  }

  function Touched(ip: IpText): A.Call -> bool { (c: A.Call) => c.Request? && c.ip == ip }

  function Visited(ip: IpText): HR.Visit -> bool { (v: HR.Visit) => v.key == Some(ip) }

  function WithId(): Entry -> bool { (e: Entry) => e.f.dir.Request? && e.f.xid.Some? }

  function BeforePairing(): Pc -> bool {
    (pc: Pc) => (pc.Touching? || pc.Bucketing? || (pc.Pairing? && pc.f.dir.Request?)) && pc.f.xid.Some?
  }

  /** Every counted request was entered among the active clients and recorded in the hourly ring once, under its own
      address, unless its worker is still on the way there. */
  ghost predicate PassedThrough(s: State, ip: IpText) {
    && NumberOf(s.counted, RequestOf(ip)) == NumberOf(s.log, Touched(ip)) + CountPcs(s.pcs, BeforeTouch(ip))
    && NumberOf(s.counted, RequestOf(ip)) == NumberOf(s.visits, Visited(ip)) + CountPcs(s.pcs, BeforeBucket(ip))
  }

  /** And every counted request with a transaction id came to the pairing table once. */
  ghost predicate CameToPairing(s: State) {
    NumberOf(s.counted, WithId()) == s.pending.book.issued + CountPcs(s.pcs, BeforePairing())
  }

  /** Only requests stand before their own sections. */
  ghost predicate RequestsOnly(s: State) {
    forall w :: 0 <= w < |s.pcs| && (s.pcs[w].Touching? || s.pcs[w].Bucketing?) ==> s.pcs[w].f.dir.Request?
  }

  /** The worker an event moves, as it stands before. */
  ghost function Mover(s: State, e: Event): Pc { if e.Work? && e.w < |s.pcs| then s.pcs[e.w] else Idle }

  /** What a step adds to the three lists. */
  lemma StepLists(s: State, env: Env, e: Event)
    requires Shaped(s, env)
    ensures var s', pc := Step(s, env, e), Mover(s, e);
      && s'.counted == (if pc.Counting? then s.counted + [Entry(pc.f, e.geo)] else s.counted)
      && (pc.Touching? ==> s'.log == s.log + [A.Request(pc.f.ip, e.now)])
      && (!pc.Touching? ==> s'.log == s.log || exists t :: s'.log == s.log + [A.FlushAt(t)])
      && (pc.Bucketing? ==> s'.visits == s.visits + [HR.Visit(HR.AbsHour(e.wall / SECOND), Some(pc.f.ip))])
      && (!pc.Bucketing? ==> s'.visits == s.visits || exists h :: s'.visits == s.visits + [HR.Visit(h, None)])
  {
  }

  lemma StepCountedOf(s: State, env: Env, e: Event, ip: IpText)
    requires Shaped(s, env)
    ensures var pc := Mover(s, e);
      NumberOf(Step(s, env, e).counted, RequestOf(ip))
      == NumberOf(s.counted, RequestOf(ip)) + (if pc.Counting? && pc.f.dir.Request? && pc.f.ip == ip then 1 else 0)
  {
    StepLists(s, env, e);
    if Mover(s, e).Counting? { NumberOfSnoc(s.counted, Entry(Mover(s, e).f, e.geo), RequestOf(ip)); }
  }

  lemma StepLogOf(s: State, env: Env, e: Event, ip: IpText)
    requires Shaped(s, env)
    ensures var pc := Mover(s, e);
      NumberOf(Step(s, env, e).log, Touched(ip))
      == NumberOf(s.log, Touched(ip)) + (if pc.Touching? && pc.f.ip == ip then 1 else 0)
  {
    StepLists(s, env, e);
    var s' := Step(s, env, e);
    if s'.log != s.log { NumberOfSnoc(s.log, s'.log[|s.log|], Touched(ip)); }
  }

  lemma StepVisitsOf(s: State, env: Env, e: Event, ip: IpText)
    requires Shaped(s, env)
    ensures var pc := Mover(s, e);
      NumberOf(Step(s, env, e).visits, Visited(ip))
      == NumberOf(s.visits, Visited(ip)) + (if pc.Bucketing? && pc.f.ip == ip then 1 else 0)
  {
    StepLists(s, env, e);
    var s' := Step(s, env, e);
    if s'.visits != s.visits { NumberOfSnoc(s.visits, s'.visits[|s.visits|], Visited(ip)); }
  }

  /** Where a step leaves its worker, as far as these sections go. */
  lemma StepPcs(s: State, env: Env, e: Event, which: Pc -> bool)
    requires Shaped(s, env)
    ensures var s' := Step(s, env, e);
      if !e.Flush? && e.w < |s.pcs|
      then CountPcs(s'.pcs, which)
           == CountPcs(s.pcs, which) - (if which(s.pcs[e.w]) then 1 else 0) + (if which(s'.pcs[e.w]) then 1 else 0)
      else CountPcs(s'.pcs, which) == CountPcs(s.pcs, which)
  {
    if !e.Flush? && e.w < |s.pcs| {
      StepOthers(s, env, e);
      CountPcsUpdate(s.pcs, e.w, Step(s, env, e).pcs[e.w], which);
    } else {
      StepStays(s, env, e);
    }
  }

  /** How a worker moves from one of these sections to the next. */
  lemma StepMoves(s: State, env: Env, e: Event)
    requires Shaped(s, env) && RequestsOnly(s) && !e.Flush? && e.w < |s.pcs|
    ensures var pc, pc' := Mover(s, e), Step(s, env, e).pcs[e.w];
      && (pc'.Touching? <==> (e.Work? && pc.Counting? && pc.f.dir.Request?) || (e.Begin? && s.pcs[e.w].Touching?))
      && (pc'.Bucketing? <==> (e.Work? && pc.Touching?) || (e.Begin? && s.pcs[e.w].Bucketing?))
      && (e.Begin? && !s.pcs[e.w].Idle? ==> pc' == s.pcs[e.w])
      && (pc'.Touching? || pc'.Bucketing? ==> s.pcs[e.w].Counting? || s.pcs[e.w].Touching? || s.pcs[e.w].Bucketing?)
      && (pc'.Touching? || pc'.Bucketing? ==> pc'.f == s.pcs[e.w].f)
  {
  }

  lemma StepRequestsOnly(s: State, env: Env, e: Event)
    requires Shaped(s, env) && RequestsOnly(s)
    ensures RequestsOnly(Step(s, env, e))
  {
    if !e.Flush? && e.w < |s.pcs| {
      StepMoves(s, env, e);
      StepOthers(s, env, e);
    } else {
      StepStays(s, env, e);
    }
  }

  lemma StepOthers(s: State, env: Env, e: Event)
    requires Shaped(s, env) && !e.Flush? && e.w < |s.pcs|
    ensures Step(s, env, e).pcs == s.pcs[e.w := Step(s, env, e).pcs[e.w]]
  {
  }

  lemma StepStays(s: State, env: Env, e: Event)
    requires Shaped(s, env) && (e.Flush? || e.w >= |s.pcs|)
    ensures Step(s, env, e).pcs == s.pcs
  {
    if e.Flush? { FlushLeavesThreads(s, env, e.now, e.wall, e.top); }
  }

  lemma StepTouch(s: State, env: Env, e: Event, ip: IpText)
    requires Shaped(s, env) && RequestsOnly(s)
    ensures var pc := Mover(s, e);
      CountPcs(Step(s, env, e).pcs, BeforeTouch(ip))
      == CountPcs(s.pcs, BeforeTouch(ip)) - (if pc.Touching? && pc.f.ip == ip then 1 else 0)
         + (if pc.Counting? && pc.f.dir.Request? && pc.f.ip == ip then 1 else 0)
  {
    StepPcs(s, env, e, BeforeTouch(ip));
    if !e.Flush? && e.w < |s.pcs| { StepMoves(s, env, e); }
  }

  lemma StepBucket(s: State, env: Env, e: Event, ip: IpText)
    requires Shaped(s, env) && RequestsOnly(s)
    ensures var pc := Mover(s, e);
      CountPcs(Step(s, env, e).pcs, BeforeBucket(ip))
      == CountPcs(s.pcs, BeforeBucket(ip)) - (if pc.Bucketing? && pc.f.ip == ip then 1 else 0)
         + (if pc.Counting? && pc.f.dir.Request? && pc.f.ip == ip then 1 else 0)
  {
    StepPcs(s, env, e, BeforeBucket(ip));
    if !e.Flush? && e.w < |s.pcs| { StepMoves(s, env, e); }
  }

  lemma StepPassed(s: State, env: Env, e: Event, ip: IpText)
    requires Shaped(s, env) && RequestsOnly(s) && PassedThrough(s, ip)
    ensures PassedThrough(Step(s, env, e), ip)
  {
    StepCountedOf(s, env, e, ip);
    StepLogOf(s, env, e, ip);
    StepVisitsOf(s, env, e, ip);
    StepTouch(s, env, e, ip);
    StepBucket(s, env, e, ip);
  }

  lemma {:induction false} RequestsPassThrough(workers: nat, env: Env, events: seq<Event>, ip: IpText)
    requires Precision(env.p)
    ensures RequestsOnly(Run(workers, env, events)) && PassedThrough(Run(workers, env, events), ip)
  {
    if events == [] {
      CountPcsNone(Start(workers, env).pcs, BeforeTouch(ip));
      CountPcsNone(Start(workers, env).pcs, BeforeBucket(ip));
    } else {
      var init, e := events[..|events| - 1], events[|events| - 1];
      RequestsPassThrough(workers, env, init, ip);
      StepRequestsOnly(Run(workers, env, init), env, e);
      StepPassed(Run(workers, env, init), env, e, ip);
    }
  }

  lemma StepIssued(s: State, env: Env, e: Event)
    requires Shaped(s, env)
    ensures var pc := Mover(s, e);
      Step(s, env, e).pending.book.issued
      == s.pending.book.issued + (if pc.Pairing? && pc.f.dir.Request? && pc.f.xid.Some? then 1 else 0)
  {
    StepPending(s, env, e);
  }

  lemma StepCountedWithId(s: State, env: Env, e: Event)
    requires Shaped(s, env)
    ensures var pc := Mover(s, e);
      NumberOf(Step(s, env, e).counted, WithId())
      == NumberOf(s.counted, WithId()) + (if pc.Counting? && pc.f.dir.Request? && pc.f.xid.Some? then 1 else 0)
  {
    StepLists(s, env, e);
    if Mover(s, e).Counting? { NumberOfSnoc(s.counted, Entry(Mover(s, e).f, e.geo), WithId()); }
  }

  lemma StepToPairing(s: State, env: Env, e: Event)
    requires Shaped(s, env) && RequestsOnly(s) && !e.Flush? && e.w < |s.pcs|
    ensures var pc, pc' := Mover(s, e), Step(s, env, e).pcs[e.w];
      BeforePairing()(pc') <==>
        (BeforePairing()(s.pcs[e.w]) && !(e.Work? && pc.Pairing?))
        || (pc.Counting? && pc.f.dir.Request? && pc.f.xid.Some?)
  {
  }

  lemma StepCame(s: State, env: Env, e: Event)
    requires Shaped(s, env) && RequestsOnly(s) && CameToPairing(s)
    ensures CameToPairing(Step(s, env, e))
  {
    StepIssued(s, env, e);
    StepCountedWithId(s, env, e);
    StepPcs(s, env, e, BeforePairing());
    if !e.Flush? && e.w < |s.pcs| { StepToPairing(s, env, e); }
  }

  lemma {:induction false} RequestsComeToPairing(workers: nat, env: Env, events: seq<Event>)
    requires Precision(env.p)
    ensures RequestsOnly(Run(workers, env, events)) && CameToPairing(Run(workers, env, events))
  {
    if events == [] {
      CountPcsNone(Start(workers, env).pcs, BeforePairing());
    } else {
      var init, e := events[..|events| - 1], events[|events| - 1];
      RequestsComeToPairing(workers, env, init);
      StepRequestsOnly(Run(workers, env, init), env, e);
      StepCame(Run(workers, env, init), env, e);
    }
  }
}
