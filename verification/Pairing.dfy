/** From captured bytes to a latency observation: the body of the capture loop
    (exporter/internal/capture/filter.go) joined to the parser and the pairing table. */
module Pairing {
  import opened Bytes
  import F = Frame
  import opened PendingTable
  import opened RequestBook
  import M = CollectorMachine
  import opened HyperLogLog

  /** How addresses are written; the separator of pending keys never occurs in the text. */
  type Show = Bytes -> M.IpText

  datatype Outcome = ParseError | Ignored | Accepted(f: M.Frame)

  /** A request counts if it is addressed to this host, a response if this host sent it. */
  predicate ShouldAccept(p: F.Parsed, local: set<Bytes>, show: Show) {
    show(if p.dir.Request? then p.dst else p.src) in local
  }

  function ProcessFrame(data: Bytes, local: set<Bytes>, show: Show, ts: int): Outcome {
    match F.Parse(data)
    case None => ParseError
    case Some(p) =>
      if !ShouldAccept(p, local, show) then Ignored
      else Accepted(M.Frame(p.dir, show(p.client),
                            if p.family.Ipv4? then "ipv4" else "ipv6",
                            if p.version.Some? then p.version.value else "", p.xid, ts))
  }

  /** What becomes of any well-formed packet: one without port 123 is a parse error; a packet to port 123 is a request
      and counts if this host has its destination address, another is a response and counts if this host has its source;
      and what the collector gets is the client's address, the family, the version ("" if the payload is short), the
      transaction id and the time. */
  lemma ProcessedAs(k: F.Packet, local: set<Bytes>, show: Show, ts: int)
    requires F.WellFormed(k)
    ensures var o := ProcessFrame(F.Encode(k), local, show, ts);
      var request := k.dport == 123; var full := |k.payload| >= 48;
      var own := show(if request then k.ip.dst else k.ip.src) in local;
      && (o.ParseError? <==> k.sport != 123 && k.dport != 123)
      && (o.Ignored? <==> (k.sport == 123 || k.dport == 123) && !own)
      && (o.Accepted? ==>
            && o.f.dir == (if request then F.Request else F.Response)
            && o.f.ip == show(if request then k.ip.src else k.ip.dst)
            && o.f.family == (if k.ip.V4? then "ipv4" else "ipv6") && o.f.ts == ts
            && o.f.xid == (if !full then None else Some(if request then k.payload[40..48] else k.payload[24..32]))
            && o.f.version == (if !full then "" else F.NtpVersion(k.payload[0])))
  {
    F.ParseRecovers(k);
  }

  // --- A client's exchange with this host

  /** A full NTP request to port 123, and a reply that goes back to the same address and port and copies the
      request's Transmit timestamp into its Origin timestamp (section 8 of RFC 5905). */
  ghost predicate Exchange(q: F.Packet, r: F.Packet) {
    && F.WellFormed(q) && F.WellFormed(r) && (q.ip.V4? <==> r.ip.V4?)
    && q.dport == 123 && r.sport == 123 && r.dport == q.sport
    && r.ip.src == q.ip.dst && r.ip.dst == q.ip.src
    && |q.payload| >= 48 && |r.payload| >= 48
    && r.payload[24..32] == q.payload[40..48]
  }

  /** Both packets are accepted under the same client and transaction id, and the reply is seen as a response
      exactly when the client did not itself use port 123. */
  lemma ExchangeIsAccepted(q: F.Packet, r: F.Packet, local: set<Bytes>, show: Show, t0: int, t1: int)
    requires Exchange(q, r) && show(q.ip.dst) in local && (q.sport == 123 ==> show(q.ip.src) in local)
    ensures var a := ProcessFrame(F.Encode(q), local, show, t0);
      var b := ProcessFrame(F.Encode(r), local, show, t1);
      && a.Accepted? && a.f.dir == F.Request && a.f.ip == show(q.ip.src) && a.f.ts == t0
      && a.f.xid == Some(q.payload[40..48])
      && b.Accepted? && b.f.ts == t1
      && (b.f.dir == F.Response <==> q.sport != 123)
      && (q.sport != 123 ==> b.f.ip == a.f.ip && b.f.xid == a.f.xid)
  {
    F.ParseRecovers(q);
    F.ParseRecovers(r);
  }

  // --- What may happen between the two

  /** Steps of other clients or transactions, and sweeps that spare requests as young as t0. */
  ghost predicate Harmless(op: M.PendingOp, ip: M.IpText, xid: Bytes, t0: int) {
    match op
    case Keep => true
    case StoreOp(ip', xid', _) => ip' != ip || xid' != xid
    case MatchOp(ip', xid', _) => ip' != ip || xid' != xid
    case SweepOp(_, cutoff) => cutoff <= t0
  }

  ghost function ApplyAll(p: Pending, at: Placement, ops: seq<M.PendingOp>): (r: Pending)
    requires |p.shards| == SHARDS
    ensures |r.shards| == SHARDS
  {
    if ops == [] then p else M.ApplyPending(ApplyAll(p, at, ops[..|ops| - 1]), at, ops[|ops| - 1])
  }

  /** The request numbered n waits under the key k, in this shard only, since t0. */
  ghost predicate Waits(p: Pending, i: ShardId, k: Bytes, t0: int, n: nat)
    requires |p.shards| == SHARDS
  {
    && k in p.shards[i] && p.shards[i][k] == t0
    && k in p.book.owners && p.book.owners[k] == n
    && forall j :: 0 <= j < SHARDS && j != i ==> k !in p.shards[j]
  }

  lemma HarmlessKeepsWaiting(p: Pending, at: Placement, op: M.PendingOp, ip: M.IpText, xid: Bytes, t0: int, n: nat)
    requires |p.shards| == SHARDS && Harmless(op, ip, xid, t0) && Waits(p, at(ip), PendingKey(ip, xid), t0, n)
    ensures Waits(M.ApplyPending(p, at, op), at(ip), PendingKey(ip, xid), t0, n)
  {
    if op.StoreOp? || op.MatchOp? { PendingKeyInjective(ip, xid, op.ip, op.xid); }
  }

  lemma {:induction false} AllHarmlessKeepWaiting(
    p: Pending, at: Placement, ops: seq<M.PendingOp>, ip: M.IpText, xid: Bytes, t0: int, n: nat)
    requires |p.shards| == SHARDS && Waits(p, at(ip), PendingKey(ip, xid), t0, n)
    requires forall j :: 0 <= j < |ops| ==> Harmless(ops[j], ip, xid, t0)
    ensures Waits(ApplyAll(p, at, ops), at(ip), PendingKey(ip, xid), t0, n)
  {
    if ops != [] {
      var init := ops[..|ops| - 1];
      AllHarmlessKeepWaiting(p, at, init, ip, xid, t0, n);
      HarmlessKeepsWaiting(ApplyAll(p, at, init), at, ops[|ops| - 1], ip, xid, t0, n);
    }
  }

  lemma StoredWaits(p: Pending, at: Placement, ip: M.IpText, xid: Bytes, t0: int)
    requires InPlace(p.shards, HomeOf(at)) && HasRoom(p.shards[at(ip)], PendingKey(ip, xid))
    ensures Waits(StoreStep(p, at, ip, xid, t0), at(ip), PendingKey(ip, xid), t0, p.book.issued)
  {
    var k := PendingKey(ip, xid);
    PendingKeySplits(ip, xid);
    forall j | 0 <= j < SHARDS && j != at(ip) ensures k !in p.shards[j] {
      assert k in p.shards[j] ==> HomeOf(at)(k) == j;
    }
  }

  lemma WaitingIsMatched(p: Pending, at: Placement, ip: M.IpText, xid: Bytes, t0: int, t1: int, n: nat)
    requires |p.shards| == SHARDS && Waits(p, at(ip), PendingKey(ip, xid), t0, n) && t0 <= t1
    ensures var s := MatchStep(p, at, ip, xid, t1);
      && PendingKey(ip, xid) !in s.shards[at(ip)]
      && s.book.latencies == p.book.latencies + [t1 - t0]
      && n in s.book.fates && s.book.fates[n] == Matched(Some(t1 - t0))
  {
  }

  /** Request n leaves its entry and its latency is observed, nothing else. */
  ghost predicate Observes(before: Pending, after: Pending, i: ShardId, k: Bytes, n: nat, latency: int)
    requires |before.shards| == |after.shards| == SHARDS
  {
    && k in before.shards[i] && k !in after.shards[i]
    && after.book.latencies == before.book.latencies + [latency]
    && n in after.book.fates && after.book.fates[n] == Matched(Some(latency))
  }

  /** A request stored, steps that leave its entry alone, the response matched: one observation. */
  lemma StoredThenMatched(p: Pending, at: Placement, ip: M.IpText, xid: Bytes, t0: int, ops: seq<M.PendingOp>, t1: int)
    requires InPlace(p.shards, HomeOf(at)) && HasRoom(p.shards[at(ip)], PendingKey(ip, xid)) && t0 <= t1
    requires forall j :: 0 <= j < |ops| ==> Harmless(ops[j], ip, xid, t0)
    ensures var before := ApplyAll(StoreStep(p, at, ip, xid, t0), at, ops);
      Observes(before, MatchStep(before, at, ip, xid, t1), at(ip), PendingKey(ip, xid), p.book.issued, t1 - t0)
  {
    StoredWaits(p, at, ip, xid, t0);
    var s := StoreStep(p, at, ip, xid, t0);
    AllHarmlessKeepWaiting(s, at, ops, ip, xid, t0, p.book.issued);
    WaitingIsMatched(ApplyAll(s, at, ops), at, ip, xid, t0, t1, p.book.issued);
  }

  /** End to end: when a client port other than 123 exchanges request and reply with this host, the shard is
      not full and nothing in between touches its entry, the request is stored as one entry and the reply takes
      it out, giving exactly one observation, the time between the two. */
  lemma ExchangeIsObserved(q: F.Packet, r: F.Packet, local: set<Bytes>, show: Show, t0: int, t1: int,
                           p: Pending, at: Placement, ops: seq<M.PendingOp>)
    requires Exchange(q, r) && q.sport != 123 && show(q.ip.dst) in local && t0 <= t1
    requires InPlace(p.shards, HomeOf(at))
    requires HasRoom(p.shards[at(show(q.ip.src))], PendingKey(show(q.ip.src), q.payload[40..48]))
    requires forall j :: 0 <= j < |ops| ==> Harmless(ops[j], show(q.ip.src), q.payload[40..48], t0)
    ensures var a := ProcessFrame(F.Encode(q), local, show, t0);
      var b := ProcessFrame(F.Encode(r), local, show, t1);
      && a.Accepted? && a.f.dir == F.Request && a.f.xid.Some?
      && b.Accepted? && b.f.dir == F.Response && b.f.xid.Some?
      && var before := ApplyAll(StoreStep(p, at, a.f.ip, a.f.xid.value, a.f.ts), at, ops);
         var after := MatchStep(before, at, b.f.ip, b.f.xid.value, b.f.ts);
         Observes(before, after, at(a.f.ip), PendingKey(a.f.ip, a.f.xid.value), p.book.issued, t1 - t0)
  {
    ExchangeIsAccepted(q, r, local, show, t0, t1);
    StoredThenMatched(p, at, show(q.ip.src), q.payload[40..48], t0, ops, t1);
  }

  // --- The same inside a run of the collector

  /** The pending table after the first m events. */
  ghost function TableAt(workers: nat, env: M.Env, events: seq<M.Event>, m: nat): (p: Pending)
    requires Precision(env.p) && m <= |events|
    ensures |p.shards| == SHARDS
  {
    M.Run(workers, env, events[..m]).pending
  }

  /** What event m does to it. */
  ghost function OpAt(workers: nat, env: M.Env, events: seq<M.Event>, m: nat): M.PendingOp
    requires Precision(env.p) && m < |events|
  {
    M.OpOf(M.Run(workers, env, events[..m]), events[m])
  }

  lemma StepAt(workers: nat, env: M.Env, events: seq<M.Event>, m: nat)
    requires Precision(env.p) && m < |events|
    ensures TableAt(workers, env, events, m + 1)
         == M.ApplyPending(TableAt(workers, env, events, m), env.at, OpAt(workers, env, events, m))
  {
    assert events[..m + 1] == events[..m] + [events[m]];
    M.StepOnce(workers, env, events[..m], events[m]);
    M.StepPending(M.Run(workers, env, events[..m]), env, events[m]);
  }

  lemma InPlaceAt(workers: nat, env: M.Env, events: seq<M.Event>, m: nat)
    requires Precision(env.p) && m <= |events|
    ensures InPlace(TableAt(workers, env, events, m).shards, HomeOf(env.at))
  {
    M.RunPending(workers, env, events[..m]);
  }

  /** Event m is some worker's pairing section for the frame f. */
  ghost predicate PairsAt(workers: nat, env: M.Env, events: seq<M.Event>, m: nat, f: M.Frame)
    requires Precision(env.p) && m < |events|
  {
    && events[m].Work? && f.xid.Some?
    && var s := M.Run(workers, env, events[..m]); events[m].w < |s.pcs| && s.pcs[events[m].w] == M.Pairing(f)
  }

  lemma PairingOp(workers: nat, env: M.Env, events: seq<M.Event>, m: nat, f: M.Frame)
    requires Precision(env.p) && m < |events| && PairsAt(workers, env, events, m, f)
    ensures OpAt(workers, env, events, m)
         == if f.dir.Request? then M.StoreOp(f.ip, f.xid.value, f.ts) else M.MatchOp(f.ip, f.xid.value, f.ts)
  {
  }

  ghost predicate HarmlessAt(workers: nat, env: M.Env, events: seq<M.Event>, m: nat, ip: M.IpText, xid: Bytes, t0: int)
    requires Precision(env.p) && m < |events|
  {
    Harmless(OpAt(workers, env, events, m), ip, xid, t0)
  }

  ghost predicate WaitsAt(workers: nat, env: M.Env, events: seq<M.Event>, m: nat,
                          ip: M.IpText, xid: Bytes, t0: int, n: nat)
    requires Precision(env.p) && m <= |events|
  {
    Waits(TableAt(workers, env, events, m), env.at(ip), PendingKey(ip, xid), t0, n)
  }

  lemma WaitsOn(workers: nat, env: M.Env, events: seq<M.Event>, m: nat, ip: M.IpText, xid: Bytes, t0: int, n: nat)
    requires Precision(env.p) && m < |events| && HarmlessAt(workers, env, events, m, ip, xid, t0)
    requires WaitsAt(workers, env, events, m, ip, xid, t0, n)
    ensures WaitsAt(workers, env, events, m + 1, ip, xid, t0, n)
  {
    StepAt(workers, env, events, m);
    HarmlessKeepsWaiting(TableAt(workers, env, events, m), env.at, OpAt(workers, env, events, m), ip, xid, t0, n);
  }

  lemma {:induction false} WaitsUpTo(workers: nat, env: M.Env, events: seq<M.Event>, i: nat, j: nat,
                                     ip: M.IpText, xid: Bytes, t0: int, n: nat)
    requires Precision(env.p) && i <= j <= |events| && WaitsAt(workers, env, events, i, ip, xid, t0, n)
    requires forall m :: i <= m < j ==> HarmlessAt(workers, env, events, m, ip, xid, t0)
    ensures WaitsAt(workers, env, events, j, ip, xid, t0, n)
    decreases j - i
  {
    if i < j {
      WaitsOn(workers, env, events, i, ip, xid, t0, n);
      WaitsUpTo(workers, env, events, i + 1, j, ip, xid, t0, n);
    }
  }

  lemma StoredAt(workers: nat, env: M.Env, events: seq<M.Event>, i: nat, f: M.Frame)
    requires Precision(env.p) && i < |events| && PairsAt(workers, env, events, i, f) && f.dir.Request?
    requires HasRoom(TableAt(workers, env, events, i).shards[env.at(f.ip)], PendingKey(f.ip, f.xid.value))
    ensures WaitsAt(workers, env, events, i + 1, f.ip, f.xid.value, f.ts, TableAt(workers, env, events, i).book.issued)
  {
    StepAt(workers, env, events, i);
    PairingOp(workers, env, events, i, f);
    InPlaceAt(workers, env, events, i);
    StoredWaits(TableAt(workers, env, events, i), env.at, f.ip, f.xid.value, f.ts);
  }

  /** Event j takes the entry of request n out and observes its latency. */
  ghost predicate ObservesAt(workers: nat, env: M.Env, events: seq<M.Event>, j: nat, g: M.Frame, n: nat, latency: int)
    requires Precision(env.p) && j < |events| && g.xid.Some?
  {
    Observes(TableAt(workers, env, events, j), TableAt(workers, env, events, j + 1),
             env.at(g.ip), PendingKey(g.ip, g.xid.value), n, latency)
  }

  lemma MatchedAt(workers: nat, env: M.Env, events: seq<M.Event>, j: nat, g: M.Frame, t0: int, n: nat)
    requires Precision(env.p) && j < |events| && PairsAt(workers, env, events, j, g) && g.dir.Response? && t0 <= g.ts
    requires WaitsAt(workers, env, events, j, g.ip, g.xid.value, t0, n)
    ensures ObservesAt(workers, env, events, j, g, n, g.ts - t0)
  {
    StepAt(workers, env, events, j);
    PairingOp(workers, env, events, j, g);
    WaitingIsMatched(TableAt(workers, env, events, j), env.at, g.ip, g.xid.value, t0, g.ts, n);
  }

  /** In any run: if event i is some worker's pairing section for a request, event j > i any worker's pairing section
      for its response, and nothing in between touches the entry, then event j observes exactly one latency, the time
      between the two. */
  lemma SectionsObserve(workers: nat, env: M.Env, events: seq<M.Event>, i: nat, f: M.Frame, j: nat, g: M.Frame)
    requires Precision(env.p) && i < j < |events|
    requires PairsAt(workers, env, events, i, f) && PairsAt(workers, env, events, j, g)
    requires f.dir.Request? && g.dir.Response? && g.xid == f.xid && g.ip == f.ip && f.ts <= g.ts
    requires HasRoom(TableAt(workers, env, events, i).shards[env.at(f.ip)], PendingKey(f.ip, f.xid.value))
    requires forall m :: i + 1 <= m < j ==> HarmlessAt(workers, env, events, m, g.ip, g.xid.value, f.ts)
    ensures ObservesAt(workers, env, events, j, g, TableAt(workers, env, events, i).book.issued, g.ts - f.ts)
  {
    var n := TableAt(workers, env, events, i).book.issued;
    StoredAt(workers, env, events, i, f);
    WaitsUpTo(workers, env, events, i + 1, j, g.ip, g.xid.value, f.ts, n);
    MatchedAt(workers, env, events, j, g, f.ts, n);
  }

  /** The frames f and g that the capture loop makes of the bytes of an exchange. */
  ghost predicate CapturedAs(q: F.Packet, r: F.Packet, local: set<Bytes>, show: Show, f: M.Frame, g: M.Frame) {
    && Exchange(q, r) && q.sport != 123 && show(q.ip.dst) in local
    && ProcessFrame(F.Encode(q), local, show, f.ts) == Accepted(f)
    && ProcessFrame(F.Encode(r), local, show, g.ts) == Accepted(g)
  }

  lemma CapturedFrames(q: F.Packet, r: F.Packet, local: set<Bytes>, show: Show, f: M.Frame, g: M.Frame)
    requires CapturedAs(q, r, local, show, f, g)
    ensures f.dir.Request? && g.dir.Response? && f.ip == g.ip == show(q.ip.src)
    ensures f.xid == g.xid == Some(q.payload[40..48])
  {
    ExchangeIsAccepted(q, r, local, show, f.ts, g.ts);
  }

  /** From bytes to observation in any run that handles the captured packets of an exchange as frames f and g. */
  lemma ExchangeIsObservedInRun(
    q: F.Packet, r: F.Packet, local: set<Bytes>, show: Show,
    workers: nat, env: M.Env, events: seq<M.Event>, i: nat, f: M.Frame, j: nat, g: M.Frame)
    requires CapturedAs(q, r, local, show, f, g) && f.ts <= g.ts && Precision(env.p) && i < j < |events|
    requires PairsAt(workers, env, events, i, f) && PairsAt(workers, env, events, j, g)
    requires HasRoom(TableAt(workers, env, events, i).shards[env.at(f.ip)], PendingKey(f.ip, f.xid.value))
    requires forall m :: i + 1 <= m < j ==> HarmlessAt(workers, env, events, m, g.ip, g.xid.value, f.ts)
    ensures ObservesAt(workers, env, events, j, g, TableAt(workers, env, events, i).book.issued, g.ts - f.ts)
  {
    CapturedFrames(q, r, local, show, f, g);
    SectionsObserve(workers, env, events, i, f, j, g);
  }
}
