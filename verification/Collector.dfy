/** The collector object of exporter/internal/aggregate/aggregate.go: HandleFrame and Flush in their own
    imperative form, called one at a time.  (CollectorMachine treats their interleavings.)

    Each method's contract gives the new fields as functions of the old ones: the functions whose runs
    PendingTable, ActiveClients, HourRing and Breakdown prove their laws about. */
module Collector {
  import opened Bytes
  import opened HyperLogLog
  import HR = HourRing
  import opened Tally
  import opened MapCounts
  import opened AsnRanking
  import opened PendingTable
  import opened CollectorMachine
  import A = ActiveClients
  import B = Breakdown
  import RequestBook
  import SweepTrigger

  const ASN_TOTALS_MAX: nat := 4096

  type AsnTotals = map<Asn, pos>

  /** One worker's counter maps. */
  datatype Maps = Maps(
    requests: map<B.CountryKey, pos>, responses: map<B.CountryKey, pos>, asnRequests: map<B.AsnKey, pos>,
    versionRequests: map<string, pos>, familyRequests: map<string, pos>)

  const NO_MAPS := Maps(map[], map[], map[], map[], map[])

  ghost function Value(m: Maps): B.Counters {
    B.Counters(Bag(m.requests), Bag(m.responses), Bag(m.asnRequests), Bag(m.versionRequests), Bag(m.familyRequests))
  }

  /** One key's counter went up by one, or none did, and all others stayed. */
  ghost predicate OneUp<K(!new)>(m: map<K, pos>, m': map<K, pos>, k: K) {
    forall j :: Get(m', j) == Get(m, j) + (if j == k then 1 else 0)
  }

  /** What a frame does to its worker's maps, key by key: a request counts once under its country and continent, its
      network, its version, a missing one as "other", and its family; a response once under country and continent. */
  ghost predicate FrameCounted(m: Maps, m': Maps, f: Frame, geo: B.Geo) {
    if f.dir.Request? then
      && OneUp(m.requests, m'.requests, B.CountryKey(geo.country, geo.continent))
      && OneUp(m.asnRequests, m'.asnRequests, B.AsnKey(geo.asn, geo.hasAsn, geo.org))
      && OneUp(m.versionRequests, m'.versionRequests, if f.version == "" then "other" else f.version)
      && OneUp(m.familyRequests, m'.familyRequests, f.family)
      && m'.responses == m.responses
    else
      OneUp(m.responses, m'.responses, B.CountryKey(geo.country, geo.continent)) && m' == m.(responses := m'.responses)
  }

  /** The section of a request, and of a response, on its worker's maps. */
  method CountFrame(m: Maps, f: Frame, geo: B.Geo) returns (r: Maps)
    ensures FrameCounted(m, r, f, geo)
    ensures Value(r) == B.Plus(Value(m), Counted(f, geo))
  {
    if f.dir.Request? {
      r := CountRequest(m, f, geo);
    } else {
      r := CountResponse(m, geo);
    }
  }

  lemma BumpIsOneUp<K(!new)>(m: map<K, pos>, k: K)
    ensures OneUp(m, Bump(m, k, 1), k)
  {
  }

  /** The maps after a request, and what they count. */
  function Requested(m: Maps, c: B.CountryKey, a: B.AsnKey, version: string, family: string): Maps {
    Maps(Bump(m.requests, c, 1), m.responses, Bump(m.asnRequests, a, 1),
         Bump(m.versionRequests, version, 1), Bump(m.familyRequests, family, 1))
  }

  lemma RequestedValue(m: Maps, c: B.CountryKey, a: B.AsnKey, version: string, family: string)
    ensures Value(Requested(m, c, a, version, family))
         == B.Plus(Value(m), B.Counters(multiset{c}, multiset{}, multiset{a}, multiset{version}, multiset{family}))
  {
    BumpOne(m.requests, c);
    BumpOne(m.asnRequests, a);
    BumpOne(m.versionRequests, version);
    BumpOne(m.familyRequests, family);
    AddNothing(Bag(m.responses));
  }

  lemma RequestedKeys(m: Maps, c: B.CountryKey, a: B.AsnKey, version: string, family: string)
    ensures var r := Requested(m, c, a, version, family);
      && OneUp(m.requests, r.requests, c) && OneUp(m.asnRequests, r.asnRequests, a)
      && OneUp(m.versionRequests, r.versionRequests, version) && OneUp(m.familyRequests, r.familyRequests, family)
  {
    BumpIsOneUp(m.requests, c);
    BumpIsOneUp(m.asnRequests, a);
    BumpIsOneUp(m.versionRequests, version);
    BumpIsOneUp(m.familyRequests, family);
  }

  method CountRequest(m: Maps, f: Frame, geo: B.Geo) returns (r: Maps)
    requires f.dir.Request?
    ensures FrameCounted(m, r, f, geo)
    ensures Value(r) == B.Plus(Value(m), B.OneRequest(geo, f.family, f.version))
  {
    var ckey, akey := B.CountryKey(geo.country, geo.continent), B.AsnKey(geo.asn, geo.hasAsn, geo.org);
    var v := f.version;
    if v == "" { v := "other"; }
    r := Maps(Bump(m.requests, ckey, 1), m.responses, Bump(m.asnRequests, akey, 1),
              Bump(m.versionRequests, v, 1), Bump(m.familyRequests, f.family, 1));
    assert r == Requested(m, ckey, akey, v, f.family);
    RequestedKeys(m, ckey, akey, v, f.family);
    RequestedValue(m, ckey, akey, v, f.family);
  }

  method CountResponse(m: Maps, geo: B.Geo) returns (r: Maps)
    ensures OneUp(m.responses, r.responses, B.CountryKey(geo.country, geo.continent))
    ensures r == m.(responses := r.responses)
    ensures Value(r) == B.Plus(Value(m), B.OneResponse(geo))
  {
    var ckey := B.CountryKey(geo.country, geo.continent);
    r := m.(responses := Bump(m.responses, ckey, 1));
    BumpOne(m.responses, ckey);
    AddNothing(Bag(m.requests));
    AddNothing(Bag(m.asnRequests));
    AddNothing(Bag(m.versionRequests));
    AddNothing(Bag(m.familyRequests));
  }

  /** One worker's five maps added to those gathered so far. */
  method AddMaps(a: Maps, b: Maps) returns (r: Maps)
    ensures Value(r) == B.Plus(Value(a), Value(b))
  {
    var requests := AddCounts(a.requests, b.requests);
    var responses := AddCounts(a.responses, b.responses);
    var asns := AddCounts(a.asnRequests, b.asnRequests);
    var versions := AddCounts(a.versionRequests, b.versionRequests);
    var families := AddCounts(a.familyRequests, b.familyRequests);
    r := Maps(requests, responses, asns, versions, families);
  }

  ghost function Values(workers: seq<Maps>): B.Counters {
    if workers == [] then B.NONE
    else B.Plus(Values(workers[..|workers| - 1]), Value(workers[|workers| - 1]))
  }

  /** The snapshot phase of Flush. */
  method Snapshot(workers: seq<Maps>) returns (held: Maps)
    ensures Value(held) == Values(workers)
  {
    held := NO_MAPS;
    for i := 0 to |workers|
      invariant Value(held) == Values(workers[..i])
    {
      assert workers[..i + 1][..i] == workers[..i];
      held := AddMaps(held, workers[i]);
    }
    assert workers[..|workers|] == workers;
  }

  /** Deletes the entries older than the cutoff, in whatever order the map is walked. */
  method SweepTable(p: Table, cutoff: int) returns (r: Table)
    ensures r == Sweep(p, cutoff)
  {
    r := p;
    var todo := p.Keys;
    while todo != {}
      invariant todo <= p.Keys
      invariant r == p - (set k | k in p && p[k] < cutoff && k !in todo)
    {
      var k :| k in todo;
      if p[k] < cutoff {
        r := r - {k};
      }
      todo := todo - {k};
    }
  }

  method SweepShards(shards: seq<Table>, cutoff: int) returns (r: seq<Table>, total: nat)
    ensures r == A.Evict(shards, cutoff) && total == Size(r)
  {
    r, total := [], 0;
    for i := 0 to |shards|
      invariant |r| == i && forall j :: 0 <= j < i ==> r[j] == Sweep(shards[j], cutoff)
      invariant total == Size(r)
    {
      var kept := SweepTable(shards[i], cutoff);
      SizeAppend(r, kept);
      r := r + [kept];
      total := total + |kept|;
    }
  }

  lemma SizeAppend(shards: seq<Table>, p: Table)
    ensures Size(shards + [p]) == Size(shards) + |p|
  {
    assert (shards + [p])[..|shards|] == shards;
  }

  /** The drops of one window: per country, requests beyond the responses. */
  method AddDrops(drops: map<B.CountryKey, pos>, requests: map<B.CountryKey, pos>, responses: map<B.CountryKey, pos>)
      returns (r: map<B.CountryKey, pos>)
    ensures Bag(r) == Bag(drops) + (Bag(requests) - Bag(responses))
  {
    r := drops;
    var todo := requests.Keys;
    while todo != {}
      invariant todo <= requests.Keys
      invariant forall k :: Get(r, k) == Get(drops, k)
                  + (if k in todo then 0 else Max(0, Get(requests, k) - Get(responses, k)))
    {
      var k :| k in todo;
      if requests[k] > Get(responses, k) {
        r := Bump(r, k, requests[k] - Get(responses, k));
      }
      todo := todo - {k};
    }
  }

  /** The AS number a key adds to, if it is known. */
  function KnownAsn(k: B.AsnKey): Option<Asn> { if k.hasAsn then Some(k.asn) else None }

  // --- What a call does to the pairing shards

  function SweptShards(shards: seq<Table>, cutoff: int, sweep: bool): (r: seq<Table>)
    ensures |r| == |shards|
  {
    if sweep then A.Evict(shards, cutoff) else shards
  }

  function PairedShards(shards: seq<Table>, at: Placement, f: Frame): (r: seq<Table>)
    requires |shards| == SHARDS
    ensures |r| == SHARDS
  {
    if f.xid.None? then shards
    else
      var i, k := at(f.ip), PendingKey(f.ip, f.xid.value);
      shards[i := if f.dir.Request? then Put(shards[i], k, f.ts) else shards[i] - {k}]
  }

  function PairedLatencies(shards: seq<Table>, latencies: seq<int>, at: Placement, f: Frame): seq<int>
    requires |shards| == SHARDS
  {
    if f.xid.None? || f.dir.Request? then latencies
    else
      var i, k := at(f.ip), PendingKey(f.ip, f.xid.value);
      if k in shards[i] then RequestBook.Observed(latencies, RequestBook.Latency(f.ts, shards[i][k])) else latencies
  }

  /** A request with a transaction id that its full shard refuses. */
  predicate Refused(shards: seq<Table>, at: Placement, f: Frame)
    requires |shards| == SHARDS
  {
    f.dir.Request? && f.xid.Some? && Refuses(shards[at(f.ip)], PendingKey(f.ip, f.xid.value))
  }

  /** What a frame does to the shards: a request with room for its key puts its time there, one without changes nothing,
      a response takes its entry out, a frame without transaction id does nothing. */
  lemma PairedIs(shards: seq<Table>, at: Placement, f: Frame)
    requires |shards| == SHARDS
    ensures f.xid.None? ==> PairedShards(shards, at, f) == shards && !Refused(shards, at, f)
    ensures f.xid.Some? ==>
      var i, k := at(f.ip), f.ip + [124] + f.xid.value;
      if f.dir.Response? then PairedShards(shards, at, f) == shards[i := shards[i] - {k}] && !Refused(shards, at, f)
      else if HasRoom(shards[i], k)
      then PairedShards(shards, at, f) == shards[i := shards[i][k := f.ts]] && !Refused(shards, at, f)
      else PairedShards(shards, at, f) == shards && Refused(shards, at, f)
  {
  }

  /** The pairing section of a frame: a request is refused or stored, a response takes its entry out and
      observes a latency that is not negative. */
  method PairFrame(shards: seq<Table>, latencies: seq<int>, at: Placement, f: Frame)
      returns (r: seq<Table>, l: seq<int>, refused: bool)
    requires |shards| == SHARDS
    ensures r == PairedShards(shards, at, f) && l == PairedLatencies(shards, latencies, at, f)
    ensures refused <==> Refused(shards, at, f)
  {
    r, l, refused := shards, latencies, false;
    if f.xid.Some? {
      var i, pk := at(f.ip), PendingKey(f.ip, f.xid.value);
      if f.dir.Request? {
        if pk !in shards[i] && |shards[i]| >= PENDING_MAX {
          refused := true;
        } else {
          r := shards[i := shards[i][pk := f.ts]];
        }
      } else if pk in shards[i] {
        r := shards[i := shards[i] - {pk}];
        var delta := f.ts - shards[i][pk];
        if delta >= 0 {
          l := latencies + [delta];
        }
      } else {
        assert shards[i] - {pk} == shards[i];
      }
    }
  }

  method SweepAndPair(shards: seq<Table>, latencies: seq<int>, at: Placement, f: Frame, sweep: bool)
      returns (r: seq<Table>, l: seq<int>, refused: bool)
    requires |shards| == SHARDS
    ensures var swept := SweptShards(shards, f.ts - PENDING_TTL, sweep);
      && r == PairedShards(swept, at, f) && l == PairedLatencies(swept, latencies, at, f)
      && (refused <==> Refused(swept, at, f))
  {
    var swept, n := shards, 0;
    if sweep {
      swept, n := SweepShards(shards, f.ts - PENDING_TTL);
    }
    r, l, refused := PairFrame(swept, latencies, at, f);
  }

  /** The add and the swap, with no other worker in between. */
  method CountToSweep(frames: nat) returns (n: nat, sweep: bool)
    ensures sweep == (frames + 1 >= 1024) && n == if sweep then 0 else frames + 1
  {
    n := frames + 1;
    sweep := n >= SweepTrigger.SWEEP_EVERY;
    if sweep {
      n := 0;
    }
  }

  // --- Histories of calls

  /** The first n shards swept one after another. */
  ghost function SweepAll(t: Pending, at: Placement, cutoff: int, n: nat): (r: Pending)
    requires |t.shards| == SHARDS && n <= SHARDS
    ensures |r.shards| == SHARDS
  {
    if n == 0 then t else SweepStep(SweepAll(t, at, cutoff, n - 1), at, n - 1, cutoff)
  }

  lemma {:induction false} SweepAllShards(t: Pending, at: Placement, cutoff: int, n: nat)
    requires |t.shards| == SHARDS && n <= SHARDS
    ensures var r := SweepAll(t, at, cutoff, n);
      && (forall j :: 0 <= j < n ==> r.shards[j] == Sweep(t.shards[j], cutoff))
      && (forall j :: n <= j < SHARDS ==> r.shards[j] == t.shards[j])
      && r.book.latencies == t.book.latencies
  {
    if n > 0 { SweepAllShards(t, at, cutoff, n - 1); }
  }

  lemma SweepNextKeeps(u: Pending, at: Placement, i: ShardId, cutoff: int, r: Pending)
    requires PendingTable.Inv(u, at) && r == SweepStep(u, at, i, cutoff)
    ensures PendingTable.Inv(r, at)
  {
    SweepKeeps(u, at, i, cutoff);
  }

  lemma {:induction false} SweepAllKeeps(t: Pending, at: Placement, cutoff: int, n: nat) returns (r: Pending)
    requires PendingTable.Inv(t, at) && n <= SHARDS
    ensures r == SweepAll(t, at, cutoff, n) && PendingTable.Inv(r, at)
  {
    if n == 0 {
      r := t;
    } else {
      var u := SweepAllKeeps(t, at, cutoff, n - 1);
      r := SweepStep(u, at, n - 1, cutoff);
      SweepNextKeeps(u, at, n - 1, cutoff, r);
    }
  }

  /** What a call means for the table: perhaps a sweep of all shards, then perhaps a frame. */
  datatype TableCall = TableCall(cutoff: int, sweep: bool, frame: Option<Frame>)

  function FrameCall(f: Frame, sweep: bool): TableCall { TableCall(f.ts - PENDING_TTL, sweep, Some(f)) }

  function FlushCall(wall: int): TableCall { TableCall(wall - PENDING_TTL, true, None) }

  ghost function SweptFor(t: Pending, at: Placement, c: TableCall): (r: Pending)
    requires |t.shards| == SHARDS
    ensures |r.shards| == SHARDS
  {
    SweepAll(t, at, c.cutoff, if c.sweep then |t.shards| else 0)
  }

  ghost function OpFor(c: TableCall): PendingOp {
    if c.frame.None? || c.frame.value.xid.None? then Keep
    else
      var f := c.frame.value;
      if f.dir.Request? then StoreOp(f.ip, f.xid.value, f.ts) else MatchOp(f.ip, f.xid.value, f.ts)
  }

  ghost function TableOf(history: seq<TableCall>, at: Placement): (t: Pending)
    ensures |t.shards| == SHARDS
  {
    if history == [] then Empty()
    else
      var c := history[|history| - 1];
      ApplyPending(SweptFor(TableOf(history[..|history| - 1], at), at, c), at, OpFor(c))
  }

  /** Every history of calls leaves the table with all its laws. */
  lemma {:induction false} TableLaws(history: seq<TableCall>, at: Placement) returns (t: Pending)
    ensures t == TableOf(history, at) && PendingTable.Inv(t, at)
  {
    if history == [] {
      EmptyInv(at);
      t := Empty();
    } else {
      var n := |history| - 1;
      var u := TableLaws(history[..n], at);
      var v := SweepAllKeeps(u, at, history[n].cutoff, if history[n].sweep then |u.shards| else 0);
      ApplyPendingKeeps(v, at, OpFor(history[n]));
      t := ApplyPending(v, at, OpFor(history[n]));
    }
  }

  /** The entry a frame would match is one the book knows. */
  ghost predicate Known(t: Pending, at: Placement, f: Frame)
    requires |t.shards| == SHARDS
  {
    f.xid.Some? ==>
      (PendingKey(f.ip, f.xid.value) in t.book.owners <==> PendingKey(f.ip, f.xid.value) in t.shards[at(f.ip)])
  }

  lemma AlwaysKnown(t: Pending, at: Placement, f: Frame)
    requires PendingTable.Inv(t, at)
    ensures Known(t, at, f)
  {
    if f.xid.Some? { PendingKeySplits(f.ip, f.xid.value); }
  }

  lemma PairedIsApplied(t: Pending, at: Placement, f: Frame, sweep: bool)
    requires |t.shards| == SHARDS && Known(t, at, f)
    ensures var r := ApplyPending(t, at, OpFor(FrameCall(f, sweep)));
      && r.shards == PairedShards(t.shards, at, f)
      && r.book.latencies == PairedLatencies(t.shards, t.book.latencies, at, f)
  {
  }

  lemma PairedOverflows(t: Pending, at: Placement, f: Frame, sweep: bool)
    requires |t.shards| == SHARDS && RequestBook.Apart(t.book)
    ensures var r := ApplyPending(t, at, OpFor(FrameCall(f, sweep)));
      |RequestBook.Overflows(r.book)| == |RequestBook.Overflows(t.book)| + (if Refused(t.shards, at, f) then 1 else 0)
  {
    if f.xid.Some? {
      var i, k := at(f.ip), PendingKey(f.ip, f.xid.value);
      RequestBook.RefuseOverflows(t.book);
      var d := if k in t.shards[i] then RequestBook.Latency(f.ts, t.shards[i][k]) else None;
      RequestBook.OthersDoNotOverflow(t.book, k, d, {});
    }
  }

  /** The shards, observations and refusals HandleFrame computes are those of the table its history makes, so the laws
      of the table are laws of the collector. */
  lemma FrameFollowsTable(history: seq<TableCall>, at: Placement, f: Frame, sweep: bool)
    ensures var t, t' := TableOf(history, at), TableOf(history + [FrameCall(f, sweep)], at);
      var swept := SweptShards(t.shards, f.ts - PENDING_TTL, sweep);
      && t'.shards == PairedShards(swept, at, f)
      && t'.book.latencies == PairedLatencies(swept, t.book.latencies, at, f)
      && |RequestBook.Overflows(t'.book)|
         == |RequestBook.Overflows(t.book)| + (if Refused(swept, at, f) then 1 else 0)
  {
    var c := FrameCall(f, sweep);
    var t := TableOf(history, at);
    var u := SweptFor(t, at, c);
    SweptKnown(history, at, f, sweep);
    SweptShape(t, at, c);
    SweptBook(history, at, c);
    PairedIsApplied(u, at, f, sweep);
    PairedOverflows(u, at, f, sweep);
    TableSnoc(history, c, at);
  }

  /** Sweeping refuses nobody and leaves the book in order. */
  lemma SweptBook(history: seq<TableCall>, at: Placement, c: TableCall)
    ensures var t := TableOf(history, at); var u := SweptFor(t, at, c);
      RequestBook.Apart(u.book) && RequestBook.Overflows(u.book) == RequestBook.Overflows(t.book)
  {
    var t := TableLaws(history, at);
    SweepAllBook(t, at, c.cutoff, if c.sweep then |t.shards| else 0);
  }

  lemma {:induction false} SweepAllBook(t: Pending, at: Placement, cutoff: int, n: nat)
    requires |t.shards| == SHARDS && RequestBook.Apart(t.book) && n <= SHARDS
    ensures var u := SweepAll(t, at, cutoff, n);
      RequestBook.Apart(u.book) && RequestBook.Overflows(u.book) == RequestBook.Overflows(t.book)
  {
    if n > 0 {
      var u := SweepAll(t, at, cutoff, n - 1);
      SweepAllBook(t, at, cutoff, n - 1);
      RequestBook.DropApart(u.book, Expired(u.shards[n - 1], cutoff));
      RequestBook.OthersDoNotOverflow(u.book, [], None, Expired(u.shards[n - 1], cutoff));
    }
  }

  lemma KnownAfter(history: seq<TableCall>, at: Placement, f: Frame)
    ensures Known(TableOf(history, at), at, f)
  {
    var t := TableLaws(history, at);
    AlwaysKnown(t, at, f);
  }

  lemma SweptKnown(history: seq<TableCall>, at: Placement, f: Frame, sweep: bool)
    ensures Known(SweptFor(TableOf(history, at), at, FrameCall(f, sweep)), at, f)
  {
    var bare := FrameCall(f, sweep).(frame := None);
    TableSnoc(history, bare, at);
    KnownAfter(history + [bare], at, f);
  }

  lemma SweptShape(t: Pending, at: Placement, c: TableCall)
    requires |t.shards| == SHARDS
    ensures var u := SweptFor(t, at, c);
      u.shards == SweptShards(t.shards, c.cutoff, c.sweep) && u.book.latencies == t.book.latencies
  {
    SweepAllShards(t, at, c.cutoff, if c.sweep then |t.shards| else 0);
  }

  lemma TableSnoc(history: seq<TableCall>, c: TableCall, at: Placement)
    ensures TableOf(history + [c], at) == ApplyPending(SweptFor(TableOf(history, at), at, c), at, OpFor(c))
  {
    assert (history + [c])[..|history|] == history;
  }

  /** The same for the sweep of a flush. */
  lemma FlushFollowsTable(history: seq<TableCall>, at: Placement, wall: int)
    ensures var t, t' := TableOf(history, at), TableOf(history + [FlushCall(wall)], at);
      && t'.shards == A.Evict(t.shards, wall - PENDING_TTL) && t'.book.latencies == t.book.latencies
      && RequestBook.Overflows(t'.book) == RequestBook.Overflows(t.book)
  {
    SweptShape(TableOf(history, at), at, FlushCall(wall));
    SweptBook(history, at, FlushCall(wall));
    TableSnoc(history, FlushCall(wall), at);
  }

  // --- Which shard a client has does not matter

  lemma {:induction false} SweepAllPairs(t: Pending, at: Placement, cutoff: int, n: nat)
    requires |t.shards| == SHARDS && n <= SHARDS
    ensures var u := SweepAll(t, at, cutoff, n);
      && u.pairs == t.pairs - (set g | g in t.pairs && at(g.0) < n && t.pairs[g] < cutoff)
      && u.pairLatencies == t.pairLatencies
  {
    if n > 0 {
      SweepAllPairs(t, at, cutoff, n - 1);
    }
  }

  /** Whole calls leave the same pairs pending, and give the single table the same latencies, for every placement; so
      without refused requests the collector observes the same latencies, too. */
  lemma {:induction false} PlacementIsIrrelevant(history: seq<TableCall>, at: Placement, at': Placement)
    ensures var t, t' := TableOf(history, at), TableOf(history, at');
      && t.pairs == t'.pairs && t.pairLatencies == t'.pairLatencies
      && (RequestBook.NoOverflow(t.book) && RequestBook.NoOverflow(t'.book) ==> t.book.latencies == t'.book.latencies)
  {
    PairsArePlaceless(history, at, at');
    ObservedAsPaired(history, at);
    ObservedAsPaired(history, at');
  }

  lemma ObservedAsPaired(history: seq<TableCall>, at: Placement)
    ensures var t := TableOf(history, at); RequestBook.NoOverflow(t.book) ==> t.book.latencies == t.pairLatencies
  {
    var t := TableLaws(history, at);
  }

  lemma {:induction false} PairsArePlaceless(history: seq<TableCall>, at: Placement, at': Placement)
    ensures var t, t' := TableOf(history, at), TableOf(history, at');
      t.pairs == t'.pairs && t.pairLatencies == t'.pairLatencies
  {
    if history != [] {
      var init, c := history[..|history| - 1], history[|history| - 1];
      var t, t' := TableOf(init, at), TableOf(init, at');
      PairsArePlaceless(init, at, at');
      SweptPairs(t, at, c);
      SweptPairs(t', at', c);
      AppliedPairs(SweptFor(t, at, c), at, SweptFor(t', at', c), at', OpFor(c));
    }
  }

  lemma AppliedPairs(t: Pending, at: Placement, t': Pending, at': Placement, op: PendingOp)
    requires |t.shards| == |t'.shards| == SHARDS && !op.SweepOp?
    requires t.pairs == t'.pairs && t.pairLatencies == t'.pairLatencies
    ensures var u, u' := ApplyPending(t, at, op), ApplyPending(t', at', op);
      u.pairs == u'.pairs && u.pairLatencies == u'.pairLatencies
  {
  }

  lemma SweptPairs(t: Pending, at: Placement, c: TableCall)
    requires |t.shards| == SHARDS
    ensures var u := SweptFor(t, at, c);
      && u.pairs == (if c.sweep then t.pairs - (set g | g in t.pairs && t.pairs[g] < c.cutoff) else t.pairs)
      && u.pairLatencies == t.pairLatencies
  {
    var n := if c.sweep then |t.shards| else 0;
    SweepAllPairs(t, at, c.cutoff, n);
    if c.sweep {
      assert (set g | g in t.pairs && at(g.0) < n && t.pairs[g] < c.cutoff)
          == (set g | g in t.pairs && t.pairs[g] < c.cutoff);
    }
  }

  // --- The collector

  /** The counters Flush publishes, with the cumulative ASN totals behind them. */
  datatype Metrics = Metrics(
    requests: map<B.CountryKey, pos>, drops: map<B.CountryKey, pos>, asns: map<B.Label, pos>,
    versions: map<string, pos>, families: map<string, pos>, asnTotals: AsnTotals)

  const NO_METRICS := Metrics(map[], map[], map[], map[], map[], map[])

  /** Everything but the hourly ring. */
  datatype Core = Core(
    workers: seq<Maps>, pending: seq<Table>, active: seq<Table>, framesSinceSweep: nat,
    overflows: nat, latencies: seq<int>, metrics: Metrics, clientsActive: nat)

  predicate Sweeps(c: Core) { c.framesSinceSweep + 1 >= SweepTrigger.SWEEP_EVERY }

  ghost predicate FrameStep(c: Core, c': Core, at: Placement, w: nat, f: Frame, geo: B.Geo, now: int)
    requires w < |c.workers| && |c.pending| == |c.active| == SHARDS
  {
    var sweep := Sweeps(c);
    var swept := SweptShards(c.pending, f.ts - PENDING_TTL, sweep);
    && |c'.workers| == |c.workers|
    && (forall i :: 0 <= i < |c.workers| && i != w ==> c'.workers[i] == c.workers[i])
    && FrameCounted(c.workers[w], c'.workers[w], f, geo)
    && Value(c'.workers[w]) == B.Plus(Value(c.workers[w]), Counted(f, geo))
    && c'.framesSinceSweep == (if sweep then 0 else c.framesSinceSweep + 1)
    && c'.pending == PairedShards(swept, at, f)
    && c'.latencies == PairedLatencies(swept, c.latencies, at, f)
    && c'.active == (if f.dir.Request? then A.Apply(c.active, at, A.Request(f.ip, now)) else c.active)
    && c'.overflows == c.overflows + (if Refused(swept, at, f) then 1 else 0)
    && c'.metrics == c.metrics && c'.clientsActive == c.clientsActive
  }

  /** The sections of a frame other than the hourly one. */
  method FrameOnCore(c: Core, at: Placement, w: nat, f: Frame, geo: B.Geo, now: int) returns (r: Core)
    requires w < |c.workers| && |c.pending| == |c.active| == SHARDS
    ensures FrameStep(c, r, at, w, f, geo, now)
  {
    var frames, doSweep := CountToSweep(c.framesSinceSweep);
    var maps := CountFrame(c.workers[w], f, geo);
    var active := c.active;
    if f.dir.Request? {
      active := A.Touch(active, at, f.ip, now);
    }
    var pending, latencies, refused := SweepAndPair(c.pending, c.latencies, at, f, doSweep);
    r := Core(c.workers[w := maps], pending, active, frames,
              if refused then c.overflows + 1 else c.overflows, latencies, c.metrics, c.clientsActive);
    assert r.workers[w] == maps;
    assert r.active == (if f.dir.Request? then A.Apply(c.active, at, A.Request(f.ip, now)) else c.active);
    assert FrameCounted(c.workers[w], r.workers[w], f, geo);
    assert Value(r.workers[w]) == B.Plus(Value(c.workers[w]), Counted(f, geo));
    ghost var swept := SweptShards(c.pending, f.ts - PENDING_TTL, doSweep);
    assert r.pending == PairedShards(swept, at, f) && r.latencies == PairedLatencies(swept, c.latencies, at, f);
    assert forall i :: 0 <= i < |c.workers| && i != w ==> r.workers[i] == c.workers[i];
  }

  /** The cumulative totals after a window: its known ASNs added, then cut to the cap if above it. */
  ghost predicate TotalsStep(t: AsnTotals, t': AsnTotals, asns: multiset<B.AsnKey>) {
    exists grown: AsnTotals :: TotalsGrown(t, grown, asns)
      && if |grown| > ASN_TOTALS_MAX then IsPruned(grown, ASN_TOTALS_MAX, t') else t' == grown
  }

  ghost predicate TotalsGrown(t: AsnTotals, grown: AsnTotals, asns: multiset<B.AsnKey>) {
    Grows(t, grown, Image(asns, Renaming(KnownAsn)))
  }

  /** The per-ASN counter after a window: one more per request under the label of the ranking in force. */
  ghost predicate LabelsStep(m: Metrics, m': Metrics, asns: multiset<B.AsnKey>, asnTopN: int) {
    exists top :: IsTop(m'.asnTotals, asnTopN, top) && Grows(m.asns, m'.asns, B.Fold(asns, top))
  }

  ghost predicate PublishStep(m: Metrics, m': Metrics, held: B.Counters, asnTopN: int) {
    && Grows(m.requests, m'.requests, held.requests)
    && Grows(m.drops, m'.drops, held.requests - held.responses)
    && Grows(m.versions, m'.versions, held.versions)
    && Grows(m.families, m'.families, held.families)
    && TotalsStep(m.asnTotals, m'.asnTotals, held.asns)
    && LabelsStep(m, m', held.asns, asnTopN)
  }

  function OfAsn(a: Asn): B.AsnKey -> Option<B.AsnKey> {
    (k: B.AsnKey) => if k.hasAsn && k.asn == a then Some(k) else None
  }

  /** The requests of one network in a window. */
  ghost function RequestsOf(asns: multiset<B.AsnKey>, a: Asn): multiset<B.AsnKey> { Image(asns, Renaming(OfAsn(a))) }

  lemma KnownRequests(asns: multiset<B.AsnKey>, a: Asn)
    ensures Image(asns, Renaming(KnownAsn))[a] == |RequestsOf(asns, a)|
    ensures a in Image(asns, Renaming(KnownAsn)) <==> exists k :: k in asns && k.hasAsn && k.asn == a
  {
    forall k: B.AsnKey ensures Renaming(KnownAsn)(k)[a] == |Renaming(OfAsn(a))(k)| {
      assert KnownAsn(k) == if k.hasAsn then Some(k.asn) else None;
      assert OfAsn(a)(k) == if k.hasAsn && k.asn == a then Some(k) else None;
    }
    ImageCountsImage(asns, Renaming(KnownAsn), a, Renaming(OfAsn(a)));
    ImageMembers(asns, Renaming(KnownAsn), a);
    if k :| k in asns && k.hasAsn && k.asn == a {
      assert KnownAsn(k) == Some(a) && a in Renaming(KnownAsn)(k);
    }
  }

  /** What the window makes of the totals is determined, entries and all: the ASNs there before and the known ones of
      the window, each with its sum.  So is whether the cap was crossed, and below it the new totals themselves. */
  lemma GrownIsDetermined(t: AsnTotals, grown: AsnTotals, other: AsnTotals, asns: multiset<B.AsnKey>)
    requires TotalsGrown(t, grown, asns)
    ensures TotalsGrown(t, other, asns) ==> other == grown
    ensures forall a :: a in grown <==> a in t || exists k :: k in asns && k.hasAsn && k.asn == a
    ensures forall a :: Get(grown, a) == Get(t, a) + |RequestsOf(asns, a)|
  {
    var added := Image(asns, Renaming(KnownAsn));
    GrowsByBag(t, grown, added);
    GrowsByBag(t, other, added);
    if TotalsGrown(t, other, asns) { BagInjective(grown, other); }
    forall a: Asn
      ensures a in grown <==> a in t || exists k :: k in asns && k.hasAsn && k.asn == a
      ensures Get(grown, a) == Get(t, a) + |RequestsOf(asns, a)|
    {
      KnownRequests(asns, a);
      assert Get(grown, a) == Get(t, a) + Image(asns, Renaming(KnownAsn))[a];
    }
  }

  /** The new totals are the grown ones, or 4096 of the largest if there are more. */
  lemma TotalsAreCapped(t: AsnTotals, r: AsnTotals, grown: AsnTotals, asns: multiset<B.AsnKey>)
    requires TotalsStep(t, r, asns) && TotalsGrown(t, grown, asns)
    ensures if |grown| <= 4096 then r == grown else |r| == 4096 && IsPruned(grown, 4096, r)
  {
    var g: AsnTotals :| TotalsGrown(t, g, asns)
      && if |g| > ASN_TOTALS_MAX then IsPruned(g, ASN_TOTALS_MAX, r) else r == g;
    GrownIsDetermined(t, grown, g, asns);
  }

  lemma TotalsAreDetermined(t: AsnTotals, r: AsnTotals, other: AsnTotals, asns: multiset<B.AsnKey>)
    requires TotalsStep(t, r, asns) && TotalsStep(t, other, asns) && |r| < 4096
    ensures r == other
  {
    var grown: AsnTotals :| TotalsGrown(t, grown, asns)
      && if |grown| > ASN_TOTALS_MAX then IsPruned(grown, ASN_TOTALS_MAX, r) else r == grown;
    var grown': AsnTotals :| TotalsGrown(t, grown', asns)
      && if |grown'| > ASN_TOTALS_MAX then IsPruned(grown', ASN_TOTALS_MAX, other) else other == grown';
    GrownIsDetermined(t, grown, grown', asns);
  }

  method UpdateTotals(t: AsnTotals, asns: map<B.AsnKey, pos>) returns (r: AsnTotals)
    ensures TotalsStep(t, r, Bag(asns))
  {
    var grown := AddRenamed(t, asns, KnownAsn);
    GrowsByBag(t, grown, Image(Bag(asns), Renaming(KnownAsn)));
    assert TotalsGrown(t, grown, Bag(asns));
    r := grown;
    if |grown| > ASN_TOTALS_MAX {
      r := PruneToLargest(grown, ASN_TOTALS_MAX);
    }
  }

  /** The publication phase of Flush. */
  method Publish(m: Metrics, held: Maps, asnTopN: int, ghost total: B.Counters) returns (r: Metrics)
    requires Value(held) == total
    ensures PublishStep(m, r, total, asnTopN)
  {
    var requests := AddCounts(m.requests, held.requests);
    var drops := AddDrops(m.drops, held.requests, held.responses);
    var totals := UpdateTotals(m.asnTotals, held.asnRequests);
    var top := TopNASNs(totals, asnTopN);
    var asns := AddRenamed(m.asns, held.asnRequests, B.Labeler(top));
    var versions := AddCounts(m.versions, held.versionRequests);
    var families := AddCounts(m.families, held.familyRequests);
    r := Metrics(requests, drops, asns, versions, families, totals);
    GrowsByBag(m.requests, requests, total.requests);
    GrowsByBag(m.drops, drops, total.requests - total.responses);
    GrowsByBag(m.versions, versions, total.versions);
    GrowsByBag(m.families, families, total.families);
    GrowsByBag(m.asns, asns, B.Fold(total.asns, top));
    assert IsTop(r.asnTotals, asnTopN, top) && Grows(m.asns, r.asns, B.Fold(total.asns, top));
  }

  ghost predicate CountersFlushed(c: Core, c': Core, asnTopN: int) {
    && |c'.workers| == |c.workers| && (forall i :: 0 <= i < |c'.workers| ==> c'.workers[i] == NO_MAPS)
    && PublishStep(c.metrics, c'.metrics, Values(c.workers), asnTopN)
  }

  /** The entries of all shards. */
  ghost function Entries(shards: seq<Table>): set<(int, Bytes)> {
    set i, k | 0 <= i < |shards| && k in shards[i] :: (i, k)
  }

  lemma {:induction false} EntriesCount(shards: seq<Table>)
    ensures |Entries(shards)| == Size(shards)
  {
    if shards == [] {
      assert Entries(shards) == {};
    } else {
      var n := |shards| - 1;
      EntriesCount(shards[..n]);
      LastEntries(n, shards[n].Keys);
      var here := set k | k in shards[n].Keys :: (n, k);
      assert Entries(shards) == Entries(shards[..n]) + here;
      assert Entries(shards[..n]) !! here;
      assert |shards[n]| == |shards[n].Keys|;
    }
  }

  lemma {:induction false} LastEntries(n: int, ks: set<Bytes>)
    ensures |set k | k in ks :: (n, k)| == |ks|
  {
    if ks != {} {
      var k :| k in ks;
      LastEntries(n, ks - {k});
      assert (set j | j in ks :: (n, j)) == (set j | j in ks - {k} :: (n, j)) + {(n, k)};
    }
  }

  ghost predicate TablesFlushed(c: Core, c': Core, now: int, wall: int) {
    && c'.active == A.Evict(c.active, now - A.ACTIVE_WINDOW) && c'.clientsActive == |Entries(c'.active)|
    && c'.pending == A.Evict(c.pending, wall - PENDING_TTL)
    && c'.framesSinceSweep == c.framesSinceSweep && c'.overflows == c.overflows && c'.latencies == c.latencies
  }

  /** What a flush leaves in the tables: the clients seen in the last 300 seconds and the requests of the last two. */
  lemma FlushLeaves(c: Core, c': Core, now: int, wall: int)
    requires TablesFlushed(c, c', now, wall)
    ensures |c'.active| == |c.active| && |c'.pending| == |c.pending|
    ensures forall i, k :: 0 <= i < |c.active| ==>
      (k in c'.active[i] <==> k in c.active[i] && c.active[i][k] >= now - 300_000_000_000)
      && (k in c'.active[i] ==> c'.active[i][k] == c.active[i][k])
    ensures forall i, k :: 0 <= i < |c.pending| ==>
      (k in c'.pending[i] <==> k in c.pending[i] && c.pending[i][k] >= wall - 2_000_000_000)
      && (k in c'.pending[i] ==> c'.pending[i][k] == c.pending[i][k])
  {
  }

  /** What a frame leaves of the pairing shards before its own pairing: all of them, or on every 1024th frame the
      requests of the two seconds before it. */
  lemma SweptIs(c: Core, f: Frame, i: nat, k: Bytes)
    requires |c.pending| == SHARDS && i < SHARDS
    ensures var swept := SweptShards(c.pending, f.ts - PENDING_TTL, Sweeps(c));
      && (k in swept[i] <==>
            k in c.pending[i] && (c.framesSinceSweep < 1023 || c.pending[i][k] >= f.ts - 2_000_000_000))
      && (k in swept[i] ==> swept[i][k] == c.pending[i][k])
  {
  }

  /** Snapshot, reset and publication. */
  method FlushCounters(workers: seq<Maps>, m: Metrics, asnTopN: int) returns (r: seq<Maps>, n: Metrics)
    ensures |r| == |workers| && forall i :: 0 <= i < |r| ==> r[i] == NO_MAPS
    ensures PublishStep(m, n, Values(workers), asnTopN)
  {
    var held := Snapshot(workers);
    n := Publish(m, held, asnTopN, Values(workers));
    r := seq(|workers|, _ => NO_MAPS);
  }

  /** Eviction of idle clients and sweep of old requests. */
  method FlushTables(active: seq<Table>, pending: seq<Table>, now: int, wall: int)
      returns (a: seq<Table>, n: nat, p: seq<Table>)
    ensures a == A.Evict(active, now - A.ACTIVE_WINDOW) && n == |Entries(a)|
    ensures p == A.Evict(pending, wall - PENDING_TTL)
  {
    var m;
    a, n := SweepShards(active, now - A.ACTIVE_WINDOW);
    p, m := SweepShards(pending, wall - PENDING_TTL);
    EntriesCount(a);
  }

  /** Flush up to the hourly ring. */
  method FlushCore(c: Core, now: int, wall: int, asnTopN: int) returns (r: Core)
    ensures CountersFlushed(c, r, asnTopN) && TablesFlushed(c, r, now, wall)
  {
    var workers, metrics := FlushCounters(c.workers, c.metrics, asnTopN);
    var active, n, pending := FlushTables(c.active, c.pending, now, wall);
    r := Core(workers, pending, active, c.framesSinceSweep, c.overflows, c.latencies, metrics, n);
  }

  // --- Fields and histories

  ghost predicate MakesTable(history: seq<TableCall>, at: Placement, t: Pending) { t == TableOf(history, at) }

  ghost predicate MakesActive(calls: seq<A.Call>, at: Placement, active: seq<Table>) { active == A.Run(calls, at) }

  /** Whatever tables the calls so far make, the fields are those, and so are the latencies and refusals counted. */
  ghost predicate Follows(c: Core, at: Placement, calls: seq<A.Call>, history: seq<TableCall>) {
    && (forall active :: MakesActive(calls, at, active) ==> c.active == active)
    && (forall t :: MakesTable(history, at, t) ==>
          c.pending == t.shards && c.latencies == t.book.latencies && c.overflows == |RequestBook.Overflows(t.book)|)
  }

  lemma FollowsMeans(c: Core, at: Placement, calls: seq<A.Call>, history: seq<TableCall>)
    ensures var t := TableOf(history, at);
      Follows(c, at, calls, history) <==>
        && c.active == A.Run(calls, at) && c.pending == t.shards
        && c.latencies == t.book.latencies && c.overflows == |RequestBook.Overflows(t.book)|
  {
    assert MakesTable(history, at, TableOf(history, at)) && MakesActive(calls, at, A.Run(calls, at));
  }

  function IsFrame(): TableCall -> bool { (c: TableCall) => c.frame.Some? }

  /** The frames since the last sweep are those since the last multiple of 1024. */
  ghost predicate Ticks(frames: nat, history: seq<TableCall>) { frames == NumberOf(history, IsFrame()) % 1024 }

  lemma FrameTicks(frames: nat, history: seq<TableCall>, f: Frame, sweep: bool)
    requires Ticks(frames, history) && sweep == (frames + 1 >= 1024)
    ensures Ticks(if sweep then 0 else frames + 1, history + [FrameCall(f, sweep)])
    ensures sweep <==> NumberOf(history + [FrameCall(f, sweep)], IsFrame()) % 1024 == 0
  {
    NumberOfSnoc(history, FrameCall(f, sweep), IsFrame());
  }

  lemma FlushTicks(frames: nat, history: seq<TableCall>, wall: int)
    requires Ticks(frames, history)
    ensures Ticks(frames, history + [FlushCall(wall)])
  {
    NumberOfSnoc(history, FlushCall(wall), IsFrame());
  }

  ghost function FrameCalls(f: Frame, now: int): seq<A.Call> {
    if f.dir.Request? then [A.Request(f.ip, now)] else []
  }

  lemma ActiveAfterFrame(calls: seq<A.Call>, at: Placement, f: Frame, now: int)
    ensures A.Run(calls + FrameCalls(f, now), at)
         == if f.dir.Request? then A.Apply(A.Run(calls, at), at, A.Request(f.ip, now)) else A.Run(calls, at)
  {
    if f.dir.Request? {
      A.RunSnoc(calls, A.Request(f.ip, now), at);
    } else {
      assert calls + [] == calls;
    }
  }

  lemma FrameFollows(c: Core, c': Core, at: Placement, w: nat, f: Frame, geo: B.Geo, now: int,
                     calls: seq<A.Call>, history: seq<TableCall>)
    requires w < |c.workers| && |c.pending| == |c.active| == SHARDS
    requires Follows(c, at, calls, history) && FrameStep(c, c', at, w, f, geo, now)
    ensures Follows(c', at, calls + FrameCalls(f, now), history + [FrameCall(f, Sweeps(c))])
  {
    FollowsMeans(c, at, calls, history);
    FrameFollowsTable(history, at, f, Sweeps(c));
    ActiveAfterFrame(calls, at, f, now);
    FollowsMeans(c', at, calls + FrameCalls(f, now), history + [FrameCall(f, Sweeps(c))]);
  }

  lemma FrameTracked(c: Core, c': Core, at: Placement, w: nat, f: Frame, geo: B.Geo, now: int,
                     calls: seq<A.Call>, history: seq<TableCall>)
    requires w < |c.workers| && |c.pending| == |c.active| == SHARDS
    requires Follows(c, at, calls, history) && Ticks(c.framesSinceSweep, history)
    requires FrameStep(c, c', at, w, f, geo, now)
    ensures Follows(c', at, calls + FrameCalls(f, now), history + [FrameCall(f, Sweeps(c))])
    ensures Ticks(c'.framesSinceSweep, history + [FrameCall(f, Sweeps(c))])
    ensures |c'.pending| == |c'.active| == SHARDS
  {
    FrameFollows(c, c', at, w, f, geo, now, calls, history);
    FrameTicks(c.framesSinceSweep, history, f, Sweeps(c));
  }

  lemma ActiveAfterFlush(calls: seq<A.Call>, at: Placement, now: int, active: seq<Table>)
    requires active == A.Evict(A.Run(calls, at), now - A.ACTIVE_WINDOW)
    ensures active == A.Run(calls + [A.FlushAt(now)], at)
  {
    A.RunSnoc(calls, A.FlushAt(now), at);
  }

  lemma GaugeAfterFlush(calls: seq<A.Call>, at: Placement, now: int, active: seq<Table>)
    requires active == A.Run(calls + [A.FlushAt(now)], at)
    ensures A.CountsActive(calls + [A.FlushAt(now)], |Entries(active)|)
  {
    A.FlushCountsActive(calls, at, now);
    EntriesCount(active);
  }

  lemma FlushFollows(c: Core, c': Core, at: Placement, now: int, wall: int,
                     calls: seq<A.Call>, history: seq<TableCall>)
    requires Follows(c, at, calls, history) && TablesFlushed(c, c', now, wall)
    ensures Follows(c', at, calls + [A.FlushAt(now)], history + [FlushCall(wall)])
    ensures A.CountsActive(calls + [A.FlushAt(now)], c'.clientsActive)
  {
    FollowsMeans(c, at, calls, history);
    FlushFollowsTable(history, at, wall);
    ActiveAfterFlush(calls, at, now, c'.active);
    GaugeAfterFlush(calls, at, now, c'.active);
    FollowsMeans(c', at, calls + [A.FlushAt(now)], history + [FlushCall(wall)]);
  }

  /** So the pairing ledger is a law of the fields: every request with a transaction id was refused, overwritten,
      matched or swept, or is still in the shards, and the latencies are those of the matched ones. */
  lemma FieldsObeyLedger(c: Core, at: Placement, calls: seq<A.Call>, history: seq<TableCall>)
    requires Follows(c, at, calls, history)
    ensures var b := TableOf(history, at).book;
      && b.issued == c.overflows
                   + |set n | n in b.fates && b.fates[n].Overwritten?|
                   + |set n | n in b.fates && b.fates[n].Matched?|
                   + |set n | n in b.fates && b.fates[n].Swept?|
                   + Size(c.pending)
      && b.latencies == c.latencies && RequestBook.ObservedOnce(b)
      && Bounded(c.pending)
  {
    FollowsMeans(c, at, calls, history);
    var t := TableLaws(history, at);
    RequestBook.CountsByFate(t.book);
  }

  function VisitOf(wall: int, key: Option<Bytes>): HR.Visit { HR.Visit(HR.AbsHour(wall / SECOND), key) }

  class Collector {
    const at: Placement
    const sha1: Hash
    const asnTopN: int
    const ring: HR.HourlySketches

    var core: Core

    ghost var calls: seq<A.Call>           // requests and flushes so far, by clock time
    ghost var history: seq<TableCall>      // frames and flushes so far, as the pairing table sees them
    ghost var visits: seq<HR.Visit>        // requests and flushes so far, by wall-clock hour

    /** The fields are what the calls so far make of them. */
    ghost predicate Valid()
      reads this, ring, ring.hourly, set s | s in ring.hourly[..] :: s.registers
    {
      && |core.pending| == SHARDS && |core.active| == SHARDS && Follows(core, at, calls, history)
      && Ticks(core.framesSinceSweep, history) && RingValid()
    }

    ghost predicate RingValid()
      reads this, ring, ring.hourly, set s | s in ring.hourly[..] :: s.registers
    {
      && ring.Valid() && ring.p == HR.DEFAULT_PRECISION
      && ring.state == HR.Run(HR.DEFAULT_PRECISION, visits, sha1)
    }

    constructor (at: Placement, sha1: Hash, asnTopN: int, numWorkers: int)
      ensures Valid() && calls == [] && history == [] && visits == []
      ensures fresh(ring) && fresh(ring.hourly) && forall s :: s in ring.hourly[..] ==> fresh(s.registers)
      ensures this.at == at && this.sha1 == sha1 && this.asnTopN == asnTopN
      ensures core.framesSinceSweep == 0 && core.clientsActive == 0 && core.metrics == NO_METRICS && ring.p == 14
      ensures |core.workers| == Max(numWorkers, 1) && Values(core.workers) == B.NONE
    {
      this.at, this.sha1, this.asnTopN := at, sha1, asnTopN;
      var r := new HR.HourlySketches(HR.DEFAULT_PRECISION);
      ring := r;
      var maps := seq(if numWorkers < 1 then 1 else numWorkers, _ => NO_MAPS);
      NoMapsSum(maps);
      var c := Core(maps, seq(SHARDS, _ => map[]), seq(SHARDS, _ => map[]), 0, 0, [], NO_METRICS, 0);
      FollowsMeans(c, at, [], []);
      core, calls, history, visits := c, [], [], [];
    }

    /** The hourly section of a frame: a request visits the ring. */
    method FrameOnRing(f: Frame, wall: int)
      requires RingValid()
      modifies `visits, ring, ring.hourly, set s | s in ring.hourly[..] :: s.registers
      ensures RingValid()
      ensures visits == old(visits) + if f.dir.Request? then [VisitOf(wall, Some(f.ip))] else []
      ensures forall s :: s in ring.hourly[..] ==> s in old(ring.hourly[..]) || fresh(s.registers)
    {
      if f.dir.Request? {
        HR.RunSnoc(HR.DEFAULT_PRECISION, visits, VisitOf(wall, Some(f.ip)), sha1);
        ring.RecordKey(wall / SECOND, sha1, f.ip);
        visits := visits + [VisitOf(wall, Some(f.ip))];
      }
    }

    method Store(next: Core, ghost more: seq<A.Call>, ghost call: TableCall)
      requires Valid() && |next.pending| == |next.active| == SHARDS
      requires Follows(next, at, calls + more, history + [call]) && Ticks(next.framesSinceSweep, history + [call])
      modifies `core, `calls, `history
      ensures Valid() && core == next && calls == old(calls) + more && history == old(history) + [call]
    {
      core, calls, history := next, calls + more, history + [call];
    }

    /** The part of a frame outside the hourly ring. */
    method FrameOwn(w: nat, f: Frame, geo: B.Geo, now: int)
      requires Valid() && w < |core.workers|
      modifies `core, `calls, `history
      ensures Valid() && FrameStep(old(core), core, at, w, f, geo, now)
      ensures calls == old(calls) + FrameCalls(f, now)
      ensures history == old(history) + [FrameCall(f, Sweeps(old(core)))]
    {
      var next := FrameOnCore(core, at, w, f, geo, now);
      FrameTracked(core, next, at, w, f, geo, now, calls, history);
      Store(next, FrameCalls(f, now), FrameCall(f, Sweeps(core)));
    }

    /** One frame on worker w, start to end. */
    method HandleFrame(w: nat, f: Frame, geo: B.Geo, now: int, wall: int)
      requires Valid() && w < |core.workers|
      modifies `core, `calls, `history, `visits
      modifies ring, ring.hourly, set s | s in ring.hourly[..] :: s.registers
      ensures Valid()
      ensures forall s :: s in ring.hourly[..] ==> s in old(ring.hourly[..]) || fresh(s.registers)
      ensures FrameStep(old(core), core, at, w, f, geo, now)
      ensures calls == old(calls) + if f.dir.Request? then [A.Request(f.ip, now)] else []
      ensures history == old(history) + [FrameCall(f, Sweeps(old(core)))]
      ensures visits == old(visits) + if f.dir.Request? then [VisitOf(wall, Some(f.ip))] else []
    {
      FrameOwn(w, f, geo, now);
      FrameOnRing(f, wall);
    }

    /** The part of a flush before the hourly ring. */
    method FlushOwn(now: int, wall: int)
      requires Valid()
      modifies `core, `calls, `history
      ensures Valid() && CountersFlushed(old(core), core, asnTopN) && TablesFlushed(old(core), core, now, wall)
      ensures calls == old(calls) + [A.FlushAt(now)] && history == old(history) + [FlushCall(wall)]
      ensures A.CountsActive(calls, core.clientsActive)
    {
      var next := FlushCore(core, now, wall, asnTopN);
      FlushFollows(core, next, at, now, wall, calls, history);
      FlushTicks(core.framesSinceSweep, history, wall);
      Store(next, [A.FlushAt(now)], FlushCall(wall));
    }

    /** One flush, with the unique-clients gauge it sets; `now` is the clock, `wall` and `wallLater` the two readings
        of the wall clock, and `ln` the natural logarithm.  The gauges mean what they should: the active clients are
        those of the last 300 seconds, and the estimate is of the sketch of the clients whose slot was not passed,
        which under a steady clock are those of the last 24 hours. */
    method Flush(now: int, wall: int, wallLater: int, ln: real -> real) returns (uniqueDaily: real)
      requires Valid()
      modifies `core, `calls, `history, `visits, ring, ring.hourly
      ensures Valid()
      ensures forall s :: s in ring.hourly[..] ==> s in old(ring.hourly[..]) || fresh(s.registers)
      ensures CountersFlushed(old(core), core, asnTopN) && TablesFlushed(old(core), core, now, wall)
      ensures calls == old(calls) + [A.FlushAt(now)] && history == old(history) + [FlushCall(wall)]
      ensures visits == old(visits) + [VisitOf(wallLater, None)]
      ensures A.CountsActive(calls, core.clientsActive)
      ensures uniqueDaily == Estimate(HR.Merge(ring.state), ln)
      ensures HR.CountsDaily(HR.Merge(ring.state), HR.DEFAULT_PRECISION, sha1, visits)
    {
      FlushOwn(now, wall);
      uniqueDaily := UniqueClients(wallLater, ln);
    }

    /** The hourly section of a flush. */
    method UniqueClients(wall: int, ln: real -> real) returns (estimate: real)
      requires RingValid()
      modifies `visits, ring, ring.hourly
      ensures RingValid()
      ensures visits == old(visits) + [VisitOf(wall, None)]
      ensures forall s :: s in ring.hourly[..] ==> s in old(ring.hourly[..]) || fresh(s.registers)
      ensures estimate == Estimate(HR.Merge(ring.state), ln)
      ensures HR.CountsDaily(HR.Merge(ring.state), HR.DEFAULT_PRECISION, sha1, visits)
    {
      HR.RunSnoc(HR.DEFAULT_PRECISION, visits, VisitOf(wall, None), sha1);
      var merged := ring.Merged(wall / SECOND);
      visits := visits + [VisitOf(wall, None)];
      estimate := merged.Count(ln);
      HR.MergedCountsDaily(HR.DEFAULT_PRECISION, visits, sha1);
    }
  }

  lemma {:induction false} NoMapsSum(workers: seq<Maps>)
    requires forall w :: 0 <= w < |workers| ==> workers[w] == NO_MAPS
    ensures Values(workers) == B.NONE
  {
    if workers != [] {
      NoMapsSum(workers[..|workers| - 1]);
      assert Value(NO_MAPS) == B.NONE;
    }
  }
}
