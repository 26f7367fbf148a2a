/** The sharded table of recently seen clients (exporter/internal/aggregate/aggregate.go) over runs
    of whole HandleFrame and Flush calls. */
module ActiveClients {
  import opened Bytes
  import opened PendingTable

  const ACTIVE_WINDOW := 300_000_000_000  // nanoseconds

  /** What a call does to the table at clock time `now`. */
  datatype Call = Request(ip: Bytes, now: int) | FlushAt(now: int)

  function Touch(shards: seq<Table>, at: Placement, ip: Bytes, now: int): (r: seq<Table>)
    requires |shards| == SHARDS
    ensures |r| == SHARDS
  {
    shards[at(ip) := shards[at(ip)][ip := now]]
  }

  /** Eviction walks all shards; the sweep of one shard is the one the pending table uses. */
  function Evict(shards: seq<Table>, cutoff: int): (r: seq<Table>)
    ensures |r| == |shards|
  {
    seq(|shards|, i requires 0 <= i < |shards| => Sweep(shards[i], cutoff))
  }

  function Apply(shards: seq<Table>, at: Placement, c: Call): (r: seq<Table>)
    requires |shards| == SHARDS
    ensures |r| == SHARDS
  {
    match c
    case Request(ip, now) => Touch(shards, at, ip, now)
    case FlushAt(now) => Evict(shards, now - ACTIVE_WINDOW)
  }

  function Run(calls: seq<Call>, at: Placement): (r: seq<Table>)
    ensures |r| == SHARDS
  {
    if calls == [] then seq(SHARDS, _ => map[])
    else Apply(Run(calls[..|calls| - 1], at), at, calls[|calls| - 1])
  }

  ghost predicate ClockOrdered(calls: seq<Call>) {
    forall i, j :: 0 <= i < j < |calls| ==> calls[i].now <= calls[j].now
  }

  /** The clients with a request at or after the cutoff, over the whole history. */
  ghost function RecentClients(calls: seq<Call>, cutoff: int): set<Bytes> {
    set c | c in calls && c.Request? && c.now >= cutoff :: c.ip
  }

  ghost predicate Backed(shards: seq<Table>, at: Placement, calls: seq<Call>)
    requires |shards| == SHARDS
  {
    forall i, ip :: 0 <= i < SHARDS && ip in shards[i] ==> at(ip) == i && Request(ip, shards[i][ip]) in calls
  }

  ghost predicate Complete(shards: seq<Table>, at: Placement, calls: seq<Call>, cutoff: int)
    requires |shards| == SHARDS
  {
    forall c :: c in calls && c.Request? && c.now >= cutoff ==>
      c.ip in shards[at(c.ip)] && c.now <= shards[at(c.ip)][c.ip]
  }

  lemma ApplyTracks(shards: seq<Table>, at: Placement, calls: seq<Call>, c: Call, t: int)
    requires |shards| == SHARDS && t <= c.now && (forall d :: d in calls ==> d.now <= t)
    requires Backed(shards, at, calls) && Complete(shards, at, calls, t - ACTIVE_WINDOW)
    ensures Backed(Apply(shards, at, c), at, calls + [c])
    ensures Complete(Apply(shards, at, c), at, calls + [c], c.now - ACTIVE_WINDOW)
  {
    assert (calls + [c])[|calls|] == c;
    assert forall d :: d in calls + [c] <==> d in calls || d == c;
  }

  lemma RunSnoc(init: seq<Call>, c: Call, at: Placement)
    ensures Run(init + [c], at) == Apply(Run(init, at), at, c)
  {
    assert (init + [c])[..|init|] == init;
  }

  /** Every entry comes from a request, and every request of the last 300 seconds has its entry. */
  ghost predicate Tracks(calls: seq<Call>, at: Placement)
    requires calls != []
  {
    && Backed(Run(calls, at), at, calls)
    && Complete(Run(calls, at), at, calls, calls[|calls| - 1].now - ACTIVE_WINDOW)
  }

  lemma FirstCallTracks(c: Call, at: Placement)
    ensures Tracks([] + [c], at)
  {
    RunSnoc([], c, at);
    ApplyTracks(Run([], at), at, [], c, c.now);
  }

  lemma NextCallTracks(init: seq<Call>, c: Call, at: Placement)
    requires init != [] && ClockOrdered(init) && init[|init| - 1].now <= c.now && Tracks(init, at)
    ensures Tracks(init + [c], at)
  {
    forall d | d in init ensures d.now <= init[|init| - 1].now {
      var i :| 0 <= i < |init| && init[i] == d;
    }
    RunSnoc(init, c, at);
    ApplyTracks(Run(init, at), at, init, c, init[|init| - 1].now);
  }

  lemma {:induction false} RunTracks(calls: seq<Call>, at: Placement)
    requires ClockOrdered(calls) && calls != []
    ensures Tracks(calls, at)
  {
    var n := |calls| - 1;
    assert calls == calls[..n] + [calls[n]];
    if n == 0 {
      FirstCallTracks(calls[0], at);
    } else {
      RunTracks(calls[..n], at);
      NextCallTracks(calls[..n], calls[n], at);
    }
  }

  // --- Counting across shards

  ghost function KeysBelow(keys: set<Bytes>, home: Home, n: nat): set<Bytes> {
    set k | k in keys && home(k) < n
  }

  lemma {:induction false} SizeOfKeysBelow(shards: seq<Table>, home: Home, keys: set<Bytes>, n: nat)
    requires InPlace(shards, home) && Holds(shards, home, keys) && n <= SHARDS
    ensures Size(shards[..n]) == |KeysBelow(keys, home, n)|
  {
    if n == 0 {
      assert KeysBelow(keys, home, 0) == {};
    } else {
      SizeOfKeysBelow(shards, home, keys, n - 1);
      KeysOfShard(shards, home, keys, n - 1);
      SizeSnoc(shards, n - 1);
    }
  }

  lemma SizeSnoc(shards: seq<Table>, n: nat)
    requires n < |shards|
    ensures Size(shards[..n + 1]) == Size(shards[..n]) + |shards[n]|
  {
    assert shards[..n + 1][..n] == shards[..n];
  }

  lemma KeysOfShard(shards: seq<Table>, home: Home, keys: set<Bytes>, n: nat)
    requires InPlace(shards, home) && Holds(shards, home, keys) && n < SHARDS
    ensures |KeysBelow(keys, home, n + 1)| == |KeysBelow(keys, home, n)| + |shards[n]|
  {
    var low, here := KeysBelow(keys, home, n), shards[n].Keys;
    assert KeysBelow(keys, home, n + 1) == low + here;
    assert low !! here && |low + here| == |low| + |here|;
    assert |here| == |shards[n]|;
  }

  lemma SizeOfKeys(shards: seq<Table>, home: Home, keys: set<Bytes>)
    requires InPlace(shards, home) && Holds(shards, home, keys)
    ensures Size(shards) == |keys|
  {
    SizeOfKeysBelow(shards, home, keys, SHARDS);
    assert shards[..SHARDS] == shards && KeysBelow(keys, home, SHARDS) == keys;
  }

  /** After a flush the entries are exactly the clients of the last 300 seconds. */
  lemma EntriesAreRecent(calls: seq<Call>, at: Placement, k: Bytes)
    requires ClockOrdered(calls) && calls != [] && calls[|calls| - 1].FlushAt?
    ensures k in RecentClients(calls, calls[|calls| - 1].now - 300_000_000_000) <==> k in Run(calls, at)[at(k)]
  {
    var shards, cutoff := Run(calls, at), calls[|calls| - 1].now - ACTIVE_WINDOW;
    RunTracks(calls, at);
    if k in shards[at(k)] {
      assert Request(k, shards[at(k)][k]) in calls;
      assert shards[at(k)][k] >= cutoff;
    }
  }

  lemma EntriesInPlace(calls: seq<Call>, at: Placement)
    requires ClockOrdered(calls) && calls != []
    ensures InPlace(Run(calls, at), at)
  {
    RunTracks(calls, at);
  }

  /** The gauge a flush at time T sets is the number of distinct clients with a request in the last
      300 seconds, over the whole history, despite sharding and earlier evictions. */
  lemma ActiveGauge(calls: seq<Call>, at: Placement)
    requires ClockOrdered(calls) && calls != [] && calls[|calls| - 1].FlushAt?
    ensures Size(Run(calls, at)) == |RecentClients(calls, calls[|calls| - 1].now - 300_000_000_000)|
  {
    var recent := RecentClients(calls, calls[|calls| - 1].now - 300_000_000_000);
    EntriesInPlace(calls, at);
    forall k ensures k in recent <==> k in Run(calls, at)[at(k)] { EntriesAreRecent(calls, at, k); }
    SizeOfKeys(Run(calls, at), at, recent);
  }

  /** Under a clock that never runs back, n is the number of distinct clients of the last 300 seconds. */
  ghost predicate CountsActive(calls: seq<Call>, n: nat)
    requires calls != []
  {
    ClockOrdered(calls) ==> n == |RecentClients(calls, calls[|calls| - 1].now - 300_000_000_000)|
  }

  lemma FlushCountsActive(calls: seq<Call>, at: Placement, now: int)
    ensures CountsActive(calls + [FlushAt(now)], Size(Run(calls + [FlushAt(now)], at)))
  {
    var all := calls + [FlushAt(now)];
    if ClockOrdered(all) { ActiveGauge(all, at); }
  }
}
