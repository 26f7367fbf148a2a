/** The sharded request/response pairing table of exporter/internal/aggregate/aggregate.go.

    Each mutex section is one step.  Beside the 16 maps of the source the state carries what they
    are compared with: one flat map under the same string keys, one unbounded table under
    (address, transaction id) pairs, and the book of requests. */
module PendingTable {
  import opened Bytes
  import opened RequestBook
  import opened MapCounts

  const PENDING_MAX := 50000
  const PENDING_TTL := 2_000_000_000  // nanoseconds
  const SHARDS := 16
  const BAR: byte := 124  // '|'

  type ShardId = i: int | 0 <= i < SHARDS

  /** The shard of a client address (FNV-1a modulo 16 in the source; any function will do). */
  type Placement = Bytes -> ShardId

  type Table = map<Bytes, int>
  type PairTable = map<(Bytes, Bytes), int>

  // --- Keys

  function PendingKey(ip: Bytes, xid: Bytes): Bytes { ip + [BAR] + xid }

  function KeyIp(k: Bytes): Bytes {
    if k == [] || k[0] == BAR then [] else [k[0]] + KeyIp(k[1..])
  }

  function KeyXid(k: Bytes): Bytes {
    if k == [] then [] else if k[0] == BAR then k[1..] else KeyXid(k[1..])
  }

  /** A key gives back the address and the transaction id, whatever bytes the latter has,
      as long as the address has no bar. */
  lemma {:induction false} PendingKeySplits(ip: Bytes, xid: Bytes)
    requires BAR !in ip
    ensures KeyIp(PendingKey(ip, xid)) == ip && KeyXid(PendingKey(ip, xid)) == xid
  {
    var k := PendingKey(ip, xid);
    if ip == [] {
      assert k == [BAR] + xid;
    } else {
      assert k[0] == ip[0] && ip[0] in ip;
      assert k[1..] == PendingKey(ip[1..], xid);
      PendingKeySplits(ip[1..], xid);
    }
  }

  lemma PendingKeyInjective(ip: Bytes, xid: Bytes, ip': Bytes, xid': Bytes)
    requires BAR !in ip && BAR !in ip'
    ensures PendingKey(ip, xid) == PendingKey(ip', xid') <==> ip == ip' && xid == xid'
  {
    PendingKeySplits(ip, xid);
    PendingKeySplits(ip', xid');
  }

  /** With a bar in the address two different clients share a key. */
  lemma BarsCollide()
    ensures PendingKey([BAR], []) == PendingKey([], [BAR]) && [BAR] != []
  {
  }

  // --- The sections on one shard

  /** A new key is refused when the shard is full. */
  predicate Refuses(p: Table, k: Bytes) { k !in p && |p| >= PENDING_MAX }

  function Put(p: Table, k: Bytes, ts: int): Table {
    if Refuses(p, k) then p else p[k := ts]
  }

  function Expired(p: Table, cutoff: int): set<Bytes> {
    set k | k in p && p[k] < cutoff
  }

  function Sweep(p: Table, cutoff: int): Table { p - Expired(p, cutoff) }

  // --- The sharded table against one flat map, for any assignment of keys to shards

  type Home = Bytes -> ShardId

  ghost predicate InPlace(shards: seq<Table>, home: Home) {
    |shards| == SHARDS && forall i, k :: 0 <= i < SHARDS && k in shards[i] ==> home(k) == i
  }

  ghost predicate Holds(shards: seq<Table>, home: Home, keys: set<Bytes>)
    requires InPlace(shards, home)
  {
    forall k :: k in keys <==> k in shards[home(k)]
  }

  ghost predicate SameAs(shards: seq<Table>, home: Home, flat: Table)
    requires InPlace(shards, home)
  {
    && Holds(shards, home, flat.Keys)
    && forall k :: k in flat ==> k in shards[home(k)] && shards[home(k)][k] == flat[k]
  }

  ghost predicate Bounded(shards: seq<Table>) {
    forall i :: 0 <= i < |shards| ==> |shards[i]| <= PENDING_MAX
  }

  ghost function Size(shards: seq<Table>): nat {
    if shards == [] then 0 else Size(shards[..|shards| - 1]) + |shards[|shards| - 1]|
  }

  lemma {:induction false} SizeUpdate(shards: seq<Table>, i: nat, p: Table)
    requires i < |shards|
    ensures Size(shards[i := p]) == Size(shards) - |shards[i]| + |p|
  {
    var n := |shards| - 1;
    if i == n {
      assert shards[i := p][..n] == shards[..n];
    } else {
      SizeUpdate(shards[..n], i, p);
      assert shards[i := p][..n] == shards[..n][i := p];
    }
  }

  lemma PutPlaced(shards: seq<Table>, home: Home, k: Bytes, ts: int, keys: set<Bytes>)
    requires InPlace(shards, home) && Holds(shards, home, keys) && Bounded(shards) && !Refuses(shards[home(k)], k)
    ensures var shards' := shards[home(k) := Put(shards[home(k)], k, ts)];
            InPlace(shards', home) && Holds(shards', home, keys + {k}) && Bounded(shards')
  {
    MapAddCount(shards[home(k)], k, ts);
  }

  lemma PutSame(shards: seq<Table>, home: Home, k: Bytes, ts: int, flat: Table)
    requires InPlace(shards, home) && SameAs(shards, home, flat) && !Refuses(shards[home(k)], k)
    ensures var shards' := shards[home(k) := Put(shards[home(k)], k, ts)];
            InPlace(shards', home) && SameAs(shards', home, flat[k := ts])
  {
  }

  lemma RemovePlaced(shards: seq<Table>, home: Home, k: Bytes, keys: set<Bytes>)
    requires InPlace(shards, home) && Holds(shards, home, keys) && Bounded(shards) && k in shards[home(k)]
    ensures var shards' := shards[home(k) := shards[home(k)] - {k}];
            InPlace(shards', home) && Holds(shards', home, keys - {k}) && Bounded(shards')
  {
    MapRemoveCount(shards[home(k)], {k});
  }

  lemma RemoveSame(shards: seq<Table>, home: Home, k: Bytes, flat: Table)
    requires InPlace(shards, home) && SameAs(shards, home, flat)
    ensures var shards' := shards[home(k) := shards[home(k)] - {k}];
            InPlace(shards', home) && SameAs(shards', home, flat - {k})
  {
  }

  /** The entries of the flat map that a sweep of shard i removes. */
  function ExpiredAt(flat: Table, home: Home, i: ShardId, cutoff: int): set<Bytes> {
    set k | k in flat && home(k) == i && flat[k] < cutoff
  }

  lemma SweepPlaced(shards: seq<Table>, home: Home, i: ShardId, cutoff: int, keys: set<Bytes>)
    requires InPlace(shards, home) && Holds(shards, home, keys) && Bounded(shards)
    ensures var dead := Expired(shards[i], cutoff);
            var shards' := shards[i := Sweep(shards[i], cutoff)];
            InPlace(shards', home) && Holds(shards', home, keys - dead) && Bounded(shards') && dead <= keys
  {
    MapRemoveCount(shards[i], Expired(shards[i], cutoff));
  }

  lemma SweepSame(shards: seq<Table>, home: Home, i: ShardId, cutoff: int, flat: Table)
    requires InPlace(shards, home) && SameAs(shards, home, flat)
    ensures var shards' := shards[i := Sweep(shards[i], cutoff)];
            InPlace(shards', home) && SameAs(shards', home, flat - ExpiredAt(flat, home, i, cutoff))
  {
  }

  // --- The flat map against the table of (address, transaction id) pairs

  ghost predicate SamePairs(flat: Table, pairs: PairTable) {
    && (forall g :: g in pairs ==>
          BAR !in g.0 && PendingKey(g.0, g.1) in flat && flat[PendingKey(g.0, g.1)] == pairs[g])
    && (forall k :: k in flat ==> exists g :: g in pairs && PendingKey(g.0, g.1) == k)
  }

  lemma PairsPut(flat: Table, pairs: PairTable, ip: Bytes, xid: Bytes, ts: int)
    requires SamePairs(flat, pairs) && BAR !in ip
    ensures SamePairs(flat[PendingKey(ip, xid) := ts], pairs[(ip, xid) := ts])
  {
    forall g | g in pairs && g != (ip, xid) ensures PendingKey(g.0, g.1) != PendingKey(ip, xid) {
      PendingKeyInjective(ip, xid, g.0, g.1);
    }
    var pairs' := pairs[(ip, xid) := ts];
    var flat' := flat[PendingKey(ip, xid) := ts];
    forall k | k in flat'
      ensures exists g :: g in pairs' && PendingKey(g.0, g.1) == k
    {
      if k == PendingKey(ip, xid) {
        assert (ip, xid) in pairs';
      } else {
        var g :| g in pairs && PendingKey(g.0, g.1) == k;
        assert g in pairs';
      }
    }
  }

  lemma PairsLookup(flat: Table, pairs: PairTable, ip: Bytes, xid: Bytes)
    requires SamePairs(flat, pairs) && BAR !in ip
    ensures (ip, xid) in pairs <==> PendingKey(ip, xid) in flat
    ensures (ip, xid) in pairs ==> pairs[(ip, xid)] == flat[PendingKey(ip, xid)]
  {
    if PendingKey(ip, xid) in flat {
      var g :| g in pairs && PendingKey(g.0, g.1) == PendingKey(ip, xid);
      PendingKeyInjective(ip, xid, g.0, g.1);
    }
  }

  /** Removing corresponding entries on both sides keeps the two tables alike. */
  lemma PairsRemove(flat: Table, pairs: PairTable, dead: set<Bytes>, deadPairs: set<(Bytes, Bytes)>)
    requires SamePairs(flat, pairs)
    requires forall g :: g in pairs ==> (g in deadPairs <==> PendingKey(g.0, g.1) in dead)
    ensures SamePairs(flat - dead, pairs - deadPairs)
  {
    forall k | k in flat - dead ensures exists g :: g in pairs - deadPairs && PendingKey(g.0, g.1) == k {
      var g :| g in pairs && PendingKey(g.0, g.1) == k;
      assert g in pairs - deadPairs;
    }
  }

  // --- The whole state and its steps

  datatype Pending = Pending(shards: seq<Table>, book: Book, flat: Table, pairs: PairTable, pairLatencies: seq<int>)

  function Empty(): Pending { Pending(seq(SHARDS, _ => map[]), EMPTY, map[], map[], []) }

  function HomeOf(at: Placement): Home { k => at(KeyIp(k)) }

  function StoreStep(s: Pending, at: Placement, ip: Bytes, xid: Bytes, ts: int): (s': Pending)
    requires |s.shards| == SHARDS
    ensures |s'.shards| == SHARDS
  {
    var i, k := at(ip), PendingKey(ip, xid);
    s.(shards := s.shards[i := Put(s.shards[i], k, ts)],
       book := if Refuses(s.shards[i], k) then Refuse(s.book) else Own(s.book, k),
       flat := s.flat[k := ts],
       pairs := s.pairs[(ip, xid) := ts])
  }

  function MatchStep(s: Pending, at: Placement, ip: Bytes, xid: Bytes, ts: int): (s': Pending)
    requires |s.shards| == SHARDS
    ensures |s'.shards| == SHARDS
  {
    var i, k := at(ip), PendingKey(ip, xid);
    var p := s.shards[i];
    s.(shards := s.shards[i := p - {k}],
       book := if k in p && k in s.book.owners then Pair(s.book, k, Latency(ts, p[k])) else s.book,
       flat := s.flat - {k},
       pairs := s.pairs - {(ip, xid)},
       pairLatencies := if (ip, xid) in s.pairs
                        then Observed(s.pairLatencies, Latency(ts, s.pairs[(ip, xid)])) else s.pairLatencies)
  }

  function SweepStep(s: Pending, at: Placement, i: ShardId, cutoff: int): (s': Pending)
    requires |s.shards| == SHARDS
    ensures |s'.shards| == SHARDS
  {
    s.(shards := s.shards[i := Sweep(s.shards[i], cutoff)],
       book := Drop(s.book, Expired(s.shards[i], cutoff)),
       flat := s.flat - ExpiredAt(s.flat, HomeOf(at), i, cutoff),
       pairs := s.pairs - set g | g in s.pairs && at(g.0) == i && s.pairs[g] < cutoff)
  }

  /** While no request was refused the shards are the flat map cut by home, and every latency is the
      one the single table of pairs gives. */
  ghost predicate Refines(s: Pending, at: Placement)
    requires InPlace(s.shards, HomeOf(at))
  {
    NoOverflow(s.book) ==> SameAs(s.shards, HomeOf(at), s.flat) && s.pairLatencies == s.book.latencies
  }

  /** Keys live in their client's shard, shards stay within the cap, and the book owns exactly the entries. */
  ghost predicate Keeps(shards: seq<Table>, book: Book, home: Home) {
    && InPlace(shards, home) && Bounded(shards)
    && Holds(shards, home, book.owners.Keys)
    && Size(shards) == |book.owners|
    && RequestBook.Inv(book)
  }

  ghost predicate Sound(s: Pending, at: Placement) { Keeps(s.shards, s.book, HomeOf(at)) }

  ghost predicate Inv(s: Pending, at: Placement) {
    Sound(s, at) && SamePairs(s.flat, s.pairs) && Refines(s, at)
  }

  lemma EmptyInv(at: Placement)
    ensures Inv(Empty(), at)
  {
    SizeOfEmpty(Empty().shards);
    assert Timed(EMPTY) == {};
  }

  lemma {:induction false} SizeOfEmpty(shards: seq<Table>)
    requires forall i :: 0 <= i < |shards| ==> shards[i] == map[]
    ensures Size(shards) == 0
  {
    if shards != [] { SizeOfEmpty(shards[..|shards| - 1]); }
  }

  lemma TakeSize(shards: seq<Table>, owners: map<Bytes, int>, home: Home, k: Bytes, ts: int, n: int)
    requires InPlace(shards, home) && Holds(shards, home, owners.Keys) && Size(shards) == |owners|
    ensures Size(shards[home(k) := shards[home(k)][k := ts]]) == |owners[k := n]|
  {
    MapAddCount(owners, k, n);
    MapAddCount(shards[home(k)], k, ts);
    SizeUpdate(shards, home(k), shards[home(k)][k := ts]);
  }

  lemma TakeSound(shards: seq<Table>, book: Book, home: Home, k: Bytes, ts: int)
    requires Keeps(shards, book, home) && !Refuses(shards[home(k)], k)
    ensures Keeps(shards[home(k) := Put(shards[home(k)], k, ts)], Own(book, k), home)
  {
    OwnKeeps(book, k);
    PutPlaced(shards, home, k, ts, book.owners.Keys);
    TakeSize(shards, book.owners, home, k, ts, book.issued);
    assert Own(book, k).owners.Keys == book.owners.Keys + {k};
  }

  lemma RemoveSize(shards: seq<Table>, owners: map<Bytes, int>, home: Home, i: ShardId, dead: set<Bytes>)
    requires InPlace(shards, home) && Holds(shards, home, owners.Keys) && Size(shards) == |owners|
    requires dead <= shards[i].Keys
    ensures Size(shards[i := shards[i] - dead]) == |owners - dead|
  {
    MapRemoveCount(owners, dead);
    MapRemoveCount(shards[i], dead);
    SizeUpdate(shards, i, shards[i] - dead);
  }

  lemma ReleaseSound(shards: seq<Table>, book: Book, home: Home, k: Bytes, ts: int)
    requires Keeps(shards, book, home) && k in shards[home(k)] && k in book.owners
    ensures Keeps(shards[home(k) := shards[home(k)] - {k}], Pair(book, k, Latency(ts, shards[home(k)][k])), home)
  {
    PairKeeps(book, k, ts, shards[home(k)][k]);
    RemovePlaced(shards, home, k, book.owners.Keys);
    RemoveSize(shards, book.owners, home, home(k), {k});
    assert (book.owners - {k}).Keys == book.owners.Keys - {k};
  }

  lemma StoreSound(s: Pending, at: Placement, ip: Bytes, xid: Bytes, ts: int)
    requires Sound(s, at) && HomeOf(at)(PendingKey(ip, xid)) == at(ip)
    ensures var s' := StoreStep(s, at, ip, xid, ts); Sound(s', at) && Extends(s.book, s'.book)
  {
    if Refuses(s.shards[at(ip)], PendingKey(ip, xid)) {
      RefuseKeeps(s.book);
      assert StoreStep(s, at, ip, xid, ts).shards == s.shards;
    } else {
      OwnKeeps(s.book, PendingKey(ip, xid));
      TakeSound(s.shards, s.book, HomeOf(at), PendingKey(ip, xid), ts);
    }
  }

  lemma StoreRefines(s: Pending, at: Placement, ip: Bytes, xid: Bytes, ts: int)
    requires InPlace(s.shards, HomeOf(at)) && RequestBook.Inv(s.book) && Refines(s, at)
    requires HomeOf(at)(PendingKey(ip, xid)) == at(ip)
    requires InPlace(StoreStep(s, at, ip, xid, ts).shards, HomeOf(at))
    ensures Refines(StoreStep(s, at, ip, xid, ts), at)
  {
    var k := PendingKey(ip, xid);
    if Refuses(s.shards[at(ip)], k) {
      RefuseKeeps(s.book);
    } else {
      OwnKeeps(s.book, k);
      if NoOverflow(s.book) { PutSame(s.shards, HomeOf(at), k, ts, s.flat); }
    }
  }

  /** A shard that takes the key: it has it already, or holds fewer than 50000 entries. */
  predicate HasRoom(p: Table, k: Bytes) { k in p || |p| < 50000 }

  /** What storing does: with room the entry is in the client's shard, with its time and as the newest request; without,
      the shards stay as they are and the request counts as overflowed.  No other shard changes. */
  lemma StoreExactly(s: Pending, at: Placement, ip: Bytes, xid: Bytes, ts: int)
    requires |s.shards| == SHARDS
    ensures var s' := StoreStep(s, at, ip, xid, ts); var k := ip + [124] + xid;
      && (forall j :: 0 <= j < SHARDS && j != at(ip) ==> s'.shards[j] == s.shards[j])
      && s'.book.issued == s.book.issued + 1
      && if HasRoom(s.shards[at(ip)], k)
         then && s'.shards[at(ip)] == s.shards[at(ip)][k := ts]
              && k in s'.book.owners && s'.book.owners[k] == s.book.issued
         else && s'.shards == s.shards && s'.book.owners == s.book.owners
              && s.book.issued in s'.book.fates && s'.book.fates[s.book.issued] == Overflowed
  {
  }

  /** What matching does: the entry, if any, leaves the client's shard, and no other entry does. */
  lemma MatchExactly(s: Pending, at: Placement, ip: Bytes, xid: Bytes, ts: int)
    requires |s.shards| == SHARDS
    ensures var s' := MatchStep(s, at, ip, xid, ts); var k := ip + [124] + xid;
      forall j, l :: 0 <= j < SHARDS ==>
        (l in s'.shards[j] <==> l in s.shards[j] && (j != at(ip) || l != k))
        && (l in s'.shards[j] ==> s'.shards[j][l] == s.shards[j][l])
  {
  }

  /** What a sweep does: exactly the entries before the cutoff leave the one shard. */
  lemma SweepExactly(s: Pending, at: Placement, i: ShardId, cutoff: int)
    requires |s.shards| == SHARDS
    ensures var s' := SweepStep(s, at, i, cutoff);
      forall j, l :: 0 <= j < SHARDS ==>
        (l in s'.shards[j] <==> l in s.shards[j] && (j != i || s.shards[j][l] >= cutoff))
        && (l in s'.shards[j] ==> s'.shards[j][l] == s.shards[j][l])
  {
  }

  lemma StoreKeeps(s: Pending, at: Placement, ip: Bytes, xid: Bytes, ts: int)
    requires Inv(s, at) && BAR !in ip
    ensures var s' := StoreStep(s, at, ip, xid, ts); Inv(s', at) && Extends(s.book, s'.book)
  {
    PendingKeySplits(ip, xid);
    StoreSound(s, at, ip, xid, ts);
    StoreRefines(s, at, ip, xid, ts);
    PairsPut(s.flat, s.pairs, ip, xid, ts);
  }

  lemma PairsMatch(s: Pending, at: Placement, ip: Bytes, xid: Bytes, ts: int)
    requires SamePairs(s.flat, s.pairs) && |s.shards| == SHARDS && BAR !in ip
    ensures var s' := MatchStep(s, at, ip, xid, ts); SamePairs(s'.flat, s'.pairs)
  {
    forall g | g in s.pairs ensures g in {(ip, xid)} <==> PendingKey(g.0, g.1) in {PendingKey(ip, xid)} {
      PendingKeyInjective(ip, xid, g.0, g.1);
    }
    PairsRemove(s.flat, s.pairs, {PendingKey(ip, xid)}, {(ip, xid)});
  }

  lemma MatchMiss(s: Pending, at: Placement, ip: Bytes, xid: Bytes, ts: int)
    requires |s.shards| == SHARDS && PendingKey(ip, xid) !in s.shards[at(ip)]
    ensures var s' := MatchStep(s, at, ip, xid, ts); s'.shards == s.shards && s'.book == s.book
  {
    var i, k := at(ip), PendingKey(ip, xid);
    assert s.shards[i] - {k} == s.shards[i];
  }

  lemma MatchSound(s: Pending, at: Placement, ip: Bytes, xid: Bytes, ts: int)
    requires Sound(s, at) && HomeOf(at)(PendingKey(ip, xid)) == at(ip)
    ensures var s' := MatchStep(s, at, ip, xid, ts); Sound(s', at) && Extends(s.book, s'.book)
  {
    if PendingKey(ip, xid) in s.shards[at(ip)] {
      PairKeeps(s.book, PendingKey(ip, xid), ts, s.shards[at(ip)][PendingKey(ip, xid)]);
      ReleaseSound(s.shards, s.book, HomeOf(at), PendingKey(ip, xid), ts);
    } else {
      MatchMiss(s, at, ip, xid, ts);
    }
  }

  lemma MatchRefines(s: Pending, at: Placement, ip: Bytes, xid: Bytes, ts: int)
    requires Sound(s, at) && Refines(s, at) && HomeOf(at)(PendingKey(ip, xid)) == at(ip)
    requires (ip, xid) in s.pairs <==> PendingKey(ip, xid) in s.flat
    requires (ip, xid) in s.pairs ==> s.pairs[(ip, xid)] == s.flat[PendingKey(ip, xid)]
    requires InPlace(MatchStep(s, at, ip, xid, ts).shards, HomeOf(at))
    ensures Refines(MatchStep(s, at, ip, xid, ts), at)
  {
    var k, home := PendingKey(ip, xid), HomeOf(at);
    if k in s.shards[home(k)] {
      PairKeeps(s.book, k, ts, s.shards[home(k)][k]);
    } else {
      MatchMiss(s, at, ip, xid, ts);
    }
    if NoOverflow(s.book) { RemoveSame(s.shards, home, k, s.flat); }
  }

  lemma MatchKeeps(s: Pending, at: Placement, ip: Bytes, xid: Bytes, ts: int)
    requires Inv(s, at) && BAR !in ip
    ensures var s' := MatchStep(s, at, ip, xid, ts); Inv(s', at) && Extends(s.book, s'.book)
  {
    PendingKeySplits(ip, xid);
    MatchSound(s, at, ip, xid, ts);
    PairsLookup(s.flat, s.pairs, ip, xid);
    MatchRefines(s, at, ip, xid, ts);
    PairsMatch(s, at, ip, xid, ts);
  }

  lemma SweepSound(s: Pending, at: Placement, i: ShardId, cutoff: int)
    requires Sound(s, at)
    ensures var s' := SweepStep(s, at, i, cutoff);
            Sound(s', at) && Extends(s.book, s'.book) && (NoOverflow(s'.book) <==> NoOverflow(s.book))
  {
    var dead := Expired(s.shards[i], cutoff);
    SweepPlaced(s.shards, HomeOf(at), i, cutoff, s.book.owners.Keys);
    DropKeeps(s.book, dead);
    RemoveSize(s.shards, s.book.owners, HomeOf(at), i, dead);
    assert Drop(s.book, dead).owners.Keys == s.book.owners.Keys - dead;
  }

  lemma PairsSweep(s: Pending, at: Placement, i: ShardId, cutoff: int)
    requires SamePairs(s.flat, s.pairs) && |s.shards| == SHARDS
    ensures var s' := SweepStep(s, at, i, cutoff); SamePairs(s'.flat, s'.pairs)
  {
    var dead := ExpiredAt(s.flat, HomeOf(at), i, cutoff);
    var deadPairs := set g | g in s.pairs && at(g.0) == i && s.pairs[g] < cutoff;
    forall g | g in s.pairs ensures g in deadPairs <==> PendingKey(g.0, g.1) in dead {
      PendingKeySplits(g.0, g.1);
    }
    PairsRemove(s.flat, s.pairs, dead, deadPairs);
  }

  lemma SweepKeeps(s: Pending, at: Placement, i: ShardId, cutoff: int)
    requires Inv(s, at)
    ensures var s' := SweepStep(s, at, i, cutoff); Inv(s', at) && Extends(s.book, s'.book)
  {
    SweepSound(s, at, i, cutoff);
    PairsSweep(s, at, i, cutoff);
    if NoOverflow(s.book) { SweepSame(s.shards, HomeOf(at), i, cutoff, s.flat); }
  }
}
