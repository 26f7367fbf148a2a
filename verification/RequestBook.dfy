/** Bookkeeping for the pairing table: which request owns each pending key, and what became of
    every request that is no longer pending.  Requests are numbered in the order they arrive. */
module RequestBook {
  import opened Bytes
  import opened MapCounts

  datatype Fate = Overflowed | Overwritten | Swept | Matched(latency: Option<int>)

  datatype Book = Book(
    owners: map<Bytes, int>,  // pending key -> request
    issued: nat,              // requests so far
    fates: map<int, Fate>,    // the requests no longer pending
    latencies: seq<int>,      // the latencies observed
    observers: seq<int>)      // the request behind each of them

  const EMPTY := Book(map[], 0, map[], [], [])

  function Latency(ts: int, reqTs: int): Option<int> {
    if ts - reqTs >= 0 then Some(ts - reqTs) else None
  }

  function Observed(latencies: seq<int>, d: Option<int>): seq<int> {
    if d.Some? then latencies + [d.value] else latencies
  }

  // --- What can happen to a request

  function Refuse(b: Book): Book {
    b.(issued := b.issued + 1, fates := b.fates[b.issued := Overflowed])
  }

  function Own(b: Book, k: Bytes): Book {
    b.(issued := b.issued + 1,
       owners := b.owners[k := b.issued],
       fates := if k in b.owners then b.fates[b.owners[k] := Overwritten] else b.fates)
  }

  function Pair(b: Book, k: Bytes, d: Option<int>): Book
    requires k in b.owners
  {
    b.(owners := b.owners - {k},
       fates := b.fates[b.owners[k] := Matched(d)],
       latencies := Observed(b.latencies, d),
       observers := if d.Some? then b.observers + [b.owners[k]] else b.observers)
  }

  function Images(o: map<Bytes, int>, ks: set<Bytes>): set<int> {
    set k | k in ks && k in o :: o[k]
  }

  function Drop(b: Book, dead: set<Bytes>): Book {
    b.(owners := b.owners - dead, fates := b.fates + map n | n in Images(b.owners, dead) :: Swept)
  }

  // --- The laws

  /** A pending request has one key and no fate. */
  ghost predicate Apart(b: Book) {
    && (forall k :: k in b.owners ==> 0 <= b.owners[k] < b.issued && b.owners[k] !in b.fates)
    && (forall k, l :: k in b.owners && l in b.owners && b.owners[k] == b.owners[l] ==> k == l)
    && (forall n :: n in b.fates ==> 0 <= n < b.issued)
  }

  /** Every request is pending or has its one fate. */
  ghost predicate Conserved(b: Book) {
    b.issued == |b.fates| + |b.owners|
  }

  ghost predicate HasLatency(f: Fate) { f.Matched? && f.latency.Some? }

  ghost function Timed(b: Book): set<int> {
    set n | n in b.fates && HasLatency(b.fates[n])
  }

  /** Observation i is the latency of request observers[i]; no request is observed twice. */
  ghost predicate Attributed(b: Book) {
    && |b.observers| == |b.latencies|
    && (forall i :: 0 <= i < |b.observers| ==>
          b.observers[i] in b.fates && b.fates[b.observers[i]] == Matched(Some(b.latencies[i])))
    && (forall i, j :: 0 <= i < j < |b.observers| ==> b.observers[i] != b.observers[j])
  }

  /** The observations are, one for one, the latencies of the requests matched by a response that was not earlier,
      and none is negative. */
  ghost predicate ObservedOnce(b: Book) {
    && Attributed(b)
    && (forall n :: n in b.fates && HasLatency(b.fates[n]) ==> n in b.observers)
    && |b.latencies| == |Timed(b)|
    && (forall n :: n in b.fates && HasLatency(b.fates[n]) ==> b.fates[n].latency.value >= 0)
    && (forall i :: 0 <= i < |b.latencies| ==> b.latencies[i] >= 0)
  }

  ghost predicate Inv(b: Book) { Apart(b) && Conserved(b) && ObservedOnce(b) }

  /** A fate, once given, is never taken back. */
  ghost predicate Extends(b: Book, b': Book) {
    && b.issued <= b'.issued
    && forall n :: n in b.fates ==> n in b'.fates && b'.fates[n] == b.fates[n]
  }

  ghost predicate NoOverflow(b: Book) {
    forall n :: n in b.fates ==> !b.fates[n].Overflowed?
  }

  // --- Counting

  lemma {:induction false} ImagesCount(o: map<Bytes, int>, ks: set<Bytes>)
    requires ks <= o.Keys
    requires forall k, l :: k in o && l in o && o[k] == o[l] ==> k == l
    ensures |Images(o, ks)| == |ks|
  {
    if ks != {} {
      var k :| k in ks;
      ImagesCount(o, ks - {k});
      assert Images(o, ks) == Images(o, ks - {k}) + {o[k]};
    }
  }

  // --- Every event keeps the laws

  lemma RefuseKeeps(b: Book)
    requires Inv(b)
    ensures Inv(Refuse(b)) && Extends(b, Refuse(b)) && !NoOverflow(Refuse(b))
  {
    MapAddCount(b.fates, b.issued, Overflowed);
    assert Timed(Refuse(b)) == Timed(b);
    assert Refuse(b).fates[b.issued] == Overflowed;
  }

  lemma OwnKeeps(b: Book, k: Bytes)
    requires Inv(b)
    ensures Inv(Own(b, k)) && Extends(b, Own(b, k)) && (NoOverflow(Own(b, k)) <==> NoOverflow(b))
  {
    OwnApart(b, k);
    OwnConserves(b, k);
    assert Timed(Own(b, k)) == Timed(b);
    NoOverflowExtends(b, Own(b, k));
  }

  lemma OwnApart(b: Book, k: Bytes)
    requires Apart(b)
    ensures Apart(Own(b, k)) && Extends(b, Own(b, k))
  {
  }

  lemma OwnConserves(b: Book, k: Bytes)
    requires Apart(b) && Conserved(b)
    ensures Conserved(Own(b, k))
  {
    MapAddCount(b.owners, k, b.issued);
    if k in b.owners { MapAddCount(b.fates, b.owners[k], Overwritten); }
  }

  lemma PairKeeps(b: Book, k: Bytes, ts: int, reqTs: int)
    requires Inv(b) && k in b.owners
    ensures var b' := Pair(b, k, Latency(ts, reqTs));
            Inv(b') && Extends(b, b') && (NoOverflow(b') <==> NoOverflow(b))
  {
    var d := Latency(ts, reqTs);
    PairApart(b, k, d);
    PairConserves(b, k, d);
    PairObserved(b, k, d);
    NoOverflowExtends(b, Pair(b, k, d));
  }

  lemma PairApart(b: Book, k: Bytes, d: Option<int>)
    requires Apart(b) && k in b.owners
    ensures Apart(Pair(b, k, d)) && Extends(b, Pair(b, k, d))
  {
  }

  lemma PairConserves(b: Book, k: Bytes, d: Option<int>)
    requires Apart(b) && Conserved(b) && k in b.owners
    ensures Conserved(Pair(b, k, d))
  {
    MapRemoveCount(b.owners, {k});
    MapAddCount(b.fates, b.owners[k], Matched(d));
  }

  lemma PairObserved(b: Book, k: Bytes, d: Option<int>)
    requires Apart(b) && ObservedOnce(b) && k in b.owners && (d.Some? ==> d.value >= 0)
    ensures ObservedOnce(Pair(b, k, d))
  {
    assert Timed(Pair(b, k, d)) == if d.Some? then Timed(b) + {b.owners[k]} else Timed(b);
  }

  lemma DropApart(b: Book, dead: set<Bytes>)
    requires Apart(b)
    ensures Apart(Drop(b, dead)) && Extends(b, Drop(b, dead)) && Images(b.owners, dead) !! b.fates.Keys
  {
  }

  lemma DropConserves(b: Book, dead: set<Bytes>)
    requires Apart(b) && Conserved(b) && dead <= b.owners.Keys
    ensures Conserved(Drop(b, dead))
  {
    var swept := map n | n in Images(b.owners, dead) :: Swept;
    assert swept.Keys == Images(b.owners, dead);
    DropApart(b, dead);
    MapRemoveCount(b.owners, dead);
    ImagesCount(b.owners, dead);
    MapUnionCount(b.fates, swept);
    assert |swept| == |swept.Keys|;
  }

  lemma DropObserved(b: Book, dead: set<Bytes>)
    requires Apart(b) && ObservedOnce(b)
    ensures ObservedOnce(Drop(b, dead)) && (NoOverflow(Drop(b, dead)) <==> NoOverflow(b))
  {
    DropApart(b, dead);
    assert Timed(Drop(b, dead)) == Timed(b);
    NoOverflowExtends(b, Drop(b, dead));
  }

  lemma DropKeeps(b: Book, dead: set<Bytes>)
    requires Inv(b) && dead <= b.owners.Keys
    ensures Inv(Drop(b, dead)) && Extends(b, Drop(b, dead)) && (NoOverflow(Drop(b, dead)) <==> NoOverflow(b))
  {
    DropApart(b, dead);
    DropConserves(b, dead);
    DropObserved(b, dead);
  }

  lemma NoOverflowExtends(b: Book, b': Book)
    requires Extends(b, b')
    ensures NoOverflow(b') ==> NoOverflow(b)
  {
    forall n | n in b.fates && NoOverflow(b') ensures !b.fates[n].Overflowed? {
      assert n in b'.fates;
    }
  }

  /** The counting form of the ledger, by kind of fate. */
  lemma CountsByFate(b: Book)
    requires Conserved(b)
    ensures b.issued == |set n | n in b.fates && b.fates[n].Overflowed?|
                      + |set n | n in b.fates && b.fates[n].Overwritten?|
                      + |set n | n in b.fates && b.fates[n].Matched?|
                      + |set n | n in b.fates && b.fates[n].Swept?|
                      + |b.owners|
  {
    var o := set n | n in b.fates && b.fates[n].Overflowed?;
    var w := set n | n in b.fates && b.fates[n].Overwritten?;
    var m := set n | n in b.fates && b.fates[n].Matched?;
    var x := set n | n in b.fates && b.fates[n].Swept?;
    assert b.fates.Keys == o + w + m + x;
    assert |o + w + m + x| == |o + w + m| + |x| && |o + w + m| == |o + w| + |m| && |o + w| == |o| + |w|;
    assert |b.fates| == |b.fates.Keys|;
  }

  // --- Refused requests

  ghost function Overflows(b: Book): set<int> { set n | n in b.fates && b.fates[n].Overflowed? }

  lemma RefuseOverflows(b: Book)
    requires Apart(b)
    ensures |Overflows(Refuse(b))| == |Overflows(b)| + 1
  {
    assert Overflows(Refuse(b)) == Overflows(b) + {b.issued};
  }

  /** Nothing else than a refusal counts as an overflow. */
  lemma OthersDoNotOverflow(b: Book, k: Bytes, d: Option<int>, dead: set<Bytes>)
    requires Apart(b)
    ensures Overflows(Own(b, k)) == Overflows(b) == Overflows(Drop(b, dead))
    ensures k in b.owners ==> Overflows(Pair(b, k, d)) == Overflows(b)
  {
    DropApart(b, dead);
  }
}
