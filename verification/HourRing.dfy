/** The ring of 24 hourly sketches in exporter/internal/aggregate/aggregate.go, and what its
    merge stands for: the clients seen in the current hour and the 23 before it. */
module HourRing {
  import opened Bytes
  import opened HyperLogLog

  const HOURS := 24
  const DEFAULT_PRECISION: nat := 14

  /** The number of whole hours since the epoch, and the UTC hour of day, of a wall-clock second. */
  function AbsHour(wall: int): int { wall / 3600 }

  function HourOfDay(abs: int): (h: nat)
    ensures h < HOURS
  {
    abs % HOURS
  }

  /** An absolute hour is 3600 seconds, and the hour of day the one of the UTC day, counted from midnight. */
  lemma HourIs(wall: int, h: int)
    ensures AbsHour(wall) == h <==> 3600 * h <= wall < 3600 * h + 3600
    ensures HourOfDay(AbsHour(wall)) == h <==> 3600 * h <= wall % 86400 < 3600 * h + 3600
  {
    var day := wall / 86400;
    assert wall == 86400 * day + wall % 86400;
    assert AbsHour(wall) == 24 * day + (wall % 86400) / 3600;
  }

  /** The slots as register vectors of precision p, and the hour of day last seen, if any. */
  datatype Ring = Ring(p: nat, buckets: seq<Registers>, hour: nat, hourSet: bool) {
    ghost predicate Valid() {
      && Precision(p) && |buckets| == HOURS && hour < HOURS
      && forall i :: 0 <= i < HOURS ==> |buckets[i]| == Pow2(p)
    }
  }

  ghost function EmptyRing(p: nat): (r: Ring)
    requires Precision(p)
    ensures r.Valid() && r.p == p
  {
    Ring(p, seq(HOURS, _ => Zero(p)), 0, false)
  }

  /** How many slots ahead of a slot another one lies. */
  function Ahead(from: nat, to: nat): (d: nat)
    requires from < HOURS && to < HOURS
    ensures d < HOURS
  {
    if from <= to then to - from else to - from + HOURS
  }

  /** j is met when walking the ring from the slot after `from` up to and including `to`. */
  predicate InArc(from: nat, to: nat, j: int)
    requires from < HOURS && to < HOURS && 0 <= j < HOURS
  {
    0 < Ahead(from, j) <= Ahead(from, to)
  }

  /** Moving to `hour` empties every slot passed on the way; an unset or unchanged hour empties none. */
  ghost function Rotate(r: Ring, hour: nat): (r': Ring)
    requires r.Valid() && hour < HOURS
    ensures r'.Valid() && r'.p == r.p && r'.hour == hour && r'.hourSet
  {
    var buckets := seq(HOURS, j requires 0 <= j < HOURS =>
      if r.hourSet && InArc(r.hour, hour, j) then Zero(r.p) else r.buckets[j]);
    Ring(r.p, buckets, hour, true)
  }

  ghost function Record(r: Ring, hour: nat, sha1: Hash, key: Bytes): (r': Ring)
    requires r.Valid() && hour < HOURS
    ensures r'.Valid() && r'.p == r.p && r'.hour == hour && r'.hourSet
  {
    var q := Rotate(r, hour);
    q.(buckets := q.buckets[hour := AddKey(q.buckets[hour], r.p, sha1, key)])
  }

  /** The registers Flush publishes: all slots merged into an empty sketch. */
  ghost function MergeAll(p: nat, buckets: seq<Registers>): (m: Registers)
    requires Precision(p) && forall i :: 0 <= i < |buckets| ==> |buckets[i]| == Pow2(p)
    ensures |m| == Pow2(p)
  {
    if buckets == [] then Zero(p)
    else Join(MergeAll(p, buckets[..|buckets| - 1]), buckets[|buckets| - 1])
  }

  ghost function Merge(r: Ring): (m: Registers)
    requires r.Valid()
    ensures |m| == Pow2(r.p)
  {
    MergeAll(r.p, r.buckets)
  }

  ghost function UnionAll(sets: seq<set<Bytes>>): set<Bytes>
  {
    if sets == [] then {} else UnionAll(sets[..|sets| - 1]) + sets[|sets| - 1]
  }

  lemma {:induction false} UnionAllMembers(sets: seq<set<Bytes>>, k: Bytes)
    ensures k in UnionAll(sets) <==> exists i :: 0 <= i < |sets| && k in sets[i]
  {
    if sets != [] {
      UnionAllMembers(sets[..|sets| - 1], k);
    }
  }

  lemma {:induction false} MergeAllRepresents(p: nat, buckets: seq<Registers>, sets: seq<set<Bytes>>, sha1: Hash)
    requires Precision(p) && |buckets| == |sets|
    requires forall i :: 0 <= i < |buckets| ==> |buckets[i]| == Pow2(p)
    requires forall i :: 0 <= i < |buckets| ==> Represents(buckets[i], p, sha1, sets[i])
    ensures Represents(MergeAll(p, buckets), p, sha1, UnionAll(sets))
  {
    if buckets == [] {
      ZeroRepresents(p, sha1, {});
    } else {
      var n := |buckets| - 1;
      MergeAllRepresents(p, buckets[..n], sets[..n], sha1);
      JoinRepresents(MergeAll(p, buckets[..n]), buckets[n], p, sha1, UnionAll(sets[..n]), sets[n]);
    }
  }

  // --- Runs

  /** One visit to the ring: a request by `key`, or a flush (no key), in absolute hour `hour`. */
  datatype Visit = Visit(hour: int, key: Option<Bytes>)

  ghost function Enter(r: Ring, v: Visit, sha1: Hash): (r': Ring)
    requires r.Valid()
    ensures r'.Valid() && r'.p == r.p && r'.hour == HourOfDay(v.hour) && r'.hourSet
  {
    if v.key.Some? then Record(r, HourOfDay(v.hour), sha1, v.key.value) else Rotate(r, HourOfDay(v.hour))
  }

  ghost function Run(p: nat, visits: seq<Visit>, sha1: Hash): (r: Ring)
    requires Precision(p)
    ensures r.Valid() && r.p == p
    ensures r.hourSet <==> visits != []
    ensures visits != [] ==> r.hour == HourOfDay(visits[|visits| - 1].hour)
  {
    if visits == [] then EmptyRing(p)
    else Enter(Run(p, visits[..|visits| - 1], sha1), visits[|visits| - 1], sha1)
  }

  /** The clock never runs back and consecutive visits are less than 24 absolute hours apart. */
  ghost predicate Steady(visits: seq<Visit>) {
    forall i, j :: 0 <= i < j < |visits| && j == i + 1 ==> visits[i].hour <= visits[j].hour < visits[i].hour + HOURS
  }

  /** The keys requested in the absolute hours (hour - 24, hour]. */
  ghost function Window(visits: seq<Visit>, hour: int): set<Bytes> {
    set v | v in visits && v.key.Some? && hour - HOURS < v.hour <= hour :: v.key.value
  }

  // --- What the ring holds, whatever the clock does

  /** Visit m turns the ring past slot j, which empties it. */
  ghost predicate Passes(visits: seq<Visit>, m: nat, j: int)
    requires m < |visits| && 0 <= j < HOURS
  {
    m > 0 && InArc(HourOfDay(visits[m - 1].hour), HourOfDay(visits[m].hour), j)
  }

  /** No later visit passes the slot of visit i. */
  ghost predicate Survives(visits: seq<Visit>, i: nat)
    requires i < |visits|
  {
    forall m :: i < m < |visits| ==> !Passes(visits, m, HourOfDay(visits[i].hour))
  }

  ghost predicate KeptIn(visits: seq<Visit>, i: nat, j: int)
    requires i < |visits|
  {
    visits[i].key.Some? && HourOfDay(visits[i].hour) == j && Survives(visits, i)
  }

  /** The keys whose slot no later visit passed: those of slot j, and all of them. */
  ghost function KeptAt(visits: seq<Visit>, j: int): set<Bytes> {
    set i | 0 <= i < |visits| && KeptIn(visits, i, j) :: visits[i].key.value
  }

  ghost function Kept(visits: seq<Visit>): set<Bytes> {
    set i | 0 <= i < |visits| && visits[i].key.Some? && Survives(visits, i) :: visits[i].key.value
  }

  lemma SurvivesSnoc(init: seq<Visit>, v: Visit, i: nat)
    requires i < |init|
    ensures Survives(init + [v], i) <==>
      Survives(init, i) && !InArc(HourOfDay(init[|init| - 1].hour), HourOfDay(v.hour), HourOfDay(init[i].hour))
  {
    var all, n, j := init + [v], |init|, HourOfDay(init[i].hour);
    forall m | i < m < n ensures Passes(all, m, j) <==> Passes(init, m, j) { }
    assert Passes(all, n, j) <==> InArc(HourOfDay(init[n - 1].hour), HourOfDay(v.hour), j);
    assert all[i] == init[i];
    if Survives(all, i) {
      assert !Passes(all, n, j);
      forall m | i < m < n ensures !Passes(init, m, j) { assert !Passes(all, m, j); }
    }
  }

  /** What one more visit leaves in a slot: nothing old if it is passed, and the visit's own key. */
  lemma KeptAtSnoc(init: seq<Visit>, v: Visit, j: int)
    requires 0 <= j < HOURS
    ensures var passed := init != [] && InArc(HourOfDay(init[|init| - 1].hour), HourOfDay(v.hour), j);
      KeptAt(init + [v], j) == (if passed then {} else KeptAt(init, j))
                             + (if v.key.Some? && j == HourOfDay(v.hour) then {v.key.value} else {})
  {
    var all, n := init + [v], |init|;
    forall i | 0 <= i < n
      ensures all[i] == init[i]
      ensures KeptIn(all, i, j) <==>
        KeptIn(init, i, j) && !InArc(HourOfDay(init[n - 1].hour), HourOfDay(v.hour), j)
    {
      SurvivesSnoc(init, v, i);
    }
    assert all[n] == v && Survives(all, n);
    var kept := if init != [] && InArc(HourOfDay(init[n - 1].hour), HourOfDay(v.hour), j) then {} else KeptAt(init, j);
    var own := if v.key.Some? && j == HourOfDay(v.hour) then {v.key.value} else {};
    forall k | k in kept + own ensures k in KeptAt(all, j) {
      if k in kept {
        var i :| 0 <= i < n && KeptIn(init, i, j) && init[i].key.value == k;
        assert KeptIn(all, i, j);
      } else {
        assert KeptIn(all, n, j);
      }
    }
    forall k | k in KeptAt(all, j) ensures k in kept + own {
      var i :| 0 <= i <= n && KeptIn(all, i, j) && all[i].key.value == k;
      if i < n { assert KeptIn(init, i, j); }
    }
  }

  ghost predicate SlotsHold(r: Ring, visits: seq<Visit>, sha1: Hash)
    requires r.Valid()
  {
    forall j :: 0 <= j < HOURS ==> Represents(r.buckets[j], r.p, sha1, KeptAt(visits, j))
  }

  lemma EnterHolds(r: Ring, init: seq<Visit>, v: Visit, sha1: Hash)
    requires r.Valid() && SlotsHold(r, init, sha1) && (r.hourSet <==> init != [])
    requires init != [] ==> r.hour == HourOfDay(init[|init| - 1].hour)
    ensures SlotsHold(Enter(r, v, sha1), init + [v], sha1)
  {
    var turned := Rotate(r, HourOfDay(v.hour));
    ZeroRepresents(r.p, sha1, {});
    forall j | 0 <= j < HOURS
      ensures Represents(Enter(r, v, sha1).buckets[j], r.p, sha1, KeptAt(init + [v], j))
    {
      KeptAtSnoc(init, v, j);
      var kept := if init != [] && InArc(r.hour, HourOfDay(v.hour), j) then {} else KeptAt(init, j);
      assert Represents(turned.buckets[j], r.p, sha1, kept);
      if v.key.Some? && j == HourOfDay(v.hour) {
        AddRepresents(turned.buckets[j], r.p, sha1, kept, v.key.value);
      } else {
        assert kept + {} == kept;
      }
    }
  }

  lemma RunSnoc(p: nat, init: seq<Visit>, v: Visit, sha1: Hash)
    requires Precision(p)
    ensures Run(p, init + [v], sha1) == Enter(Run(p, init, sha1), v, sha1)
  {
    var visits := init + [v];
    assert visits[..|visits| - 1] == init;
  }

  /** After any visits each slot is the sketch of the keys entered there and not passed since. */
  lemma {:induction false} RunHolds(p: nat, visits: seq<Visit>, sha1: Hash)
    requires Precision(p)
    ensures SlotsHold(Run(p, visits, sha1), visits, sha1)
  {
    if visits == [] {
      forall j ensures KeptAt(visits, j) == {} { }
      ZeroRepresents(p, sha1, {});
    } else {
      var init, v := visits[..|visits| - 1], visits[|visits| - 1];
      assert visits == init + [v];
      RunHolds(p, init, sha1);
      EnterHolds(Run(p, init, sha1), init, v, sha1);
      RunSnoc(p, init, v, sha1);
    }
  }

  lemma SlotsCoverKept(visits: seq<Visit>)
    ensures UnionAll(seq(HOURS, j => KeptAt(visits, j))) == Kept(visits)
  {
    var sets := seq(HOURS, j => KeptAt(visits, j));
    forall k ensures k in UnionAll(sets) <==> k in Kept(visits) {
      UnionAllMembers(sets, k);
      if k in Kept(visits) {
        var i :| 0 <= i < |visits| && visits[i].key.Some? && Survives(visits, i) && visits[i].key.value == k;
        assert KeptIn(visits, i, HourOfDay(visits[i].hour));
        assert k in sets[HourOfDay(visits[i].hour)];
      }
    }
  }

  /** What a flush merges after any visits, the clock going forward or back by any amount: the sketch of the keys
      whose slot no later visit passed. */
  lemma MergedIsKept(p: nat, visits: seq<Visit>, sha1: Hash)
    requires Precision(p)
    ensures Represents(Merge(Run(p, visits, sha1)), p, sha1, Kept(visits))
  {
    RunHolds(p, visits, sha1);
    SlotsCoverKept(visits);
    MergeAllRepresents(p, Run(p, visits, sha1).buckets, seq(HOURS, j => KeptAt(visits, j)), sha1);
  }

  // --- Steady clocks

  lemma {:induction false} HoursSorted(visits: seq<Visit>, i: nat)
    requires Steady(visits) && i < |visits|
    ensures visits[i].hour <= visits[|visits| - 1].hour
    decreases |visits| - i
  {
    if i + 1 < |visits| {
      HoursSorted(visits, i + 1);
    }
  }

  /** An hour of the last day falls out of the window exactly when its slot is passed. */
  lemma ArcIsRecent(h: int, hour: int, hour': int)
    requires hour - HOURS < h <= hour <= hour' < hour + HOURS
    ensures hour' - HOURS < h <==> !InArc(HourOfDay(hour), HourOfDay(hour'), HourOfDay(h))
  {
    AheadOfHours(hour, hour');
    if h == hour {
      AheadOfHours(hour, h);
    } else {
      DayLater(h);
      AheadOfHours(hour, h + HOURS);
    }
  }

  lemma DayLater(h: int)
    ensures HourOfDay(h + HOURS) == HourOfDay(h)
  {
  }

  lemma AheadOfHours(a: int, b: int)
    requires a <= b < a + HOURS
    ensures Ahead(HourOfDay(a), HourOfDay(b)) == b - a
  {
  }

  lemma SteadyInit(init: seq<Visit>, v: Visit)
    requires Steady(init + [v]) && init != []
    ensures Steady(init) && init[|init| - 1].hour <= v.hour < init[|init| - 1].hour + HOURS
  {
    var visits := init + [v];
    assert forall i :: 0 <= i < |init| ==> visits[i] == init[i];
    assert visits[|init|] == v;
  }

  lemma NoneLater(visits: seq<Visit>)
    requires Steady(visits) && visits != []
    ensures forall v :: v in visits ==> v.hour <= visits[|visits| - 1].hour
  {
    forall v | v in visits ensures v.hour <= visits[|visits| - 1].hour {
      var i :| 0 <= i < |visits| && visits[i] == v;
      HoursSorted(visits, i);
    }
  }

  /** A visit survives a steady run exactly when it is less than 24 absolute hours old at its end. */
  lemma {:induction false} SurvivesExactly(visits: seq<Visit>, i: nat)
    requires Steady(visits) && i < |visits|
    ensures Survives(visits, i) <==> visits[|visits| - 1].hour - HOURS < visits[i].hour
    decreases |visits|
  {
    var n := |visits| - 1;
    if i < n {
      var init, v := visits[..n], visits[n];
      assert visits == init + [v];
      SteadyInit(init, v);
      HoursSorted(init, i);
      SurvivesExactly(init, i);
      SurvivesSnoc(init, v, i);
      if init[n - 1].hour - HOURS < init[i].hour { ArcIsRecent(init[i].hour, init[n - 1].hour, v.hour); }
    }
  }

  lemma KeptIsWindow(visits: seq<Visit>)
    requires Steady(visits) && visits != []
    ensures Kept(visits) == Window(visits, visits[|visits| - 1].hour)
  {
    var hour := visits[|visits| - 1].hour;
    NoneLater(visits);
    forall k ensures k in Kept(visits) <==> k in Window(visits, hour) {
      if k in Kept(visits) {
        var i :| 0 <= i < |visits| && visits[i].key.Some? && Survives(visits, i) && visits[i].key.value == k;
        SurvivesExactly(visits, i);
        assert visits[i] in visits;
      }
      if k in Window(visits, hour) {
        var v :| v in visits && v.key == Some(k) && hour - HOURS < v.hour <= hour;
        var i :| 0 <= i < |visits| && visits[i] == v;
        SurvivesExactly(visits, i);
      }
    }
  }

  /** The sliding-window theorem: what a flush merges after a steady run is the sketch of exactly the clients of the
      current hour and the 23 before it. */
  lemma SlidingWindow(p: nat, visits: seq<Visit>, sha1: Hash)
    requires Precision(p) && Steady(visits) && visits != []
    ensures Represents(Merge(Run(p, visits, sha1)), p, sha1, Window(visits, visits[|visits| - 1].hour))
  {
    MergedIsKept(p, visits, sha1);
    KeptIsWindow(visits);
  }

  /** The registers stand for the clients whose slot no later visit passed; under a steady clock these are the clients
      of the last 24 hours. */
  ghost predicate CountsDaily(r: Registers, p: nat, sha1: Hash, visits: seq<Visit>)
    requires Precision(p) && visits != []
  {
    && Represents(r, p, sha1, Kept(visits))
    && (Steady(visits) ==> Kept(visits) == Window(visits, visits[|visits| - 1].hour))
  }

  lemma MergedCountsDaily(p: nat, visits: seq<Visit>, sha1: Hash)
    requires Precision(p) && visits != []
    ensures CountsDaily(Merge(Run(p, visits, sha1)), p, sha1, visits)
  {
    MergedIsKept(p, visits, sha1);
    if Steady(visits) { KeptIsWindow(visits); }
  }

  // --- When the clock jumps

  /** A request of the last day before the turn to hour' in a slot that the turn leaves alone. */
  ghost predicate Stale(visits: seq<Visit>, hour': int, i: nat)
    requires i < |visits|
  {
    var hour := visits[|visits| - 1].hour;
    && visits[i].key.Some? && hour - HOURS < visits[i].hour
    && !InArc(HourOfDay(hour), HourOfDay(hour'), HourOfDay(visits[i].hour))
  }

  lemma StaleIsKept(visits: seq<Visit>, hour': int, i: nat)
    requires Steady(visits) && i < |visits|
    ensures Stale(visits, hour', i) <==> visits[i].key.Some? && Survives(visits + [Visit(hour', None)], i)
  {
    SurvivesExactly(visits, i);
    SurvivesSnoc(visits, Visit(hour', None), i);
  }

  lemma KeptAfterTurn(visits: seq<Visit>, hour': int)
    requires Steady(visits) && visits != []
    ensures Kept(visits + [Visit(hour', None)]) == {} <==> forall i :: 0 <= i < |visits| ==> !Stale(visits, hour', i)
  {
    var all := visits + [Visit(hour', None)];
    forall i | 0 <= i < |visits|
      ensures Stale(visits, hour', i) <==> all[i].key.Some? && Survives(all, i)
      ensures Stale(visits, hour', i) ==> all[i].key.value in Kept(all)
    {
      StaleIsKept(visits, hour', i);
    }
    if k :| k in Kept(all) {
      var i :| 0 <= i < |all| && all[i].key.Some? && Survives(all, i) && all[i].key.value == k;
      assert i < |visits| && Stale(visits, hour', i);
    }
  }

  lemma TurnIsVisit(p: nat, visits: seq<Visit>, hour': int, sha1: Hash)
    requires Precision(p)
    ensures Rotate(Run(p, visits, sha1), HourOfDay(hour')) == Run(p, visits + [Visit(hour', None)], sha1)
  {
    RunSnoc(p, visits, Visit(hour', None), sha1);
  }

  lemma EarlyTurn(visits: seq<Visit>, hour': int)
    requires Steady(visits) && visits != []
    requires visits[|visits| - 1].hour <= hour' < visits[|visits| - 1].hour + HOURS
    ensures Kept(visits + [Visit(hour', None)]) == Window(visits, hour')
  {
    var all := visits + [Visit(hour', None)];
    forall i, j | 0 <= i < j < |all| && j == i + 1 ensures all[i].hour <= all[j].hour < all[i].hour + HOURS {
      assert j < |visits| ==> all[j] == visits[j];
      assert all[i] == visits[i];
    }
    KeptIsWindow(all);
    assert forall v :: v in all && v.key.Some? <==> v in visits && v.key.Some?;
  }

  /** Exactly when a forward turn is right: it spans less than a day, or no request of the last day is in a slot the
      turn leaves alone. */
  lemma TurnIsExact(p: nat, visits: seq<Visit>, hour': int, sha1: Hash)
    requires Precision(p) && Steady(visits) && visits != [] && visits[|visits| - 1].hour <= hour'
    ensures Represents(Merge(Rotate(Run(p, visits, sha1), HourOfDay(hour'))), p, sha1, Window(visits, hour'))
       <==> hour' < visits[|visits| - 1].hour + HOURS || forall i :: 0 <= i < |visits| ==> !Stale(visits, hour', i)
  {
    var all := visits + [Visit(hour', None)];
    TurnIsVisit(p, visits, hour', sha1);
    MergedIsKept(p, all, sha1);
    if hour' < visits[|visits| - 1].hour + HOURS {
      EarlyTurn(visits, hour');
    } else {
      NoneLater(visits);
      assert Window(visits, hour') == {};
      KeptAfterTurn(visits, hour');
      EmptySketchOnly(p, Merge(Run(p, all, sha1)), sha1, Kept(all));
    }
  }

  lemma EmptySketchOnly(p: nat, r: Registers, sha1: Hash, s: set<Bytes>)
    requires Precision(p) && Represents(r, p, sha1, s)
    ensures Represents(r, p, sha1, {}) <==> s == {}
  {
    if Represents(r, p, sha1, {}) {
      ZeroRepresents(p, sha1, {});
      SketchIsUnique(r, Zero(p), p, sha1, {});
      ZeroRepresents(p, sha1, s);
    }
  }

  /** One request and then a silence of exactly a day: the client is still in the published sketch. */
  lemma DayOldClientSurvives(p: nat, key: Bytes, sha1: Hash)
    requires Precision(p)
    ensures var visits := [Visit(0, Some(key))];
            Window(visits, 24) == {}
            && !Represents(Merge(Rotate(Run(p, visits, sha1), HourOfDay(24))), p, sha1, {})
  {
    var visits := [Visit(0, Some(key))];
    assert Window(visits, 24) == {};
    TurnIsExact(p, visits, 24, sha1);
    assert Stale(visits, 24, 0);
  }

  /** The keys requested after the given hour. */
  ghost function Since(visits: seq<Visit>, hour: int): set<Bytes> {
    set v | v in visits && v.key.Some? && hour < v.hour :: v.key.value
  }

  /** Where a jump from `hour` to hour' cuts: requests of the last day up to that hour are in slots it passes. */
  function Cut(hour: int, hour': int): int {
    if (hour - hour') % HOURS == 0 then hour - HOURS else hour - (hour - hour') % HOURS
  }

  lemma CutBounds(hour: int, hour': int)
    ensures hour - HOURS <= Cut(hour, hour') < hour
    ensures HourOfDay(Cut(hour, hour')) == HourOfDay(hour')
    ensures hour - HOURS < hour' < hour ==> Cut(hour, hour') == hour'
  {
  }

  lemma ArcOfJump(h: int, hour: int, hour': int)
    requires hour - HOURS < h <= hour
    ensures InArc(HourOfDay(hour), HourOfDay(hour'), HourOfDay(h)) <==> h <= Cut(hour, hour')
  {
    var cut := Cut(hour, hour');
    CutBounds(hour, hour');
    DayLater(cut);
    AheadOfHours(hour, if cut == hour - HOURS then hour else cut + HOURS);
    if h == hour {
      AheadOfHours(hour, h);
    } else {
      DayLater(h);
      AheadOfHours(hour, h + HOURS);
    }
  }

  lemma SurvivesJump(visits: seq<Visit>, hour': int, i: nat)
    requires Steady(visits) && i < |visits|
    ensures Survives(visits + [Visit(hour', None)], i) <==> Cut(visits[|visits| - 1].hour, hour') < visits[i].hour
  {
    var hour := visits[|visits| - 1].hour;
    SurvivesExactly(visits, i);
    SurvivesSnoc(visits, Visit(hour', None), i);
    HoursSorted(visits, i);
    CutBounds(hour, hour');
    if hour - HOURS < visits[i].hour { ArcOfJump(visits[i].hour, hour, hour'); }
  }

  /** After any jump, forward or back, the ring holds exactly the clients of the hours after the cut; for a step back of
      less than a day that is the hour stepped back to. */
  lemma KeptAfterJump(visits: seq<Visit>, hour': int)
    requires Steady(visits) && visits != []
    ensures Kept(visits + [Visit(hour', None)]) == Since(visits, Cut(visits[|visits| - 1].hour, hour'))
  {
    var all, cut := visits + [Visit(hour', None)], Cut(visits[|visits| - 1].hour, hour');
    forall k ensures k in Kept(all) <==> k in Since(visits, cut) {
      if k in Kept(all) {
        var i :| 0 <= i < |all| && all[i].key.Some? && Survives(all, i) && all[i].key.value == k;
        SurvivesJump(visits, hour', i);
        assert visits[i] in visits;
      }
      if k in Since(visits, cut) {
        var v :| v in visits && v.key == Some(k) && cut < v.hour;
        var i :| 0 <= i < |visits| && visits[i] == v;
        SurvivesJump(visits, hour', i);
        assert all[i] == v;
      }
    }
  }

  /** Exactly when a step back loses nobody: each client of the window it returns to also made a request after the cut,
      which for a step of less than a day means in the hours stepped over. */
  lemma StepBackIsExact(p: nat, visits: seq<Visit>, hour': int, sha1: Hash)
    requires Precision(p) && Steady(visits) && visits != [] && hour' < visits[|visits| - 1].hour
    ensures var all, cut := visits + [Visit(hour', None)], Cut(visits[|visits| - 1].hour, hour');
      && (visits[|visits| - 1].hour - HOURS < hour' ==> cut == hour')
      && Represents(Merge(Run(p, all, sha1)), p, sha1, Since(visits, cut))
      && (Window(visits, hour') <= Kept(all)
          <==> forall k :: k in Window(visits, hour') ==> exists v :: v in visits && v.key == Some(k) && cut < v.hour)
  {
    var all, cut := visits + [Visit(hour', None)], Cut(visits[|visits| - 1].hour, hour');
    CutBounds(visits[|visits| - 1].hour, hour');
    MergedIsKept(p, all, sha1);
    KeptAfterJump(visits, hour');
    forall k ensures k in Kept(all) <==> exists v :: v in visits && v.key == Some(k) && cut < v.hour {
      if v :| v in visits && v.key == Some(k) && cut < v.hour {
        assert v.key.value == k;
      }
    }
  }

  /** A clock that steps back one hour empties the ring of a client seen an hour ago. */
  lemma BackwardClockLoses(p: nat, key: Bytes, sha1: Hash)
    requires Precision(p)
    ensures var visits := [Visit(3, Some(key)), Visit(5, None), Visit(4, None)];
            Window(visits, 4) == {key}
            && Represents(Merge(Run(p, visits, sha1)), p, sha1, {})
            && !Represents(Merge(Run(p, visits, sha1)), p, sha1, {key})
  {
    var visits := [Visit(3, Some(key)), Visit(5, None), Visit(4, None)];
    assert visits[0] in visits;
    assert Window(visits, 4) == {key};
    MergedIsKept(p, visits, sha1);
    assert Passes(visits, 2, HourOfDay(visits[0].hour));
    assert Kept(visits) == {};
    ZeroRepresents(p, sha1, {});
    SketchIsUnique(Merge(Run(p, visits, sha1)), Zero(p), p, sha1, {});
    ZeroRepresents(p, sha1, {key});
  }

  // --- The ring object

  /** The slots while the clearing loop stands before h: those between r.hour and h, both excluded, are empty. */
  ghost function ClearedTo(r: Ring, h: nat): seq<Registers>
    requires r.Valid() && h < HOURS
  {
    seq(HOURS, j requires 0 <= j < HOURS =>
      if 0 < Ahead(r.hour, j) < Ahead(r.hour, h) then Zero(r.p) else r.buckets[j])
  }

  function Next(h: nat): (n: nat)
    ensures n < HOURS
  {
    (h + 1) % HOURS
  }

  lemma AheadNext(from: nat, h: nat, now: nat)
    requires from < HOURS && h < HOURS && now < HOURS && InArc(from, now, h)
    ensures h == now <==> Ahead(from, h) == Ahead(from, now)
    ensures h != now ==> Ahead(from, Next(h)) == Ahead(from, h) + 1 && Ahead(Next(h), now) < Ahead(h, now)
  {
  }

  lemma AheadInjective(from: nat, h: nat, j: nat)
    requires from < HOURS && h < HOURS && j < HOURS
    ensures Ahead(from, h) == Ahead(from, j) <==> h == j
  {
  }

  lemma ClearOneMore(r: Ring, now: nat, h: nat)
    requires r.Valid() && r.hourSet && now < HOURS && h < HOURS && InArc(r.hour, now, h)
    ensures h == now ==> ClearedTo(r, h)[h := Zero(r.p)] == Rotate(r, now).buckets
    ensures h != now ==> InArc(r.hour, now, Next(h))
    ensures h != now ==> ClearedTo(r, h)[h := Zero(r.p)] == ClearedTo(r, Next(h))
  {
    AheadNext(r.hour, h, now);
    forall j: nat | j < HOURS
      ensures Ahead(r.hour, h) == Ahead(r.hour, j) <==> h == j
    {
      AheadInjective(r.hour, h, j);
    }
  }

  lemma NotYetCleared(r: Ring, now: nat)
    requires r.Valid() && now < HOURS
    ensures ClearedTo(r, Next(r.hour)) == r.buckets
    ensures !r.hourSet || now == r.hour ==> Rotate(r, now).buckets == r.buckets
    ensures now != r.hour ==> InArc(r.hour, now, Next(r.hour))
  {
    assert Ahead(r.hour, Next(r.hour)) == 1;
    assert Ahead(r.hour, r.hour) == 0;
    AheadInjective(r.hour, r.hour, now);
  }

  class HourlySketches {
    const p: nat
    const hourly: array<Sketch>
    var hour: nat
    var hourSet: bool
    ghost var state: Ring  // the registers in the slots, and the hour

    ghost predicate Valid()
      reads this, hourly, set s | s in hourly[..] :: s.registers
    {
      && Precision(p) && hourly.Length == HOURS && hour < HOURS
      && (forall i :: 0 <= i < HOURS ==> hourly[i].Valid() && hourly[i].p == p)
      && (forall i, j :: 0 <= i < j < HOURS ==> hourly[i].registers != hourly[j].registers)
      && state.Valid() && state.p == p && state.hour == hour && state.hourSet == hourSet
      && (forall i :: 0 <= i < HOURS ==> hourly[i].registers[..] == state.buckets[i])
    }

    /** The collector builds it with DEFAULT_PRECISION. */
    constructor (p: nat)
      requires Precision(p)
      ensures Valid() && fresh(hourly) && this.p == p && state == EmptyRing(p)
      ensures forall s :: s in hourly[..] ==> fresh(s.registers)
    {
      var first := new Sketch(p);
      var a := new Sketch[HOURS](_ => first);
      for i := 0 to HOURS
        invariant fresh(a) && a.Length == HOURS
        invariant forall j :: 0 <= j < i ==>
          a[j].Valid() && a[j].p == p && a[j].registers[..] == Zero(p) && fresh(a[j].registers)
        invariant forall j, k :: 0 <= j < k < i ==> a[j].registers != a[k].registers
      {
        var s := new Sketch(p);
        a[i] := s;
      }
      this.p, hourly, hour, hourSet := p, a, 0, false;
      state := EmptyRing(p);
    }

    /** Replaces one slot by an empty sketch. */
    method Reset(h: nat)
      requires Valid() && h < HOURS
      modifies hourly, `state
      ensures Valid() && state == old(state).(buckets := old(state).buckets[h := Zero(p)])
      ensures forall s :: s in hourly[..] ==> s in old(hourly[..]) || fresh(s.registers)
    {
      var s := new Sketch(p);
      hourly[h] := s;
      state := state.(buckets := state.buckets[h := Zero(p)]);
    }

    /** Empties every slot from the one after the current hour up to `now`. */
    method ClearTo(now: nat)
      requires Valid() && now < HOURS && hourSet && now != hour
      modifies hourly, `state
      ensures Valid() && state == old(state).(buckets := Rotate(old(state), now).buckets)
      ensures forall s :: s in hourly[..] ==> s in old(hourly[..]) || fresh(s.registers)
    {
      ghost var was := state;
      NotYetCleared(was, now);
      var h: nat := Next(hour);
      while true
        invariant Valid() && h < HOURS && InArc(was.hour, now, h)
        invariant forall s :: s in hourly[..] ==> s in old(hourly[..]) || fresh(s.registers)
        invariant state == was.(buckets := ClearedTo(was, h))
        decreases Ahead(h, now)
      {
        ClearOneMore(was, now, h);
        AheadNext(was.hour, h, now);
        Reset(h);
        if h == now { break; }
        h := Next(h);
      }
    }

    /** The bucket of the given hour, after emptying every slot skipped since the last call. */
    method CurrentBucket(wall: int) returns (b: Sketch)
      requires Valid()
      modifies this, hourly
      ensures Valid() && b == hourly[HourOfDay(AbsHour(wall))]
      ensures forall s :: s in hourly[..] ==> s in old(hourly[..]) || fresh(s.registers)
      ensures state == Rotate(old(state), HourOfDay(AbsHour(wall)))
    {
      var now := HourOfDay(AbsHour(wall));
      NotYetCleared(state, now);
      if !hourSet {
        hour, hourSet := now, true;
      } else if now != hour {
        ClearTo(now);
        hour := now;
      }
      state := state.(hour := now, hourSet := true);
      b := hourly[now];
    }

    /** A request: the key goes into the bucket of the current hour. */
    method RecordKey(wall: int, sha1: Hash, key: Bytes)
      requires Valid()
      modifies this, hourly, set s | s in hourly[..] :: s.registers
      ensures Valid() && state == Enter(old(state), Visit(AbsHour(wall), Some(key)), sha1)
      ensures forall s :: s in hourly[..] ==> s in old(hourly[..]) || fresh(s.registers)
    {
      var b := CurrentBucket(wall);
      b.Add(sha1, key);
      state := Enter(old(state), Visit(AbsHour(wall), Some(key)), sha1);
    }

    /** A flush: every slot is cloned and the clones are merged into an empty sketch. */
    method Merged(wall: int) returns (merged: Sketch)
      requires Valid()
      modifies this, hourly
      ensures Valid() && (forall sha1 :: state == Enter(old(state), Visit(AbsHour(wall), None), sha1))
      ensures forall s :: s in hourly[..] ==> s in old(hourly[..]) || fresh(s.registers)
      ensures fresh(merged.registers) && merged.Valid() && merged.registers[..] == Merge(state)
    {
      var b := CurrentBucket(wall);
      merged := MergeSlots();
    }

    method MergeSlots() returns (merged: Sketch)
      requires Valid()
      ensures fresh(merged.registers) && merged.Valid() && merged.registers[..] == Merge(state)
    {
      ghost var buckets := state.buckets;
      merged := new Sketch(p);
      for i := 0 to HOURS
        invariant fresh(merged.registers) && merged.Valid() && merged.p == p
        invariant merged.registers[..] == MergeAll(p, buckets[..i])
      {
        var c := hourly[i].Clone();
        assert c.registers[..] == buckets[i];
        merged.Merge(c);
        assert buckets[..i + 1][..i] == buckets[..i];
      }
      assert buckets[..HOURS] == buckets;
    }
  }
}
