/** The deadline pacing of the load generator's send loop (scripts/ntp-load/main.go).  Times are nanoseconds. */
module LoadPacing {
  import opened Bytes

  const SLEEP_FLOOR := 200_000
  const MAX_BATCH := 64

  /** When send n is due. */
  function Deadline(start: int, interval: int, n: nat): int { start + n * interval }

  /** The first send is due at the start and each next one an interval later. */
  lemma DeadlineIs(start: int, interval: int, n: nat)
    ensures Deadline(start, interval, 0) == start
    ensures Deadline(start, interval, n + 1) == Deadline(start, interval, n) + interval
  {
    assert (n + 1) * interval == n * interval + interval;
  }

  /** How many sends, from number n on, are due at `now`. */
  function Due(start: int, interval: int, n: nat, now: int): int
    requires interval > 0
  {
    (now - Deadline(start, interval, n)) / interval + 1
  }

  /** How many sends one pass makes. */
  function Batch(start: int, interval: int, n: nat, now: int): (b: nat)
    requires interval > 0 && Deadline(start, interval, n) <= now
    ensures b >= 1
  {
    DueIsPositive(start, interval, n, now);
    if interval >= SLEEP_FLOOR then 1 else Min(MAX_BATCH, Due(start, interval, n, now))
  }

  lemma DueIsPositive(start: int, interval: int, n: nat, now: int)
    requires interval > 0
    ensures Due(start, interval, n, now) >= 1 <==> Deadline(start, interval, n) <= now
  {
    FloorBounds(now - Deadline(start, interval, n), interval);
    var q := (now - Deadline(start, interval, n)) / interval;
    if q < 0 { ScaleUp(q, -1, interval); } else { ScaleUp(0, q, interval); }
  }

  lemma FloorBounds(x: int, d: int)
    requires d > 0
    ensures (x / d) * d <= x < (x / d) * d + d
  {
  }

  lemma ScaleUp(a: int, b: int, d: int)
    requires a <= b && d > 0
    ensures a * d <= b * d
  {
    assert (b - a) * d == b * d - a * d;
  }

  lemma DeadlineShift(start: int, interval: int, n: nat, i: nat)
    ensures Deadline(start, interval, n + i) == Deadline(start, interval, n) + i * interval
  {
    assert (n + i) * interval == n * interval + i * interval;
  }

  /** The sends counted as due are exactly those whose deadline has passed. */
  lemma DueIsExact(start: int, interval: int, n: nat, now: int, i: nat)
    requires interval > 0
    ensures i < Due(start, interval, n, now) <==> Deadline(start, interval, n + i) <= now
  {
    var x := now - Deadline(start, interval, n);
    var q := x / interval;
    FloorBounds(x, interval);
    DeadlineShift(start, interval, n, i);
    assert (q + 1) * interval == q * interval + interval;
    if i <= q { ScaleUp(i, q, interval); } else { ScaleUp(q + 1, i, interval); }
  }

  /** After i sends there are i fewer due. */
  lemma DueShrinks(start: int, interval: int, n: nat, now: int, i: nat)
    requires interval > 0
    ensures Due(start, interval, n + i, now) == Due(start, interval, n, now) - i
  {
    var x := now - Deadline(start, interval, n);
    var q := x / interval;
    FloorBounds(x, interval);
    DeadlineShift(start, interval, n, i);
    assert (q - i) * interval == q * interval - i * interval;
    FloorUnique(x - i * interval, interval, q - i);
  }

  lemma FloorUnique(x: int, d: int, q: int)
    requires d > 0 && q * d <= x < q * d + d
    ensures x / d == q
  {
    FloorBounds(x, d);
    var r := x / d;
    assert (r + 1) * d == r * d + d && (q + 1) * d == q * d + d;
    if r < q { ScaleUp(r + 1, q, d); }
    if r > q { ScaleUp(q + 1, r, d); }
  }

  /** Catching up: below the sleep floor, a pass with at most 64 sends due leaves none due, and a larger backlog
      shrinks by exactly 64. */
  lemma PassCatchesUp(start: int, interval: int, n: nat, now: int)
    requires 0 < interval < 200_000 && Deadline(start, interval, n) <= now
    ensures var after := n + Batch(start, interval, n, now);
      if Due(start, interval, n, now) <= 64
      then Deadline(start, interval, after) > now
      else Due(start, interval, after, now) == Due(start, interval, n, now) - 64
  {
    var b := Batch(start, interval, n, now);
    DueShrinks(start, interval, n, now, b);
    DueIsPositive(start, interval, n + b, now);
  }

  /** From the sleep floor of 200 microseconds on, sends go one at a time. */
  lemma OneAtATime(start: int, interval: int, n: nat, now: int)
    requires interval >= 200_000 && Deadline(start, interval, n) <= now
    ensures Batch(start, interval, n, now) == 1
  {
  }

  ghost predicate NonDecreasing(clock: seq<int>) {
    forall i, j :: 0 <= i <= j < |clock| ==> clock[i] <= clock[j]
  }

  /** No attempt comes before its deadline. */
  ghost predicate OnTime(attempts: seq<int>, start: int, interval: int) {
    forall k :: 0 <= k < |attempts| ==> attempts[k] >= Deadline(start, interval, k)
  }

  /** One pass of the loop: its reading of the clock and those of the attempts it makes. */
  datatype Pass = Pass(now: int, sends: seq<int>)

  /** The readings of some passes in order, and the attempts among them. */
  ghost function Readings(passes: seq<Pass>): seq<int> {
    if passes == [] then []
    else Readings(passes[..|passes| - 1]) + [passes[|passes| - 1].now] + passes[|passes| - 1].sends
  }

  ghost function Attempts(passes: seq<Pass>): seq<int> {
    if passes == [] then [] else Attempts(passes[..|passes| - 1]) + passes[|passes| - 1].sends
  }

  /** A pass before the next deadline sends nothing; any other makes its whole batch, or as much of it as there is time
      for if the loop is then stopped. */
  ghost predicate PassRight(start: int, interval: int, passes: seq<Pass>, i: nat)
    requires interval > 0 && i < |passes|
  {
    var n, p := |Attempts(passes[..i])|, passes[i];
    if p.now < Deadline(start, interval, n) then p.sends == []
    else
      var batch := Batch(start, interval, n, p.now);
      if i + 1 < |passes| then |p.sends| == batch else |p.sends| <= batch
  }

  ghost predicate AllRight(start: int, interval: int, passes: seq<Pass>)
    requires interval > 0
  {
    forall i :: 0 <= i < |passes| ==> PassRight(start, interval, passes, i)
  }

  /** The last pass was not cut short. */
  ghost predicate LastWhole(start: int, interval: int, passes: seq<Pass>)
    requires interval > 0
  {
    passes != [] ==>
      var n, p := |Attempts(passes[..|passes| - 1])|, passes[|passes| - 1];
      p.now >= Deadline(start, interval, n) ==> |p.sends| == Batch(start, interval, n, p.now)
  }

  lemma EarlierStayRight(start: int, interval: int, passes: seq<Pass>, p: Pass, i: nat)
    requires interval > 0 && i < |passes| && PassRight(start, interval, passes, i)
    requires i + 1 == |passes| ==> LastWhole(start, interval, passes)
    ensures PassRight(start, interval, passes + [p], i)
  {
    var all := passes + [p];
    assert all[..i] == passes[..i] && all[i] == passes[i];
  }

  lemma LastIsRight(start: int, interval: int, passes: seq<Pass>, p: Pass, n: nat)
    requires interval > 0 && n == |Attempts(passes)|
    requires if p.now < Deadline(start, interval, n) then p.sends == []
             else |p.sends| <= Batch(start, interval, n, p.now)
    ensures PassRight(start, interval, passes + [p], |passes|)
  {
    assert (passes + [p])[..|passes|] == passes;
  }

  lemma OnePassMore(start: int, interval: int, passes: seq<Pass>, p: Pass)
    requires interval > 0 && AllRight(start, interval, passes) && LastWhole(start, interval, passes)
    requires var n := |Attempts(passes)|;
      if p.now < Deadline(start, interval, n) then p.sends == []
      else |p.sends| <= Batch(start, interval, n, p.now)
    ensures AllRight(start, interval, passes + [p])
    ensures Readings(passes + [p]) == Readings(passes) + [p.now] + p.sends
    ensures Attempts(passes + [p]) == Attempts(passes) + p.sends
  {
    assert (passes + [p])[..|passes|] == passes;
    forall i | 0 <= i < |passes + [p]| ensures PassRight(start, interval, passes + [p], i) {
      if i < |passes| {
        EarlierStayRight(start, interval, passes, p, i);
      } else {
        LastIsRight(start, interval, passes, p, |Attempts(passes)|);
      }
    }
  }

  /** After the first t readings: nothing was sent early, and what the passes called for was sent. */
  ghost predicate Paced(start: int, interval: int, clock: seq<int>, t: nat, attempts: seq<int>, passes: seq<Pass>)
    requires interval > 0 && t <= |clock|
  {
    && OnTime(attempts, start, interval) && NonDecreasing(attempts)
    && (forall k :: 0 <= k < |attempts| ==> attempts[k] in clock[..t])
    && clock[..t] == Readings(passes) && attempts == Attempts(passes) && AllRight(start, interval, passes)
    && (t < |clock| ==> LastWhole(start, interval, passes))
  }

  lemma PassPaced(start: int, interval: int, clock: seq<int>, s: nat, before: seq<int>, passes: seq<Pass>,
                  t: nat, attempts: seq<int>, p: Pass)
    requires interval > 0 && s < t <= |clock| && Paced(start, interval, clock, s, before, passes)
    requires p == Pass(clock[s], clock[s + 1..t]) && attempts == before + p.sends
    requires OnTime(attempts, start, interval) && NonDecreasing(attempts)
    requires forall k :: 0 <= k < |attempts| ==> attempts[k] in clock[..t]
    requires if p.now < Deadline(start, interval, |before|) then p.sends == []
             else var b := Batch(start, interval, |before|, p.now);
                  |p.sends| <= b && (t < |clock| ==> |p.sends| == b)
    ensures Paced(start, interval, clock, t, attempts, passes + [p])
  {
    OnePassMore(start, interval, passes, p);
    assert clock[..t] == clock[..s] + [p.now] + p.sends;
    assert (passes + [p])[..|passes|] == passes;
  }

  lemma OneReadingLater(clock: seq<int>, t: nat, attempts: seq<int>)
    requires t < |clock| && forall k :: 0 <= k < |attempts| ==> attempts[k] in clock[..t]
    ensures forall k :: 0 <= k < |attempts| ==> attempts[k] in clock[..t + 1]
  {
    forall k | 0 <= k < |attempts| ensures attempts[k] in clock[..t + 1] {
      var j :| 0 <= j < t && clock[..t][j] == attempts[k];
      assert clock[..t + 1][j] == attempts[k];
    }
  }

  /** The send loop over a finite run of clock readings, the loop being stopped when they end.  Each pass reads the
      clock once, each attempt once more: nothing is sent early, and everything is sent that the passes call for. */
  method SendLoop(start: int, interval: int, clock: seq<int>) returns (attempts: seq<int>, ghost passes: seq<Pass>)
    requires interval > 0 && NonDecreasing(clock)
    ensures OnTime(attempts, start, interval)
    ensures NonDecreasing(attempts)
    ensures forall k :: 0 <= k < |attempts| ==> attempts[k] in clock
    ensures clock == Readings(passes) && attempts == Attempts(passes) && AllRight(start, interval, passes)
  {
    attempts, passes := [], [];
    var t := 0;
    while t < |clock|
      invariant 0 <= t <= |clock| && Paced(start, interval, clock, t, attempts, passes)
    {
      ghost var before, s := attempts, t;
      var now := clock[t];
      OneReadingLater(clock, t, attempts);
      t := t + 1;
      if now >= Deadline(start, interval, |attempts|) {
        attempts, t := SendBatch(start, interval, clock, t, attempts, now);
      }
      PassPaced(start, interval, clock, s, before, passes, t, attempts, Pass(now, clock[s + 1..t]));
      passes := passes + [Pass(now, clock[s + 1..t])];
    }
    assert clock[..t] == clock;
  }

  /** What a whole pass below the sleep floor leaves due: nothing, or 64 fewer than before. */
  lemma BacklogAfterPass(start: int, interval: int, passes: seq<Pass>, i: nat)
    requires 0 < interval < 200_000 && AllRight(start, interval, passes) && i + 1 < |passes|
    requires passes[i].now >= Deadline(start, interval, |Attempts(passes[..i])|)
    ensures var n, m, now := |Attempts(passes[..i])|, |Attempts(passes[..i + 1])|, passes[i].now;
      if Due(start, interval, n, now) <= 64 then Deadline(start, interval, m) > now
      else Due(start, interval, m, now) == Due(start, interval, n, now) - 64
  {
    assert PassRight(start, interval, passes, i);
    assert passes[..i + 1][..i] == passes[..i];
    PassCatchesUp(start, interval, |Attempts(passes[..i])|, passes[i].now);
  }

  /** One burst of back-to-back attempts. */
  method SendBatch(start: int, interval: int, clock: seq<int>, t: nat, before: seq<int>, now: int)
      returns (attempts: seq<int>, t': nat)
    requires interval > 0 && NonDecreasing(clock) && 0 < t <= |clock| && now == clock[t - 1]
    requires OnTime(before, start, interval) && NonDecreasing(before)
    requires forall k :: 0 <= k < |before| ==> before[k] in clock[..t]
    requires Deadline(start, interval, |before|) <= now
    ensures t <= t' <= |clock| && OnTime(attempts, start, interval) && NonDecreasing(attempts)
    ensures forall k :: 0 <= k < |attempts| ==> attempts[k] in clock[..t']
    ensures attempts == before + clock[t..t'] && t' - t <= Batch(start, interval, |before|, now)
    ensures t' < |clock| ==> t' - t == Batch(start, interval, |before|, now)
  {
    var n, batch := |before|, Batch(start, interval, |before|, now);
    attempts, t' := before, t;
    var i := 0;
    while i < batch && t' < |clock|
      invariant 0 <= i <= batch && t' == t + i <= |clock| && attempts == before + clock[t..t']
      invariant OnTime(attempts, start, interval) && NonDecreasing(attempts)
      invariant forall k :: 0 <= k < |attempts| ==> attempts[k] in clock[..t']
    {
      DueIsExact(start, interval, n, now, i);
      DueIsExact(start, interval, n, now, 0);
      AppendReading(clock, t', attempts);
      attempts := attempts + [clock[t']];
      t', i := t' + 1, i + 1;
    }
  }

  lemma AppendReading(clock: seq<int>, t: nat, attempts: seq<int>)
    requires NonDecreasing(clock) && t < |clock| && NonDecreasing(attempts)
    requires forall k :: 0 <= k < |attempts| ==> attempts[k] in clock[..t]
    ensures NonDecreasing(attempts + [clock[t]])
    ensures forall k :: 0 <= k <= |attempts| ==> (attempts + [clock[t]])[k] in clock[..t + 1]
  {
    var longer := attempts + [clock[t]];
    forall k | 0 <= k <= |attempts| ensures longer[k] in clock[..t + 1] && longer[k] <= clock[t] {
      if k < |attempts| {
        var j :| 0 <= j < t && clock[j] == attempts[k];
        assert clock[..t + 1][j] == attempts[k];
      } else {
        assert clock[..t + 1][t] == clock[t];
      }
    }
  }

  /** So the rate is never exceeded: by time T at most floor((T - start) / interval) + 1 attempts were made. */
  lemma RateNeverExceeded(attempts: seq<int>, start: int, interval: int, T: int, count: nat)
    requires interval > 0 && OnTime(attempts, start, interval)
    requires count <= |attempts| && (count > 0 ==> attempts[count - 1] <= T) && T >= start
    ensures count <= (T - start) / interval + 1
  {
    if count > 0 {
      DueIsExact(start, interval, 0, T, count - 1);
    } else {
      DueIsPositive(start, interval, 0, T);
    }
  }
}
