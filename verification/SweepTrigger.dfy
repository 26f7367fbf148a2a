/** The atomic add / compare-and-swap pair that decides which worker sweeps the pending table
    (HandleFrame in exporter/internal/aggregate/aggregate.go).  Each atomic operation is one step. */
module SweepTrigger {
  import opened Bytes

  const SWEEP_EVERY := 1024

  /** counter is framesSinceSweep; held[w] is the value worker w got from its add, until its swap.
      frames counts adds, resets the successful swaps and resetSum the values they replaced. */
  datatype Trigger = Trigger(counter: int, held: seq<Option<int>>, frames: nat, resets: nat, resetSum: int)

  ghost function Start(workers: nat): Trigger {
    Trigger(0, seq(workers, _ => None), 0, 0, 0)
  }

  ghost function Add(t: Trigger, w: nat): (t': Trigger)
    requires w < |t.held|
    ensures |t'.held| == |t.held|
  {
    t.(counter := t.counter + 1, held := t.held[w := Some(t.counter + 1)], frames := t.frames + 1)
  }

  /** Only a worker whose value reached the threshold tries the swap, and it wins only if nobody added since. */
  ghost predicate Wins(t: Trigger, w: nat)
    requires w < |t.held|
  {
    t.held[w].Some? && t.held[w].value >= SWEEP_EVERY && t.counter == t.held[w].value
  }

  ghost function Swap(t: Trigger, w: nat): (t': Trigger)
    requires w < |t.held|
    ensures |t'.held| == |t.held|
  {
    var released := t.(held := t.held[w := None]);
    if Wins(t, w) then
      released.(counter := 0, resets := t.resets + 1, resetSum := t.resetSum + t.held[w].value)
    else released
  }

  /** Every frame is in the counter or in a reset; a counter past the threshold has a worker about to reset it. */
  ghost predicate Inv(t: Trigger) {
    && 0 <= t.counter
    && t.frames == t.counter + t.resetSum
    && SWEEP_EVERY * t.resets <= t.resetSum
    && (t.counter >= SWEEP_EVERY ==> exists w :: 0 <= w < |t.held| && t.held[w] == Some(t.counter))
  }

  lemma AddKeeps(t: Trigger, w: nat)
    requires Inv(t) && w < |t.held|
    ensures Inv(Add(t, w))
  {
    assert Add(t, w).held[w] == Some(t.counter + 1);
  }

  lemma SwapKeeps(t: Trigger, w: nat)
    requires Inv(t) && w < |t.held|
    ensures Inv(Swap(t, w))
  {
    var t' := Swap(t, w);
    if t'.counter >= SWEEP_EVERY {
      var u :| 0 <= u < |t.held| && t.held[u] == Some(t.counter);
      assert t'.held[u] == Some(t'.counter);
    }
  }

  /** At rest the counter is below the threshold, and sweeps are at least 1024 frames apart on average. */
  lemma QuiescentBound(t: Trigger)
    requires Inv(t) && forall w :: 0 <= w < |t.held| ==> t.held[w].None?
    ensures t.counter < 1024
    ensures 1024 * t.resets <= t.frames
  {
  }

  // --- Adversarial schedules

  datatype Op = AddOp(w: nat) | SwapOp(w: nat)

  /** t' is reachable from t by the given operations, each worker alternating between add and swap. */
  ghost predicate Reaches(t: Trigger, ops: seq<Op>, t': Trigger)
    decreases |ops|
  {
    if ops == [] then t == t'
    else
      && ops[0].w < |t.held|
      && (ops[0].AddOp? <==> t.held[ops[0].w].None?)
      && Reaches(if ops[0].AddOp? then Add(t, ops[0].w) else Swap(t, ops[0].w), ops[1..], t')
  }

  /** Two workers that always overtake each other between add and swap drive the counter past any bound:
      the swap is lost each time and no sweep ever starts. */
  lemma {:induction false} NoFixedBound(t: Trigger, u: nat, v: nat, more: nat) returns (ops: seq<Op>, t': Trigger)
    requires u < |t.held| && v < |t.held| && u != v
    requires t.held[u].Some? && t.held[v].None?
    requires t.counter == t.held[u].value
    ensures Reaches(t, ops, t') && t'.counter == t.counter + more && t'.resets == t.resets
    decreases more
  {
    if more == 0 {
      ops, t' := [], t;
    } else {
      var a := Add(t, v);
      var b := Swap(a, u);
      var rest;
      rest, t' := NoFixedBound(b, v, u, more - 1);
      ops := [AddOp(v), SwapOp(u)] + rest;
      assert ops[1..] == [SwapOp(u)] + rest;
      assert ops[1..][1..] == rest;
      assert Reaches(a, ops[1..], t');
    }
  }

  /** From the start, two workers can push the counter to any value without a single sweep. */
  lemma CounterUnbounded(workers: nat, bound: nat) returns (ops: seq<Op>, t': Trigger)
    requires workers >= 2
    ensures Reaches(Start(workers), ops, t') && t'.counter > bound && t'.resets == 0
  {
    var t := Add(Start(workers), 0);
    var rest;
    rest, t' := NoFixedBound(t, 0, 1, bound);
    ops := [AddOp(0)] + rest;
    assert ops[1..] == rest;
  }

  /** No schedule takes the counter above b. */
  ghost predicate BoundedBy(workers: nat, b: nat) {
    forall ops, t' :: Reaches(Start(workers), ops, t') ==> t'.counter <= b
  }

  /** What a lone worker keeps: it swaps what it has just added. */
  ghost predicate Alone(t: Trigger) {
    && |t.held| <= 1 && t.counter <= SWEEP_EVERY
    && forall w :: 0 <= w < |t.held| ==>
         if t.held[w].Some? then t.held[w] == Some(t.counter) else t.counter < SWEEP_EVERY
  }

  lemma {:induction false} LoneWorkerIsBounded(t: Trigger, ops: seq<Op>, t': Trigger)
    requires Alone(t) && Reaches(t, ops, t')
    ensures t'.counter <= SWEEP_EVERY
    decreases |ops|
  {
    if ops != [] {
      LoneWorkerIsBounded(if ops[0].AddOp? then Add(t, ops[0].w) else Swap(t, ops[0].w), ops[1..], t');
    }
  }

  /** Adds and swaps of a lone worker take the counter to 1024, where the next swap wins. */
  lemma {:induction false} LoneWorkerCounts(n: nat) returns (ops: seq<Op>, t': Trigger)
    requires n < 1024
    ensures Reaches(Start(1), ops, t') && t'.held == [None] && t'.counter == n
  {
    if n == 0 {
      ops, t' := [], Start(1);
    } else {
      var init, t := LoneWorkerCounts(n - 1);
      var a := Add(t, 0);
      t' := Swap(a, 0);
      ops := init + [AddOp(0), SwapOp(0)];
      ReachesThen(Start(1), init, t, [AddOp(0), SwapOp(0)], t');
    }
  }

  lemma {:induction false} ReachesThen(t: Trigger, ops: seq<Op>, u: Trigger, more: seq<Op>, v: Trigger)
    requires Reaches(t, ops, u) && Reaches(u, more, v)
    ensures Reaches(t, ops + more, v)
    decreases |ops|
  {
    if ops == [] {
      assert ops + more == more;
    } else {
      assert (ops + more)[1..] == ops[1..] + more;
      ReachesThen(if ops[0].AddOp? then Add(t, ops[0].w) else Swap(t, ops[0].w), ops[1..], u, more, v);
    }
  }

  lemma LoneWorkerReaches(b: nat)
    requires b == 1023
    ensures !BoundedBy(1, b)
  {
    var ops, t := LoneWorkerCounts(b);
    ReachesThen(Start(1), ops, t, [AddOp(0)], Add(t, 0));
  }

  /** A bound on the counter over all schedules exists if and only if there is at most one worker, and 1024 is then
      the least with one worker. */
  lemma BoundedExactly(workers: nat)
    ensures (exists b :: BoundedBy(workers, b)) <==> workers <= 1
    ensures BoundedBy(workers, 1024) <==> workers <= 1
    ensures workers == 1 ==> !BoundedBy(workers, 1023)
  {
    if workers <= 1 {
      forall ops, t' | Reaches(Start(workers), ops, t') ensures t'.counter <= SWEEP_EVERY {
        LoneWorkerIsBounded(Start(workers), ops, t');
      }
      assert BoundedBy(workers, 1024);
      if workers == 1 { LoneWorkerReaches(1023); }
    } else {
      forall b: nat ensures !BoundedBy(workers, b) {
        var ops, t' := CounterUnbounded(workers, b);
      }
    }
  }
}
