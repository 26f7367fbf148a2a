/** The error, backoff and reopen loop of a capture worker (exporter/internal/capture/manager.go). */
module CaptureBackoff {
  import opened Bytes

  const BACKOFF_MIN := 10    // milliseconds
  const BACKOFF_MAX := 1000
  const REOPEN_AFTER := 32

  /** What one read of the socket yields. */
  datatype Outcome = Timeout | Error | Success

  /** The errors since the last success, timeouts ignored. */
  function Streak(outcomes: seq<Outcome>): nat {
    if outcomes == [] then 0
    else
      var init := outcomes[..|outcomes| - 1];
      match outcomes[|outcomes| - 1]
      case Timeout => Streak(init)
      case Error => Streak(init) + 1
      case Success => 0
  }

  /** A read asks for a reopen when it is the 32nd error since the last success or reopen attempt. */
  predicate Reopens(outcomes: seq<Outcome>, i: nat)
    requires i < |outcomes|
  {
    outcomes[i].Error? && Streak(outcomes[..i + 1]) % REOPEN_AFTER == 0
  }

  function BackoffAfter(errs: nat): int { Min(BACKOFF_MAX, BACKOFF_MIN * Pow2(errs)) }

  lemma {:induction false} BackoffDoubles(errs: nat)
    ensures BackoffAfter(errs + 1) == Min(BACKOFF_MAX, 2 * BackoffAfter(errs))
    ensures BACKOFF_MIN <= BackoffAfter(errs) <= BACKOFF_MAX
  {
  }

  /** The errors from read i on. */
  ghost function ErrorsFrom(outcomes: seq<Outcome>, i: nat): set<int> {
    set j | i <= j < |outcomes| && outcomes[j].Error?
  }

  lemma ErrorsSnoc(init: seq<Outcome>, o: Outcome, i: nat)
    requires i <= |init|
    ensures ErrorsFrom(init + [o], i) == ErrorsFrom(init, i) + (if o.Error? then {|init|} else {})
  {
    var all := init + [o];
    assert forall j :: 0 <= j < |init| ==> all[j] == init[j];
    assert all[|init|] == o;
  }

  /** The streak is the number of errors after the last success, which came just before read i, or of all errors if
      there was none and i is 0. */
  lemma {:induction false} StreakIs(outcomes: seq<Outcome>, i: nat)
    requires i <= |outcomes| && (i > 0 ==> outcomes[i - 1].Success?)
    requires forall j :: i <= j < |outcomes| ==> !outcomes[j].Success?
    ensures Streak(outcomes) == |ErrorsFrom(outcomes, i)|
    decreases |outcomes|
  {
    if i < |outcomes| {
      var init, o := outcomes[..|outcomes| - 1], outcomes[|outcomes| - 1];
      assert outcomes == init + [o];
      StreakIs(init, i);
      ErrorsSnoc(init, o, i);
    } else {
      assert ErrorsFrom(outcomes, i) == {};
    }
  }

  /** The pauses of a burst of errors: 10 ms, 20 ms and so on to 640 ms, then a second each. */
  lemma BackoffTable(errs: nat)
    ensures BackoffAfter(0) == 10 && BackoffAfter(1) == 20 && BackoffAfter(2) == 40 && BackoffAfter(3) == 80
    ensures BackoffAfter(4) == 160 && BackoffAfter(5) == 320 && BackoffAfter(6) == 640
    ensures errs >= 7 ==> BackoffAfter(errs) == 1000
  {
    if errs >= 7 { Pow2Monotone(7, errs); }
    assert Pow2(7) == 128;
  }

  /** The reads at which a reopen is attempted: the 32nd error after the last success, the 64th, and so on. */
  lemma ReopensAre(outcomes: seq<Outcome>, n: nat)
    requires n < |outcomes|
    ensures Reopens(outcomes, n) <==> outcomes[n].Error? && exists k :: Streak(outcomes[..n + 1]) == 32 * k
  {
    var s := Streak(outcomes[..n + 1]);
    assert s == 32 * (s / 32) + s % 32;
  }

  /** The pauses: after every error that does not ask for a reopen, the backoff of the errors before it. */
  function Pauses(outcomes: seq<Outcome>): seq<int> {
    if outcomes == [] then []
    else
      var init := outcomes[..|outcomes| - 1];
      Pauses(init) + if outcomes[|outcomes| - 1].Error? && (Streak(init) + 1) % REOPEN_AFTER != 0
                     then [BackoffAfter(Streak(init) % REOPEN_AFTER)] else []
  }

  lemma StreakSnoc(outcomes: seq<Outcome>, i: nat)
    requires i < |outcomes|
    ensures Streak(outcomes[..i + 1]) == match outcomes[i]
      case Timeout => Streak(outcomes[..i]) case Error => Streak(outcomes[..i]) + 1 case Success => 0
    ensures Pauses(outcomes[..i + 1]) == Pauses(outcomes[..i])
      + if outcomes[i].Error? && (Streak(outcomes[..i]) + 1) % REOPEN_AFTER != 0
        then [BackoffAfter(Streak(outcomes[..i]) % REOPEN_AFTER)] else []
  {
    assert outcomes[..i + 1][..i] == outcomes[..i];
  }

  /** The pause after an error that does not ask for a reopen: 10 ms doubled once per error before it since the last
      success or reopen, at most a second; no other read is followed by one. */
  lemma PausesAre(outcomes: seq<Outcome>, n: nat)
    requires n < |outcomes|
    ensures var s := Streak(outcomes[..n]);
      Pauses(outcomes[..n + 1]) == Pauses(outcomes[..n])
        + if outcomes[n].Error? && s % 32 != 31
          then [if 10 * Pow2(s % 32) < 1000 then 10 * Pow2(s % 32) else 1000] else []
  {
    StreakSnoc(outcomes, n);
    NextCount(Streak(outcomes[..n]));
  }

  lemma NextCount(n: nat)
    ensures (n + 1) % REOPEN_AFTER == if n % REOPEN_AFTER + 1 == REOPEN_AFTER then 0 else n % REOPEN_AFTER + 1
  {
  }

  /** One pass of the loop body after a failed read: reopen on the 32nd error, else pause and double the backoff. */
  method OnError(errs: nat, backoff: int) returns (errs': nat, backoff': int, wait: seq<int>, reopen: bool)
    requires errs < REOPEN_AFTER && backoff == BackoffAfter(errs)
    ensures reopen == (errs + 1 == REOPEN_AFTER)
    ensures errs' == (if reopen then 0 else errs + 1) && backoff' == BackoffAfter(errs')
    ensures wait == if reopen then [] else [BackoffAfter(errs)]
  {
    BackoffDoubles(errs);
    errs', backoff', wait := errs + 1, backoff, [];
    reopen := errs' >= REOPEN_AFTER;
    if reopen {
      errs', backoff' := 0, BACKOFF_MIN;
    } else {
      wait := [backoff];
      backoff' := backoff * 2;
      if backoff' > BACKOFF_MAX {
        backoff' := BACKOFF_MAX;
      }
    }
  }

  /** The worker loop over any sequence of read outcomes, stopped when it ends.  At each loop head the error count is
      the streak modulo 32 and the backoff is 10 ms doubled that often, capped at a second; `waits` are the
      pauses taken and `reopens` tells after which reads a reopen was attempted. */
  method RunWorker(outcomes: seq<Outcome>) returns (errs: nat, backoff: int, waits: seq<int>, reopens: seq<bool>)
    ensures errs == Streak(outcomes) % REOPEN_AFTER && backoff == BackoffAfter(errs)
    ensures |reopens| == |outcomes| && forall i :: 0 <= i < |outcomes| ==> reopens[i] == Reopens(outcomes, i)
    ensures waits == Pauses(outcomes)
  {
    errs, backoff, waits, reopens := 0, BACKOFF_MIN, [], [];
    for i := 0 to |outcomes|
      invariant errs == Streak(outcomes[..i]) % REOPEN_AFTER && backoff == BackoffAfter(errs)
      invariant |reopens| == i && forall j :: 0 <= j < i ==> reopens[j] == Reopens(outcomes, j)
      invariant waits == Pauses(outcomes[..i])
    {
      StreakSnoc(outcomes, i);
      NextCount(Streak(outcomes[..i]));
      var wait, reopen := [], false;
      match outcomes[i] {
        case Timeout =>
        case Error => errs, backoff, wait, reopen := OnError(errs, backoff);
        case Success => errs, backoff := 0, BACKOFF_MIN;
      }
      assert reopen == Reopens(outcomes, i);
      waits, reopens := waits + wait, reopens + [reopen];
    }
    assert outcomes[..|outcomes|] == outcomes;
  }
}
