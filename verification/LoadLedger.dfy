/** The sender/receiver ledger of the load generator (scripts/ntp-load/main.go): every worker is two threads
    over one map of pending cookies, all sharing one count of replies.  Each mutex section, atomic operation
    and socket call is one step; a run is any sequence of events. */
module LoadLedger {
  import opened Bytes
  import opened MapCounts

  // --- Cookies

  const TWO48: nat := 0x1_0000_0000_0000

  /** a | b */
  function Or(a: nat, b: nat): nat {
    if a == 0 then b else if b == 0 then a
    else 2 * Or(a / 2, b / 2) + (if a % 2 == 1 || b % 2 == 1 then 1 else 0)
  }

  lemma {:induction false} OrOfShifted(i: nat, k: nat, n: nat)
    requires n < Pow2(k)
    ensures Or(i * Pow2(k), n) == i * Pow2(k) + n
  {
    if k > 0 && i > 0 && n > 0 {
      var h := i * Pow2(k - 1);
      assert i * Pow2(k) == 2 * h by { DoubleProduct(i, Pow2(k - 1)); }
      OrOfShifted(i, k - 1, n / 2);
      assert (2 * h) / 2 == h && (2 * h) % 2 == 0;
    }
  }

  lemma Pow2Of48(k: nat)
    requires k == 48
    ensures Pow2(k) == TWO48
  {
    assert Pow2(8) == 256;
    Doubled(8, 256);
    Doubled(16, 65536);
    Pow2Add(32, 16);
  }

  const TWO16: nat := 0x1_0000

  /** The n-th cookie of worker i; only the low 16 bits of the worker's number fit above the counter. */
  function Cookie(i: nat, n: nat): nat { i % TWO16 * TWO48 + n }

  /** A 64-bit shift by 48 drops all but the low 16 bits. */
  lemma ShiftCuts(i: nat)
    ensures i * TWO48 % TWO64 == i % TWO16 * TWO48
  {
    var q, r := i / TWO16, i % TWO16;
    assert i == q * TWO16 + r;
    assert i * TWO48 == q * TWO64 + r * TWO48;
    RemainderIs(i * TWO48, q, r * TWO48);
  }

  lemma RemainderIs(x: nat, q: nat, r: nat)
    requires x == q * TWO64 + r && r < TWO64
    ensures x % TWO64 == r
  {
  }

  /** It is what the source builds with a 64-bit shift and a bitwise or, as long as the counter stays below 2^48. */
  lemma CookieIsOr(i: nat, n: nat, k: nat)
    requires n < TWO48 && k == 48
    ensures Or(i * Pow2(k) % TWO64, n) == Cookie(i, n) < TWO64
  {
    Pow2Of48(k);
    ShiftCuts(i);
    OrOfShifted(i % TWO16, k, n);
  }

  /** Two cookies are alike exactly when they have the same counter value and come from one worker, or from workers
      whose numbers agree in the low 16 bits. */
  lemma CookiesDiffer(i: nat, n: nat, j: nat, m: nat)
    requires n < TWO48 && m < TWO48
    ensures Cookie(i, n) == Cookie(j, m) <==> n == m && i % TWO16 == j % TWO16
    ensures i < TWO16 && j < TWO16 && Cookie(i, n) == Cookie(j, m) ==> i == j
  {
  }

  /** The bytes of a number, most significant first. */
  function WordBytes(n: nat, k: nat): (s: Bytes)
    ensures |s| == k
  {
    if k == 0 then [] else WordBytes(n / 256, k - 1) + [n % 256]
  }

  lemma {:induction false} WordBytesDenote(n: nat, k: nat)
    requires n < Pow2(8 * k)
    ensures BigEndian(WordBytes(n, k)) == n
  {
    if k > 0 {
      Pow2Add(8 * (k - 1), 8);
      assert Pow2(8) == 256 && 8 * k == 8 * (k - 1) + 8;
      WordBytesDenote(n / 256, k - 1);
      assert WordBytes(n, k)[..k - 1] == WordBytes(n / 256, k - 1);
    }
  }

  /** A mode-3, version-4 NTP packet with the cookie as its Transmit timestamp. */
  function NtpPacket(cookie: nat): (buf: Bytes)
    ensures |buf| == 48 && buf[0] % 8 == 3 && buf[0] / 8 == 4 && forall j :: 1 <= j < 40 ==> buf[j] == 0
    ensures buf[40..48] == WordBytes(cookie, 8)
    ensures cookie < TWO64 ==> BigEndian(buf[40..48]) == cookie
  {
    assert cookie < TWO64 ==> BigEndian(WordBytes(cookie, 8)) == cookie by {
      Pow2Of64(8 * |WordBytes(cookie, 8)|);
      if cookie < TWO64 { WordBytesDenote(cookie, 8); }
    }
    [0x23] + seq(39, _ => 0) + WordBytes(cookie, 8)
  }

  /** A reply that echoes Transmit into Origin gives the receiver the very cookie that was sent. */
  lemma CookieComesBack(cookie: nat, reply: Bytes)
    requires cookie < TWO64 && |reply| >= 48 && reply[24..32] == NtpPacket(cookie)[40..48]
    ensures BigEndian(reply[24..32]) == cookie
  {
  }

  // --- Threads

  datatype Sender = Idle | Drawn(c: nat) | Registered(c: nat) | Failed(c: nat) | Written
  datatype Receiver = Listening | Took(rtt: int) | Tallied(rtt: int)

  /** early counts the replies that took a cookie whose write then failed. */
  datatype Worker = Worker(
    counter: nat, pending: map<nat, int>, rtts: seq<int>, sent: nat, sender: Sender, receiver: Receiver, early: nat)

  datatype State = State(workers: seq<Worker>, received: nat)

  datatype Event = Send(w: nat, now: int, ok: bool) | Receive(w: nat, cookie: nat, now: int)

  const FRESH := Worker(0, map[], [], 0, Idle, Listening, 0)

  function Start(workers: nat): State { State(seq(workers, _ => FRESH), 0) }

  /** One step of a sender: draw a cookie, register it, write, then count the send or withdraw the cookie. */
  function SendStep(w: Worker, i: nat, now: int, ok: bool): Worker {
    match w.sender
    case Idle =>
      if w.counter + 1 < TWO48 then w.(counter := w.counter + 1, sender := Drawn(Cookie(i, w.counter + 1))) else w
    case Drawn(c) => w.(pending := w.pending[c := now], sender := Registered(c))
    case Registered(c) => w.(sender := if ok then Written else Failed(c))
    case Failed(c) =>
      w.(pending := w.pending - {c}, sender := Idle, early := if c in w.pending then w.early else w.early + 1)
    case Written => w.(sent := w.sent + 1, sender := Idle)
  }

  /** One step of a receiver: take a reply's cookie out of the map, count it, record its round trip. */
  function ReceiveStep(w: Worker, cookie: nat, now: int): Worker {
    match w.receiver
    case Listening =>
      if cookie in w.pending
      then w.(pending := w.pending - {cookie}, receiver := Took(now - w.pending[cookie])) else w
    case Took(rtt) => w.(receiver := Tallied(rtt))
    case Tallied(rtt) => w.(rtts := w.rtts + [rtt], receiver := Listening)
  }

  function Step(s: State, e: Event): (s': State)
    ensures |s'.workers| == |s.workers|
  {
    if e.w >= |s.workers| then s
    else
      var w := s.workers[e.w];
      match e
      case Send(i, now, ok) => s.(workers := s.workers[i := SendStep(w, i, now, ok)])
      case Receive(i, cookie, now) =>
        State(s.workers[i := ReceiveStep(w, cookie, now)], if w.receiver.Took? then s.received + 1 else s.received)
  }

  function Run(workers: nat, events: seq<Event>): (s: State)
    ensures |s.workers| == workers
  {
    if events == [] then Start(workers) else Step(Run(workers, events[..|events| - 1]), events[|events| - 1])
  }

  // --- One worker's books

  function InHand(w: Worker): nat { if w.sender.Registered? || w.sender.Failed? then 1 else 0 }

  function Uncounted(w: Worker): nat { if w.sender.Written? then 1 else 0 }

  function Taken(w: Worker): nat { |w.rtts| + (if w.receiver.Listening? then 0 else 1) }

  /** Writes that succeeded, early replies and the cookie in hand are together the cookies matched or pending. */
  ghost predicate Balanced(w: Worker) {
    w.sent + Uncounted(w) + w.early + InHand(w) == Taken(w) + |w.pending|
  }

  /** Pending cookies were drawn before; a cookie just drawn is new. */
  ghost predicate Fresh(w: Worker, i: nat) {
    && w.counter < TWO48
    && (forall c :: c in w.pending ==> Cookie(i, 0) < c <= Cookie(i, w.counter))
    && (w.sender.Drawn? ==> w.counter > 0 && w.sender.c == Cookie(i, w.counter) && w.sender.c !in w.pending)
    && (w.sender.Registered? || w.sender.Failed? ==> w.sender.c == Cookie(i, w.counter))
  }

  lemma CountWithout(m: map<nat, int>, c: nat)
    ensures |m - {c}| == if c in m then |m| - 1 else |m|
  {
    if c in m { MapRemoveCount(m, {c}); } else { assert m - {c} == m; }
  }

  lemma SendBalanced(w: Worker, i: nat, now: int, ok: bool)
    requires Balanced(w) && (w.sender.Drawn? ==> w.sender.c !in w.pending)
    ensures Balanced(SendStep(w, i, now, ok))
  {
    match w.sender
    case Drawn(c) => MapAddCount(w.pending, c, now);
    case Failed(c) => CountWithout(w.pending, c);
    case _ =>
  }

  lemma SendFresh(w: Worker, i: nat, now: int, ok: bool)
    requires Fresh(w, i)
    ensures Fresh(SendStep(w, i, now, ok), i)
  {
  }

  lemma ReceiveKeeps(w: Worker, i: nat, cookie: nat, now: int)
    requires Balanced(w) && Fresh(w, i)
    ensures var w' := ReceiveStep(w, cookie, now); Balanced(w') && Fresh(w', i)
  {
    CountWithout(w.pending, cookie);
  }

  // --- All workers

  /** A quantity summed over the workers. */
  function Sum(workers: seq<Worker>, of: Worker -> nat): nat {
    if workers == [] then 0 else Sum(workers[..|workers| - 1], of) + of(workers[|workers| - 1])
  }

  lemma {:induction false} SumUpdate(workers: seq<Worker>, i: nat, w: Worker, of: Worker -> nat)
    requires i < |workers|
    ensures Sum(workers[i := w], of) == Sum(workers, of) - of(workers[i]) + of(w)
  {
    var n := |workers| - 1;
    if i == n {
      assert workers[i := w][..n] == workers[..n];
    } else {
      SumUpdate(workers[..n], i, w, of);
      assert workers[i := w][..n] == workers[..n][i := w];
    }
  }

  /** The replies a worker has counted: the recorded ones and one not yet recorded. */
  function Counted(w: Worker): nat { |w.rtts| + (if w.receiver.Tallied? then 1 else 0) }

  ghost predicate Inv(s: State) {
    && (forall i :: 0 <= i < |s.workers| ==> Balanced(s.workers[i]) && Fresh(s.workers[i], i))
    && s.received == Sum(s.workers, Counted)
  }

  lemma ReplaceKeeps(s: State, i: nat, w: Worker, received: nat)
    requires Inv(s) && i < |s.workers| && Balanced(w) && Fresh(w, i)
    requires received == s.received - Counted(s.workers[i]) + Counted(w)
    ensures Inv(State(s.workers[i := w], received))
  {
    SumUpdate(s.workers, i, w, Counted);
  }

  lemma StepKeeps(s: State, e: Event)
    requires Inv(s)
    ensures Inv(Step(s, e))
  {
    if e.w < |s.workers| {
      var w := s.workers[e.w];
      match e
      case Send(i, now, ok) =>
        SendBalanced(w, i, now, ok);
        SendFresh(w, i, now, ok);
        ReplaceKeeps(s, i, SendStep(w, i, now, ok), s.received);
      case Receive(i, cookie, now) =>
        ReceiveKeeps(w, i, cookie, now);
        ReplaceKeeps(s, i, ReceiveStep(w, cookie, now), if w.receiver.Took? then s.received + 1 else s.received);
    }
  }

  lemma {:induction false} RunInv(workers: nat, events: seq<Event>)
    ensures Inv(Run(workers, events))
  {
    if events == [] {
      SumOfFresh(Start(workers).workers);
    } else {
      RunInv(workers, events[..|events| - 1]);
      StepKeeps(Run(workers, events[..|events| - 1]), events[|events| - 1]);
    }
  }

  lemma {:induction false} SumOfFresh(workers: seq<Worker>)
    requires forall i :: 0 <= i < |workers| ==> workers[i] == FRESH
    ensures Sum(workers, Counted) == 0
  {
    if workers != [] { SumOfFresh(workers[..|workers| - 1]); }
  }

  /** A reply whose cookie is not pending changes nothing, so duplicates and strangers count zero. */
  lemma StrangersCountZero(s: State, w: nat, cookie: nat, now: int)
    requires w < |s.workers| && s.workers[w].receiver.Listening? && cookie !in s.workers[w].pending
    ensures Step(s, Receive(w, cookie, now)) == s
  {
    assert s.workers[w := s.workers[w]] == s.workers;
  }

  /** The cookie was drawn, is not pending and will not be registered. */
  ghost predicate Gone(w: Worker, i: nat, c: nat) {
    c <= Cookie(i, w.counter) && c !in w.pending && w.sender != Drawn(c)
  }

  lemma StepKeepsGone(s: State, e: Event, i: nat, c: nat)
    requires i < |s.workers| && Gone(s.workers[i], i, c)
    ensures Gone(Step(s, e).workers[i], i, c)
  {
  }

  lemma {:induction false} GoneForGood(workers: nat, events: seq<Event>, later: seq<Event>, i: nat, c: nat)
    requires i < workers && Gone(Run(workers, events).workers[i], i, c)
    ensures Gone(Run(workers, events + later).workers[i], i, c)
    decreases |later|
  {
    if later == [] {
      assert events + later == events;
    } else {
      var init, e := later[..|later| - 1], later[|later| - 1];
      GoneForGood(workers, events, init, i, c);
      var all := events + later;
      assert all[..|all| - 1] == events + init && all[|all| - 1] == e;
      StepKeepsGone(Run(workers, events + init), e, i, c);
    }
  }

  lemma TakenIsGone(s: State, i: nat, c: nat, now: int)
    requires Inv(s) && i < |s.workers| && s.workers[i].receiver.Listening? && c in s.workers[i].pending
    ensures Gone(Step(s, Receive(i, c, now)).workers[i], i, c)
  {
    assert Fresh(s.workers[i], i);
  }

  /** Once a reply took its cookie, every later reply with that cookie finds it not pending, in whatever order the
      threads go on: no cookie counts twice in a run. */
  lemma RepliesCountOnce(workers: nat, events: seq<Event>, later: seq<Event>, i: nat, c: nat, now: int)
    requires i < workers && Run(workers, events).workers[i].receiver.Listening?
    requires c in Run(workers, events).workers[i].pending
    ensures c !in Run(workers, events + [Receive(i, c, now)] + later).workers[i].pending
  {
    var e := Receive(i, c, now);
    var taken := events + [e];
    assert taken[..|taken| - 1] == events && taken[|taken| - 1] == e;
    RunInv(workers, events);
    TakenIsGone(Run(workers, events), i, c, now);
    GoneForGood(workers, taken, later, i, c);
  }

  // --- Round trips

  /** The cookie was registered at t0 and is not registered again. */
  ghost predicate RegisteredAt(w: Worker, i: nat, c: nat, t0: int) {
    c <= Cookie(i, w.counter) && w.sender != Drawn(c) && (c in w.pending ==> w.pending[c] == t0)
  }

  lemma StepKeepsStamp(s: State, e: Event, i: nat, c: nat, t0: int)
    requires i < |s.workers| && RegisteredAt(s.workers[i], i, c, t0)
    ensures RegisteredAt(Step(s, e).workers[i], i, c, t0)
  {
  }

  lemma {:induction false} StampIsKept(workers: nat, events: seq<Event>, later: seq<Event>, i: nat, c: nat, t0: int)
    requires i < workers && RegisteredAt(Run(workers, events).workers[i], i, c, t0)
    ensures RegisteredAt(Run(workers, events + later).workers[i], i, c, t0)
    decreases |later|
  {
    if later == [] {
      assert events + later == events;
    } else {
      var init, e := later[..|later| - 1], later[|later| - 1];
      StampIsKept(workers, events, init, i, c, t0);
      var all := events + later;
      assert all[..|all| - 1] == events + init && all[|all| - 1] == e;
      StepKeepsStamp(Run(workers, events + init), e, i, c, t0);
    }
  }

  lemma DrawnIsRegistered(s: State, i: nat, c: nat, t0: int, ok: bool)
    requires Inv(s) && i < |s.workers| && s.workers[i].sender == Drawn(c)
    ensures var w := Step(s, Send(i, t0, ok)).workers[i]; RegisteredAt(w, i, c, t0) && c in w.pending
  {
    assert Fresh(s.workers[i], i);
  }

  /** In any run: a cookie registered at t0 and taken by a reply at t1, whatever happened in between, gives the round
      trip t1 - t0. */
  lemma RoundTripIs(workers: nat, events: seq<Event>, i: nat, c: nat, t0: int, ok: bool, later: seq<Event>, t1: int)
    requires i < workers && Run(workers, events).workers[i].sender == Drawn(c)
    requires var w := Run(workers, events + [Send(i, t0, ok)] + later).workers[i];
      w.receiver.Listening? && c in w.pending
    ensures var s := Run(workers, events + [Send(i, t0, ok)] + later);
      Step(s, Receive(i, c, t1)).workers[i].receiver == Took(t1 - t0)
  {
    var e := Send(i, t0, ok);
    assert (events + [e])[..|events|] == events;
    RunInv(workers, events);
    DrawnIsRegistered(Run(workers, events), i, c, t0, ok);
    StampIsKept(workers, events + [e], later, i, c, t0);
  }

  /** And the receiver then counts the reply and appends just this round trip. */
  lemma RoundTripIsRecorded(s: State, i: nat, c: nat, now: int)
    requires i < |s.workers|
    ensures var w, s' := s.workers[i], Step(s, Receive(i, c, now)); var w' := s'.workers[i];
      && (w.receiver.Took? ==>
            w'.receiver == Tallied(w.receiver.rtt) && s'.received == s.received + 1 && w'.rtts == w.rtts)
      && (w.receiver.Tallied? ==> w'.rtts == w.rtts + [w.receiver.rtt] && w'.receiver.Listening?)
  {
  }

  // --- The final accounting

  function SentOf(w: Worker): nat { w.sent }
  function PendingOf(w: Worker): nat { |w.pending| }
  function EarlyOf(w: Worker): nat { w.early }
  function RttsOf(w: Worker): nat { |w.rtts| }

  ghost predicate Quiet(s: State) {
    forall i :: 0 <= i < |s.workers| ==> s.workers[i].sender.Idle? && s.workers[i].receiver.Listening?
  }

  lemma {:induction false} QuietSums(workers: seq<Worker>)
    requires forall i :: 0 <= i < |workers| ==>
      Balanced(workers[i]) && workers[i].sender.Idle? && workers[i].receiver.Listening?
    ensures Sum(workers, SentOf) + Sum(workers, EarlyOf) == Sum(workers, RttsOf) + Sum(workers, PendingOf)
    ensures Sum(workers, Counted) == Sum(workers, RttsOf)
  {
    if workers != [] { QuietSums(workers[..|workers| - 1]); }
  }

  /** The n-th event finds its sender about to withdraw a failed write's cookie that a reply has already taken. */
  ghost predicate AnsweredFailure(workers: nat, events: seq<Event>, n: nat)
    requires n < |events|
  {
    && events[n].Send? && events[n].w < workers
    && var w := Run(workers, events[..n]).workers[events[n].w]; w.sender.Failed? && w.sender.c !in w.pending
  }

  /** No failed write got a reply. */
  ghost predicate FailedUnanswered(workers: nat, events: seq<Event>) {
    forall n :: 0 <= n < |events| ==> !AnsweredFailure(workers, events, n)
  }

  /** How many failed writes got one. */
  ghost function AnsweredFailures(workers: nat, events: seq<Event>): nat {
    if events == [] then 0
    else
      var n := |events| - 1;
      AnsweredFailures(workers, events[..n]) + if AnsweredFailure(workers, events, n) then 1 else 0
  }

  lemma {:induction false} AnsweredFailuresNone(workers: nat, events: seq<Event>)
    ensures AnsweredFailures(workers, events) == 0 <==> FailedUnanswered(workers, events)
  {
    if events != [] {
      var n := |events| - 1;
      AnsweredFailuresNone(workers, events[..n]);
      forall m | 0 <= m < n
        ensures AnsweredFailure(workers, events[..n], m) <==> AnsweredFailure(workers, events, m)
      {
        assert events[..n][..m] == events[..m];
      }
    }
  }

  lemma {:induction false} EarlyIsAnswered(workers: nat, events: seq<Event>)
    ensures Sum(Run(workers, events).workers, EarlyOf) == AnsweredFailures(workers, events)
  {
    if events == [] {
      NoneEarly(Start(workers).workers);
    } else {
      var n := |events| - 1;
      var s, e := Run(workers, events[..n]), events[n];
      EarlyIsAnswered(workers, events[..n]);
      if e.w < workers { SumUpdate(s.workers, e.w, Step(s, e).workers[e.w], EarlyOf); }
    }
  }

  lemma {:induction false} NoneEarly(workers: seq<Worker>)
    requires forall i :: 0 <= i < |workers| ==> workers[i] == FRESH
    ensures Sum(workers, EarlyOf) == 0
  {
    if workers != [] { NoneEarly(workers[..|workers| - 1]); }
  }

  /** When both threads of every worker are done: every send is received or pending, up to the failed writes that
      were answered; every reply counted has its round trip; and sent - received does not wrap if and only if there
      were no more such writes than there are cookies still pending. */
  lemma LedgerCloses(workers: nat, events: seq<Event>)
    requires Quiet(Run(workers, events))
    ensures var s := Run(workers, events); var answered := AnsweredFailures(workers, events);
      && Sum(s.workers, SentOf) + answered == s.received + Sum(s.workers, PendingOf)
      && s.received == Sum(s.workers, RttsOf)
      && (s.received <= Sum(s.workers, SentOf) <==> answered <= Sum(s.workers, PendingOf))
  {
    RunInv(workers, events);
    QuietSums(Run(workers, events).workers);
    EarlyIsAnswered(workers, events);
  }

  /** The ledger closes exactly, sent = received + pending, if and only if no failed write got a reply; a reply that
      arrives before its successful write returns does no harm. */
  lemma SentIsReceivedPlusPending(workers: nat, events: seq<Event>)
    requires Quiet(Run(workers, events))
    ensures var s := Run(workers, events);
      Sum(s.workers, SentOf) == s.received + Sum(s.workers, PendingOf) <==> FailedUnanswered(workers, events)
  {
    LedgerCloses(workers, events);
    AnsweredFailuresNone(workers, events);
  }

  /** A failed write whose cookie is answered makes received exceed sent. */
  lemma EarlyReplyExceedsSent()
    ensures var events := [Send(0, 0, true), Send(0, 0, true), Receive(0, Cookie(0, 1), 5), Receive(0, 0, 6),
                           Receive(0, 0, 7), Send(0, 8, false), Send(0, 9, true)];
      var s := Run(1, events);
      Quiet(s) && s.received == 1 && Sum(s.workers, SentOf) == 0
  {
    var e := [Send(0, 0, true), Send(0, 0, true), Receive(0, Cookie(0, 1), 5), Receive(0, 0, 6),
              Receive(0, 0, 7), Send(0, 8, false), Send(0, 9, true)];
    assert Run(1, []) == Start(1);
    assert e[..1][..0] == [] && e[..2][..1] == e[..1] && e[..3][..2] == e[..2] && e[..4][..3] == e[..3];
    assert e[..5][..4] == e[..4] && e[..6][..5] == e[..5] && e[..7][..6] == e[..6] && e[..7] == e;
    var w := FRESH.(counter := 1, sender := Drawn(1));
    assert Run(1, e[..1]).workers == [w];
    w := w.(sender := Registered(1), pending := map[1 := 0]);
    assert Run(1, e[..2]) == State([w], 0);
    w := w.(receiver := Took(5), pending := map[]);
    assert map[1 := 0] - {1} == (map[]);
    assert Run(1, e[..3]) == State([w], 0);
    w := w.(receiver := Tallied(5));
    assert Run(1, e[..4]) == State([w], 1);
    w := w.(receiver := Listening, rtts := [5]);
    assert [] + [5] == [5];
    assert Run(1, e[..5]) == State([w], 1);
    w := w.(sender := Failed(1));
    assert Run(1, e[..6]) == State([w], 1);
    w := w.(sender := Idle, early := 1);
    assert Run(1, e[..7]) == State([w], 1);
    assert Sum([w], SentOf) == 0;
  }

  /** The totals run reports. */
  method Totals(workers: seq<Worker>) returns (sent: nat, rtts: nat)
    ensures sent == Sum(workers, SentOf) && rtts == Sum(workers, RttsOf)
  {
    sent, rtts := 0, 0;
    for i := 0 to |workers|
      invariant sent == Sum(workers[..i], SentOf) && rtts == Sum(workers[..i], RttsOf)
    {
      assert workers[..i + 1][..i] == workers[..i];
      sent := sent + workers[i].sent;
      rtts := rtts + |workers[i].rtts|;
    }
    assert workers[..|workers|] == workers;
  }

  /** The reported loss, computed with wrapping 64-bit subtraction, is a percentage exactly when no more was
      received than sent. */
  method LossPercent(sent: nat, received: nat) returns (loss: real)
    requires sent < TWO64 && received < TWO64
    ensures sent == 0 ==> loss == 0.0
    ensures 0 < sent && received <= sent ==> loss * (sent as real) == 100.0 * ((sent - received) as real)
    ensures 0 < sent ==> (0.0 <= loss <= 100.0 <==> received <= sent)
  {
    loss := 0.0;
    if sent > 0 {
      var lost: nat := if received <= sent then sent - received else sent - received + TWO64;
      loss := 100.0 * (lost as real) / (sent as real);
      Percentage(lost as real, sent as real, loss);
    }
  }

  lemma Percentage(lost: real, sent: real, loss: real)
    requires sent > 0.0 && lost >= 0.0 && loss == 100.0 * lost / sent
    ensures loss * sent == 100.0 * lost
    ensures 0.0 <= loss && (loss <= 100.0 <==> lost <= sent)
  {
    var hundredLost := 100.0 * lost;
    assert loss * sent == hundredLost;
    ScaledOrder(0.0, loss, sent);
    calc <==> {
      loss <= 100.0;
      { ScaledOrder(loss, 100.0, sent); }
      loss * sent <= 100.0 * sent;
      hundredLost <= 100.0 * sent;
      lost <= sent;
    }
  }

  lemma ScaledOrder(x: real, y: real, n: real)
    requires n > 0.0
    ensures x <= y <==> x * n <= y * n
  {
    assert (y - x) * n == y * n - x * n;
  }
}
