/** Ownership of the capture sockets (exporter/internal/capture/manager.go): workers reopening their own socket
    while the flusher reads them all.  A socket is a number, given in the order of opening; the world remembers
    how many were opened and which were closed, and how often. */
module CaptureSockets {
  import opened Bytes

  type Sock = nat

  datatype World = World(made: nat, closed: multiset<Sock>)

  /** How an attempt to open a socket ends: refused outright, opened but closed again because the filter or the
      fanout could not be set, or ready. */
  datatype Attempt = OpenFails | SetupFails | Opens

  function AfterAttempt(w: World, a: Attempt): World {
    match a
    case OpenFails => w
    case SetupFails => World(w.made + 1, w.closed + multiset{w.made})
    case Opens => w.(made := w.made + 1)
  }

  /** Every socket ever opened, once. */
  ghost function All(n: nat): multiset<Sock> {
    if n == 0 then multiset{} else All(n - 1) + multiset{n - 1}
  }

  lemma {:induction false} AllCounts(n: nat, s: Sock)
    ensures All(n)[s] == if s < n then 1 else 0
  {
    if n > 0 { AllCounts(n - 1, s); }
  }

  // --- Workers

  /** Where a worker stands: at its loop head with its local handle, holding a new socket not yet in its slot, or
      holding the old one already out of it. */
  datatype Pc = AtHead(sock: Sock) | Holding(sock: Sock, next: Sock) | Replaced(prior: Sock, next: Sock)

  /** reading holds the sockets KernelDrops has read so far while it holds the mutex, and is None while it does not. */
  datatype State = State(slots: seq<Sock>, pcs: seq<Pc>, world: World, reading: Option<seq<Sock>>)

  datatype Event = Reopen(w: nat, a: Attempt) | Swap(w: nat) | CloseOld(w: nat) | Read

  /** KernelDrops takes the mutex, reads the slots one after another and gives the mutex back. */
  function ReadStep(s: State): State {
    if s.reading.None? then s.(reading := Some([]))
    else
      var i := |s.reading.value|;
      s.(reading := if i < |s.slots| then Some(s.reading.value + [s.slots[i]]) else None)
  }

  /** The other events are the sections of reopenWorker: newSocket, the exchange under the mutex, the close after it.
      The exchange waits while KernelDrops holds the mutex. */
  function Step(s: State, e: Event): (s': State)
    requires |s.slots| == |s.pcs|
    ensures |s'.slots| == |s'.pcs| == |s.slots|
  {
    if e.Read? then ReadStep(s)
    else if e.w >= |s.pcs| then s
    else
      match e
      case Reopen(w, a) =>
        if !s.pcs[w].AtHead? then s
        else
          s.(world := AfterAttempt(s.world, a),
             pcs := if a.Opens? then s.pcs[w := Holding(s.pcs[w].sock, s.world.made)] else s.pcs)
      case Swap(w) =>
        if !s.pcs[w].Holding? || s.reading.Some? then s
        else s.(slots := s.slots[w := s.pcs[w].next], pcs := s.pcs[w := Replaced(s.slots[w], s.pcs[w].next)])
      case CloseOld(w) =>
        if !s.pcs[w].Replaced? then s
        else s.(world := s.world.(closed := s.world.closed + multiset{s.pcs[w].prior}),
                pcs := s.pcs[w := AtHead(s.pcs[w].next)])
  }

  /** Run: each worker starts by reading its own slot. */
  function Start(slots: seq<Sock>, world: World): State {
    State(slots, seq(|slots|, i requires 0 <= i < |slots| => AtHead(slots[i])), world, None)
  }

  function Run(slots: seq<Sock>, world: World, events: seq<Event>): (s: State)
    ensures |s.slots| == |s.pcs| == |slots|
  {
    if events == [] then Start(slots, world)
    else Step(Run(slots, world, events[..|events| - 1]), events[|events| - 1])
  }

  // --- Ownership

  function InTransit(pc: Pc): multiset<Sock> {
    match pc
    case AtHead(_) => multiset{}
    case Holding(_, next) => multiset{next}
    case Replaced(prior, _) => multiset{prior}
  }

  function Transit(pcs: seq<Pc>): multiset<Sock> {
    if pcs == [] then multiset{} else Transit(pcs[..|pcs| - 1]) + InTransit(pcs[|pcs| - 1])
  }

  /** Every socket opened so far is in exactly one slot, or in one worker's hands, or closed, and once only. */
  ghost predicate Owned(slots: seq<Sock>, transit: multiset<Sock>, world: World) {
    multiset(slots) + transit + world.closed == All(world.made)
  }

  /** A worker's local handle is its slot, except between exchange and close. */
  ghost predicate HandlesMatch(s: State)
    requires |s.slots| == |s.pcs|
  {
    forall w :: 0 <= w < |s.pcs| ==>
      match s.pcs[w]
      case AtHead(sock) => sock == s.slots[w]
      case Holding(sock, _) => sock == s.slots[w]
      case Replaced(_, next) => next == s.slots[w]
  }

  /** What KernelDrops has read so far are the first slots as they are now. */
  ghost predicate ReadsSlots(s: State) { s.reading.Some? ==> s.reading.value <= s.slots }

  ghost predicate Inv(s: State) {
    |s.slots| == |s.pcs| && HandlesMatch(s) && Owned(s.slots, Transit(s.pcs), s.world) && ReadsSlots(s)
  }

  lemma TransitSnoc(pcs: seq<Pc>, pc: Pc)
    ensures Transit(pcs + [pc]) == Transit(pcs) + InTransit(pc)
  {
    assert (pcs + [pc])[..|pcs|] == pcs;
  }

  lemma {:induction false} TransitUpdate(pcs: seq<Pc>, w: nat, pc: Pc)
    requires w < |pcs|
    ensures Transit(pcs[w := pc]) + InTransit(pcs[w]) == Transit(pcs) + InTransit(pc)
  {
    var init, last := pcs[..|pcs| - 1], pcs[|pcs| - 1];
    assert pcs == init + [last];
    TransitSnoc(init, last);
    if w == |init| {
      assert pcs[w := pc] == init + [pc];
      TransitSnoc(init, pc);
      Swapped(Transit(init), InTransit(pc), InTransit(last));
    } else {
      assert pcs[w := pc] == init[w := pc] + [last];
      TransitUpdate(init, w, pc);
      TransitSnoc(init[w := pc], last);
      Exchange(Transit(init[w := pc]), InTransit(pcs[w]), Transit(init), InTransit(pc), InTransit(last));
    }
  }

  lemma Swapped(a: multiset<Sock>, x: multiset<Sock>, y: multiset<Sock>)
    ensures (a + x) + y == (a + y) + x
  {
  }

  lemma Exchange(a: multiset<Sock>, x: multiset<Sock>, b: multiset<Sock>, y: multiset<Sock>, c: multiset<Sock>)
    requires a + x == b + y
    ensures (a + c) + x == (b + c) + y
  {
    assert (a + c) + x == (a + x) + c && (b + c) + y == (b + y) + c;
  }

  lemma SlotUpdate(slots: seq<Sock>, w: nat, s: Sock)
    requires w < |slots|
    ensures multiset(slots[w := s]) + multiset{slots[w]} == multiset(slots) + multiset{s}
  {
  }

  /** An attempt from one place adds its socket to one place. */
  lemma OwnedAfterAttempt(slots: seq<Sock>, transit: multiset<Sock>, world: World, a: Attempt)
    requires Owned(slots, transit, world)
    ensures !a.Opens? ==> Owned(slots, transit, AfterAttempt(world, a))
    ensures a.Opens? ==> Owned(slots, transit + multiset{world.made}, AfterAttempt(world, a))
    ensures a.Opens? ==> Owned(slots + [world.made], transit, AfterAttempt(world, a))
  {
    var m, x := multiset(slots), multiset{world.made};
    assert multiset(slots + [world.made]) == m + x;
    AddedAnywhere(m, transit, world.closed, x);
  }

  lemma AddedAnywhere(a: multiset<Sock>, b: multiset<Sock>, c: multiset<Sock>, x: multiset<Sock>)
    ensures a + (b + x) + c == (a + b + c) + x
    ensures a + b + (c + x) == (a + b + c) + x
    ensures (a + x) + b + c == (a + b + c) + x
  {
  }

  lemma NoneInTransit(t: multiset<Sock>)
    ensures t + multiset{} == t
  {
  }

  lemma OwnedAfterClose(slots: seq<Sock>, transit: multiset<Sock>, world: World, k: Sock)
    requires Owned(slots, transit + multiset{k}, world)
    ensures Owned(slots, transit, world.(closed := world.closed + multiset{k}))
  {
    AddedAnywhere(multiset(slots), transit, world.closed, multiset{k});
  }

  lemma OwnedAllClosed(slots: seq<Sock>, world: World)
    requires Owned(slots, multiset{}, world)
    ensures world.closed + multiset(slots) == All(world.made)
  {
    NoneInTransit(multiset(slots));
  }

  lemma TransitOfHead(pcs: seq<Pc>, w: nat, pc: Pc)
    requires w < |pcs|
    ensures pcs[w].AtHead? ==> Transit(pcs[w := pc]) == Transit(pcs) + InTransit(pc)
    ensures pc.AtHead? ==> Transit(pcs) == Transit(pcs[w := pc]) + InTransit(pcs[w])
  {
    TransitUpdate(pcs, w, pc);
    NoneInTransit(Transit(pcs));
    NoneInTransit(Transit(pcs[w := pc]));
  }

  /** The handles and the ownership of a state with one worker moved. */
  lemma Moved(s: State, w: nat, pc: Pc, slots: seq<Sock>, world: World)
    requires w < |s.pcs| && |s.slots| == |s.pcs| == |slots| && HandlesMatch(s)
    requires forall v :: 0 <= v < |slots| && v != w ==> slots[v] == s.slots[v]
    requires slots[w] == if pc.Replaced? then pc.next else pc.sock
    ensures HandlesMatch(State(slots, s.pcs[w := pc], world, s.reading))
  {
  }

  lemma ReopenKeeps(s: State, w: nat, a: Attempt)
    requires Inv(s) && w < |s.pcs| && s.pcs[w].AtHead?
    ensures Inv(Step(s, Reopen(w, a)))
  {
    var transit := Transit(s.pcs);
    OwnedAfterAttempt(s.slots, transit, s.world, a);
    if a.Opens? {
      var pc := Holding(s.pcs[w].sock, s.world.made);
      TransitOfHead(s.pcs, w, pc);
      assert Transit(s.pcs[w := pc]) == transit + multiset{s.world.made};
      Moved(s, w, pc, s.slots, AfterAttempt(s.world, a));
    }
  }

  lemma SwapKeeps(s: State, w: nat)
    requires Inv(s) && w < |s.pcs| && s.pcs[w].Holding? && s.reading.None?
    ensures Inv(Step(s, Swap(w)))
  {
    var prior, next := s.slots[w], s.pcs[w].next;
    var slots, pc := s.slots[w := next], Replaced(prior, next);
    SlotUpdate(s.slots, w, next);
    TransitUpdate(s.pcs, w, pc);
    SwapBalance(multiset(slots), Transit(s.pcs[w := pc]), multiset(s.slots), Transit(s.pcs), prior, next);
    Moved(s, w, pc, slots, s.world);
  }

  lemma SwapBalance(a: multiset<Sock>, t: multiset<Sock>, b: multiset<Sock>, u: multiset<Sock>, prior: Sock, next: Sock)
    requires a + multiset{prior} == b + multiset{next} && t + multiset{next} == u + multiset{prior}
    ensures a + t == b + u
  {
    forall s ensures (a + t)[s] == (b + u)[s] {
      assert (a + multiset{prior})[s] == (b + multiset{next})[s];
      assert (t + multiset{next})[s] == (u + multiset{prior})[s];
    }
  }

  lemma CloseKeeps(s: State, w: nat)
    requires Inv(s) && w < |s.pcs| && s.pcs[w].Replaced?
    ensures Inv(Step(s, CloseOld(w)))
  {
    var head := AtHead(s.pcs[w].next);
    TransitOfHead(s.pcs, w, head);
    assert Transit(s.pcs) == Transit(s.pcs[w := head]) + multiset{s.pcs[w].prior};
    OwnedAfterClose(s.slots, Transit(s.pcs[w := head]), s.world, s.pcs[w].prior);
    Moved(s, w, head, s.slots, s.world);
  }

  lemma StepKeeps(s: State, e: Event)
    requires Inv(s)
    ensures Inv(Step(s, e))
  {
    if !e.Read? && e.w < |s.pcs| {
      match e
      case Reopen(w, a) => if s.pcs[w].AtHead? { ReopenKeeps(s, w, a); }
      case Swap(w) => if s.pcs[w].Holding? && s.reading.None? { SwapKeeps(s, w); }
      case CloseOld(w) => if s.pcs[w].Replaced? { CloseKeeps(s, w); }
    }
  }

  lemma {:induction false} RunInv(slots: seq<Sock>, world: World, events: seq<Event>)
    requires Owned(slots, multiset{}, world)
    ensures Inv(Run(slots, world, events))
  {
    if events == [] {
      NoTransit(Start(slots, world).pcs);
    } else {
      RunInv(slots, world, events[..|events| - 1]);
      StepKeeps(Run(slots, world, events[..|events| - 1]), events[|events| - 1]);
    }
  }

  lemma {:induction false} NoTransit(pcs: seq<Pc>)
    requires Stopped(pcs)
    ensures Transit(pcs) == multiset{}
  {
    if pcs != [] { NoTransit(pcs[..|pcs| - 1]); }
  }

  /** Each socket's places add up to one. */
  lemma OnePlace(s: State, k: Sock)
    requires Inv(s)
    ensures multiset(s.slots)[k] + Transit(s.pcs)[k] + s.world.closed[k] == if k < s.world.made then 1 else 0
  {
    AllCounts(s.world.made, k);
    assert (multiset(s.slots) + Transit(s.pcs) + s.world.closed)[k] == All(s.world.made)[k];
  }

  lemma SlotIsOpen(s: State, w: nat)
    requires Inv(s) && w < |s.slots|
    ensures s.slots[w] < s.world.made && s.slots[w] !in s.world.closed
  {
    OnePlace(s, s.slots[w]);
    assert s.slots[w] in multiset(s.slots);
  }

  lemma SlotsDiffer(s: State, v: nat, w: nat)
    requires Inv(s) && v < w < |s.slots|
    ensures s.slots[v] != s.slots[w]
  {
    OnePlace(s, s.slots[v]);
    SameSlotTwice(s.slots, v, w);
  }

  lemma SameSlotTwice(slots: seq<Sock>, v: nat, w: nat)
    requires v < w < |slots|
    ensures slots[v] == slots[w] ==> multiset(slots)[slots[v]] >= 2
  {
    assert slots == slots[..w] + [slots[w]] + slots[w + 1..];
    assert slots[v] in slots[..w] by { assert slots[..w][v] == slots[v]; }
  }

  /** In every interleaving of reopens: no socket is closed twice, no two slots share one, what KernelDrops reads
      under the mutex is never closed, and a worker at its loop head reads from the socket in its own slot. */
  lemma SocketsAreSafe(slots: seq<Sock>, world: World, events: seq<Event>)
    requires Owned(slots, multiset{}, world)
    ensures var s := Run(slots, world, events);
      && (forall k: Sock :: s.world.closed[k] <= 1)
      && (forall w :: 0 <= w < |s.slots| ==> s.slots[w] < s.world.made && s.slots[w] !in s.world.closed)
      && (forall v, w :: 0 <= v < w < |s.slots| ==> s.slots[v] != s.slots[w])
      && (forall w :: 0 <= w < |s.pcs| && s.pcs[w].AtHead? ==> s.pcs[w].sock == s.slots[w])
  {
    var s := Run(slots, world, events);
    RunInv(slots, world, events);
    forall k: Sock ensures s.world.closed[k] <= 1 { OnePlace(s, k); }
    forall w | 0 <= w < |s.slots| ensures s.slots[w] < s.world.made && s.slots[w] !in s.world.closed {
      SlotIsOpen(s, w);
    }
    forall v, w | 0 <= v < w < |s.slots| ensures s.slots[v] != s.slots[w] { SlotsDiffer(s, v, w); }
  }

  /** While workers replace and close their sockets, what KernelDrops reads in one go is one state of the slots, each
      socket different and none of them closed before the mutex is given back. */
  lemma ReaderSeesOpenSockets(slots: seq<Sock>, world: World, events: seq<Event>)
    requires Owned(slots, multiset{}, world)
    ensures var s := Run(slots, world, events);
      s.reading.Some? ==>
        && s.reading.value <= s.slots
        && (forall i :: 0 <= i < |s.reading.value| ==> s.reading.value[i] !in s.world.closed)
        && (forall i, j :: 0 <= i < j < |s.reading.value| ==> s.reading.value[i] != s.reading.value[j])
  {
    RunInv(slots, world, events);
    SocketsAreSafe(slots, world, events);
  }

  ghost predicate Stopped(pcs: seq<Pc>) { forall w :: 0 <= w < |pcs| ==> pcs[w].AtHead? }

  /** Close, once the workers have stopped at their loop heads, leaves every socket ever opened closed exactly once. */
  lemma CloseLeaksNothing(slots: seq<Sock>, world: World, events: seq<Event>)
    requires Owned(slots, multiset{}, world) && Stopped(Run(slots, world, events).pcs)
    ensures var s := Run(slots, world, events); s.world.closed + multiset(s.slots) == All(s.world.made)
  {
    var s := Run(slots, world, events);
    RunInv(slots, world, events);
    NoTransit(s.pcs);
    OwnedAllClosed(s.slots, s.world);
  }

  // --- The manager

  function ClampWorkers(n: int): (r: nat)
    ensures r == Max(n, 1)
  {
    if n <= 0 then 1 else n
  }

  lemma NextIsNew(slots: seq<Sock>, transit: multiset<Sock>, w: World)
    requires Owned(slots, transit, w)
    ensures w.made !in w.closed
  {
    AllCounts(w.made, w.made);
    assert (multiset(slots) + transit + w.closed)[w.made] == 0;
  }

  /** Opens one socket; one whose filter or fanout cannot be set is closed again.  Whatever is in the slots and in
      transit, success adds one new open socket to account for, and failure leaves none. */
  method NewSocket(w: World, a: Attempt) returns (r: World, sock: Option<Sock>)
    ensures r == AfterAttempt(w, a)
    ensures sock == if a.Opens? then Some(w.made) else None
    ensures forall slots, transit :: Owned(slots, transit, w) ==>
      if sock.None? then Owned(slots, transit, r)
      else sock.value !in r.closed && Owned(slots + [sock.value], transit, r)
           && Owned(slots, transit + multiset{sock.value}, r)
  {
    r, sock := w, None;
    match a
    case OpenFails =>
    case SetupFails =>
      var tp := w.made;
      r := World(tp + 1, w.closed + multiset{tp});
    case Opens =>
      sock := Some(w.made);
      r := w.(made := w.made + 1);
    forall slots, transit | Owned(slots, transit, w)
      ensures a.Opens? ==> w.made !in w.closed
      ensures sock.None? ==> Owned(slots, transit, r)
      ensures a.Opens? ==> Owned(slots + [w.made], transit, r) && Owned(slots, transit + multiset{w.made}, r)
    {
      OwnedAfterAttempt(slots, transit, w, a);
      NextIsNew(slots, transit, w);
    }
  }

  method CloseAll(w: World, socks: seq<Sock>) returns (r: World)
    ensures r == w.(closed := w.closed + multiset(socks))
  {
    r := w;
    for i := 0 to |socks|
      invariant r == w.(closed := w.closed + multiset(socks[..i]))
    {
      assert socks[..i + 1] == socks[..i] + [socks[i]];
      r := r.(closed := r.closed + multiset{socks[i]});
    }
    assert socks[..|socks|] == socks;
  }

  /** Opens n sockets, `attempts` telling how each attempt would end; on the first failure those opened before it
      are closed again. */
  method OpenSockets(w: World, n: nat, attempts: seq<Attempt>) returns (ok: bool, socks: seq<Sock>, r: World)
    requires Owned([], multiset{}, w) && |attempts| >= n
    ensures ok <==> forall i :: 0 <= i < n ==> attempts[i].Opens?
    ensures ok ==> |socks| == n && Owned(socks, multiset{}, r)
    ensures !ok ==> r.closed == All(r.made)
  {
    socks, r := [], w;
    for i := 0 to n
      invariant |socks| == i && forall j :: 0 <= j < i ==> attempts[j].Opens?
      invariant Owned(socks, multiset{}, r)
    {
      var tp;
      r, tp := NewSocket(r, attempts[i]);
      if tp.None? {
        OwnedAllClosed(socks, r);
        r := CloseAll(r, socks);
        return false, socks, r;
      }
      socks := socks + [tp.value];
    }
    ok := true;
  }

  class Manager {
    var numWorkers: int
    var sockets: seq<Sock>
    var world: World

    constructor (numWorkers: int)
      ensures this.numWorkers == numWorkers && sockets == [] && world == World(0, multiset{})
    {
      this.numWorkers, sockets, world := numWorkers, [], World(0, multiset{});
    }

    /** One socket per worker, or none at all: a failed Open leaves no socket open. */
    method Open(attempts: seq<Attempt>) returns (ok: bool)
      requires Owned([], multiset{}, world) && |attempts| >= ClampWorkers(numWorkers)
      modifies this
      ensures numWorkers == ClampWorkers(old(numWorkers))
      ensures ok <==> forall i :: 0 <= i < numWorkers ==> attempts[i].Opens?
      ensures ok ==> |sockets| == numWorkers && Owned(sockets, multiset{}, world)
      ensures !ok ==> sockets == old(sockets) && world.closed == All(world.made)
    {
      numWorkers := ClampWorkers(numWorkers);
      var socks;
      ok, socks, world := OpenSockets(world, numWorkers, attempts);
      if ok {
        sockets := socks;
      }
    }

    /** Worker i replaces its socket, with no other thread in between: the three sections of the machine in a row. */
    method ReopenWorker(i: nat, a: Attempt) returns (sock: Option<Sock>)
      requires i < |sockets|
      modifies `sockets, `world
      ensures var s := Step(Step(Step(Start(old(sockets), old(world)), Reopen(i, a)), Swap(i)), CloseOld(i));
        sockets == s.slots && world == s.world && (sock.Some? ==> s.pcs[i] == AtHead(sock.value))
      ensures sock.Some? <==> a.Opens?
    {
      world, sock := NewSocket(world, a);
      if sock.Some? {
        var prior := sockets[i];
        sockets := sockets[i := sock.value];
        world := world.(closed := world.closed + multiset{prior});
      }
    }

    /** Closes what is in the slots. */
    method Close()
      modifies `world
      ensures world == old(world).(closed := old(world).closed + multiset(sockets))
    {
      world := CloseAll(world, sockets);
    }

    /** The drops of all sockets; one whose statistics cannot be read counts nothing. */
    method KernelDrops(stats: Sock -> Option<nat>) returns (total: nat)
      ensures total == SumDrops(sockets, stats)
    {
      total := 0;
      for i := 0 to |sockets|
        invariant total == SumDrops(sockets[..i], stats)
      {
        assert sockets[..i + 1][..i] == sockets[..i];
        if stats(sockets[i]).Some? {
          total := total + stats(sockets[i]).value;
        }
      }
      assert sockets[..|sockets|] == sockets;
    }
  }

  function SumDrops(socks: seq<Sock>, stats: Sock -> Option<nat>): nat {
    if socks == [] then 0
    else SumDrops(socks[..|socks| - 1], stats)
         + (if stats(socks[|socks| - 1]).Some? then stats(socks[|socks| - 1]).value else 0)
  }

  /** A socket contributes its drops, or nothing if they cannot be read, and each slot is counted. */
  lemma {:induction false} SumDropsConcat(a: seq<Sock>, b: seq<Sock>, stats: Sock -> Option<nat>)
    ensures SumDrops(a + b, stats) == SumDrops(a, stats) + SumDrops(b, stats)
    ensures |b| == 1 ==> SumDrops(b, stats) == (if stats(b[0]).Some? then stats(b[0]).value else 0)
  {
    if b == [] {
      assert a + b == a;
    } else {
      var n := |b| - 1;
      SumDropsConcat(a, b[..n], stats);
      assert (a + b)[..|a| + n] == a + b[..n];
      assert n == 0 ==> b[..n] == [];
    }
  }
}
