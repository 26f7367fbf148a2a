/** The cached GeoIP lookup over two replaceable databases (exporter/internal/geoip/geoip.go).  A database is the
    map from addresses to records it holds; which entries the LRU cache drops is arbitrary. */
module GeoResolver {
  import opened Bytes

  const REOPEN_INTERVAL := 30_000_000_000  // nanoseconds

  datatype Result = Result(country: string, continent: string, asn: nat, hasAsn: bool, org: string)

  const UNKNOWN := Result("unknown", "unknown", 0, false, "unknown")

  datatype CountryRecord = CountryRecord(iso: string, continent: string)
  datatype AsnRecord = AsnRecord(asn: nat, org: string)

  type CountryDb = map<Bytes, CountryRecord>
  type AsnDb = map<Bytes, AsnRecord>

  /** An open reader, or none, and what is known of its file. */
  datatype Slot<D> = Slot(reader: Option<D>, mtime: int, mtimeSet: bool, missWarned: bool)

  /** A database file as a reopen check finds it; `content` is None if it cannot be opened. */
  datatype File<D> = Missing | Present(mtime: int, content: Option<D>)

  datatype Files = Files(country: File<CountryDb>, asn: File<AsnDb>)

  datatype Readers = Readers(country: Option<CountryDb>, asn: Option<AsnDb>)

  // --- The lookup itself

  function ResolveUncached(r: Readers, parses: Bytes -> bool, ip: Bytes): Result {
    if !parses(ip) then UNKNOWN
    else
      var c := if r.country.Some? && ip in r.country.value then r.country.value[ip] else CountryRecord("", "");
      var a := if r.asn.Some? && ip in r.asn.value then r.asn.value[ip] else AsnRecord(0, "");
      Result(if c.iso != "" then c.iso else "unknown",
             if c.continent != "" then c.continent else "unknown",
             a.asn, a.asn != 0,
             if a.asn != 0 && a.org != "" then a.org else "unknown")
  }

  /** The record an open database holds for an address that parses. */
  ghost predicate HasRecord<R(!new)>(db: Option<map<Bytes, R>>, parses: Bytes -> bool, ip: Bytes, r: R) {
    parses(ip) && db.Some? && ip in db.value && db.value[ip] == r
  }

  ghost predicate NoRecord<R(!new)>(db: Option<map<Bytes, R>>, parses: Bytes -> bool, ip: Bytes) {
    !parses(ip) || db.None? || ip !in db.value
  }

  /** The number of an answer: there is one exactly when an open database holds the address with a number other than 0,
      and it is that number; the organisation is the record's text if not empty, else unknown. */
  lemma AsnOfAnswer(r: Readers, parses: Bytes -> bool, ip: Bytes)
    ensures var v := ResolveUncached(r, parses, ip);
      && (v.hasAsn <==> exists n, org :: n != 0 && HasRecord(r.asn, parses, ip, AsnRecord(n, org)))
      && (forall n, org :: n != 0 && HasRecord(r.asn, parses, ip, AsnRecord(n, org)) ==>
            v.asn == n && v.org == if org == "" then "unknown" else org)
      && (!v.hasAsn ==> v.asn == 0 && v.org == "unknown")
  {
    if parses(ip) && r.asn.Some? && ip in r.asn.value {
      var a := r.asn.value[ip];
      assert HasRecord(r.asn, parses, ip, AsnRecord(a.asn, a.org));
    }
  }

  /** The country and the continent of an answer: each the record's text if not empty, else unknown. */
  lemma CountryOfAnswer(r: Readers, parses: Bytes -> bool, ip: Bytes)
    ensures var v := ResolveUncached(r, parses, ip);
      && (forall iso, cont :: HasRecord(r.country, parses, ip, CountryRecord(iso, cont)) ==>
            && v.country == (if iso == "" then "unknown" else iso)
            && v.continent == if cont == "" then "unknown" else cont)
      && (NoRecord(r.country, parses, ip) ==> v.country == "unknown" && v.continent == "unknown")
  {
  }

  // --- Reopening

  /** The slot after a check of its file, and whether the cache was purged on the way. */
  function ReopenOne<D>(s: Slot<D>, f: File<D>): (Slot<D>, bool) {
    match f
    case Missing => (Slot(s.reader, 0, false, s.missWarned || s.reader.None?), false)
    case Present(mtime, content) =>
      if !s.mtimeSet || mtime != s.mtime then (Slot(content, mtime, true, false), true)
      else (s.(missWarned := false), false)
  }

  datatype State = State(
    country: Slot<CountryDb>, asn: Slot<AsnDb>, lastCheck: int, checked: bool, cache: map<Bytes, Result>) {
    function Open(): Readers { Readers(country.reader, asn.reader) }
  }

  const EMPTY := State(Slot(None, 0, false, false), Slot(None, 0, false, false), 0, false, map[])

  predicate CheckDue(s: State, now: int) { !s.checked || now - s.lastCheck >= REOPEN_INTERVAL }

  /** A check is due on the first call and from 30 seconds after the last check on. */
  lemma DueEvery30s(s: State, now: int)
    ensures CheckDue(s, now) <==> !s.checked || s.lastCheck + 30_000_000_000 <= now
  {
  }

  /** Both files looked at. */
  function Checked(s: State, files: Files): State {
    var (c, purgedC) := ReopenOne(s.country, files.country);
    var (a, purgedA) := ReopenOne(s.asn, files.asn);
    s.(country := c, asn := a, cache := if purgedC || purgedA then map[] else s.cache)
  }

  /** The section under the write lock. */
  function Recheck(s: State, now: int, files: Files): State {
    if CheckDue(s, now) then Checked(s, files).(lastCheck := now, checked := true) else s
  }

  /** A call: the time, the files if they are looked at, and the entries the cache drops meanwhile. */
  datatype Call = Call(ip: Bytes, now: int, files: Files, dropped: set<Bytes>)

  /** One call with no other in between: its result and the state after it. */
  function Resolve(s: State, parses: Bytes -> bool, c: Call): (Result, State) {
    var t := Recheck(s, c.now, c.files);
    if c.ip in t.cache then (t.cache[c.ip], t.(cache := t.cache - c.dropped))
    else
      var v := ResolveUncached(t.Open(), parses, c.ip);
      (v, t.(cache := t.cache[c.ip := v] - c.dropped))
  }

  /** Every cached answer is the one the open readers give now. */
  ghost predicate Transparent(s: State, parses: Bytes -> bool) {
    forall ip :: ip in s.cache ==> s.cache[ip] == ResolveUncached(s.Open(), parses, ip)
  }

  /** A reader changes only together with a purge. */
  lemma ReopenPurges<D>(s: Slot<D>, f: File<D>)
    ensures var (r, purged) := ReopenOne(s, f); !purged ==> r.reader == s.reader
  {
  }

  /** A missing file keeps its database; when it reappears, or its time changes, or it was never seen, it is opened
      anew, and one that cannot be opened leaves no database. */
  lemma ReopenIs<D>(s: Slot<D>, mtime: int, content: Option<D>)
    ensures ReopenOne(s, Missing).0.reader == s.reader && !ReopenOne(s, Missing).1
    ensures ReopenOne(ReopenOne(s, Missing).0, Present(mtime, content)).0.reader == content
    ensures !s.mtimeSet || s.mtime != mtime ==> ReopenOne(s, Present(mtime, content)).0.reader == content
    ensures s.mtimeSet && s.mtime == mtime ==> ReopenOne(s, Present(mtime, content)).0.reader == s.reader
  {
  }

  /** Looking at the files keeps cached answers right, and open readers change only with an emptied cache. */
  lemma CheckedKeeps(s: State, parses: Bytes -> bool, files: Files)
    ensures Transparent(s, parses) ==> Transparent(Checked(s, files), parses)
    ensures Checked(s, files).Open() != s.Open() ==> Checked(s, files).cache == map[]
  {
    ReopenPurges(s.country, files.country);
    ReopenPurges(s.asn, files.asn);
  }

  lemma RecheckKeeps(s: State, parses: Bytes -> bool, now: int, files: Files)
    requires Transparent(s, parses)
    ensures Transparent(Recheck(s, now, files), parses)
  {
    CheckedKeeps(s, parses, files);
  }

  lemma ResolveIsTransparent(s: State, parses: Bytes -> bool, c: Call)
    requires Transparent(s, parses)
    ensures var (v, t) := Resolve(s, parses, c);
      Transparent(t, parses) && v == ResolveUncached(t.Open(), parses, c.ip)
  {
    RecheckKeeps(s, parses, c.now, c.files);
  }

  function Run(parses: Bytes -> bool, calls: seq<Call>): State {
    if calls == [] then EMPTY else Resolve(Run(parses, calls[..|calls| - 1]), parses, calls[|calls| - 1]).1
  }

  lemma {:induction false} RunTransparent(parses: Bytes -> bool, calls: seq<Call>)
    ensures Transparent(Run(parses, calls), parses)
  {
    if calls != [] {
      RunTransparent(parses, calls[..|calls| - 1]);
      ResolveIsTransparent(Run(parses, calls[..|calls| - 1]), parses, calls[|calls| - 1]);
    }
  }

  /** Whatever happens to the files and whatever the cache drops, in every serial run each call returns what an
      uncached lookup in the readers then open returns. */
  lemma CacheIsInvisible(parses: Bytes -> bool, calls: seq<Call>, c: Call)
    ensures var (v, t) := Resolve(Run(parses, calls), parses, c);
      v == ResolveUncached(t.Open(), parses, c.ip)
  {
    RunTransparent(parses, calls);
    ResolveIsTransparent(Run(parses, calls), parses, c);
  }

  // --- What is served against what is on disk

  /** The reference: the content of each file at the last check that found it. */
  datatype View = View(found: Readers, lastCheck: int, checked: bool)

  function Found<D>(before: Option<D>, f: File<D>): Option<D> { if f.Present? then f.content else before }

  function Look(v: View, c: Call): View {
    if v.checked && c.now - v.lastCheck < REOPEN_INTERVAL then v
    else View(Readers(Found(v.found.country, c.files.country), Found(v.found.asn, c.files.asn)), c.now, true)
  }

  function Viewed(calls: seq<Call>): View {
    if calls == [] then View(Readers(None, None), 0, false) else Look(Viewed(calls[..|calls| - 1]), calls[|calls| - 1])
  }

  /** The file does not carry the remembered time with a content other than the reader's. */
  ghost predicate Honest<D(!new)>(s: Slot<D>, f: File<D>) {
    f.Present? && s.mtimeSet && f.mtime == s.mtime ==> f.content == s.reader
  }

  ghost predicate HonestCall(s: State, c: Call) {
    CheckDue(s, c.now) ==> Honest(s.country, c.files.country) && Honest(s.asn, c.files.asn)
  }

  /** The readers open after the first n calls are those of the reference. */
  ghost predicate UpToDate(parses: Bytes -> bool, calls: seq<Call>, n: nat)
    requires n <= |calls|
  {
    Run(parses, calls[..n]).Open() == Viewed(calls[..n]).found
  }

  lemma ReopenFinds<D(!new)>(s: Slot<D>, f: File<D>)
    ensures ReopenOne(s, f).0.reader == Found(s.reader, f) <==> Honest(s, f)
  {
  }

  lemma {:induction false} ViewedChecks(parses: Bytes -> bool, calls: seq<Call>)
    ensures var s, v := Run(parses, calls), Viewed(calls); v.lastCheck == s.lastCheck && v.checked == s.checked
  {
    if calls != [] { ViewedChecks(parses, calls[..|calls| - 1]); }
  }

  lemma CallFinds(parses: Bytes -> bool, calls: seq<Call>, n: nat)
    requires n < |calls| && UpToDate(parses, calls, n)
    ensures UpToDate(parses, calls, n + 1) <==> HonestCall(Run(parses, calls[..n]), calls[n])
  {
    assert calls[..n + 1][..n] == calls[..n];
    ViewedChecks(parses, calls[..n]);
    var s := Run(parses, calls[..n]);
    ReopenFinds(s.country, calls[n].files.country);
    ReopenFinds(s.asn, calls[n].files.asn);
  }

  lemma {:induction false} HonestUpTo(parses: Bytes -> bool, calls: seq<Call>, n: nat)
    requires n <= |calls| && forall m :: 0 <= m < n ==> HonestCall(Run(parses, calls[..m]), calls[m])
    ensures UpToDate(parses, calls, n)
  {
    if n > 0 {
      HonestUpTo(parses, calls, n - 1);
      CallFinds(parses, calls, n - 1);
    }
  }

  /** The open readers are throughout what the last check that found each file read there, if and only if no due
      check meets a file with the remembered time and another content. */
  lemma ReadersFollowFiles(parses: Bytes -> bool, calls: seq<Call>)
    ensures (forall n :: 0 <= n <= |calls| ==> UpToDate(parses, calls, n))
       <==> (forall n :: 0 <= n < |calls| ==> HonestCall(Run(parses, calls[..n]), calls[n]))
  {
    if forall n :: 0 <= n <= |calls| ==> UpToDate(parses, calls, n) {
      forall n | 0 <= n < |calls| ensures HonestCall(Run(parses, calls[..n]), calls[n]) {
        assert UpToDate(parses, calls, n) && UpToDate(parses, calls, n + 1);
        CallFinds(parses, calls, n);
      }
    } else {
      var n :| 0 <= n <= |calls| && !UpToDate(parses, calls, n);
      if forall m :: 0 <= m < |calls| ==> HonestCall(Run(parses, calls[..m]), calls[m]) {
        HonestUpTo(parses, calls, n);
      }
    }
  }

  /** What a check shows of a file, when its time tells its content: `at` is the content, if readable, at each time. */
  ghost predicate Stamped<D(!new)>(f: File<D>, at: int -> Option<D>) { f.Present? ==> f.content == at(f.mtime) }

  /** It does for every file a due check looks at. */
  ghost predicate AllStamped(parses: Bytes -> bool, calls: seq<Call>,
                             country: int -> Option<CountryDb>, asn: int -> Option<AsnDb>) {
    forall n :: 0 <= n < |calls| && CheckDue(Run(parses, calls[..n]), calls[n].now) ==>
      Stamped(calls[n].files.country, country) && Stamped(calls[n].files.asn, asn)
  }

  ghost predicate Current<D(!new)>(s: Slot<D>, at: int -> Option<D>) { s.mtimeSet ==> s.reader == at(s.mtime) }

  lemma ReopenKeepsCurrent<D(!new)>(s: Slot<D>, f: File<D>, at: int -> Option<D>)
    requires Current(s, at) && Stamped(f, at)
    ensures Current(ReopenOne(s, f).0, at)
  {
  }

  lemma {:induction false} StampedStaysCurrent(
    parses: Bytes -> bool, calls: seq<Call>, n: nat, country: int -> Option<CountryDb>, asn: int -> Option<AsnDb>)
    requires AllStamped(parses, calls, country, asn) && n <= |calls|
    ensures var s := Run(parses, calls[..n]); Current(s.country, country) && Current(s.asn, asn)
  {
    if n > 0 {
      StampedStaysCurrent(parses, calls, n - 1, country, asn);
      assert calls[..n][..n - 1] == calls[..n - 1];
      var s, c := Run(parses, calls[..n - 1]), calls[n - 1];
      if CheckDue(s, c.now) {
        ReopenKeepsCurrent(s.country, c.files.country, country);
        ReopenKeepsCurrent(s.asn, c.files.asn, asn);
      }
    }
  }

  /** So when a file's time tells its content, each call of a serial run answers from what the last check that found
      the file read there: removal keeps the old database, replacement is never missed. */
  lemma AnswersFollowFiles(parses: Bytes -> bool, calls: seq<Call>, c: Call,
                           country: int -> Option<CountryDb>, asn: int -> Option<AsnDb>)
    requires AllStamped(parses, calls + [c], country, asn)
    ensures Resolve(Run(parses, calls), parses, c).0 == ResolveUncached(Viewed(calls + [c]).found, parses, c.ip)
  {
    var all := calls + [c];
    assert all[..|all| - 1] == calls && all[|all| - 1] == c && all[..|all|] == all;
    CacheIsInvisible(parses, calls, c);
    forall n | 0 <= n < |all| ensures HonestCall(Run(parses, all[..n]), all[n]) {
      StampedStaysCurrent(parses, all, n, country, asn);
    }
    HonestUpTo(parses, all, |all|);
  }

  /** A replaced file that keeps its time is not noticed. */
  lemma SameTimeIsMissed<D>(s: Slot<D>, before: Option<D>, later: Option<D>, mtime: int)
    requires before != later
    ensures var found := ReopenOne(s, Missing).0;
      ReopenOne(ReopenOne(found, Present(mtime, before)).0, Present(mtime, later)).0.reader != later
  {
  }

  class Resolver {
    const parses: Bytes -> bool
    var state: State

    constructor (parses: Bytes -> bool)
      ensures this.parses == parses && state == EMPTY
    {
      this.parses, state := parses, EMPTY;
    }

    /** Looks at both files; whatever it finds, cached answers stay right, and a changed reader means an empty cache. */
    method ReopenIfNeeded(files: Files)
      modifies this
      ensures state == Checked(old(state), files)
      ensures Transparent(old(state), parses) ==> Transparent(state, parses)
      ensures state.Open() != old(state).Open() ==> state.cache == map[]
    {
      CheckedKeeps(state, parses, files);
      var (c, purgedC) := ReopenOne(state.country, files.country);
      state := state.(country := c);
      if purgedC { state := state.(cache := map[]); }
      var (a, purgedA) := ReopenOne(state.asn, files.asn);
      state := state.(asn := a);
      if purgedA { state := state.(cache := map[]); }
    }

    /** One call, start to end; keeps the cache transparent and answers as the open readers do. */
    method ResolveIp(ip: Bytes, now: int, files: Files, dropped: set<Bytes>) returns (v: Result)
      requires Transparent(state, parses)
      modifies this
      ensures (v, state) == Resolve(old(state), parses, Call(ip, now, files, dropped))
      ensures Transparent(state, parses) && v == ResolveUncached(state.Open(), parses, ip)
    {
      ResolveIsTransparent(state, parses, Call(ip, now, files, dropped));
      if CheckDue(state, now) {
        ReopenIfNeeded(files);
        state := state.(lastCheck := now, checked := true);
      }
      assert state == Recheck(old(state), now, files);
      if ip in state.cache {
        v := state.cache[ip];
        state := state.(cache := state.cache - dropped);
      } else {
        v := ResolveUncached(state.Open(), parses, ip);
        state := state.(cache := state.cache[ip := v] - dropped);
      }
    }
  }

  // --- Concurrent calls

  /** A call that missed the cache holds its answer, found in the readers `from`, until it adds it, outside the lock;
      `epoch` counts purges. */
  datatype Pending = Pending(ip: Bytes, v: Result, from: Readers, epoch: nat)

  datatype Shared = Shared(state: State, epoch: nat, held: map<nat, Pending>)

  datatype Event =
    | Check(now: int, files: Files)
    | Lookup(thread: nat, ip: Bytes)
    | Add(thread: nat)
    | Drop(ips: set<Bytes>)

  function Purges(s: State, now: int, files: Files): bool {
    CheckDue(s, now) && (ReopenOne(s.country, files.country).1 || ReopenOne(s.asn, files.asn).1)
  }

  function Step(s: Shared, parses: Bytes -> bool, e: Event): Shared {
    match e
    case Check(now, files) =>
      s.(state := Recheck(s.state, now, files), epoch := if Purges(s.state, now, files) then s.epoch + 1 else s.epoch)
    case Lookup(t, ip) =>
      var open := s.state.Open();
      s.(held := s.held[t := Pending(ip, ResolveUncached(open, parses, ip), open, s.epoch)])
    case Add(t) =>
      if t !in s.held then s
      else s.(state := s.state.(cache := s.state.cache[s.held[t].ip := s.held[t].v]), held := s.held - {t})
    case Drop(ips) => s.(state := s.state.(cache := s.state.cache - ips))
  }

  /** If the event adds a held answer, the readers it was found in and those open now agree on its address. */
  ghost predicate AddAgrees(s: Shared, parses: Bytes -> bool, e: Event) {
    e.Add? && e.thread in s.held ==>
      var h := s.held[e.thread]; ResolveUncached(h.from, parses, h.ip) == ResolveUncached(s.state.Open(), parses, h.ip)
  }

  /** Held answers are those of the readers they were found in, and these are still open unless a purge came since. */
  ghost predicate HeldRight(s: Shared, parses: Bytes -> bool) {
    forall t :: t in s.held ==>
      var h := s.held[t];
      && h.v == ResolveUncached(h.from, parses, h.ip) && h.epoch <= s.epoch
      && (h.epoch == s.epoch ==> h.from == s.state.Open())
  }

  function RunShared(parses: Bytes -> bool, events: seq<Event>): Shared {
    if events == [] then Shared(EMPTY, 0, map[])
    else Step(RunShared(parses, events[..|events| - 1]), parses, events[|events| - 1])
  }

  lemma CheckKeepsReaders(s: State, now: int, files: Files)
    ensures !Purges(s, now, files) ==> Recheck(s, now, files).Open() == s.Open()
  {
    ReopenPurges(s.country, files.country);
    ReopenPurges(s.asn, files.asn);
  }

  lemma StepHeldRight(s: Shared, parses: Bytes -> bool, e: Event)
    requires HeldRight(s, parses)
    ensures HeldRight(Step(s, parses, e), parses)
  {
    if e.Check? { CheckKeepsReaders(s.state, e.now, e.files); }
  }

  lemma {:induction false} RunHeldRight(parses: Bytes -> bool, events: seq<Event>)
    ensures HeldRight(RunShared(parses, events), parses)
  {
    if events != [] {
      RunHeldRight(parses, events[..|events| - 1]);
      StepHeldRight(RunShared(parses, events[..|events| - 1]), parses, events[|events| - 1]);
    }
  }

  lemma StepTransparent(s: Shared, parses: Bytes -> bool, e: Event)
    requires Transparent(s.state, parses) && HeldRight(s, parses)
    ensures Transparent(Step(s, parses, e).state, parses) <==> AddAgrees(s, parses, e)
  {
    if e.Check? { RecheckKeeps(s.state, parses, e.now, e.files); }
    if e.Add? && e.thread in s.held {
      var h := s.held[e.thread];
      assert Step(s, parses, e).state.cache[h.ip] == h.v;
    }
  }

  ghost predicate TransparentAt(parses: Bytes -> bool, events: seq<Event>, n: nat)
    requires n <= |events|
  {
    Transparent(RunShared(parses, events[..n]).state, parses)
  }

  lemma NextTransparent(parses: Bytes -> bool, events: seq<Event>, n: nat)
    requires n < |events| && TransparentAt(parses, events, n)
    ensures TransparentAt(parses, events, n + 1) <==> AddAgrees(RunShared(parses, events[..n]), parses, events[n])
  {
    assert events[..n + 1][..n] == events[..n];
    RunHeldRight(parses, events[..n]);
    StepTransparent(RunShared(parses, events[..n]), parses, events[n]);
  }

  lemma {:induction false} AgreeingUpTo(parses: Bytes -> bool, events: seq<Event>, n: nat)
    requires n <= |events| && forall m :: 0 <= m < n ==> AddAgrees(RunShared(parses, events[..m]), parses, events[m])
    ensures TransparentAt(parses, events, n)
  {
    if n > 0 {
      AgreeingUpTo(parses, events, n - 1);
      NextTransparent(parses, events, n - 1);
    }
  }

  /** Interleaved calls keep the cache transparent throughout if and only if every add finds open readers that agree,
      on its address, with the readers of its lookup. */
  lemma TransparentExactly(parses: Bytes -> bool, events: seq<Event>)
    ensures (forall n :: 0 <= n <= |events| ==> TransparentAt(parses, events, n))
       <==> (forall n :: 0 <= n < |events| ==> AddAgrees(RunShared(parses, events[..n]), parses, events[n]))
  {
    if forall n :: 0 <= n <= |events| ==> TransparentAt(parses, events, n) {
      forall n | 0 <= n < |events| ensures AddAgrees(RunShared(parses, events[..n]), parses, events[n]) {
        assert TransparentAt(parses, events, n) && TransparentAt(parses, events, n + 1);
        NextTransparent(parses, events, n);
      }
    } else {
      var n :| 0 <= n <= |events| && !TransparentAt(parses, events, n);
      if forall m :: 0 <= m < |events| ==> AddAgrees(RunShared(parses, events[..m]), parses, events[m]) {
        AgreeingUpTo(parses, events, n);
      }
    }
  }

  /** No purge came between the lookup of this answer and its adding. */
  predicate Timely(s: Shared, e: Event) { e.Add? && e.thread in s.held ==> s.held[e.thread].epoch == s.epoch }

  /** In particular they do as long as no purge falls between a lookup and its add. */
  lemma TimelyRunsAreTransparent(parses: Bytes -> bool, events: seq<Event>, n: nat)
    requires n <= |events| && forall m :: 0 <= m < |events| ==> Timely(RunShared(parses, events[..m]), events[m])
    ensures TransparentAt(parses, events, n)
  {
    forall m | 0 <= m < |events| ensures AddAgrees(RunShared(parses, events[..m]), parses, events[m]) {
      RunHeldRight(parses, events[..m]);
    }
    AgreeingUpTo(parses, events, n);
  }

  /** A late add brings back an answer from a database that is gone. */
  lemma LateAddIsStale(ip: Bytes, now: int)
    ensures var all := (x: Bytes) => true;
      var before, after := Files(Present(1, Some(map[ip := CountryRecord("SE", "EU")])), Missing),
                           Files(Present(2, Some(map[ip := CountryRecord("NO", "EU")])), Missing);
      var events := [Check(now, before), Lookup(0, ip), Check(now + REOPEN_INTERVAL, after), Add(0)];
      var s := RunShared(all, events);
      ip in s.state.cache && s.state.cache[ip].country == "SE"
      && ResolveUncached(s.state.Open(), all, ip).country == "NO"
  {
    var all := (x: Bytes) => true;
    var before, after := Files(Present(1, Some(map[ip := CountryRecord("SE", "EU")])), Missing),
                         Files(Present(2, Some(map[ip := CountryRecord("NO", "EU")])), Missing);
    var e := [Check(now, before), Lookup(0, ip), Check(now + REOPEN_INTERVAL, after), Add(0)];
    assert e[..1][..0] == [] && e[..2][..1] == e[..1] && e[..3][..2] == e[..2] && e[..4][..3] == e[..3] && e[..4] == e;
    var s0 := Shared(EMPTY, 0, map[]);
    var s1 := Step(s0, all, e[0]);
    assert RunShared(all, e[..1]) == s1;
    var s2 := Step(s1, all, e[1]);
    assert RunShared(all, e[..2]) == s2;
    var s3 := Step(s2, all, e[2]);
    assert RunShared(all, e[..3]) == s3;
    assert RunShared(all, e[..4]) == Step(s3, all, e[3]);
  }
}
