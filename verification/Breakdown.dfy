/** Per-worker request counters and the flush that takes, folds and publishes them
    (exporter/internal/aggregate/aggregate.go).  Counter maps are multisets of keys here; the
    critical sections of the workers and of the flush are the steps. */
module Breakdown {
  import opened Bytes
  import opened AsnRanking
  import opened Tally

  datatype CountryKey = CountryKey(country: string, continent: string)
  datatype AsnKey = AsnKey(asn: Asn, hasAsn: bool, org: string)
  datatype Geo = Geo(country: string, continent: string, asn: Asn, hasAsn: bool, org: string)

  datatype Counters = Counters(
    requests: multiset<CountryKey>, responses: multiset<CountryKey>, asns: multiset<AsnKey>,
    versions: multiset<string>, families: multiset<string>)

  const NONE := Counters(multiset{}, multiset{}, multiset{}, multiset{}, multiset{})

  function Plus(a: Counters, b: Counters): Counters {
    Counters(a.requests + b.requests, a.responses + b.responses, a.asns + b.asns,
             a.versions + b.versions, a.families + b.families)
  }

  function OneRequest(geo: Geo, family: string, version: string): Counters {
    Counters(multiset{CountryKey(geo.country, geo.continent)}, multiset{},
             multiset{AsnKey(geo.asn, geo.hasAsn, geo.org)},
             multiset{if version == "" then "other" else version}, multiset{family})
  }

  function OneResponse(geo: Geo): Counters {
    NONE.(responses := multiset{CountryKey(geo.country, geo.continent)})
  }

  // --- Folding ASN keys to labels

  type Label = (string, string)

  function LabelOf(k: AsnKey, top: set<Asn>): Label { FoldAsn(k.asn, k.hasAsn, k.org, top) }

  function Labeler(top: set<Asn>): AsnKey -> Option<Label> { (k: AsnKey) => Some(LabelOf(k, top)) }

  /** The labels a flush adds to, one per request. */
  ghost function Fold(m: multiset<AsnKey>, top: set<Asn>): (labels: multiset<Label>)
    ensures |labels| == |m|
  {
    ImageCount(m, Renaming(Labeler(top)));
    Image(m, Renaming(Labeler(top)))
  }

  const UNKNOWN_LABEL: Label := ("unknown", "unknown")

  function AnonymousKey(k: AsnKey): Option<AsnKey> { if k.hasAsn then None else Some(k) }

  /** The keys without an ASN. */
  ghost function Anonymous(m: multiset<AsnKey>): multiset<AsnKey> { Image(m, Renaming(AnonymousKey)) }

  /** A number's label counts the requests of that ASN under that organisation, if it is ranked. */
  lemma FoldOfNumber(m: multiset<AsnKey>, top: set<Asn>, a: Asn, org: string)
    ensures Fold(m, top)[(Decimal(a), org)] == if a in top then m[AsnKey(a, true, org)] else 0
  {
    var k, l := AsnKey(a, true, org), (Decimal(a), org);
    assert Decimal(a)[0] == '-' || '0' <= Decimal(a)[0] <= '9';
    assert "unknown"[0] == 'u' && "other"[0] == 'o';
    forall j: AsnKey | l in Renaming(Labeler(top))(j) ensures j == k {
      if Decimal(j.asn) == Decimal(a) { DecimalInjective(j.asn, a); }
    }
    ImageOfOne(m, Renaming(Labeler(top)), k, l);
  }

  /** The unknown label counts the requests without an ASN. */
  lemma FoldOfUnknown(m: multiset<AsnKey>, top: set<Asn>)
    ensures Fold(m, top)[UNKNOWN_LABEL] == |Anonymous(m)|
  {
    forall k: AsnKey ensures Renaming(Labeler(top))(k)[UNKNOWN_LABEL] == |Renaming(AnonymousKey)(k)| {
      UnknownLabel(k, top);
      assert Labeler(top)(k) == Some(LabelOf(k, top));
      assert Renaming(Labeler(top))(k) == multiset{LabelOf(k, top)};
      assert AnonymousKey(k) == if k.hasAsn then None else Some(k);
      if k.hasAsn {
        assert Renaming(AnonymousKey)(k) == multiset{};
      } else {
        assert Renaming(AnonymousKey)(k) == multiset{k};
      }
    }
    ImageCountsImage(m, Renaming(Labeler(top)), UNKNOWN_LABEL, Renaming(AnonymousKey));
  }

  lemma UnknownLabel(k: AsnKey, top: set<Asn>)
    ensures LabelOf(k, top) == UNKNOWN_LABEL <==> !k.hasAsn
  {
    assert Decimal(k.asn)[0] == '-' || '0' <= Decimal(k.asn)[0] <= '9';
    assert "unknown"[0] == 'u' && "other"[0] == 'o';
  }

  const OTHER_LABEL: Label := ("other", "other")

  function UnrankedKey(top: set<Asn>): AsnKey -> Option<AsnKey> {
    (k: AsnKey) => if k.hasAsn && k.asn !in top then Some(k) else None
  }

  /** The keys with an ASN that is not ranked. */
  ghost function Unranked(m: multiset<AsnKey>, top: set<Asn>): multiset<AsnKey> { Image(m, Renaming(UnrankedKey(top))) }

  /** The other label counts the requests of the networks that are not ranked. */
  lemma FoldOfOther(m: multiset<AsnKey>, top: set<Asn>)
    ensures Fold(m, top)[OTHER_LABEL] == |Unranked(m, top)|
  {
    forall k: AsnKey ensures Renaming(Labeler(top))(k)[OTHER_LABEL] == |Renaming(UnrankedKey(top))(k)| {
      OtherLabel(k, top);
      assert Labeler(top)(k) == Some(LabelOf(k, top));
      assert Renaming(Labeler(top))(k) == multiset{LabelOf(k, top)};
      if k.hasAsn && k.asn !in top {
        assert Renaming(UnrankedKey(top))(k) == multiset{k};
      } else {
        assert Renaming(UnrankedKey(top))(k) == multiset{};
      }
    }
    ImageCountsImage(m, Renaming(Labeler(top)), OTHER_LABEL, Renaming(UnrankedKey(top)));
  }

  lemma OtherLabel(k: AsnKey, top: set<Asn>)
    ensures LabelOf(k, top) == OTHER_LABEL <==> k.hasAsn && k.asn !in top
  {
    assert Decimal(k.asn)[0] == '-' || '0' <= Decimal(k.asn)[0] <= '9';
    assert "unknown"[0] == 'u' && "other"[0] == 'o';
  }

  // --- The state

  datatype Published = Published(
    requests: multiset<CountryKey>, drops: multiset<CountryKey>, asns: multiset<Label>,
    versions: multiset<string>, families: multiset<string>)

  /** What a flush took of one window: its requests and responses by country. */
  datatype Window = Window(requests: multiset<CountryKey>, responses: multiset<CountryKey>)

  /** Where the flush stands: resting, having taken the first `taken` workers, or publishing. */
  datatype Phase = Resting | Taking(taken: nat) | Countries | Asns | Versions | Families

  datatype State = State(
    workers: seq<Counters>,
    phase: Phase,
    held: Counters,            // taken from the workers and not yet published
    published: Published,
    windows: seq<Window>,            // the windows already published
    answered: multiset<CountryKey>,  // their responses
    asnsOut: multiset<AsnKey>,       // ASN keys already published, before folding
    done: Counters)            // everything the workers ever counted

  function Start(workers: nat): State {
    State(seq(workers, _ => NONE), Resting, NONE,
          Published(multiset{}, multiset{}, multiset{}, multiset{}, multiset{}), [], multiset{}, multiset{}, NONE)
  }

  function Count(s: State, w: nat, c: Counters): (s': State)
    requires w < |s.workers|
    ensures |s'.workers| == |s.workers|
  {
    s.(workers := s.workers[w := Plus(s.workers[w], c)], done := Plus(s.done, c))
  }

  function Take(s: State): (s': State)
    requires s.phase.Taking? && s.phase.taken < |s.workers|
    ensures |s'.workers| == |s.workers|
  {
    var w := s.phase.taken;
    s.(phase := Taking(w + 1), held := Plus(s.held, s.workers[w]), workers := s.workers[w := NONE])
  }

  function PublishCountries(s: State): State {
    s.(phase := Asns,
       published := s.published.(requests := s.published.requests + s.held.requests,
                                 drops := s.published.drops + (s.held.requests - s.held.responses)),
       windows := s.windows + [Window(s.held.requests, s.held.responses)],
       answered := s.answered + s.held.responses,
       held := s.held.(requests := multiset{}, responses := multiset{}))
  }

  ghost function PublishAsns(s: State, top: set<Asn>): State {
    s.(phase := Versions,
       published := s.published.(asns := s.published.asns + Fold(s.held.asns, top)),
       asnsOut := s.asnsOut + s.held.asns,
       held := s.held.(asns := multiset{}))
  }

  function PublishVersions(s: State): State {
    s.(phase := Families,
       published := s.published.(versions := s.published.versions + s.held.versions),
       held := s.held.(versions := multiset{}))
  }

  function PublishFamilies(s: State): State {
    s.(phase := Resting,
       published := s.published.(families := s.published.families + s.held.families),
       held := s.held.(families := multiset{}))
  }

  /** The next step of the flush; the labels the top set gives hold for the whole flush. */
  ghost function Advance(s: State, top: set<Asn>): (s': State)
    ensures |s'.workers| == |s.workers| && s'.done == s.done
  {
    match s.phase
    case Resting => s
    case Taking(k) => if k < |s.workers| then Take(s) else s.(phase := Countries)
    case Countries => PublishCountries(s)
    case Asns => PublishAsns(s, top)
    case Versions => PublishVersions(s)
    case Families => PublishFamilies(s)
  }

  // --- Conservation

  function RequestsOf(c: Counters): multiset<CountryKey> { c.requests }
  function ResponsesOf(c: Counters): multiset<CountryKey> { c.responses }
  function AsnsOf(c: Counters): multiset<AsnKey> { c.asns }
  function VersionsOf(c: Counters): multiset<string> { c.versions }
  function FamiliesOf(c: Counters): multiset<string> { c.families }

  /** One breakdown over all workers. */
  function Sum<K>(workers: seq<Counters>, part: Counters -> multiset<K>): multiset<K> {
    if workers == [] then multiset{}
    else Sum(workers[..|workers| - 1], part) + part(workers[|workers| - 1])
  }

  /** What of one breakdown is still inside: held by the flush or in a worker's map. */
  function Inside<K>(s: State, part: Counters -> multiset<K>): multiset<K> { part(s.held) + Sum(s.workers, part) }

  /** Out, held and still in the workers make everything counted, key by key. */
  ghost predicate Balance<K>(s: State, part: Counters -> multiset<K>, out: multiset<K>) {
    out + Inside(s, part) == part(s.done)
  }

  /** Nothing a worker counted is lost or counted twice in any of the breakdowns. */
  ghost predicate Conserved(s: State) {
    && Balance(s, RequestsOf, s.published.requests)
    && Balance(s, ResponsesOf, s.answered)
    && Balance(s, AsnsOf, s.asnsOut) && |s.published.asns| == |s.asnsOut|
    && Balance(s, VersionsOf, s.published.versions)
    && Balance(s, FamiliesOf, s.published.families)
  }

  /** Every request is in each breakdown once. */
  ghost predicate Parallel(c: Counters) {
    |c.requests| == |c.asns| == |c.versions| == |c.families|
  }

  /** Per country, what is published is what the windows add up to. */
  ghost predicate Booked(requests: multiset<CountryKey>, drops: multiset<CountryKey>,
                         answered: multiset<CountryKey>, windows: seq<Window>) {
    forall k ::
      && drops[k] == Drops(At(windows, k))
      && requests[k] == Requests(At(windows, k))
      && answered[k] == Responses(At(windows, k))
  }

  ghost predicate DropsBooked(s: State) { Booked(s.published.requests, s.published.drops, s.answered, s.windows) }

  ghost predicate Covered(labels: multiset<Label>, keys: multiset<AsnKey>, a: Asn, org: string) {
    labels[(Decimal(a), org)] <= keys[AsnKey(a, true, org)]
  }

  /** No ASN's label counts more than the ASN's requests, and the unknown label counts those without one. */
  ghost predicate Labelled(labels: multiset<Label>, keys: multiset<AsnKey>) {
    && (forall a, org :: Covered(labels, keys, a, org))
    && labels[UNKNOWN_LABEL] == |Anonymous(keys)|
  }

  ghost predicate HeldByPhase(s: State) {
    && (s.phase.Resting? ==> s.held == NONE)
    && (s.phase.Asns? ==> s.held.requests == multiset{} == s.held.responses)
    && (s.phase.Versions? ==> s.held == NONE.(versions := s.held.versions, families := s.held.families))
    && (s.phase.Families? ==> s.held == NONE.(families := s.held.families))
    && (s.phase.Taking? ==> s.phase.taken <= |s.workers|)
  }

  ghost predicate Inv(s: State) {
    Conserved(s) && Parallel(s.done) && DropsBooked(s) && Labelled(s.published.asns, s.asnsOut) && HeldByPhase(s)
  }

  lemma {:induction false} SumUpdate<K>(workers: seq<Counters>, w: nat, c: Counters, part: Counters -> multiset<K>)
    requires w < |workers|
    ensures Sum(workers[w := c], part) + part(workers[w]) == Sum(workers, part) + part(c)
  {
    var n := |workers| - 1;
    var ws := workers[w := c];
    if w == n {
      assert ws[..n] == workers[..n];
    } else {
      SumUpdate(workers[..n], w, c, part);
      assert ws[..n] == workers[..n][w := c];
      Shuffle(Sum(ws[..n], part), part(workers[n]), part(workers[w]));
      Shuffle(Sum(workers[..n], part), part(workers[n]), part(c));
    }
  }

  lemma Shuffle<K>(a: multiset<K>, b: multiset<K>, c: multiset<K>)
    ensures (a + b) + c == (a + c) + b && (a + b) + c == a + (c + b)
  {
  }

  lemma Cancel<K>(a: multiset<K>, b: multiset<K>, c: multiset<K>)
    requires a + c == b + c
    ensures a == b
  {
    assert a == (a + c) - c && b == (b + c) - c;
  }

  /** A worker's section adds the same to what is inside and to what was ever counted. */
  lemma CountBalance<K>(s: State, w: nat, c: Counters, part: Counters -> multiset<K>, out: multiset<K>)
    requires w < |s.workers| && Balance(s, part, out)
    requires part(Plus(s.workers[w], c)) == part(s.workers[w]) + part(c)
    requires part(Plus(s.done, c)) == part(s.done) + part(c)
    ensures Balance(Count(s, w, c), part, out)
  {
    var x := Plus(s.workers[w], c);
    var was, now := Sum(s.workers, part), Sum(s.workers[w := x], part);
    SumUpdate(s.workers, w, x, part);
    assert now + part(s.workers[w]) == (was + part(c)) + part(s.workers[w]);
    Cancel(now, was + part(c), part(s.workers[w]));
  }

  /** Taking a worker's counters only moves them. */
  lemma TakeBalance<K>(s: State, part: Counters -> multiset<K>, out: multiset<K>)
    requires s.phase.Taking? && s.phase.taken < |s.workers| && Balance(s, part, out)
    requires part(Plus(s.held, s.workers[s.phase.taken])) == part(s.held) + part(s.workers[s.phase.taken])
    requires part(NONE) == multiset{}
    ensures Balance(Take(s), part, out)
  {
    var w := s.phase.taken;
    SumUpdate(s.workers, w, NONE, part);
    var after := Sum(s.workers[w := NONE], part);
    Shuffle(part(s.held), part(s.workers[w]), after);
    assert after + part(s.workers[w]) == Sum(s.workers, part);
  }

  /** Publishing one breakdown moves its held part out. */
  lemma PublishBalance<K>(s: State, s': State, part: Counters -> multiset<K>, out: multiset<K>)
    requires Balance(s, part, out) && s'.workers == s.workers && s'.done == s.done
    ensures part(s'.held) == part(s.held) ==> Balance(s', part, out)
    ensures part(s'.held) == multiset{} ==> Balance(s', part, out + part(s.held))
  {
  }

  lemma CountKeeps(s: State, w: nat, c: Counters)
    requires Inv(s) && w < |s.workers| && Parallel(c)
    ensures Inv(Count(s, w, c))
  {
    CountBalance(s, w, c, RequestsOf, s.published.requests);
    CountBalance(s, w, c, ResponsesOf, s.answered);
    CountBalance(s, w, c, AsnsOf, s.asnsOut);
    CountBalance(s, w, c, VersionsOf, s.published.versions);
    CountBalance(s, w, c, FamiliesOf, s.published.families);
  }

  lemma TakeKeeps(s: State)
    requires Inv(s) && s.phase.Taking? && s.phase.taken < |s.workers|
    ensures Inv(Take(s))
  {
    TakeBalance(s, RequestsOf, s.published.requests);
    TakeBalance(s, ResponsesOf, s.answered);
    TakeBalance(s, AsnsOf, s.asnsOut);
    TakeBalance(s, VersionsOf, s.published.versions);
    TakeBalance(s, FamiliesOf, s.published.families);
  }

  /** A publication of one breakdown leaves the others balanced. */
  lemma OthersBalance(s: State, s': State)
    requires Conserved(s) && s'.workers == s.workers && s'.done == s.done
    ensures s'.held.requests == s.held.requests && s'.published.requests == s.published.requests
            ==> Balance(s', RequestsOf, s'.published.requests)
    ensures s'.held.responses == s.held.responses && s'.answered == s.answered
            ==> Balance(s', ResponsesOf, s'.answered)
    ensures s'.held.asns == s.held.asns && s'.asnsOut == s.asnsOut ==> Balance(s', AsnsOf, s'.asnsOut)
    ensures s'.held.versions == s.held.versions && s'.published.versions == s.published.versions
            ==> Balance(s', VersionsOf, s'.published.versions)
    ensures s'.held.families == s.held.families && s'.published.families == s.published.families
            ==> Balance(s', FamiliesOf, s'.published.families)
  {
    PublishBalance(s, s', RequestsOf, s.published.requests);
    PublishBalance(s, s', ResponsesOf, s.answered);
    PublishBalance(s, s', AsnsOf, s.asnsOut);
    PublishBalance(s, s', VersionsOf, s.published.versions);
    PublishBalance(s, s', FamiliesOf, s.published.families);
  }

  /** One more window in the books. */
  lemma BookWindow(requests: multiset<CountryKey>, drops: multiset<CountryKey>, answered: multiset<CountryKey>,
                   windows: seq<Window>, w: Window)
    requires Booked(requests, drops, answered, windows)
    ensures Booked(requests + w.requests, drops + (w.requests - w.responses), answered + w.responses, windows + [w])
  {
    forall k: CountryKey
      ensures At(windows + [w], k)[..|windows|] == At(windows, k)
      ensures At(windows + [w], k)[|windows|] == (w.requests[k], w.responses[k])
    {
    }
  }

  lemma PublishCountriesKeeps(s: State)
    requires Inv(s) && s.phase.Countries?
    ensures Inv(PublishCountries(s))
  {
    var s' := PublishCountries(s);
    BookWindow(s.published.requests, s.published.drops, s.answered, s.windows,
               Window(s.held.requests, s.held.responses));
    OthersBalance(s, s');
    PublishBalance(s, s', RequestsOf, s.published.requests);
    PublishBalance(s, s', ResponsesOf, s.answered);
  }

  lemma LabelNumber(labels: multiset<Label>, keys: multiset<AsnKey>, m: multiset<AsnKey>, top: set<Asn>,
                    a: Asn, org: string)
    requires Covered(labels, keys, a, org)
    ensures Covered(labels + Fold(m, top), keys + m, a, org)
  {
    FoldOfNumber(m, top, a, org);
  }

  lemma LabelUnknown(labels: multiset<Label>, keys: multiset<AsnKey>, m: multiset<AsnKey>, top: set<Asn>)
    requires labels[UNKNOWN_LABEL] == |Anonymous(keys)|
    ensures (labels + Fold(m, top))[UNKNOWN_LABEL] == |Anonymous(keys + m)|
  {
    FoldOfUnknown(m, top);
    ImageUnion(keys, m, Renaming(AnonymousKey));
  }

  /** One more window of labels. */
  lemma LabelWindow(labels: multiset<Label>, keys: multiset<AsnKey>, m: multiset<AsnKey>, top: set<Asn>)
    requires Labelled(labels, keys)
    ensures Labelled(labels + Fold(m, top), keys + m)
  {
    forall a, org ensures Covered(labels + Fold(m, top), keys + m, a, org) {
      LabelNumber(labels, keys, m, top, a, org);
    }
    LabelUnknown(labels, keys, m, top);
  }

  lemma PublishAsnsKeeps(s: State, top: set<Asn>)
    requires Inv(s) && s.phase.Asns?
    ensures Inv(PublishAsns(s, top))
  {
    var s' := PublishAsns(s, top);
    LabelWindow(s.published.asns, s.asnsOut, s.held.asns, top);
    OthersBalance(s, s');
    PublishBalance(s, s', AsnsOf, s.asnsOut);
  }

  lemma PublishVersionsKeeps(s: State)
    requires Inv(s) && s.phase.Versions?
    ensures Inv(PublishVersions(s))
  {
    var s' := PublishVersions(s);
    OthersBalance(s, s');
    PublishBalance(s, s', VersionsOf, s.published.versions);
  }

  lemma PublishFamiliesKeeps(s: State)
    requires Inv(s) && s.phase.Families?
    ensures Inv(PublishFamilies(s))
  {
    var s' := PublishFamilies(s);
    OthersBalance(s, s');
    PublishBalance(s, s', FamiliesOf, s.published.families);
  }

  lemma BeginKeeps(s: State)
    requires Inv(s) && s.phase.Resting?
    ensures Inv(s.(phase := Taking(0)))
  {
  }

  lemma TakenKeeps(s: State)
    requires Inv(s) && s.phase.Taking?
    ensures Inv(s.(phase := Countries))
  {
  }

  lemma AdvanceKeeps(s: State, top: set<Asn>)
    requires Inv(s)
    ensures Inv(Advance(s, top))
  {
    match s.phase
    case Resting =>
    case Taking(k) => if k < |s.workers| { TakeKeeps(s); } else { TakenKeeps(s); }
    case Countries => PublishCountriesKeeps(s);
    case Asns => PublishAsnsKeeps(s, top);
    case Versions => PublishVersionsKeeps(s);
    case Families => PublishFamiliesKeeps(s);
  }

  lemma {:induction false} SumOfNone<K>(workers: seq<Counters>, part: Counters -> multiset<K>)
    requires part(NONE) == multiset{} && forall w :: 0 <= w < |workers| ==> workers[w] == NONE
    ensures Sum(workers, part) == multiset{}
  {
    if workers != [] { SumOfNone(workers[..|workers| - 1], part); }
  }

  lemma StartInv(workers: nat)
    ensures Inv(Start(workers))
  {
    NothingInside(Start(workers));
  }

  lemma NothingInside(s: State)
    requires s.held == NONE && forall w :: 0 <= w < |s.workers| ==> s.workers[w] == NONE
    ensures Inside(s, RequestsOf) == multiset{} == Inside(s, ResponsesOf)
    ensures Inside(s, AsnsOf) == multiset{}
    ensures Inside(s, VersionsOf) == multiset{} == Inside(s, FamiliesOf)
  {
    SumOfNone(s.workers, RequestsOf);
    SumOfNone(s.workers, ResponsesOf);
    SumOfNone(s.workers, AsnsOf);
    SumOfNone(s.workers, VersionsOf);
    SumOfNone(s.workers, FamiliesOf);
  }

  /** Once a flush has rested and no worker has counted since, everything is published and the four
      published totals agree: each is the number of requests. */
  lemma QuiescentTotals(s: State)
    requires Inv(s) && s.phase.Resting?
    requires forall w :: 0 <= w < |s.workers| ==> s.workers[w] == NONE
    ensures s.published.requests == s.done.requests && s.published.versions == s.done.versions
    ensures s.published.families == s.done.families && s.asnsOut == s.done.asns
    ensures |s.published.requests| == |s.published.asns| == |s.published.versions| == |s.published.families|
  {
    NothingInside(s);
  }

  // --- Drops over windows

  /** The (requests, responses) of one country in each window. */
  function At(windows: seq<Window>, k: CountryKey): seq<(nat, nat)> {
    seq(|windows|, i requires 0 <= i < |windows| => (windows[i].requests[k], windows[i].responses[k]))
  }

  /** The drops published for one country over a sequence of flush windows of (requests, responses). */
  function Drops(windows: seq<(nat, nat)>): nat {
    if windows == [] then 0 else Drops(windows[..|windows| - 1]) + Dropped(windows[|windows| - 1])
  }

  function Dropped(w: (nat, nat)): nat { if w.0 > w.1 then w.0 - w.1 else 0 }

  function Requests(windows: seq<(nat, nat)>): nat {
    if windows == [] then 0 else Requests(windows[..|windows| - 1]) + windows[|windows| - 1].0
  }

  function Responses(windows: seq<(nat, nat)>): nat {
    if windows == [] then 0 else Responses(windows[..|windows| - 1]) + windows[|windows| - 1].1
  }

  /** The published drops never fall short of requests minus responses, never exceed the requests,
      and are exactly the difference if and only if no window has more responses than requests. */
  lemma {:induction false} DropsOverWindows(windows: seq<(nat, nat)>)
    ensures Max(0, Requests(windows) - Responses(windows)) <= Drops(windows) <= Requests(windows)
    ensures Drops(windows) == Requests(windows) - Responses(windows)
            <==> forall i :: 0 <= i < |windows| ==> windows[i].1 <= windows[i].0
  {
    if windows != [] {
      var n := |windows| - 1;
      DropsOverWindows(windows[..n]);
      assert forall i :: 0 <= i < n ==> windows[..n][i] == windows[i];
    }
  }

  lemma {:induction false} DropsConcat(a: seq<(nat, nat)>, b: seq<(nat, nat)>)
    ensures Drops(a + b) == Drops(a) + Drops(b)
  {
    if b == [] {
      assert a + b == a;
    } else {
      var n := |b| - 1;
      assert (a + b)[..|a| + n] == a + b[..n];
      DropsConcat(a, b[..n]);
    }
  }

  /** Flushing more often never lowers the published drops. */
  lemma SplittingRaisesDrops(a: seq<(nat, nat)>, x: (nat, nat), y: (nat, nat), b: seq<(nat, nat)>)
    ensures Drops(a + [(x.0 + y.0, x.1 + y.1)] + b) <= Drops(a + [x, y] + b)
  {
    var whole, parts := [(x.0 + y.0, x.1 + y.1)], [x, y];
    DropsConcat(a + whole, b);
    DropsConcat(a, whole);
    DropsConcat(a + parts, b);
    DropsConcat(a, parts);
    assert parts[..1] == [x] && [x][..0] == [] && whole[..0] == [];
    assert Drops(parts) == Drops([x]) + Dropped(y);
  }

  /** For each country, what is published as dropped lies between requests minus responses and requests, and is the
      difference if and only if no window had more responses than requests. */
  lemma DropsExact(s: State, k: CountryKey)
    requires DropsBooked(s)
    ensures s.published.drops[k] <= s.published.requests[k] <= s.published.drops[k] + s.answered[k]
    ensures s.published.drops[k] + s.answered[k] == s.published.requests[k]
            <==> forall i :: 0 <= i < |s.windows| ==> s.windows[i].responses[k] <= s.windows[i].requests[k]
  {
    var ws := At(s.windows, k);
    DropsOverWindows(ws);
    assert forall i :: 0 <= i < |s.windows| ==> ws[i] == (s.windows[i].requests[k], s.windows[i].responses[k]);
  }
}
