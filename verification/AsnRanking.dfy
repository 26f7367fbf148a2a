/** Ranking, pruning and folding of ASN totals (exporter/internal/aggregate/asn.go). */
module AsnRanking {
  import opened Bytes
  import opened MapCounts

  /** An AS number as the source stores it. */
  type Asn = n: int | -0x8000_0000_0000_0000 <= n < 0x8000_0000_0000_0000

  type Totals = map<Asn, nat>

  // --- Decimal text and its byte order

  function Digit(d: nat): char
    requires d < 10
  {
    '0' + d as char
  }

  function Digits(n: nat): (s: string)
    ensures s != [] && forall i :: 0 <= i < |s| ==> '0' <= s[i] <= '9'
  {
    if n < 10 then [Digit(n)] else Digits(n / 10) + [Digit(n % 10)]
  }

  function Decimal(n: int): string {
    if n < 0 then "-" + Digits(-n) else Digits(n)
  }

  /** The number a text of digits denotes. */
  function Denoted(s: string): int {
    if s == [] then 0 else Denoted(s[..|s| - 1]) * 10 + (s[|s| - 1] as int - '0' as int)
  }

  /** The text denotes the number, without leading zeros, a minus sign before that of a negative one. */
  lemma {:induction false} DigitsDenote(n: nat)
    ensures Denoted(Digits(n)) == n && (n > 0 ==> Digits(n)[0] != '0')
  {
    var s := Digits(n);
    if n >= 10 {
      DigitsDenote(n / 10);
      assert s[..|s| - 1] == Digits(n / 10);
    } else {
      assert s[..0] == [];
    }
  }

  lemma DecimalDenotes(n: int)
    ensures if n < 0 then Decimal(n)[0] == '-' && Denoted(Decimal(n)[1..]) == -n else Denoted(Decimal(n)) == n
  {
    if n < 0 {
      DigitsDenote(-n);
      assert Decimal(n)[1..] == Digits(-n);
    } else {
      DigitsDenote(n);
    }
  }

  lemma {:induction false} DigitsInjective(a: nat, b: nat)
    requires Digits(a) == Digits(b)
    ensures a == b
  {
    var s, t := Digits(a), Digits(b);
    assert s[|s| - 1] == Digit(a % 10) && t[|t| - 1] == Digit(b % 10);
    if a >= 10 && b >= 10 {
      assert s[..|s| - 1] == Digits(a / 10) && t[..|t| - 1] == Digits(b / 10);
      DigitsInjective(a / 10, b / 10);
    }
  }

  lemma DecimalInjective(a: int, b: int)
    requires Decimal(a) == Decimal(b)
    ensures a == b
  {
    assert a < 0 ==> Decimal(a)[0] == '-' && Decimal(a)[1..] == Digits(-a);
    assert b < 0 ==> Decimal(b)[0] == '-' && Decimal(b)[1..] == Digits(-b);
    if a < 0 && b < 0 { DigitsInjective(-a, -b); }
    if a >= 0 && b >= 0 { DigitsInjective(a, b); }
  }

  predicate LexLess(a: string, b: string) {
    b != [] && (a == [] || a[0] < b[0] || (a[0] == b[0] && LexLess(a[1..], b[1..])))
  }

  /** Texts are ordered by their first difference, a text before its continuations. */
  lemma {:induction false} LexLessIs(a: string, b: string)
    ensures LexLess(a, b) <==>
      exists n :: 0 <= n <= |a| && n < |b| && a[..n] == b[..n] && (n < |a| ==> a[n] < b[n])
  {
    if a != [] && b != [] && a[0] == b[0] {
      LexLessIs(a[1..], b[1..]);
      if LexLess(a, b) {
        var c, d := a[1..], b[1..];
        var n :| 0 <= n <= |c| && n < |d| && c[..n] == d[..n] && (n < |c| ==> c[n] < d[n]);
        assert a[..n + 1] == [a[0]] + a[1..][..n] && b[..n + 1] == [b[0]] + b[1..][..n];
      }
      if n :| 0 <= n <= |a| && n < |b| && a[..n] == b[..n] && (n < |a| ==> a[n] < b[n]) {
        assert n > 0;
        assert a[1..][..n - 1] == a[..n][1..] && b[1..][..n - 1] == b[..n][1..];
      }
    } else if b != [] {
      assert a[..0] == b[..0];
    }
  }

  lemma {:induction false} LexTotal(a: string, b: string)
    ensures a != b ==> LexLess(a, b) || LexLess(b, a)
    ensures !(LexLess(a, b) && LexLess(b, a))
  {
    if a != [] && b != [] {
      LexTotal(a[1..], b[1..]);
      assert a == [a[0]] + a[1..] && b == [b[0]] + b[1..];
    }
  }

  lemma {:induction false} LexTransitive(a: string, b: string, c: string)
    requires LexLess(a, b) && LexLess(b, c)
    ensures LexLess(a, c)
  {
    if a != [] && a[0] == b[0] == c[0] {
      LexTransitive(a[1..], b[1..], c[1..]);
    }
  }

  // --- Sorting

  datatype Item = Item(asn: Asn, count: nat)

  type Order = (Item, Item) -> bool

  /** What sort.Slice needs of its comparison. */
  ghost predicate WeakOrder(less: Order) {
    && (forall x, y :: less(x, y) ==> !less(y, x))
    && (forall x, y, z :: !less(y, x) && !less(z, y) ==> !less(z, x))
  }

  ghost predicate Sorted(s: seq<Item>, less: Order) {
    forall i, j :: 0 <= i < j < |s| ==> !less(s[j], s[i])
  }

  /** Callers learn only that the result is a sorted permutation: ties may end up in any order. */
  method SortSlice(items: seq<Item>, less: Order) returns (s: seq<Item>)
    requires WeakOrder(less)
    ensures multiset(s) == multiset(items) && Sorted(s, less)
  {
    s := [];
    for n := 0 to |items|
      invariant multiset(s) == multiset(items[..n]) && Sorted(s, less)
    {
      s := Insert(s, items[n], less);
      assert items[..n + 1] == items[..n] + [items[n]];
    }
    assert items[..|items|] == items;
  }

  method Insert(s: seq<Item>, x: Item, less: Order) returns (r: seq<Item>)
    requires WeakOrder(less) && Sorted(s, less)
    ensures multiset(r) == multiset(s) + multiset{x} && Sorted(r, less)
  {
    var i := |s|;
    while i > 0 && less(x, s[i - 1])
      invariant 0 <= i <= |s|
      invariant forall j :: i <= j < |s| ==> less(x, s[j])
    {
      i := i - 1;
    }
    assert s == s[..i] + s[i..];
    r := s[..i] + [x] + s[i..];
    InsertSorted(s, x, i, less);
  }

  lemma InsertSorted(s: seq<Item>, x: Item, i: nat, less: Order)
    requires WeakOrder(less) && Sorted(s, less) && i <= |s|
    requires i > 0 ==> !less(x, s[i - 1])
    requires forall j :: i <= j < |s| ==> less(x, s[j])
    ensures Sorted(s[..i] + [x] + s[i..], less)
  {
    var r := s[..i] + [x] + s[i..];
    forall j | 0 <= j < i ensures !less(x, s[j]) {
      if j < i - 1 { assert !less(s[i - 1], s[j]); }
    }
    forall a, b | 0 <= a < b < |r| ensures !less(r[b], r[a]) {
      var a', b' := if a < i then a else a - 1, if b < i then b else b - 1;
      if a != i && b != i { assert r[a] == s[a'] && r[b] == s[b']; }
    }
  }

  // --- Specifications

  /** a ranks before b: a larger total, or the same total and the smaller decimal text. */
  predicate Beats(t: Totals, a: Asn, b: Asn)
    requires a in t && b in t
  {
    t[a] > t[b] || (t[a] == t[b] && LexLess(Decimal(a), Decimal(b)))
  }

  /** `out` are the n best: every member beats every non-member. */
  ghost predicate IsTop(t: Totals, n: int, out: set<Asn>) {
    && out <= t.Keys && |out| == Min(Max(n, 0), |t|)
    && forall a, b :: a in out && b in t && b !in out ==> Beats(t, a, b)
  }

  /** `out` keeps max of the largest totals, whichever of the tied ones. */
  ghost predicate IsPruned(t: Totals, max: nat, out: Totals) {
    && out.Keys <= t.Keys && |out| == Min(max, |t|)
    && (forall a :: a in out ==> out[a] == t[a])
    && forall a, b :: a in out && b in t && b !in out ==> t[a] >= t[b]
  }

  lemma SetsOfOneSize(a: set<Asn>, b: set<Asn>)
    requires |a| == |b| && a <= b
    ensures a == b
  {
    assert b == a + (b - a);
    assert |b - a| == 0;
  }

  lemma NotBoth(t: Totals, a: Asn, b: Asn)
    requires a in t && b in t
    ensures !(Beats(t, a, b) && Beats(t, b, a))
  {
    LexTotal(Decimal(a), Decimal(b));
  }

  /** The ranking decides: there is only one top-n set, so map order and sort stability cannot matter. */
  lemma TopUnique(t: Totals, n: int, a: set<Asn>, b: set<Asn>)
    requires IsTop(t, n, a) && IsTop(t, n, b)
    ensures a == b
  {
    if a <= b {
      SetsOfOneSize(a, b);
    } else if b <= a {
      SetsOfOneSize(b, a);
    } else {
      var x :| x in a && x !in b;
      var y :| y in b && y !in a;
      NotBoth(t, x, y);
      assert false;
    }
  }

  // --- From a sorted slice to the sets

  ghost function Items(t: Totals): set<Item> { set k | k in t :: Item(k, t[k]) }

  lemma {:induction false} ItemsCount(t: Totals)
    ensures |Items(t)| == |t|
    decreases |t|
  {
    if t != map[] {
      var k :| k in t;
      var u := t - {k};
      assert u.Keys == t.Keys - {k};
      assert |t| == |t.Keys| && |u| == |u.Keys|;
      ItemsCount(u);
      assert Items(t) == Items(u) + {Item(k, t[k])};
    }
  }

  lemma ItemsAdd(t: Totals, k: Asn, n: nat)
    requires k !in t
    ensures Items(t[k := n]) == Items(t) + {Item(k, n)} && Item(k, n) !in Items(t)
  {
    var u := t[k := n];
    assert u[k] == n && forall j :: j in t ==> u[j] == t[j];
    assert forall x :: x in Items(u) ==> x in Items(t) + {Item(k, n)};
    forall x | x in Items(t) + {Item(k, n)} ensures x in Items(u) {
      assert x.asn in u && u[x.asn] == x.count;
    }
  }

  lemma DistinctItems(s: seq<Item>, set_: set<Item>)
    requires multiset(s) == multiset(set_)
    ensures |s| == |set_| && (forall x :: x in s <==> x in set_)
    ensures forall i, j :: 0 <= i < j < |s| ==> s[i] != s[j]
  {
    assert |multiset(s)| == |s| && |multiset(set_)| == |set_|;
    forall x ensures x in s <==> x in set_ {
      assert x in s <==> x in multiset(s);
    }
    forall i, j | 0 <= i < j < |s| ensures s[i] != s[j] {
      assert s == s[..j] + [s[j]] + s[j + 1..];
      assert s[i] in s[..j] by { assert s[..j][i] == s[i]; }
      assert multiset(s)[s[j]] == multiset(s[..j])[s[j]] + 1 + multiset(s[j + 1..])[s[j]];
      assert multiset(s)[s[j]] <= 1;
    }
  }

  /** A slice holding exactly the items of the totals. */
  ghost predicate Lists(s: seq<Item>, t: Totals) {
    && |s| == |t|
    && (forall i :: 0 <= i < |s| ==> s[i].asn in t && t[s[i].asn] == s[i].count)
    && (forall i, j :: 0 <= i < j < |s| ==> s[i].asn != s[j].asn)
    && (forall k :: k in t ==> exists i :: 0 <= i < |s| && s[i].asn == k)
  }

  lemma ListsItems(s: seq<Item>, t: Totals)
    requires multiset(s) == multiset(Items(t))
    ensures Lists(s, t)
  {
    ItemsCount(t);
    DistinctItems(s, Items(t));
    forall i | 0 <= i < |s| ensures s[i].asn in t && t[s[i].asn] == s[i].count {
      assert s[i] in s;
    }
    forall k | k in t ensures exists i :: 0 <= i < |s| && s[i].asn == k {
      assert Item(k, t[k]) in s;
    }
  }

  ghost function FirstAsns(s: seq<Item>, n: nat): set<Asn>
    requires n <= |s|
  {
    set i | 0 <= i < n :: s[i].asn
  }

  lemma {:induction false} FirstAsnsCount(s: seq<Item>, n: nat)
    requires n <= |s| && forall i, j :: 0 <= i < j < |s| ==> s[i].asn != s[j].asn
    ensures |FirstAsns(s, n)| == n
  {
    if n > 0 {
      FirstAsnsCount(s, n - 1);
      assert FirstAsns(s, n) == FirstAsns(s, n - 1) + {s[n - 1].asn};
    }
  }

  /** The totals as a slice, in whatever order the map is walked. */
  method Collect(t: Totals) returns (s: seq<Item>)
    ensures multiset(s) == multiset(Items(t))
  {
    s := [];
    var todo := t.Keys;
    ghost var seen: Totals := map[];
    while todo != {}
      invariant todo <= t.Keys
      invariant seen == t - todo
      invariant multiset(s) == multiset(Items(seen))
    {
      var k :| k in todo;
      s := s + [Item(k, t[k])];
      ItemsAdd(seen, k, t[k]);
      assert t - (todo - {k}) == seen[k := t[k]];
      todo := todo - {k};
      seen := t - todo;
    }
    assert t - {} == t;
  }

  predicate RankLess(x: Item, y: Item) {
    if x.count != y.count then x.count > y.count else LexLess(Decimal(x.asn), Decimal(y.asn))
  }

  predicate CountLess(x: Item, y: Item) { x.count > y.count }

  lemma RankIsWeakOrder()
    ensures WeakOrder(RankLess)
  {
    forall x, y | RankLess(x, y) ensures !RankLess(y, x) {
      LexTotal(Decimal(x.asn), Decimal(y.asn));
    }
    forall x, y, z | !RankLess(y, x) && !RankLess(z, y) ensures !RankLess(z, x) {
      RankChain(x, y, z);
    }
  }

  lemma RankChain(x: Item, y: Item, z: Item)
    requires !RankLess(y, x) && !RankLess(z, y)
    ensures !RankLess(z, x)
  {
    var a, b, c := Decimal(x.asn), Decimal(y.asn), Decimal(z.asn);
    LexTotal(a, b);
    LexTotal(b, c);
    LexTotal(a, c);
    if LexLess(a, b) && LexLess(b, c) { LexTransitive(a, b, c); }
  }

  /** The set of the n best ASNs. */
  method TopNASNs(totals: Totals, n: int) returns (out: set<Asn>)
    ensures IsTop(totals, n, out)
  {
    var items := Ranked(totals);
    var m := if n > |items| then |items| else n;
    out := First(items, m);
    FirstAreTop(items, totals, n, Max(m, 0));
  }

  method Ranked(totals: Totals) returns (items: seq<Item>)
    ensures Lists(items, totals) && Sorted(items, RankLess)
  {
    items := Collect(totals);
    RankIsWeakOrder();
    items := SortSlice(items, RankLess);
    ListsItems(items, totals);
  }

  method First(items: seq<Item>, m: int) returns (out: set<Asn>)
    requires m <= |items|
    ensures out == FirstAsns(items, Max(m, 0))
  {
    out := {};
    var i := 0;
    while i < m
      invariant 0 <= i <= Max(m, 0) && out == FirstAsns(items, i)
    {
      FirstAsnsNext(items, i);
      out := out + {items[i].asn};
      i := i + 1;
    }
  }

  lemma FirstAsnsNext(s: seq<Item>, i: nat)
    requires i < |s|
    ensures FirstAsns(s, i + 1) == FirstAsns(s, i) + {s[i].asn}
  {
  }

  lemma FirstAreTop(s: seq<Item>, t: Totals, n: int, m: nat)
    requires Lists(s, t) && Sorted(s, RankLess) && m == Min(Max(n, 0), |t|)
    ensures IsTop(t, n, FirstAsns(s, m))
  {
    var out := FirstAsns(s, m);
    FirstAsnsCount(s, m);
    forall a, b | a in out && b in t && b !in out ensures Beats(t, a, b) {
      var i :| 0 <= i < m && s[i].asn == a;
      var j :| 0 <= j < |s| && s[j].asn == b;
      assert i < j && !RankLess(s[j], s[i]);
      SortedDistinctBeats(t, s[i], s[j]);
    }
  }

  lemma SortedDistinctBeats(t: Totals, x: Item, y: Item)
    requires x.asn in t && y.asn in t && t[x.asn] == x.count && t[y.asn] == y.count
    requires x.asn != y.asn && !RankLess(y, x)
    ensures Beats(t, x.asn, y.asn)
  {
    LexTotal(Decimal(x.asn), Decimal(y.asn));
    if Decimal(x.asn) == Decimal(y.asn) { DecimalInjective(x.asn, y.asn); }
  }

  /** The `max` largest totals, ties cut anywhere. */
  method PruneToLargest(totals: Totals, max: nat) returns (out: Totals)
    ensures IsPruned(totals, max, out)
  {
    var items := Collect(totals);
    items := SortSlice(items, CountLess);
    ListsItems(items, totals);
    var m := if max > |items| then |items| else max;
    out := Keep(items, m, totals);
    FirstArePruned(items, totals, max, m, out);
  }

  method Keep(items: seq<Item>, m: nat, ghost totals: Totals) returns (out: Totals)
    requires m <= |items|
    requires forall i :: 0 <= i < |items| ==> items[i].asn in totals && totals[items[i].asn] == items[i].count
    ensures out.Keys == FirstAsns(items, m) && forall a :: a in out ==> a in totals && out[a] == totals[a]
  {
    out := map[];
    for i := 0 to m
      invariant out.Keys == FirstAsns(items, i)
      invariant forall a :: a in out ==> a in totals && out[a] == totals[a]
    {
      FirstAsnsNext(items, i);
      out := out[items[i].asn := items[i].count];
    }
  }

  lemma FirstArePruned(s: seq<Item>, t: Totals, max: nat, m: nat, out: Totals)
    requires Lists(s, t) && Sorted(s, CountLess) && m == Min(max, |t|)
    requires out.Keys == FirstAsns(s, m) && forall a :: a in out ==> a in t && out[a] == t[a]
    ensures IsPruned(t, max, out)
  {
    FirstAsnsCount(s, m);
    assert |out| == |out.Keys|;
    forall a, b | a in out && b in t && b !in out ensures t[a] >= t[b] {
      var i :| 0 <= i < m && s[i].asn == a;
      var j :| 0 <= j < |s| && s[j].asn == b;
      assert i < j && !CountLess(s[j], s[i]);
    }
  }

  // --- What pruning preserves

  ghost function AtLeast(t: Totals, v: int): set<Asn> { set k | k in t && t[k] >= v }

  ghost function AtLeastIn(t: Totals, s: set<Asn>, v: int): set<Asn> { set k | k in s && k in t && t[k] >= v }

  /** Choosing a dominating subset keeps, above every threshold, as many as fit. */
  lemma ChosenAbove(t: Totals, s: set<Asn>, v: int)
    requires s <= t.Keys
    requires forall a, b :: a in s && b in t && b !in s ==> t[a] >= t[b]
    ensures |AtLeastIn(t, s, v)| == Min(|s|, |AtLeast(t, v)|)
  {
    var inside, all := AtLeastIn(t, s, v), AtLeast(t, v);
    if b :| b in all && b !in s {
      assert inside == s;
      SubsetCount(s, all);
    } else {
      assert inside == all;
      SubsetCount(all, s);
    }
  }

  /** Pruning to max keeps the n <= max largest totals: above any threshold, the top n before and the
      top n after have equally many. */
  lemma PruneKeepsLargestTotals(t: Totals, max: nat, out: Totals, n: nat, a: set<Asn>, b: set<Asn>, v: int)
    requires n <= max && IsPruned(t, max, out) && IsTop(t, n, a) && IsTop(out, n, b)
    ensures |AtLeastIn(t, a, v)| == |AtLeastIn(out, b, v)|
  {
    ChosenAbove(t, a, v);
    ChosenAbove(out, b, v);
    PrunedAbove(t, max, out, v);
  }

  lemma PrunedAbove(t: Totals, max: nat, out: Totals, v: int)
    requires IsPruned(t, max, out)
    ensures |AtLeast(out, v)| == Min(max, |AtLeast(t, v)|)
  {
    ChosenAbove(t, out.Keys, v);
    assert AtLeastIn(t, out.Keys, v) == AtLeast(out, v);
    assert |out.Keys| == |out| && |t.Keys| == |t|;
    SubsetCount(AtLeast(t, v), t.Keys);
  }

  /** x is a member of the top set with the smallest total in it. */
  ghost predicate Weakest(t: Totals, top: set<Asn>, x: Asn) {
    x in top && x in t && forall a :: a in top && a in t ==> t[x] <= t[a]
  }

  lemma TopSurvives(t: Totals, n: nat, max: nat, top: set<Asn>, x: Asn, out: Totals)
    requires n <= max && IsTop(t, n, top) && Weakest(t, top, x) && IsPruned(t, max, out)
    requires |AtLeast(t, t[x])| <= max
    ensures IsTop(out, n, top)
  {
    assert |out.Keys| == |out| && |t.Keys| == |t|;
    forall a | a in top ensures a in out {
      if a !in out {
        assert out.Keys + {a} <= AtLeast(t, t[x]);
        SubsetCount(out.Keys + {a}, AtLeast(t, t[x]));
        SubsetCount(out.Keys + {a}, t.Keys);
      }
    }
  }

  lemma {:induction false} SubsetOfSize(s: set<Asn>, n: nat) returns (r: set<Asn>)
    requires n <= |s|
    ensures r <= s && |r| == n
  {
    if n == |s| {
      r := s;
    } else {
      var x :| x in s;
      r := SubsetOfSize(s - {x}, n);
    }
  }

  /** Ties across the cut: some resolution drops x although it is in the top n. */
  lemma TopCanBeLost(t: Totals, n: nat, max: nat, top: set<Asn>, x: Asn) returns (out: Totals)
    requires n <= max && IsTop(t, n, top) && Weakest(t, top, x) && |AtLeast(t, t[x])| > max
    ensures IsPruned(t, max, out) && x !in out
  {
    var above := set k | k in t && t[k] > t[x];
    var ties := set k | k in t && t[k] == t[x] && k != x;
    AboveInTop(t, top, x, above);
    assert AtLeast(t, t[x]) == above + ties + {x};
    assert |above + ties + {x}| == |above| + |ties| + 1;
    var keep := SubsetOfSize(ties, max - |above|);
    out := CutTies(t, max, x, above, keep);
  }

  lemma CutTies(t: Totals, max: nat, x: Asn, above: set<Asn>, keep: set<Asn>) returns (out: Totals)
    requires x in t && |AtLeast(t, t[x])| > max && |above| + |keep| == max
    requires above == set k | k in t && t[k] > t[x]
    requires keep <= set k | k in t && t[k] == t[x] && k != x
    ensures IsPruned(t, max, out) && x !in out
  {
    out := map k | k in above + keep :: t[k];
    assert out.Keys == above + keep;
    assert |out| == |out.Keys| && |above + keep| == |above| + |keep|;
    SubsetCount(AtLeast(t, t[x]), t.Keys);
    assert |t.Keys| == |t|;
  }

  lemma AboveInTop(t: Totals, top: set<Asn>, x: Asn, above: set<Asn>)
    requires top <= t.Keys && Weakest(t, top, x) && above == set k | k in t && t[k] > t[x]
    requires forall a, b :: a in top && b in t && b !in top ==> Beats(t, a, b)
    ensures |above| < |top|
  {
    forall k | k in above ensures k in top {
      assert k !in top ==> Beats(t, x, k);
    }
    SubsetCount(above + {x}, top);
  }

  /** It happens: of two ASNs with one request each, ranking keeps 1 and pruning to one entry may keep 2. */
  lemma TieLosesTop()
    ensures var t: Totals := map[1 := 1, 2 := 1]; var out: Totals := map[2 := 1];
      IsPruned(t, 1, out) && IsTop(t, 1, {1}) && !IsTop(out, 1, {1})
  {
    var t: Totals := map[1 := 1, 2 := 1];
    assert t.Keys == {1, 2};
    assert |t| == |t.Keys| == 2;
    var out: Totals := map[2 := 1];
    assert out.Keys == {2};
    assert |out| == |out.Keys| == 1;
    assert Decimal(1) == "1" && Decimal(2) == "2";
  }

  /** Exactly when pruning cannot change the top-n set, however ties are cut: when at most max ASNs
      reach the total of its weakest member. */
  lemma PruneKeepsTopExactly(t: Totals, n: nat, max: nat, top: set<Asn>, x: Asn)
    requires n <= max && IsTop(t, n, top) && Weakest(t, top, x)
    ensures (forall out :: IsPruned(t, max, out) ==> IsTop(out, n, top)) <==> |AtLeast(t, t[x])| <= max
  {
    if |AtLeast(t, t[x])| <= max {
      forall out | IsPruned(t, max, out) ensures IsTop(out, n, top) {
        TopSurvives(t, n, max, top, x, out);
      }
    } else {
      var out := TopCanBeLost(t, n, max, top, x);
      assert x in top && x !in out.Keys;
    }
  }

  // --- Labels

  /** The label of an ASN: its number and organisation if ranked, else a shared bucket. */
  function FoldAsn(asn: Asn, hasAsn: bool, org: string, top: set<Asn>): (string, string) {
    if !hasAsn then ("unknown", "unknown")
    else if asn in top then (Decimal(asn), org)
    else ("other", "other")
  }

  /** Ranked ASNs keep apart from each other and from both buckets. */
  lemma LabelsKeepApart(a: Asn, b: Asn, orgA: string, orgB: string, hasB: bool, top: set<Asn>)
    requires a in top && a != b
    ensures FoldAsn(a, true, orgA, top).0 != FoldAsn(b, hasB, orgB, top).0
  {
    assert Decimal(a)[0] == '-' || '0' <= Decimal(a)[0] <= '9';
    if hasB && b in top && Decimal(a) == Decimal(b) { DecimalInjective(a, b); }
    assert "unknown"[0] == 'u' && "other"[0] == 'o';
  }
}
