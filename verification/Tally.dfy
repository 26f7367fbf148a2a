/** Go's map[K]int64 counters and the multisets they stand for. */
module Tally {
  import opened Bytes

  /** A counter's value: an entry exists only once something was counted. */
  type pos = n: int | n > 0 witness 1

  function Get<K>(m: map<K, pos>, k: K): nat { if k in m then m[k] else 0 }

  /** One key counted n more times. */
  function Bump<K>(m: map<K, pos>, k: K, n: pos): map<K, pos> { m[k := Get(m, k) + n] }

  /** The multiset with as many copies of each key as the map counts. */
  ghost function Bag<K(!new)>(m: map<K, pos>): (b: multiset<K>)
    ensures forall k :: b[k] == Get(m, k)
    decreases |m|
  {
    if m == map[] then multiset{}
    else
      var k :| k in m;
      assert |m - {k}| < |m| by {
        assert (m - {k}).Keys == m.Keys - {k};
        assert |m| == |m.Keys| && |m - {k}| == |(m - {k}).Keys|;
      }
      Bag(m - {k})[k := m[k]]
  }

  /** The counters grew by these counts, key by key. */
  ghost predicate Grows<K(!new)>(m: map<K, pos>, m': map<K, pos>, added: multiset<K>) {
    forall k :: Get(m', k) == Get(m, k) + added[k]
  }

  lemma GrowsByBag<K(!new)>(m: map<K, pos>, m': map<K, pos>, added: multiset<K>)
    ensures Grows(m, m', added) <==> Bag(m') == Bag(m) + added
  {
    if Grows(m, m', added) {
      forall k ensures Bag(m')[k] == (Bag(m) + added)[k] { assert Get(m', k) == Get(m, k) + added[k]; }
    } else {
      var k :| Get(m', k) != Get(m, k) + added[k];
      assert Bag(m')[k] != (Bag(m) + added)[k];
    }
  }

  /** The map is determined by its multiset, entries and all. */
  lemma BagInjective<K(!new)>(a: map<K, pos>, b: map<K, pos>)
    requires Bag(a) == Bag(b)
    ensures a == b
  {
    assert forall k :: k in a <==> Bag(a)[k] > 0;
    assert forall k :: k in b <==> Bag(b)[k] > 0;
    assert forall k :: k in a ==> a[k] == Bag(a)[k] && b[k] == Bag(b)[k];
  }

  lemma BumpAdds<K(!new)>(m: map<K, pos>, k: K, n: pos)
    ensures Bag(Bump(m, k, n)) == Bag(m) + multiset{}[k := n]
  {
  }

  lemma BumpOne<K(!new)>(m: map<K, pos>, k: K)
    ensures Bag(Bump(m, k, 1)) == Bag(m) + multiset{k}
  {
  }

  /** Adds one map of counters to another, in whatever order it is walked. */
  method AddCounts<K(==, !new)>(into: map<K, pos>, from: map<K, pos>) returns (r: map<K, pos>)
    ensures Bag(r) == Bag(into) + Bag(from)
  {
    r := into;
    var todo := from.Keys;
    while todo != {}
      invariant todo <= from.Keys
      invariant forall k :: Get(r, k) == Get(into, k) + (if k in todo then 0 else Get(from, k))
    {
      var k :| k in todo;
      r := Bump(r, k, from[k]);
      todo := todo - {k};
    }
  }

  // --- Renaming the keys of a multiset

  ghost function Pick<K>(m: multiset<K>): (k: K)
    requires m != multiset{}
    ensures k in m
  {
    var k :| k in m; k
  }

  /** Every key replaced by its images, copies kept. */
  ghost function Image<K, L>(m: multiset<K>, f: K -> multiset<L>): multiset<L>
    decreases |m|
  {
    if m == multiset{} then multiset{}
    else var k := Pick(m); Image(m - multiset{k}, f) + f(k)
  }

  lemma MoveOne<K>(m: multiset<K>, j: K, k: K)
    requires j in m + multiset{k}
    ensures j == k ==> (m + multiset{k}) - multiset{j} == m
    ensures j != k ==> (m + multiset{k}) - multiset{j} == (m - multiset{j}) + multiset{k}
    ensures j != k ==> m == (m - multiset{j}) + multiset{j} && |m - multiset{j}| < |m|
  {
  }

  /** The image does not depend on the order the keys are met in. */
  lemma {:induction false} ImageOne<K, L>(m: multiset<K>, k: K, f: K -> multiset<L>)
    ensures Image(m + multiset{k}, f) == Image(m, f) + f(k)
    decreases |m|
  {
    var j := Pick(m + multiset{k});
    var rest := m - multiset{j};
    MoveOne(m, j, k);
    if j != k {
      ImageOne(rest, k, f);
      ImageOne(rest, j, f);
    }
  }

  /** n copies of a multiset. */
  ghost function Times<L>(b: multiset<L>, n: nat): multiset<L> {
    if n == 0 then multiset{} else Times(b, n - 1) + b
  }

  lemma Regroup<L>(a: multiset<L>, b: multiset<L>, c: multiset<L>)
    ensures (a + b) + c == a + (b + c)
  {
  }

  lemma AddNothing<K>(b: multiset<K>)
    ensures b + multiset{} == b
  {
  }

  lemma {:induction false} ImageMany<K, L>(m: multiset<K>, k: K, n: nat, f: K -> multiset<L>)
    ensures Image(m + Times(multiset{k}, n), f) == Image(m, f) + Times(f(k), n)
    decreases n
  {
    if n == 0 {
      AddNothing(m);
      AddNothing(Image(m, f));
    } else {
      var copies := Times(multiset{k}, n - 1);
      ImageMany(m, k, n - 1, f);
      Regroup(m, copies, multiset{k});
      ImageOne(m + copies, k, f);
      Regroup(Image(m, f), Times(f(k), n - 1), f(k));
    }
  }

  lemma {:induction false} ImageCount<K(!new), L>(m: multiset<K>, f: K -> multiset<L>)
    requires forall k :: |f(k)| == 1
    ensures |Image(m, f)| == |m|
    decreases |m|
  {
    if m != multiset{} { ImageCount(m - multiset{Pick(m)}, f); }
  }

  lemma {:induction false} ImageUnion<K, L>(a: multiset<K>, b: multiset<K>, f: K -> multiset<L>)
    ensures Image(a + b, f) == Image(a, f) + Image(b, f)
    decreases |b|
  {
    if b == multiset{} {
      AddNothing(a);
      AddNothing(Image(a, f));
    } else {
      var k := Pick(b);
      var rest := b - multiset{k};
      ImageUnion(a, rest, f);
      assert b == rest + multiset{k};
      Regroup(a, rest, multiset{k});
      ImageOne(a + rest, k, f);
      Regroup(Image(a, f), Image(rest, f), f(k));
    }
  }

  /** A name that only one key can get is as frequent as that key, if it gets it. */
  lemma {:induction false} ImageOfOne<K(!new), L>(m: multiset<K>, f: K -> multiset<L>, k: K, l: L)
    requires f(k)[l] <= 1 && forall j :: l in f(j) ==> j == k
    ensures Image(m, f)[l] == if l in f(k) then m[k] else 0
    decreases |m|
  {
    if m != multiset{} { ImageOfOne(m - multiset{Pick(m)}, f, k, l); }
  }

  /** One name counted against a whole other image. */
  lemma {:induction false} ImageCountsImage<K(!new), L, M>(
    m: multiset<K>, f: K -> multiset<L>, l: L, g: K -> multiset<M>)
    requires forall k :: f(k)[l] == |g(k)|
    ensures Image(m, f)[l] == |Image(m, g)|
    decreases |m|
  {
    if m != multiset{} { ImageCountsImage(m - multiset{Pick(m)}, f, l, g); }
  }

  /** What an image contains. */
  lemma {:induction false} ImageMembers<K, L>(m: multiset<K>, f: K -> multiset<L>, l: L)
    ensures l in Image(m, f) <==> exists k :: k in m && l in f(k)
    decreases |m|
  {
    if m != multiset{} {
      var j := Pick(m);
      ImageMembers(m - multiset{j}, f, l);
      assert forall k :: k in m <==> k in m - multiset{j} || k == j;
    }
  }

  lemma {:induction false} TimesOne<L>(l: L, n: nat)
    ensures Times(multiset{l}, n) == multiset{}[l := n]
  {
    if n > 0 { TimesOne(l, n - 1); }
  }

  /** A renaming that may drop keys, as a map from keys to images. */
  ghost function Renaming<K, L>(rename: K -> Option<L>): K -> multiset<L> {
    k => if rename(k).Some? then multiset{rename(k).value} else multiset{}
  }

  lemma {:induction false} TimesNone<L>(n: nat)
    ensures Times<L>(multiset{}, n) == multiset{}
  {
    if n > 0 { TimesNone<L>(n - 1); }
  }

  /** One pass of the loop below: n copies of k arrive under k's new name. */
  lemma RenameOne<K(!new), L(!new)>(
    r: map<L, pos>, seen: multiset<K>, k: K, n: pos, rename: K -> Option<L>, base: multiset<L>)
    requires Bag(r) == base + Image(seen, Renaming(rename))
    ensures var r' := if rename(k).Some? then Bump(r, rename(k).value, n) else r;
            Bag(r') == base + Image(seen + multiset{}[k := n], Renaming(rename))
  {
    TimesOne(k, n);
    ImageMany(seen, k, n, Renaming(rename));
    Regroup(base, Image(seen, Renaming(rename)), Times(Renaming(rename)(k), n));
    if rename(k).Some? {
      TimesOne(rename(k).value, n);
      BumpAdds(r, rename(k).value, n);
    } else {
      TimesNone<L>(n);
      AddNothing(Bag(r));
    }
  }

  /** Adds one map of counters to another under new names, keys without a name left out. */
  method AddRenamed<K(==, !new), L(==, !new)>(into: map<L, pos>, from: map<K, pos>, rename: K -> Option<L>)
      returns (r: map<L, pos>)
    ensures Bag(r) == Bag(into) + Image(Bag(from), Renaming(rename))
  {
    r := into;
    var todo := from.Keys;
    ghost var seen: multiset<K> := multiset{};
    AddNothing(Bag(into));
    while todo != {}
      invariant todo <= from.Keys
      invariant forall k :: seen[k] == if k in todo then 0 else Get(from, k)
      invariant Bag(r) == Bag(into) + Image(seen, Renaming(rename))
    {
      var k :| k in todo;
      RenameOne(r, seen, k, from[k], rename, Bag(into));
      if rename(k).Some? {
        r := Bump(r, rename(k).value, from[k]);
      }
      seen := seen + multiset{}[k := from[k]];
      todo := todo - {k};
    }
    assert seen == Bag(from);
  }
}
