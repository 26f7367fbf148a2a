/** Sizes of sets and maps, and numbers of elements of sequences. */
module MapCounts {

  lemma SubsetCount<T>(a: set<T>, b: set<T>)
    requires a <= b
    ensures |a| <= |b|
  {
    assert b == a + (b - a);
  }

  lemma MapRemoveCount<K, V>(m: map<K, V>, ks: set<K>)
    requires ks <= m.Keys
    ensures |m - ks| == |m| - |ks|
  {
    assert (m - ks).Keys == m.Keys - ks;
    assert |m| == |m.Keys| && |m - ks| == |(m - ks).Keys|;
  }

  lemma MapAddCount<K, V>(m: map<K, V>, k: K, v: V)
    ensures |m[k := v]| == |m| + (if k in m then 0 else 1)
  {
    assert m[k := v].Keys == m.Keys + {k};
    assert |m| == |m.Keys| && |m[k := v]| == |m[k := v].Keys|;
  }

  lemma MapUnionCount<K, V>(m: map<K, V>, d: map<K, V>)
    requires m.Keys !! d.Keys
    ensures |m + d| == |m| + |d|
  {
    assert (m + d).Keys == m.Keys + d.Keys;
    assert |m| == |m.Keys| && |d| == |d.Keys| && |m + d| == |(m + d).Keys|;
  }

  /** How many elements have a property. */
  ghost function NumberOf<T>(s: seq<T>, which: T -> bool): nat {
    if s == [] then 0 else NumberOf(s[..|s| - 1], which) + (if which(s[|s| - 1]) then 1 else 0)
  }

  lemma NumberOfSnoc<T>(s: seq<T>, x: T, which: T -> bool)
    ensures NumberOf(s + [x], which) == NumberOf(s, which) + (if which(x) then 1 else 0)
  {
    assert (s + [x])[..|s|] == s;
  }

  ghost function Positions<T>(s: seq<T>, which: T -> bool): set<int> { set i | 0 <= i < |s| && which(s[i]) }

  lemma PositionsSnoc<T>(s: seq<T>, x: T, which: T -> bool)
    ensures Positions(s + [x], which) == Positions(s, which) + (if which(x) then {|s|} else {})
  {
    var all := s + [x];
    assert forall i :: 0 <= i < |s| ==> all[i] == s[i];
    assert all[|s|] == x;
  }

  /** It is the number of their positions. */
  lemma {:induction false} NumberOfIs<T>(s: seq<T>, which: T -> bool)
    ensures NumberOf(s, which) == |Positions(s, which)|
  {
    if s != [] {
      var init, x := s[..|s| - 1], s[|s| - 1];
      assert s == init + [x];
      NumberOfIs(init, which);
      PositionsSnoc(init, x, which);
      NumberOfSnoc(init, x, which);
    }
  }
}
