/** The fixed-precision HyperLogLog sketch of exporter/internal/hll/hll.go.

    A register vector is first described by what it stands for: `Represents(r, p, sha1, s)`
    says that `r` is the sketch of the set of keys `s`.  Add, Merge, Clone and Count are then
    proved to compute on the arrays exactly what that description demands. */
module HyperLogLog {
  import opened Bytes

  type Digest = s: Bytes | |s| == 20 witness seq(20, _ => 0)
  type Hash = Bytes -> Digest

  type Registers = seq<byte>

  predicate Precision(p: int) { 4 <= p <= 16 }

  /** One byte of a word, two, four and eight, the first weighing most. */
  lemma TwoBytes(s: Bytes)
    requires |s| >= 2
    ensures BigEndian(s) == BigEndian(s[..|s| - 2]) * 0x1_0000 + (s[|s| - 2] as int) * 0x100 + s[|s| - 1]
  {
    var t := s[..|s| - 1];
    assert t[..|t| - 1] == s[..|s| - 2];
  }

  /** What the word is, byte by byte: the first byte of the digest weighs most. */
  lemma WordIs(sha1: Hash, key: Bytes)
    ensures var d := sha1(key);
      Word(sha1, key) == (d[0] as int) * 0x100_0000_0000_0000 + (d[1] as int) * 0x1_0000_0000_0000
                       + (d[2] as int) * 0x100_0000_0000 + (d[3] as int) * 0x1_0000_0000
                       + (d[4] as int) * 0x100_0000 + (d[5] as int) * 0x1_0000 + (d[6] as int) * 0x100 + d[7]
  {
    var s := sha1(key)[..8];
    TwoBytes(s);
    TwoBytes(s[..6]);
    TwoBytes(s[..4]);
    TwoBytes(s[..2]);
    assert s[..6][..4] == s[..4] && s[..4][..2] == s[..2] && s[..2][..0] == [];
  }

  /** The first eight digest bytes as a big-endian word. */
  function Word(sha1: Hash, key: Bytes): (v: nat)
    ensures v < TWO64
  {
    BigEndianBound(sha1(key)[..8]);
    Pow2Of64(8 * |sha1(key)[..8]|);
    BigEndian(sha1(key)[..8])
  }

  function BitLen(w: nat): (n: nat)
    ensures w < Pow2(n)
    ensures w > 0 ==> n > 0 && Pow2(n - 1) <= w
  {
    if w == 0 then 0 else 1 + BitLen(w / 2)
  }

  /** The register a word selects: its top p bits. */
  function Index(p: nat, v: nat): (i: nat)
    requires Precision(p) && v < TWO64
    ensures i < Pow2(p)
  {
    Pow2Of64((64 - p) + p);
    ShrBound(v, 64 - p, p);
    Shr(v, 64 - p)
  }

  /** The words of one register are consecutive: i is selected by those from i 2^(64 - p) up to the next multiple. */
  lemma IndexIs(p: nat, v: nat, unit: nat)
    requires Precision(p) && v < TWO64 && unit == Pow2(64 - p)
    ensures Index(p, v) * unit <= v < Index(p, v) * unit + unit
  {
    ShiftSplits(v, 64 - p);
  }

  /** The rank of a word: one plus the number of leading zeros of its low 64 - p bits. */
  function Rank(p: nat, v: nat): (rho: nat)
    requires Precision(p)
    ensures 1 <= rho <= 65 - p
    ensures Low(v, 64 - p) < Pow2(65 - p - rho)
    ensures rho < 65 - p ==> Pow2(64 - p - rho) <= Low(v, 64 - p)
  {
    var w := Low(v, 64 - p);
    if w == 0 then 65 - p
    else
      BitLenBound(w, 64 - p);
      65 - p - BitLen(w)
  }

  lemma BitLenBound(w: nat, n: nat)
    requires 0 < w < Pow2(n)
    ensures BitLen(w) <= n
  {
    if BitLen(w) > n { Pow2Monotone(n, BitLen(w) - 1); }
  }

  function IndexOf(p: nat, sha1: Hash, key: Bytes): (i: nat)
    requires Precision(p)
    ensures i < Pow2(p)
  {
    Index(p, Word(sha1, key))
  }

  function RankOf(p: nat, sha1: Hash, key: Bytes): (rho: nat)
    requires Precision(p)
    ensures 1 <= rho <= 65 - p
  {
    Rank(p, Word(sha1, key))
  }

  // --- What a register vector stands for

  ghost predicate Attained(v: byte, i: nat, p: nat, sha1: Hash, s: set<Bytes>)
    requires Precision(p)
  {
    exists k :: k in s && IndexOf(p, sha1, k) == i && RankOf(p, sha1, k) == v
  }

  /** Register i holds the largest rank among the keys of `s` that select i, and 0 if there are none. */
  ghost predicate Represents(r: Registers, p: nat, sha1: Hash, s: set<Bytes>)
    requires Precision(p)
  {
    && |r| == Pow2(p)
    && (forall k :: k in s ==> RankOf(p, sha1, k) <= r[IndexOf(p, sha1, k)])
    && (forall i :: 0 <= i < |r| ==> r[i] == 0 || Attained(r[i], i, p, sha1, s))
  }

  /** A set of keys has one sketch. */
  lemma SketchIsUnique(a: Registers, b: Registers, p: nat, sha1: Hash, s: set<Bytes>)
    requires Precision(p) && Represents(a, p, sha1, s) && Represents(b, p, sha1, s)
    ensures a == b
  {
    forall i | 0 <= i < |a|
      ensures a[i] == b[i]
    {
      if a[i] != 0 { assert Attained(a[i], i, p, sha1, s); }
      if b[i] != 0 { assert Attained(b[i], i, p, sha1, s); }
    }
  }

  /** No register exceeds 65 - p, so the narrowing to a byte and the 64-bit shift lose nothing. */
  lemma RegisterBound(r: Registers, p: nat, sha1: Hash, s: set<Bytes>, i: nat)
    requires Precision(p) && Represents(r, p, sha1, s) && i < |r|
    ensures r[i] <= 65 - p
    ensures r[i] % 256 == r[i] && Pow2(r[i]) % TWO64 == Pow2(r[i])
  {
    if r[i] != 0 {
      assert Attained(r[i], i, p, sha1, s);
    }
    ShiftFits(r[i]);
  }

  // --- The two updates on register values

  function Zero(p: nat): (r: Registers)
    requires Precision(p)
    ensures |r| == Pow2(p)
  {
    seq(Pow2(p), _ => 0)
  }

  function AddKey(r: Registers, p: nat, sha1: Hash, key: Bytes): (q: Registers)
    requires Precision(p) && |r| == Pow2(p)
    ensures |q| == |r|
  {
    var i := IndexOf(p, sha1, key);
    r[i := Max(r[i], RankOf(p, sha1, key))]
  }

  function Join(a: Registers, b: Registers): (r: Registers)
    requires |a| == |b|
    ensures |r| == |a|
  {
    seq(|a|, i requires 0 <= i < |a| => Max(a[i], b[i]))
  }

  lemma ZeroRepresents(p: nat, sha1: Hash, s: set<Bytes>)
    requires Precision(p)
    ensures Represents(Zero(p), p, sha1, s) <==> s == {}
  {
    if s != {} {
      var k :| k in s;
      assert Zero(p)[IndexOf(p, sha1, k)] == 0;
    }
  }

  lemma AddRepresents(r: Registers, p: nat, sha1: Hash, s: set<Bytes>, key: Bytes)
    requires Precision(p) && Represents(r, p, sha1, s)
    ensures Represents(AddKey(r, p, sha1, key), p, sha1, s + {key})
  {
    var q := AddKey(r, p, sha1, key);
    forall i | 0 <= i < |q|
      ensures q[i] == 0 || Attained(q[i], i, p, sha1, s + {key})
    {
      if q[i] != r[i] {
        assert key in s + {key};
      } else if q[i] != 0 {
        assert Attained(r[i], i, p, sha1, s);
        var k :| k in s && IndexOf(p, sha1, k) == i && RankOf(p, sha1, k) == r[i];
        assert k in s + {key};
      }
    }
  }

  /** Merging sketches is the sketch of the union. */
  lemma JoinRepresents(a: Registers, b: Registers, p: nat, sha1: Hash, s: set<Bytes>, t: set<Bytes>)
    requires Precision(p) && Represents(a, p, sha1, s) && Represents(b, p, sha1, t)
    ensures Represents(Join(a, b), p, sha1, s + t)
  {
    var r := Join(a, b);
    forall i | 0 <= i < |r|
      ensures r[i] == 0 || Attained(r[i], i, p, sha1, s + t)
    {
      if r[i] != 0 {
        var side := if r[i] == a[i] then s else t;
        assert Attained(r[i], i, p, sha1, side);
        var k :| k in side && IndexOf(p, sha1, k) == i && RankOf(p, sha1, k) == r[i];
        assert k in s + t;
      }
    }
  }

  /** Keys added one after another. */
  function AddAll(r: Registers, p: nat, sha1: Hash, keys: seq<Bytes>): (q: Registers)
    requires Precision(p) && |r| == Pow2(p)
    ensures |q| == |r|
  {
    if keys == [] then r
    else AddKey(AddAll(r, p, sha1, keys[..|keys| - 1]), p, sha1, keys[|keys| - 1])
  }

  ghost function KeySet(keys: seq<Bytes>): set<Bytes> { set k | k in keys }

  lemma KeySetLast(s: set<Bytes>, init: seq<Bytes>, last: Bytes)
    ensures s + KeySet(init) + {last} == s + KeySet(init + [last])
  {
    var all := init + [last];
    assert all[|init|] == last;
    assert forall i :: 0 <= i < |init| ==> all[i] == init[i];
  }

  lemma {:induction false} AddAllRepresents(r: Registers, p: nat, sha1: Hash, s: set<Bytes>, keys: seq<Bytes>)
    requires Precision(p) && Represents(r, p, sha1, s)
    ensures Represents(AddAll(r, p, sha1, keys), p, sha1, s + KeySet(keys))
  {
    if keys == [] {
      assert s + KeySet(keys) == s;
    } else {
      var init, last := keys[..|keys| - 1], keys[|keys| - 1];
      AddAllRepresents(r, p, sha1, s, init);
      AddRepresents(AddAll(r, p, sha1, init), p, sha1, s + KeySet(init), last);
      KeySetLast(s, init, last);
      assert keys == init + [last];
    }
  }

  /** Order and repetition of the added keys are irrelevant. */
  lemma AddOrderIrrelevant(p: nat, sha1: Hash, xs: seq<Bytes>, ys: seq<Bytes>)
    requires Precision(p) && KeySet(xs) == KeySet(ys)
    ensures AddAll(Zero(p), p, sha1, xs) == AddAll(Zero(p), p, sha1, ys)
  {
    ZeroRepresents(p, sha1, {});
    AddAllRepresents(Zero(p), p, sha1, {}, xs);
    AddAllRepresents(Zero(p), p, sha1, {}, ys);
    SketchIsUnique(AddAll(Zero(p), p, sha1, xs), AddAll(Zero(p), p, sha1, ys), p, sha1, {} + KeySet(xs));
  }

  /** A sketch that saw two streams equals the merge of one sketch per stream. */
  lemma MergeIsSketchOfUnion(p: nat, sha1: Hash, xs: seq<Bytes>, ys: seq<Bytes>)
    requires Precision(p)
    ensures Join(AddAll(Zero(p), p, sha1, xs), AddAll(Zero(p), p, sha1, ys)) == AddAll(Zero(p), p, sha1, xs + ys)
  {
    ZeroRepresents(p, sha1, {});
    AddAllRepresents(Zero(p), p, sha1, {}, xs);
    AddAllRepresents(Zero(p), p, sha1, {}, ys);
    AddAllRepresents(Zero(p), p, sha1, {}, xs + ys);
    var a, b := AddAll(Zero(p), p, sha1, xs), AddAll(Zero(p), p, sha1, ys);
    JoinRepresents(a, b, p, sha1, {} + KeySet(xs), {} + KeySet(ys));
    assert {} + KeySet(xs) + ({} + KeySet(ys)) == {} + KeySet(xs + ys);
    SketchIsUnique(Join(a, b), AddAll(Zero(p), p, sha1, xs + ys), p, sha1, {} + KeySet(xs + ys));
  }

  // --- The estimator's inputs

  /** The sum of 2^-r over the registers. */
  function HarmonicSum(r: Registers): (h: real)
    ensures h >= 0.0 && (r != [] ==> h > 0.0)
  {
    if r == [] then 0.0
    else HarmonicSum(r[..|r| - 1]) + 1.0 / (Pow2(r[|r| - 1]) as real)
  }

  function ZeroCount(r: Registers): (z: nat)
    ensures z <= |r|
  {
    if r == [] then 0
    else ZeroCount(r[..|r| - 1]) + (if r[|r| - 1] == 0 then 1 else 0)
  }

  ghost predicate Below(a: Registers, b: Registers)
  {
    |a| == |b| && forall i :: 0 <= i < |a| ==> a[i] <= b[i]
  }

  lemma ReciprocalAntitone(x: nat, y: nat)
    requires x <= y
    ensures 1.0 / (Pow2(y) as real) <= 1.0 / (Pow2(x) as real)
  {
    Pow2Monotone(x, y);
    var a, b := Pow2(x) as real, Pow2(y) as real;
    assert 1.0 / a - 1.0 / b == (b - a) / (a * b);
  }

  /** Raising registers never raises the harmonic sum or the number of empty registers. */
  lemma {:induction false} HarmonicAntitone(a: Registers, b: Registers)
    requires Below(a, b)
    ensures HarmonicSum(b) <= HarmonicSum(a) && ZeroCount(b) <= ZeroCount(a)
  {
    if a != [] {
      HarmonicAntitone(a[..|a| - 1], b[..|b| - 1]);
      ReciprocalAntitone(a[|a| - 1], b[|b| - 1]);
    }
  }

  /** Neither Add nor Merge ever lowers a register, so neither ever raises the harmonic sum. */
  lemma UpdatesOnlyRaise(a: Registers, b: Registers, p: nat, sha1: Hash, key: Bytes)
    requires Precision(p) && |a| == |b| == Pow2(p)
    ensures Below(a, AddKey(a, p, sha1, key)) && Below(a, Join(a, b))
    ensures 0.0 < HarmonicSum(AddKey(a, p, sha1, key)) <= HarmonicSum(a)
    ensures 0.0 < HarmonicSum(Join(a, b)) <= HarmonicSum(a)
  {
    HarmonicAntitone(a, AddKey(a, p, sha1, key));
    HarmonicAntitone(a, Join(a, b));
  }

  /** The empty registers are counted one by one. */
  lemma {:induction false} ZeroCountIs(r: Registers)
    ensures ZeroCount(r) == |set i | 0 <= i < |r| && r[i] == 0|
  {
    var all := set i | 0 <= i < |r| && r[i] == 0;
    if r != [] {
      var n := |r| - 1;
      ZeroCountIs(r[..n]);
      var before := set i | 0 <= i < n && r[..n][i] == 0;
      assert all == if r[n] == 0 then before + {n} else before;
    }
  }

  /** Each register contributes two to the power of minus its value: of all-zero registers the sum is their number, and
      changing one changes the sum by just its contribution. */
  lemma {:induction false} HarmonicSumOfZeros(r: Registers)
    requires forall i :: 0 <= i < |r| ==> r[i] == 0
    ensures HarmonicSum(r) == |r| as real
  {
    if r != [] { HarmonicSumOfZeros(r[..|r| - 1]); }
  }

  lemma {:induction false} HarmonicSumUpdate(r: Registers, i: nat, v: byte)
    requires i < |r|
    ensures HarmonicSum(r[i := v]) == HarmonicSum(r) - 1.0 / (Pow2(r[i]) as real) + 1.0 / (Pow2(v) as real)
  {
    var n := |r| - 1;
    if i == n {
      assert r[i := v][..n] == r[..n];
    } else {
      HarmonicSumUpdate(r[..n], i, v);
      assert r[i := v][..n] == r[..n][i := v];
    }
  }

  function Alpha(m: nat): real
    requires m > 0
  {
    0.7213 / (1.0 + 1.079 / (m as real))
  }

  /** The raw HyperLogLog estimate, and the linear count for sparse sketches. */
  function RawEstimate(m: nat, raw: real): real
    requires m > 0 && raw > 0.0
  {
    Alpha(m) * (m as real) * (m as real) / raw
  }

  function LinearCount(m: nat, zeros: nat, ln: real -> real): real
    requires zeros > 0
  {
    (m as real) * ln((m as real) / (zeros as real))
  }

  /** The cardinality estimate of a register vector, `ln` being the natural logarithm. */
  function Estimate(r: Registers, ln: real -> real): real
    requires r != []
  {
    var raw, zeros := RawEstimate(|r|, HarmonicSum(r)), ZeroCount(r);
    if raw <= 2.5 * (|r| as real) && zeros > 0 then LinearCount(|r|, zeros, ln) else raw
  }

  /** The estimate is the linear count when the raw one is at most 2.5 per register and some register is empty. */
  lemma SparseEstimate(r: Registers, ln: real -> real)
    requires r != [] && RawEstimate(|r|, HarmonicSum(r)) <= 2.5 * (|r| as real) && ZeroCount(r) > 0
    ensures Estimate(r, ln) == LinearCount(|r|, ZeroCount(r), ln)
  {
  }

  /** And else the raw one. */
  lemma DenseEstimate(r: Registers, ln: real -> real)
    requires r != [] && (RawEstimate(|r|, HarmonicSum(r)) > 2.5 * (|r| as real) || ZeroCount(r) == 0)
    ensures Estimate(r, ln) == RawEstimate(|r|, HarmonicSum(r))
  {
  }

  /** The raw estimate e of m registers with harmonic sum h is the one with e (1 + 1.079 / m) h = 0.7213 m^2. */
  lemma RawEstimateIs(n: nat, m: real, h: real, e: real)
    requires n > 0 && m == n as real && h > 0.0 && e * ((1.0 + 1.079 / m) * h) == 0.7213 * m * m
    ensures RawEstimate(n, h) == e
  {
    QuotientIs(m, h, e, Alpha(n), 1.0 + 1.079 / m);
  }

  lemma QuotientIs(m: real, h: real, e: real, alpha: real, d: real)
    requires m > 0.0 && h > 0.0 && d > 0.0 && alpha == 0.7213 / d && e * (d * h) == 0.7213 * m * m
    ensures alpha * m * m / h == e
  {
    assert alpha * d == 0.7213;
    assert (alpha * m * m) * d == (alpha * d) * m * m;
    assert (e * h) * d == e * (d * h);
    Divide(alpha * m * m, e * h, d);
    Divide(alpha * m * m / h, e, h);
  }

  /** The linear count of n registers, z of them empty, is n ln(x), x being n over z. */
  lemma LinearCountIs(n: nat, z: nat, ln: real -> real, m: real, x: real)
    requires z > 0 && m == n as real && x * (z as real) == m
    ensures LinearCount(n, z, ln) == m * ln(x)
  {
    var d := z as real;
    Divide(m / d, x, d);
    assert m / d == x;
  }

  lemma Divide(x: real, y: real, d: real)
    requires d > 0.0
    ensures x * d == y * d ==> x == y
  {
    if x != y { assert (x - y) * d != 0.0; }
  }

  /** A sketch of nobody estimates nobody. */
  lemma EmptyEstimatesNone(r: Registers, ln: real -> real)
    requires r != [] && ln(1.0) == 0.0 && forall i :: 0 <= i < |r| ==> r[i] == 0
    ensures Estimate(r, ln) == 0.0
  {
    HarmonicSumOfZeros(r);
    AllZeros(r);
    SmallRaw(|r|, |r| as real);
    SparseEstimate(r, ln);
    LinearCountIs(|r|, |r|, ln, |r| as real, 1.0);
  }

  lemma SmallRaw(n: nat, m: real)
    requires n > 0 && m == n as real
    ensures RawEstimate(n, m) <= 2.5 * m
  {
    var a := Alpha(n);
    SmallQuotient(0.7213, 1.0 + 1.079 / m);
    assert a * m * m / m == a * m;
    assert (0.7213 - a) * m >= 0.0;
  }

  lemma {:induction false} AllZeros(r: Registers)
    requires forall i :: 0 <= i < |r| ==> r[i] == 0
    ensures ZeroCount(r) == |r|
  {
    if r != [] { AllZeros(r[..|r| - 1]); }
  }

  lemma SmallQuotient(x: real, d: real)
    requires x >= 0.0 && d >= 1.0
    ensures x / d <= x
  {
    assert x - x / d == (x / d) * (d - 1.0);
  }

  // --- The sketch object

  /** The first eight digest bytes, folded most significant byte first. */
  method FirstWord(sum: Digest) returns (v: nat)
    ensures v == BigEndian(sum[..8])
  {
    v := 0;
    for i := 0 to 8
      invariant v == BigEndian(sum[..i])
    {
      assert sum[..i + 1][..i] == sum[..i];
      v := v * 256 + sum[i];
    }
  }

  /** Splits a word into the register it selects and the rank of its remaining bits. */
  method Locate(p: nat, bits: nat, v: nat) returns (idx: nat, rho: nat)
    requires Precision(p) && bits == 64 - p && v < TWO64
    ensures idx == Index(p, v) && rho == Rank(p, v)
  {
    idx := Shr(v, bits);
    var w := Low(v, bits);
    if w == 0 {
      rho := bits + 1;
    } else {
      BitLenBound(w, bits);
      rho := bits - BitLen(w) + 1;
    }
  }

  class Sketch {
    const p: nat
    const bits: nat
    const m: nat
    const registers: array<byte>

    ghost predicate Valid()
      reads registers
    {
      && Precision(p) && bits == 64 - p && m == Pow2(p) && registers.Length == m
      && forall i :: 0 <= i < registers.Length ==> registers[i] <= 65 - p
    }

    constructor (p: nat)
      requires Precision(p)
      ensures Valid() && fresh(registers) && this.p == p && registers[..] == Zero(p)
    {
      this.p, bits, m := p, 64 - p, Pow2(p);
      registers := new byte[Pow2(p)](_ => 0);
    }

    /** Hashes the key and raises the register it selects. */
    method Add(sha1: Hash, key: Bytes)
      requires Valid()
      modifies registers
      ensures Valid() && registers[..] == AddKey(old(registers[..]), p, sha1, key)
    {
      var v := FirstWord(sha1(key));
      assert v == Word(sha1, key);
      var idx, rho := Locate(p, bits, v);
      Raise(idx, rho);
    }

    /** Raises one register to the given rank. */
    method Raise(idx: nat, rho: nat)
      requires Valid() && idx < m && rho <= 65 - p
      modifies registers
      ensures Valid()
      ensures registers[..] == old(registers[..])[idx := Max(old(registers[idx]), rho)]
    {
      if rho % 256 > registers[idx] {
        registers[idx] := rho % 256;
      }
    }

    /** Register-wise maximum of `other` into this sketch, which may be the same one. */
    method Merge(other: Sketch)
      requires Valid() && other.Valid() && other.p == p
      modifies registers
      ensures Valid() && registers[..] == Join(old(registers[..]), old(other.registers[..]))
    {
      for i := 0 to registers.Length
        invariant forall j :: 0 <= j < i ==> registers[j] == Max(old(registers[j]), old(other.registers[j]))
        invariant forall j :: i <= j < registers.Length ==>
          registers[j] == old(registers[j]) && other.registers[j] == old(other.registers[j])
      {
        if other.registers[i] > registers[i] {
          registers[i] := other.registers[i];
        }
      }
    }

    /** An independent copy. */
    method Clone() returns (c: Sketch)
      requires Valid()
      ensures fresh(c) && fresh(c.registers) && c.Valid() && c.p == p && c.registers[..] == registers[..]
    {
      c := new Sketch(p);
      for i := 0 to registers.Length
        invariant forall j :: 0 <= j < i ==> c.registers[j] == registers[j]
        invariant c.Valid()
      {
        c.registers[i] := registers[i];
      }
    }

    /** The cardinality estimate; the shift never overflows and the divisor is never zero. */
    method Count(ln: real -> real) returns (estimate: real)
      requires Valid()
      ensures estimate == Estimate(registers[..], ln)
    {
      var raw, zeros := Scan();
      assert |registers[..]| == m;
      estimate := RawEstimate(m, raw);
      if estimate <= 2.5 * (m as real) && zeros > 0 {
        estimate := LinearCount(m, zeros, ln);
      }
    }

    method Scan() returns (raw: real, zeros: nat)
      requires Valid()
      ensures raw == HarmonicSum(registers[..]) && zeros == ZeroCount(registers[..])
    {
      raw, zeros := 0.0, 0;
      for i := 0 to registers.Length
        invariant raw == HarmonicSum(registers[..i]) && zeros == ZeroCount(registers[..i])
      {
        var r := registers[i];
        assert registers[..i + 1][..i] == registers[..i];
        assert Pow2(r) % TWO64 == Pow2(r) by { ShiftFits(r); }
        raw := raw + 1.0 / ((Pow2(r) % TWO64) as real);
        if r == 0 {
          zeros := zeros + 1;
        }
      }
      assert registers[..registers.Length] == registers[..];
    }
  }
}
