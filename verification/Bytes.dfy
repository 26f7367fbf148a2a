/** Bytes, powers of two and big-endian words, shared by every component. */
module Bytes {

  type byte = x: int | 0 <= x < 256

  /** A Go string or byte slice. */
  type Bytes = seq<byte>

  datatype Option<+T> = None | Some(value: T)

  function Max(a: int, b: int): int { if a < b then b else a }

  function Min(a: int, b: int): int { if a < b then a else b }

  function Pow2(n: nat): (r: nat)
    ensures r >= 1
  {
    if n == 0 then 1 else 2 * Pow2(n - 1)
  }

  lemma {:induction false} Pow2Add(a: nat, b: nat)
    ensures Pow2(a + b) == Pow2(a) * Pow2(b)
  {
    if a > 0 {
      Pow2Add(a - 1, b);
      assert Pow2(a + b) == 2 * Pow2(a - 1 + b);
      assert 2 * (Pow2(a - 1) * Pow2(b)) == (2 * Pow2(a - 1)) * Pow2(b);
    }
  }

  lemma {:induction false} Pow2Monotone(a: nat, b: nat)
    requires a <= b
    ensures Pow2(a) <= Pow2(b)
    ensures a < b ==> 2 * Pow2(a) <= Pow2(b)
  {
    if a < b {
      Pow2Monotone(a, b - 1);
    }
  }

  /** The number a big-endian byte string denotes. */
  function BigEndian(s: Bytes): nat
  {
    if s == [] then 0 else BigEndian(s[..|s| - 1]) * 256 + s[|s| - 1]
  }

  lemma {:induction false} BigEndianBound(s: Bytes)
    ensures BigEndian(s) < Pow2(8 * |s|)
  {
    if s != [] {
      BigEndianBound(s[..|s| - 1]);
      Pow2Add(8 * (|s| - 1), 8);
      assert Pow2(8) == 256;
      assert 8 * |s| == 8 * (|s| - 1) + 8;
    }
  }

  // --- Shifts and masks

  /** v >> n */
  function Shr(v: nat, n: nat): nat {
    if n == 0 then v else Shr(v / 2, n - 1)
  }

  /** v & (1<<n - 1) */
  function Low(v: nat, n: nat): (r: nat)
    ensures r < Pow2(n)
  {
    if n == 0 then 0 else v % 2 + 2 * Low(v / 2, n - 1)
  }

  lemma {:induction false} ShrBound(v: nat, n: nat, m: nat)
    requires v < Pow2(n + m)
    ensures Shr(v, n) < Pow2(m)
  {
    if n > 0 { ShrBound(v / 2, n - 1, m); }
  }

  /** The shifted value and the masked bits together are the word. */
  lemma {:induction false} ShiftSplits(v: nat, n: nat)
    ensures v == Shr(v, n) * Pow2(n) + Low(v, n)
  {
    if n > 0 {
      ShiftSplits(v / 2, n - 1);
      DoubleProduct(Shr(v / 2, n - 1), Pow2(n - 1));
    }
  }

  lemma DoubleProduct(a: nat, b: nat)
    ensures a * (2 * b) == 2 * (a * b)
  {
  }

  /** The number of values of a 64-bit word. */
  const TWO64: nat := 0x1_0000_0000_0000_0000

  lemma Doubled(n: nat, x: nat)
    requires Pow2(n) == x
    ensures Pow2(n + n) == x * x
  {
    Pow2Add(n, n);
  }

  lemma Pow2Of64(n: nat)
    requires n == 64
    ensures Pow2(n) == TWO64
  {
    assert Pow2(8) == 256;
    Doubled(8, 256);
    Doubled(16, 65536);
    Doubled(32, 0x1_0000_0000);
  }

  /** A shift by less than 64 does not leave the word. */
  lemma ShiftFits(p: nat)
    requires p < 64
    ensures Pow2(p) < TWO64 && Pow2(p) % TWO64 == Pow2(p)
  {
    var n := 64;
    Pow2Of64(n);
    Pow2Monotone(p, n);
  }
}
