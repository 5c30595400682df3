/** Bytes, little-endian and two's-complement integers, and the bits of a machine word. */
module Bytes {
  type byte = x: int | 0 <= x < 256
  type Bytes = seq<byte>

  const U32: nat := 0x1_0000_0000
  const U64: nat := 0x1_0000_0000_0000_0000
  const MAX_U32: nat := 0xFFFF_FFFF
  const MAX_U64: nat := 0xFFFF_FFFF_FFFF_FFFF
  const MAX_I32: int := 0x7FFF_FFFF
  const MIN_I32: int := -0x8000_0000
  const SHA256_BYTES: nat := 32
  const STANDARD_VECTOR_SIZE: nat := 2048
  const FRAME_HEADER_BYTES: nat := 24
  const MAX_STREAM_INPUT_BATCH_BYTES: nat := 4 * 1024 * 1024

  /** A computation that throws has no value. */
  datatype Result<+T> = Success(value: T) | Failure {
    predicate IsFailure() { Failure? }
    function PropagateFailure<U>(): Result<U> requires Failure? { Failure }
    function Extract(): T requires Success? { value }
  }

  datatype Option<+T> = None | Some(value: T)

  predicate IsInt32(i: int) {
    MIN_I32 <= i <= MAX_I32
  }

  function Zeros(n: nat): (s: Bytes)
    ensures |s| == n && forall i :: 0 <= i < n ==> s[i] == 0
  {
    seq(n, _ => 0)
  }

  // ---------------------------------------------------------------------------
  // Little-endian integers
  // ---------------------------------------------------------------------------

  function Pow256(n: nat): (p: nat)
    ensures p > 0
  {
    if n == 0 then 1 else 256 * Pow256(n - 1)
  }

  function LE(n: nat, v: nat): (s: Bytes)
    ensures |s| == n
  {
    if n == 0 then [] else [v % 256] + LE(n - 1, v / 256)
  }

  function FromLE(s: Bytes): nat {
    if s == [] then 0 else s[0] + 256 * FromLE(s[1..])
  }

  lemma {:induction false} FromLEBound(s: Bytes)
    ensures FromLE(s) < Pow256(|s|)
  {
    if s != [] { FromLEBound(s[1..]); }
  }

  lemma {:induction false} LERoundTrip(n: nat, v: nat)
    requires v < Pow256(n)
    ensures FromLE(LE(n, v)) == v
  {
    if n != 0 {
      LERoundTrip(n - 1, v / 256);
      assert LE(n, v)[1..] == LE(n - 1, v / 256);
    }
  }

  lemma {:induction false} FromLERoundTrip(s: Bytes)
    ensures LE(|s|, FromLE(s)) == s
  {
    if s != [] {
      FromLERoundTrip(s[1..]);
      var rest := FromLE(s[1..]);
      assert (s[0] + 256 * rest) % 256 == s[0] && (s[0] + 256 * rest) / 256 == rest;
    }
  }

  /** The accumulation `value |= byte << 8i` of the readers, one byte at a time. */
  lemma {:induction false} FromLEAppend(s: Bytes, b: byte)
    ensures FromLE(s + [b]) == FromLE(s) + b * Pow256(|s|)
  {
    if s == [] {
      assert s + [b] == [b];
    } else {
      FromLEAppend(s[1..], b);
      assert (s + [b])[1..] == s[1..] + [b];
      assert 256 * (b * Pow256(|s| - 1)) == b * Pow256(|s|);
    }
  }

  lemma Pow256Values()
    ensures Pow256(1) == 256 && Pow256(2) == 0x1_0000 && Pow256(4) == U32 && Pow256(8) == U64
    ensures Pow256(16) == U64 * U64
  {
    assert Pow256(2) == 256 * Pow256(1);
    assert Pow256(4) == 256 * (256 * Pow256(2));
    assert Pow256(6) == 256 * (256 * Pow256(4));
    assert Pow256(8) == 256 * (256 * Pow256(6));
    assert Pow256(10) == 256 * (256 * Pow256(8));
    assert Pow256(12) == 256 * (256 * Pow256(10));
    assert Pow256(14) == 256 * (256 * Pow256(12));
    assert Pow256(16) == 256 * (256 * Pow256(14));
  }

  lemma LE4(v: nat)
    requires v < U32
    ensures FromLE(LE(4, v)) == v
  {
    Pow256Values();
    LERoundTrip(4, v);
  }

  lemma LE8(v: nat)
    requires v < U64
    ensures FromLE(LE(8, v)) == v
  {
    Pow256Values();
    LERoundTrip(8, v);
  }

  // ---------------------------------------------------------------------------
  // Two's complement
  // ---------------------------------------------------------------------------

  function AsSigned(v: nat, modulus: nat): int {
    if 2 * v < modulus then v else v - modulus
  }

  function AsUnsigned(i: int, modulus: nat): nat
    requires 0 - modulus <= 2 * i < modulus
  {
    if i < 0 then i + modulus else i
  }

  lemma SignedRoundTrip(i: int, modulus: nat)
    requires 0 - modulus <= 2 * i < modulus
    ensures AsUnsigned(i, modulus) < modulus && AsSigned(AsUnsigned(i, modulus), modulus) == i
  {
  }

  // ---------------------------------------------------------------------------
  // Bits
  // ---------------------------------------------------------------------------

  function Pow2(n: nat): (p: nat)
    ensures p > 0
  {
    if n == 0 then 1 else 2 * Pow2(n - 1)
  }

  predicate Bit(v: nat, i: nat) {
    v / Pow2(i) % 2 == 1
  }

  function PopCount(v: nat): nat {
    if v == 0 then 0 else v % 2 + PopCount(v / 2)
  }

  /** The word whose bit i is `bits[i]`. */
  function Word(bits: seq<bool>): nat {
    if bits == [] then 0 else (if bits[0] then 1 else 0) + 2 * Word(bits[1..])
  }

  function CountTrue(bits: seq<bool>): nat {
    if bits == [] then 0 else (if bits[0] then 1 else 0) + CountTrue(bits[1..])
  }

  lemma {:induction false} CountTrueAppend(a: seq<bool>, b: seq<bool>)
    ensures CountTrue(a + b) == CountTrue(a) + CountTrue(b)
  {
    if a == [] {
      assert a + b == b;
    } else {
      CountTrueAppend(a[1..], b);
      assert (a + b)[1..] == a[1..] + b;
    }
  }

  lemma {:induction false} CountTrueBound(a: seq<bool>)
    ensures CountTrue(a) <= |a|
    ensures CountTrue(a) == 0 <==> forall i :: 0 <= i < |a| ==> !a[i]
  {
    if a != [] {
      CountTrueBound(a[1..]);
      if CountTrue(a) == 0 {
        forall i | 0 <= i < |a| ensures !a[i] { if i > 0 { assert a[i] == a[1..][i - 1]; } }
      }
      if forall i :: 0 <= i < |a| ==> !a[i] {
        forall i | 0 <= i < |a[1..]| ensures !a[1..][i] { assert a[1..][i] == a[i + 1]; }
      }
    }
  }

  lemma {:induction false} WordPopCount(bits: seq<bool>)
    ensures PopCount(Word(bits)) == CountTrue(bits)
  {
    if bits != [] { WordPopCount(bits[1..]); }
  }

  lemma {:induction false} WordBound(bits: seq<bool>)
    ensures Word(bits) < Pow2(|bits|)
  {
    if bits != [] { WordBound(bits[1..]); }
  }

  lemma {:induction false} WordBit(bits: seq<bool>, i: nat)
    requires i < |bits|
    ensures Bit(Word(bits), i) == bits[i]
  {
    var w, rest := Word(bits), Word(bits[1..]);
    if i == 0 {
    } else {
      WordBit(bits[1..], i - 1);
      assert w / 2 == rest;
      DivDiv(w, i - 1);
    }
  }

  lemma DivDiv(v: nat, n: nat)
    ensures v / Pow2(n + 1) == v / 2 / Pow2(n)
  {
    var p := Pow2(n);
    var q, r := v / 2 / p, v / 2 % p;
    assert v / 2 == q * p + r;
    assert v == 2 * (v / 2) + v % 2;
    assert v == q * (2 * p) + (2 * r + v % 2);
    assert 0 <= 2 * r + v % 2 < 2 * p;
    DivUnique(v, 2 * p, q, 2 * r + v % 2);
  }

  lemma DivUnique(v: nat, d: nat, q: nat, r: nat)
    requires d > 0 && r < d && v == q * d + r
    ensures v / d == q && v % d == r
  {
    var x := v / d - q;
    assert x * d == v / d * d - q * d == r - v % d;
    Multiples(x, d);
  }

  lemma Multiples(x: int, d: nat)
    ensures x >= 1 ==> x * d >= d
    ensures x <= -1 ==> x * d <= 0 - d
  {
  }

  lemma Fits(i: nat, n: nat, size: nat)
    requires i < n
    ensures i * size + size <= n * size
  {
    Multiples(n - i - 1, size);
    assert (n - i - 1) * size == n * size - i * size - size;
  }

  /** The bits of a word, least significant first. */
  function BitsOf(v: nat, n: nat): (bits: seq<bool>)
    ensures |bits| == n && forall i :: 0 <= i < n ==> bits[i] == Bit(v, i)
  {
    seq(n, i requires 0 <= i < n => Bit(v, i))
  }

  lemma {:induction false} WordOfBits(v: nat, n: nat)
    requires v < Pow2(n)
    ensures Word(BitsOf(v, n)) == v
  {
    if n != 0 {
      WordOfBits(v / 2, n - 1);
      var bits := BitsOf(v, n);
      forall i | 0 <= i < n - 1 ensures bits[1..][i] == BitsOf(v / 2, n - 1)[i] {
        DivDiv(v, i);
      }
      assert bits[1..] == BitsOf(v / 2, n - 1);
    }
  }

  // ---------------------------------------------------------------------------
  // Slices of concatenations
  // ---------------------------------------------------------------------------

  lemma SliceOfPrefix(a: Bytes, b: Bytes, from: nat, to: nat)
    requires from <= to <= |a|
    ensures (a + b)[from..to] == a[from..to]
  {
  }

  lemma SliceOfTake(s: Bytes, n: nat, from: nat, to: nat)
    requires from <= to <= n <= |s|
    ensures s[..n][from..to] == s[from..to]
  {
  }

  lemma SliceOfSlice(s: Bytes, at: nat, n: nat, from: nat, size: nat)
    requires at + n <= |s| && from + size <= n
    ensures s[at .. at + n][from .. from + size] == s[at + from .. at + from + size]
  {
    var a, b := s[at .. at + n][from .. from + size], s[at + from .. at + from + size];
    forall i | 0 <= i < size ensures a[i] == b[i] {
      assert s[at .. at + n][from + i] == s[at + (from + i)];
    }
  }

  lemma SliceOfSuffix(a: Bytes, b: Bytes, from: nat, to: nat)
    requires |a| <= from <= to <= |a| + |b|
    ensures (a + b)[from..to] == b[from - |a| .. to - |a|]
  {
  }
}
