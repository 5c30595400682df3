/**
 Exactly which byte strings the decoder accepts as a null bitmap: nothing, or the bitmap of some list of
 bits that covers the rows and marks none beyond them, with its exact count.
 */
module BitmapForms {
  import opened Bytes
  import opened NullBitmap

  /** The bitmap of a list of bits that covers `rows` rows. */
  predicate IsBitmap(nulls: Bytes, rows: nat, bits: seq<bool>) {
    && rows <= |bits| <= MAX_U32
    && (forall i :: rows <= i < |bits| ==> !bits[i])
    && nulls == LE(8, CountTrue(bits)) + LE(8, |bits|) + LE(8, 8 * WordCount(|bits|)) + WordBytes(WordsOf(bits))
  }

  // ---------------------------------------------------------------------------
  // Every such bitmap is accepted
  // ---------------------------------------------------------------------------

  /** Clear bits at the end add nothing to a word. */
  lemma {:induction false} ClearTail(bits: seq<bool>, n: nat)
    requires n <= |bits| && forall i :: n <= i < |bits| ==> !bits[i]
    ensures Word(bits) == Word(bits[..n])
    decreases |bits|
  {
    if n == |bits| {
      assert bits[..n] == bits;
    } else {
      var m := |bits| - 1;
      ClearTail(bits[..m], n);
      assert bits[..m][..n] == bits[..n] && bits == bits[..m] + [bits[m]];
      WordAppend(bits[..m], bits[m]);
    }
  }

  /** The rows that word k covers. */
  function Slice(bits: seq<bool>, k: nat): seq<bool>
    requires 64 * k <= |bits|
  {
    bits[64 * k .. Min(64 * k + 64, |bits|)]
  }

  lemma CoveredWord(bits: seq<bool>, rows: nat, k: nat)
    requires rows <= |bits| && (forall i :: rows <= i < |bits| ==> !bits[i]) && k < WordCount(|bits|)
    ensures WordAt(WordBytes(WordsOf(bits)), k) == WordOf(bits, k) < Pow2(RowsInWord(rows, k))
  {
    hide WordAt, WordBytes, WordsOf, Word, Pow2;
    EncodedWord(bits, k);
    var slice, n := Slice(bits, k), RowsInWord(rows, k);
    assert forall i :: n <= i < |slice| ==> slice[i] == bits[64 * k + i];
    ClearTail(slice, n);
    WordBound(slice[..n]);
  }

  lemma CoveredWithin(bits: seq<bool>, rows: nat)
    requires rows <= |bits| && (forall i :: rows <= i < |bits| ==> !bits[i])
    ensures var words := WordBytes(WordsOf(bits)); |words| % 8 == 0 && Within(words, rows, |words| / 8)
  {
    hide WordAt, Pow2, RowsInWord, WordBytes, WordsOf, WordOf;
    var words := WordBytes(WordsOf(bits));
    forall k {:trigger WordAt(words, k)} | 0 <= k < |words| / 8
      ensures WordAt(words, k) < Pow2(RowsInWord(rows, k))
    {
      CoveredWord(bits, rows, k);
    }
  }

  lemma BitmapHeader(nulls: Bytes, rows: nat, bits: seq<bool>)
    requires IsBitmap(nulls, rows, bits) && CountTrue(bits) <= rows
    ensures |nulls| >= HEADER && GoodHeader(nulls, rows) && AsSigned(FromLE(nulls[0..8]), U64) == CountTrue(bits)
    ensures nulls[HEADER..] == WordBytes(WordsOf(bits))
  {
    hide LE, FromLE, WordBytes, WordsOf, CountTrue;
    LE8(CountTrue(bits));
    LE8(|bits|);
    LE8(8 * WordCount(|bits|));
    assert nulls[0..8] == LE(8, CountTrue(bits)) && nulls[8..16] == LE(8, |bits|);
    assert nulls[16..24] == LE(8, 8 * WordCount(|bits|));
    var bytes := 8 * WordCount(|bits|);
    assert bytes % 8 == 0 && bytes / 8 == WordCount(|bits|);
  }

  /** A list that marks nothing beyond the rows marks at most all rows. */
  lemma CountIsBounded(bits: seq<bool>, rows: nat)
    requires rows <= |bits| && forall i :: rows <= i < |bits| ==> !bits[i]
    ensures CountTrue(bits) <= rows
  {
    assert bits == bits[..rows] + bits[rows..];
    CountTrueAppend(bits[..rows], bits[rows..]);
    CountTrueBound(bits[..rows]);
    CountTrueBound(bits[rows..]);
  }

  lemma EncodedNullBits(bits: seq<bool>)
    ensures NullBits(WordBytes(WordsOf(bits)), |bits|) == bits
  {
    hide WordBytes, WordsOf, IsNull;
    forall r | 0 <= r < |bits| ensures NullBits(WordBytes(WordsOf(bits)), |bits|)[r] == bits[r] {
      EncodedBit(bits, r);
    }
  }

  /** The decoder accepts every such bitmap, and reads each bit and the count. */
  lemma BitmapIsAccepted(nulls: Bytes, rows: nat, bits: seq<bool>)
    requires IsBitmap(nulls, rows, bits)
    ensures var words := WordBytes(WordsOf(bits));
            && ParseNulls(nulls, rows) == Success(Mask(CountTrue(bits), words))
            && NullBits(words, |bits|) == bits
  {
    hide LE, FromLE, WordBytes, WordsOf, CountTrue, IsNull, PopSum, GoodHeader, Within;
    var words := WordBytes(WordsOf(bits));
    CountIsBounded(bits, rows);
    BitmapHeader(nulls, rows, bits);
    CoveredWithin(bits, rows);
    EncodedNullBits(bits);
    EncodedWithin(bits);
    PopSumCounts(words, |bits|, |words| / 8);
    WordsCover(|bits|);
  }

  // ---------------------------------------------------------------------------
  // Nothing else is accepted
  // ---------------------------------------------------------------------------

  lemma WordFromBits(words: Bytes, rows: nat, n: nat, k: nat)
    requires |words| == 8 * WordCount(n) && rows <= n && k < WordCount(n)
    requires WordAt(words, k) < Pow2(RowsInWord(rows, k))
    ensures WordOf(NullBits(words, n), k) == WordAt(words, k)
  {
    hide WordAt, Bit, Word, Pow2;
    var bits, w := NullBits(words, n), WordAt(words, k);
    var m := RowsInWord(n, k);
    assert Pow2(RowsInWord(rows, k)) <= Pow2(m) by { Pow2Monotone(RowsInWord(rows, k), m); }
    WordOfBits(w, m);
    forall i | 0 <= i < m ensures Slice(bits, k)[i] == BitsOf(w, m)[i] {
      DivUnique(64 * k + i, 64, k, i);
    }
    assert Slice(bits, k) == BitsOf(w, m);
  }

  lemma {:induction false} WordsAreBytes(words: Bytes, list: seq<nat>)
    requires |words| == 8 * |list| && forall k :: 0 <= k < |list| ==> list[k] == WordAt(words, k)
    ensures WordBytes(list) == words
  {
    if list != [] {
      var n := |list| - 1;
      var prefix := words[..8 * n];
      forall k | 0 <= k < n ensures list[..n][k] == WordAt(prefix, k) {
        assert prefix[8 * k .. 8 * k + 8] == words[8 * k .. 8 * k + 8];
      }
      WordsAreBytes(prefix, list[..n]);
      FromLERoundTrip(words[8 * n .. 8 * n + 8]);
      assert words == prefix + words[8 * n .. 8 * n + 8];
    } else {
      assert words == [];
    }
  }

  lemma BeyondIsClear(words: Bytes, rows: nat, n: nat, i: nat)
    requires |words| == 8 * WordCount(n) && rows <= i < n && Within(words, rows, WordCount(n))
    ensures !NullBits(words, n)[i]
  {
    hide Word;
    var k, b := i / 64, i % 64;
    var w := WordAt(words, k);
    assert w < Pow2(RowsInWord(rows, k));
    hide WordAt, Pow2;
    assert RowsInWord(rows, k) <= b;
    HighBitIsClear(w, RowsInWord(rows, k), b);
  }

  lemma HighBitIsClear(w: nat, n: nat, b: nat)
    requires w < Pow2(n) && n <= b
    ensures !Bit(w, b)
  {
    Pow2Monotone(n, b);
    DivUnique(w, Pow2(b), 0, w);
  }

  /** Every accepted bitmap that is not empty is the bitmap of a list of bits. */
  lemma AcceptedIsBitmap(nulls: Bytes, rows: nat) returns (bits: seq<bool>)
    requires nulls != [] && ParseNulls(nulls, rows).Success?
    ensures IsBitmap(nulls, rows, bits)
  {
    hide LE, FromLE, WordBytes, WordsOf, CountTrue, IsNull, PopSum, Within, WordAt, Pow2;
    var words, n := nulls[HEADER..], FromLE(nulls[8..16]);
    bits := NullBits(words, n);
    forall i | rows <= i < n ensures !bits[i] {
      BeyondIsClear(words, rows, n, i);
    }
    WordsFromBits(words, rows, n);
    CountFromBits(words, rows, n);
    HeaderBytes(nulls, rows);
  }

  lemma WordsFromBits(words: Bytes, rows: nat, n: nat)
    requires |words| == 8 * WordCount(n) && rows <= n && Within(words, rows, WordCount(n))
    ensures WordBytes(WordsOf(NullBits(words, n))) == words
  {
    hide WordAt, Pow2, RowsInWord, WordBytes, WordOf;
    var list := WordsOf(NullBits(words, n));
    forall k | 0 <= k < |list| ensures list[k] == WordAt(words, k) {
      assert WordAt(words, k) < Pow2(RowsInWord(rows, k));
      WordFromBits(words, rows, n, k);
    }
    WordsAreBytes(words, list);
  }

  lemma CountFromBits(words: Bytes, rows: nat, n: nat)
    requires |words| == 8 * WordCount(n) && rows <= n && Within(words, rows, WordCount(n))
    ensures PopSum(words, WordCount(n)) == CountTrue(NullBits(words, n))
  {
    hide WordAt, Pow2, PopSum, CountTrue, IsNull;
    forall k {:trigger WordAt(words, k)} | 0 <= k < WordCount(n)
      ensures WordAt(words, k) < Pow2(RowsInWord(n, k))
    {
      Pow2Monotone(RowsInWord(rows, k), RowsInWord(n, k));
    }
    PopSumCounts(words, n, WordCount(n));
    WordsCover(n);
  }

  lemma HeaderBytes(nulls: Bytes, rows: nat)
    requires |nulls| >= HEADER && GoodHeader(nulls, rows)
    ensures var count, n := AsSigned(FromLE(nulls[0..8]), U64), FromLE(nulls[8..16]);
            && 0 <= count
            && nulls == LE(8, count) + LE(8, n) + LE(8, 8 * WordCount(n)) + nulls[HEADER..]
  {
    hide LE, FromLE;
    FromLERoundTrip(nulls[0..8]);
    FromLERoundTrip(nulls[8..16]);
    FromLERoundTrip(nulls[16..24]);
    FromLEBound(nulls[0..8]);
    Pow256Values();
    assert nulls == nulls[0..8] + nulls[8..16] + nulls[16..24] + nulls[24..];
  }
}
