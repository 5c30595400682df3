/**
 The V2 null bitmap: a 24-byte header (count, bit length, byte size) and little-endian 64-bit words
 in which a set bit marks a null row. An empty bitmap means that no row is null.
 */
module NullBitmap {
  import opened Bytes

  const HEADER: nat := 24

  // ---------------------------------------------------------------------------
  // Encoding
  // ---------------------------------------------------------------------------

  function WordCount(bits: nat): nat {
    (bits + 63) / 64
  }

  function Min(a: nat, b: nat): nat {
    if a < b then a else b
  }

  /** Word k of the bitmap over `nulls`. */
  function WordOf(nulls: seq<bool>, k: nat): nat
    requires 64 * k <= |nulls|
  {
    Word(nulls[64 * k .. Min(64 * k + 64, |nulls|)])
  }

  function WordsOf(nulls: seq<bool>): (words: seq<nat>)
    ensures |words| == WordCount(|nulls|)
  {
    seq(WordCount(|nulls|), k requires 0 <= k < WordCount(|nulls|) => WordOf(nulls, k))
  }

  function WordBytes(words: seq<nat>): (s: Bytes)
    ensures |s| == 8 * |words|
  {
    if words == [] then [] else WordBytes(words[..|words| - 1]) + LE(8, words[|words| - 1])
  }

  function EncodeNulls(nulls: seq<bool>): Bytes {
    if CountTrue(nulls) == 0 then []
    else LE(8, CountTrue(nulls)) + LE(8, |nulls|) + LE(8, 8 * WordCount(|nulls|)) + WordBytes(WordsOf(nulls))
  }

  lemma EncodedNullsSize(nulls: seq<bool>)
    ensures |EncodeNulls(nulls)| == if CountTrue(nulls) == 0 then 0 else HEADER + 8 * WordCount(|nulls|)
  {
  }

  /** `word | 1 << i`. */
  function SetBit(word: nat, i: nat): nat {
    if Bit(word, i) then word else word + Pow2(i)
  }

  lemma {:induction false} WordAppend(bits: seq<bool>, b: bool)
    ensures Word(bits + [b]) == Word(bits) + if b then Pow2(|bits|) else 0
  {
    if bits == [] {
      assert bits + [b] == [b];
    } else {
      WordAppend(bits[1..], b);
      assert (bits + [b])[1..] == bits[1..] + [b];
    }
  }

  lemma SetNextBit(bits: seq<bool>)
    ensures SetBit(Word(bits), |bits|) == Word(bits + [true])
  {
    WordBound(bits);
    WordAppend(bits, true);
    DivUnique(Word(bits), Pow2(|bits|), 0, Word(bits));
  }

  lemma {:induction false} CountPrefix(nulls: seq<bool>, row: nat)
    requires row < |nulls|
    ensures CountTrue(nulls[..row + 1]) == CountTrue(nulls[..row]) + if nulls[row] then 1 else 0
  {
    assert nulls[..row + 1] == nulls[..row] + [nulls[row]];
    CountTrueAppend(nulls[..row], [nulls[row]]);
  }

  /** Word k after the first `row` rows have been visited. */
  function PartialWord(nulls: seq<bool>, k: nat, row: nat): nat
    requires row <= |nulls|
  {
    if 64 * k <= row then Word(nulls[64 * k .. Min(64 * k + 64, row)]) else 0
  }

  lemma PartialStep(nulls: seq<bool>, k: nat, row: nat)
    requires row < |nulls|
    ensures PartialWord(nulls, k, row + 1)
         == if nulls[row] && k == row / 64 then SetBit(PartialWord(nulls, k, row), row % 64)
           else PartialWord(nulls, k, row)
  {
    hide SetBit;
    if k == row / 64 {
      var done := nulls[64 * k .. row];
      assert nulls[64 * k .. Min(64 * k + 64, row + 1)] == done + [nulls[row]];
      SetNextBit(done);
      WordAppend(done, nulls[row]);
    } else if 64 * k == row + 1 {
      assert nulls[64 * k .. Min(64 * k + 64, row + 1)] == [];
    }
  }

  /** The words after the first `row` rows have been visited. */
  predicate Packed(words: seq<nat>, nulls: seq<bool>, row: nat) {
    && row <= |nulls| && |words| == WordCount(|nulls|)
    && forall k :: 0 <= k < |words| ==> words[k] == PartialWord(nulls, k, row)
  }

  /** `words[row / 64] |= 1 << row % 64`. */
  function MarkNull(words: seq<nat>, row: nat): seq<nat>
    requires row / 64 < |words|
  {
    words[row / 64 := SetBit(words[row / 64], row % 64)]
  }

  lemma PackedStep(words: seq<nat>, nulls: seq<bool>, row: nat)
    requires row < |nulls| && Packed(words, nulls, row)
    ensures row / 64 < |words|
    ensures Packed(if nulls[row] then MarkNull(words, row) else words, nulls, row + 1)
  {
    hide SetBit, PartialWord;
    var next := if nulls[row] then MarkNull(words, row) else words;
    forall k | 0 <= k < |words| ensures next[k] == PartialWord(nulls, k, row + 1) {
      PartialStep(nulls, k, row);
    }
  }

  /** The word loop of `encode_nulls`. */
  method PackNulls(nulls: seq<bool>) returns (words: seq<nat>, count: nat)
    ensures words == WordsOf(nulls)
    ensures count == CountTrue(nulls)
  {
    var n := |nulls|;
    words := seq(WordCount(n), _ => 0);
    count := 0;
    var row := 0;
    while row < n
      invariant 0 <= row <= n && Packed(words, nulls, row)
      invariant count == CountTrue(nulls[..row])
    {
      hide Packed, MarkNull, CountTrue;
      CountPrefix(nulls, row);
      PackedStep(words, nulls, row);
      if nulls[row] {
        words, count := MarkNull(words, row), count + 1;
      }
      row := row + 1;
    }
    assert nulls[..n] == nulls;
  }

  /** The header and the words, or nothing without nulls. */
  function MaskBytes(count: nat, rows: nat, words: seq<nat>): Bytes {
    if count == 0 then [] else LE(8, count) + LE(8, rows) + LE(8, 8 * |words|) + WordBytes(words)
  }

  /** `encode_nulls`. */
  method EncodeNullMask(nulls: seq<bool>) returns (s: Bytes)
    ensures s == EncodeNulls(nulls)
  {
    hide WordBytes, LE, WordsOf, CountTrue;
    var words, count := PackNulls(nulls);
    s := MaskBytes(count, |nulls|, words);
  }

  // ---------------------------------------------------------------------------
  // Decoding
  // ---------------------------------------------------------------------------

  datatype Mask = Mask(count: nat, words: Bytes)

  const NO_NULLS := Mask(0, [])

  function WordAt(words: Bytes, k: nat): nat
    requires 8 * k + 8 <= |words|
  {
    FromLE(words[8 * k .. 8 * k + 8])
  }

  predicate IsNull(words: Bytes, row: nat) {
    8 * (row / 64) + 8 <= |words| && Bit(WordAt(words, row / 64), row % 64)
  }

  /** How many bits of word k belong to the batch. */
  function RowsInWord(rows: nat, k: nat): nat {
    if 64 * k >= rows then 0 else Min(64, rows - 64 * k)
  }

  /** The test `(word & ~allowed) == 0` for the first k words. */
  predicate Within(words: Bytes, rows: nat, k: nat)
    requires 8 * k <= |words|
  {
    forall j {:trigger WordAt(words, j)} :: 0 <= j < k ==> WordAt(words, j) < Pow2(RowsInWord(rows, j))
  }

  function PopSum(words: Bytes, k: nat): nat
    requires 8 * k <= |words|
  {
    if k == 0 then 0 else PopSum(words, k - 1) + PopCount(WordAt(words, k - 1))
  }

  predicate GoodHeader(nulls: Bytes, rows: nat)
    requires |nulls| >= HEADER
  {
    var count := AsSigned(FromLE(nulls[0..8]), U64);
    var bitLength := FromLE(nulls[8..16]);
    var wordBytes := FromLE(nulls[16..24]);
    && 0 <= count <= rows && rows <= bitLength <= MAX_U32
    && wordBytes == |nulls| - HEADER && wordBytes % 8 == 0 && wordBytes / 8 == WordCount(bitLength)
  }

  function ParseNulls(nulls: Bytes, rows: nat): Result<Mask> {
    if nulls == [] then Success(NO_NULLS)
    else if |nulls| < HEADER || !GoodHeader(nulls, rows) then Failure
    else
      var count := AsSigned(FromLE(nulls[0..8]), U64);
      var words := nulls[HEADER..];
      if !Within(words, rows, |words| / 8) || PopSum(words, |words| / 8) != count then Failure
      else Success(Mask(count, words))
  }

  lemma FitsBelow(v: nat, p: nat)
    requires p > 0
    ensures v / p == 0 <==> v < p
  {
    if v < p { DivUnique(v, p, 0, v); }
  }

  /** The word loop of `parse_column`: it stops at the first word with a bit outside the batch. */
  method CheckWords(words: Bytes, rows: nat, count: nat) returns (ok: bool)
    requires |words| % 8 == 0
    ensures ok <==> Within(words, rows, |words| / 8) && PopSum(words, |words| / 8) == count
  {
    var actual := 0;
    var k := 0;
    while k < |words| / 8
      invariant 0 <= k <= |words| / 8
      invariant Within(words, rows, k)
      invariant actual == PopSum(words, k)
    {
      hide WordAt, Pow2, RowsInWord, PopCount;
      var word := WordAt(words, k);
      actual := actual + PopCount(word);
      var allowed := RowsInWord(rows, k);
      FitsBelow(word, Pow2(allowed));
      if word / Pow2(allowed) != 0 {
        return false;
      }
      k := k + 1;
    }
    ok := actual == count;
  }

  function NullBits(words: Bytes, n: nat): (bits: seq<bool>)
    ensures |bits| == n && forall r :: 0 <= r < n ==> bits[r] == IsNull(words, r)
  {
    seq(n, r requires 0 <= r < n => IsNull(words, r))
  }

  lemma NullBitsStep(words: Bytes, rows: nat, k: nat)
    requires 8 * k + 8 <= |words|
    ensures NullBits(words, Min(64 * k + 64, rows))
         == NullBits(words, Min(64 * k, rows)) + BitsOf(WordAt(words, k), RowsInWord(rows, k))
  {
    hide Bit, WordAt;
    var n, before := RowsInWord(rows, k), Min(64 * k, rows);
    var all := NullBits(words, Min(64 * k + 64, rows));
    forall i | 0 <= i < n ensures all[before + i] == Bit(WordAt(words, k), i) {
      DivUnique(64 * k + i, 64, k, i);
    }
  }

  lemma WordCounts(w: nat, n: nat)
    requires w < Pow2(n)
    ensures PopCount(w) == CountTrue(BitsOf(w, n))
  {
    hide Bit, Pow2, PopCount, CountTrue, Word;
    WordOfBits(w, n);
    WordPopCount(BitsOf(w, n));
  }

  lemma PopSumStep(words: Bytes, rows: nat, k: nat)
    requires 8 * k + 8 <= |words| && Within(words, rows, k + 1)
    ensures PopSum(words, k + 1) == PopSum(words, k) + PopCount(WordAt(words, k))
    ensures Within(words, rows, k) && WordAt(words, k) < Pow2(RowsInWord(rows, k))
  {
    hide WordAt, Pow2, RowsInWord, PopCount;
  }

  function NullCount(words: Bytes, rows: nat): nat {
    CountTrue(NullBits(words, rows))
  }

  lemma NullCountStep(words: Bytes, rows: nat, k: nat)
    requires 8 * k + 8 <= |words| && WordAt(words, k) < Pow2(RowsInWord(rows, k))
    ensures NullCount(words, Min(64 * k + 64, rows)) == NullCount(words, Min(64 * k, rows)) + PopCount(WordAt(words, k))
  {
    hide WordAt, IsNull, PopCount, RowsInWord, CountTrue, Pow2, Bit;
    NullBitsStep(words, rows, k);
    WordCounts(WordAt(words, k), RowsInWord(rows, k));
    CountTrueAppend(NullBits(words, Min(64 * k, rows)), BitsOf(WordAt(words, k), RowsInWord(rows, k)));
  }

  lemma PopSumStart(words: Bytes, rows: nat)
    ensures PopSum(words, 0) == NullCount(words, Min(64 * 0, rows)) == 0
  {
    assert Min(64 * 0, rows) == 0;
    assert NullBits(words, 0) == [];
  }

  /** Counting set bits word by word counts null rows. */
  lemma {:induction false} PopSumCounts(words: Bytes, rows: nat, k: nat)
    requires 8 * k <= |words| && Within(words, rows, k)
    ensures PopSum(words, k) == NullCount(words, Min(64 * k, rows))
  {
    hide *;
    if k == 0 {
      PopSumStart(words, rows);
    } else {
      PopSumStep(words, rows, k - 1);
      PopSumCounts(words, rows, k - 1);
      NullCountStep(words, rows, k - 1);
      assert 64 * (k - 1) + 64 == 64 * k;
    }
  }

  /** An accepted bitmap counts exactly the rows it marks. */
  lemma AcceptedCountIsExact(nulls: Bytes, rows: nat)
    requires ParseNulls(nulls, rows).Success?
    ensures var mask := ParseNulls(nulls, rows).value; mask.count == CountTrue(NullBits(mask.words, rows))
  {
    var mask := ParseNulls(nulls, rows).value;
    if nulls == [] {
      CountTrueBound(NullBits([], rows));
    } else {
      PopSumCounts(mask.words, rows, |mask.words| / 8);
    }
  }

  // ---------------------------------------------------------------------------
  // Round trip
  // ---------------------------------------------------------------------------

  lemma {:induction false} WordBytesAt(words: seq<nat>, k: nat)
    requires k < |words| && words[k] < U64
    ensures WordAt(WordBytes(words), k) == words[k]
  {
    var n := |words| - 1;
    var prefix := WordBytes(words[..n]);
    if k == n {
      assert WordBytes(words)[8 * k .. 8 * k + 8] == LE(8, words[k]);
      LE8(words[k]);
    } else {
      WordBytesAt(words[..n], k);
      assert WordBytes(words)[8 * k .. 8 * k + 8] == prefix[8 * k .. 8 * k + 8];
    }
  }

  lemma Pow2Monotone(a: nat, b: nat)
    requires a <= b
    ensures Pow2(a) <= Pow2(b)
  {
    if a < b { Pow2Monotone(a, b - 1); }
  }

  lemma Pow2Of64()
    ensures Pow2(64) == U64
  {
    assert Pow2(8) == 256;
    assert Pow2(16) == 256 * 256;
    assert Pow2(24) == 256 * 256 * 256;
    assert Pow2(32) == U32;
    assert Pow2(40) == U32 * 256;
    assert Pow2(48) == U32 * 256 * 256;
    assert Pow2(56) == U32 * 256 * 256 * 256;
  }

  lemma EncodedWord(nulls: seq<bool>, k: nat)
    requires k < WordCount(|nulls|)
    ensures var w := WordAt(WordBytes(WordsOf(nulls)), k);
            w == WordOf(nulls, k) && w < Pow2(RowsInWord(|nulls|, k))
  {
    var bits := nulls[64 * k .. Min(64 * k + 64, |nulls|)];
    WordBound(bits);
    Pow2Monotone(|bits|, 64);
    Pow2Of64();
    WordBytesAt(WordsOf(nulls), k);
  }

  lemma EncodedBit(nulls: seq<bool>, row: nat)
    requires row < |nulls|
    ensures IsNull(WordBytes(WordsOf(nulls)), row) == nulls[row]
  {
    hide Bit, WordAt, WordsOf, WordBytes;
    var k := row / 64;
    EncodedWord(nulls, k);
    WordBit(nulls[64 * k .. Min(64 * k + 64, |nulls|)], row % 64);
  }

  lemma EncodedHeader(nulls: seq<bool>)
    requires 0 < |nulls| < U32 && CountTrue(nulls) > 0
    ensures var s := EncodeNulls(nulls);
            && |s| >= HEADER && GoodHeader(s, |nulls|)
            && AsSigned(FromLE(s[0..8]), U64) == CountTrue(nulls)
            && s[HEADER..] == WordBytes(WordsOf(nulls))
  {
    hide LE, FromLE, WordBytes, WordsOf, CountTrue;
    var s := EncodeNulls(nulls);
    CountTrueBound(nulls);
    LE8(CountTrue(nulls));
    LE8(|nulls|);
    LE8(8 * WordCount(|nulls|));
    assert s[0..8] == LE(8, CountTrue(nulls));
    assert s[8..16] == LE(8, |nulls|);
    assert s[16..24] == LE(8, 8 * WordCount(|nulls|));
    assert s[HEADER..] == WordBytes(WordsOf(nulls));
    var bytes := 8 * WordCount(|nulls|);
    assert bytes % 8 == 0 && bytes / 8 == WordCount(|nulls|);
  }

  /** The decoder accepts every encoded bitmap, and reads back each row's nullness and the count. */
  lemma NullsRoundTrip(nulls: seq<bool>)
    requires 0 < |nulls| < U32
    ensures var r := ParseNulls(EncodeNulls(nulls), |nulls|);
            && r.Success?
            && r.value.count == CountTrue(nulls)
            && NullBits(r.value.words, |nulls|) == nulls
  {
    hide LE, FromLE, WordBytes, WordsOf, CountTrue, IsNull, PopSum, GoodHeader, Within, EncodeNulls;
    var n := |nulls|;
    CountTrueBound(nulls);
    if CountTrue(nulls) == 0 {
      NoNullsEncoded(nulls);
    } else {
      EncodedHeader(nulls);
      var words := WordBytes(WordsOf(nulls));
      EncodedWithin(nulls);
      forall r | 0 <= r < n ensures NullBits(words, n)[r] == nulls[r] {
        EncodedBit(nulls, r);
      }
      assert NullBits(words, n) == nulls;
      PopSumCounts(words, n, |words| / 8);
      WordsCover(n);
    }
  }

  lemma NoNullsEncoded(nulls: seq<bool>)
    requires CountTrue(nulls) == 0
    ensures EncodeNulls(nulls) == [] && NullBits([], |nulls|) == nulls
  {
    CountTrueBound(nulls);
    assert NullBits([], |nulls|) == nulls;
  }

  lemma WordsCover(n: nat)
    ensures Min(64 * WordCount(n), n) == n
  {
  }

  lemma EncodedWithin(nulls: seq<bool>)
    ensures var words := WordBytes(WordsOf(nulls)); |words| % 8 == 0 && Within(words, |nulls|, |words| / 8)
  {
    hide WordAt, Pow2, RowsInWord, WordBytes, WordsOf;
    var words := WordBytes(WordsOf(nulls));
    forall k {:trigger WordAt(words, k)} | 0 <= k < |words| / 8
      ensures WordAt(words, k) < Pow2(RowsInWord(|nulls|, k))
    {
      EncodedWord(nulls, k);
    }
  }
}
