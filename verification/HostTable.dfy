/**
 A whole host table: the predicted size and the encoding of a row range, how the two relate, and how
 the prediction grows with the range.
 */
module HostTable {
  import opened Bytes
  import opened NullBitmap
  import opened Varlena
  import NativeBatch
  import opened CodecRoundTrip
  import opened HostColumn

  type ColumnType = NativeBatch.ColumnType
  type Encoded = NativeBatch.Encoded

  datatype Table = Table(columns: seq<Column>, types: seq<ColumnType>, memory: Bytes, rows: nat)

  /** What the encoder's constructor and the schema validation have checked. */
  predicate Accepted(t: Table) {
    && t.columns != [] && |t.columns| == |t.types| <= MAX_I32 && t.rows <= MAX_I32
    && forall i :: 0 <= i < |t.columns| ==>
         && t.columns[i].numRows == t.rows && SourceMatches(t.columns[i], t.types[i])
         && NativeBatch.WellTyped(t.types[i])
  }

  predicate GoodRange(t: Table, offset: nat, count: nat) {
    count != 0 && offset + count <= t.rows
  }

  const FIXED_PART: nat := 12 + 16

  function SizeOfColumn(t: Table, i: nat, offset: nat, count: nat): Result<nat>
    requires Accepted(t) && i < |t.columns|
  {
    ColumnSize(t.columns[i], t.memory, t.types[i], offset, count)
  }

  /** The running total after k columns. */
  function SizeUpTo(t: Table, k: nat, offset: nat, count: nat): Result<nat>
    requires Accepted(t) && k <= |t.columns|
  {
    if k == 0 then Success(FIXED_PART)
    else
      var total :- SizeUpTo(t, k - 1, offset, count);
      var size :- SizeOfColumn(t, k - 1, offset, count);
      if total + size > MAX_U64 then Failure else Success(total + size)
  }

  function EncodedSize(t: Table, offset: nat, count: nat): Result<nat>
    requires Accepted(t)
  {
    if GoodRange(t, offset, count) then SizeUpTo(t, |t.columns|, offset, count) else Failure
  }

  function EncodeOf(t: Table, i: nat, offset: nat, count: nat): Result<Encoded>
    requires Accepted(t) && i < |t.columns|
  {
    EncodeHost(t.columns[i], t.memory, t.types[i], offset, count)
  }

  function EncodedUpTo(t: Table, k: nat, offset: nat, count: nat): (r: Result<seq<Encoded>>)
    requires Accepted(t) && k <= |t.columns|
    ensures r.Success? ==> |r.value| == k
  {
    if k == 0 then Success([])
    else
      var before :- EncodedUpTo(t, k - 1, offset, count);
      var last :- EncodeOf(t, k - 1, offset, count);
      Success(before + [last])
  }

  /** `encode` on the host path. */
  function EncodeTable(t: Table, offset: nat, count: nat): Result<Bytes>
    requires Accepted(t)
  {
    if !GoodRange(t, offset, count) then Failure
    else
      var encoded :- EncodedUpTo(t, |t.columns|, offset, count);
      NativeBatch.Assemble(count, t.types, encoded)
  }

  /** A range is measured exactly if it is not empty, lies in the table and its columns can be; the same for encoding.
   */
  lemma RangeIsChecked(t: Table, offset: nat, count: nat)
    requires Accepted(t)
    ensures EncodedSize(t, offset, count).Success? <==>
              1 <= count && offset + count <= t.rows && SizeUpTo(t, |t.columns|, offset, count).Success?
    ensures EncodeTable(t, offset, count).Success? ==>
              && 1 <= count && offset + count <= t.rows
              && forall i :: 0 <= i < |t.columns| ==> EncodeOf(t, i, offset, count).Success?
  {
    hide SizeUpTo, EncodedUpTo, EncodeOf, NativeBatch.Assemble, SourceMatches, NativeBatch.WellTyped;
    if EncodeTable(t, offset, count).Success? {
      forall i | 0 <= i < |t.columns| ensures EncodeOf(t, i, offset, count).Success? {
        EncodedAt(t, |t.columns|, offset, count, i);
      }
    }
  }

  // ---------------------------------------------------------------------------
  // The size prediction bounds the payload
  // ---------------------------------------------------------------------------

  lemma {:induction false} EncodedAt(t: Table, k: nat, offset: nat, count: nat, i: nat)
    requires Accepted(t) && k <= |t.columns| && EncodedUpTo(t, k, offset, count).Success? && i < k
    ensures EncodeOf(t, i, offset, count) == Success(EncodedUpTo(t, k, offset, count).value[i])
  {
    hide Accepted, EncodeOf;
    if i < k - 1 { EncodedAt(t, k - 1, offset, count, i); }
  }

  function WireTotal(encoded: seq<Encoded>): nat {
    if encoded == [] then 0 else WireTotal(encoded[..|encoded| - 1]) + WireSize(encoded[|encoded| - 1])
  }

  predicate ExactColumn(t: Table, i: nat, offset: nat, count: nat)
    requires Accepted(t) && i < |t.columns|
  {
    PredictionIsExact(t.columns[i], t.memory, t.types[i], offset, count)
  }

  lemma {:induction false} TotalIsPredicted(t: Table, k: nat, offset: nat, count: nat)
    requires Accepted(t) && k <= |t.columns|
    requires EncodedUpTo(t, k, offset, count).Success? && SizeUpTo(t, k, offset, count).Success?
    ensures var size := FIXED_PART + WireTotal(EncodedUpTo(t, k, offset, count).value);
            var predicted := SizeUpTo(t, k, offset, count).value;
            && size <= predicted
            && (size == predicted <==> forall i :: 0 <= i < k ==> ExactColumn(t, i, offset, count))
  {
    hide WireSize, ColumnSize, EncodeHost, PredictionIsExact;
    if k != 0 {
      TotalIsPredicted(t, k - 1, offset, count);
      ColumnSizeBounds(t.columns[k - 1], t.memory, t.types[k - 1], offset, count);
      assert ExactColumn(t, k - 1, offset, count) <==>
        PredictionIsExact(t.columns[k - 1], t.memory, t.types[k - 1], offset, count);
      hide Accepted, ExactColumn;
      var encoded := EncodedUpTo(t, k, offset, count).value;
      assert (forall i :: 0 <= i < k ==> ExactColumn(t, i, offset, count)) <==>
        (forall i :: 0 <= i < k - 1 ==> ExactColumn(t, i, offset, count)) && ExactColumn(t, k - 1, offset, count);
      assert encoded[..k - 1] == EncodedUpTo(t, k - 1, offset, count).value;
    }
  }

  lemma {:induction false} VectorsTotal(vectors: seq<Bytes>, encoded: seq<Encoded>)
    requires |vectors| == |encoded|
    requires forall i :: 0 <= i < |vectors| ==> 4 + |vectors[i]| == WireSize(encoded[i])
    ensures |NativeBatch.AllSized(vectors)| == WireTotal(encoded)
  {
    hide WireSize;
    if vectors != [] {
      var n := |vectors| - 1;
      VectorsTotal(vectors[..n], encoded[..n]);
      AllSizedLast(vectors);
    }
  }

  lemma {:induction false} AllSizedLast(vectors: seq<Bytes>)
    requires vectors != []
    ensures |NativeBatch.AllSized(vectors)| ==
            |NativeBatch.AllSized(vectors[..|vectors| - 1])| + 4 + |vectors[|vectors| - 1]|
  {
    if |vectors| > 1 {
      AllSizedLast(vectors[1..]);
      assert vectors[1..][..|vectors| - 2] == vectors[..|vectors| - 1][1..];
    }
  }

  lemma BatchSize(rows: nat, types: seq<ColumnType>, encoded: seq<Encoded>)
    requires |types| == |encoded| && forall i :: 0 <= i < |types| ==> NativeBatch.WellTyped(types[i])
    requires NativeBatch.AllFramable(rows, types, encoded)
    ensures |NativeBatch.BatchBytes(rows, NativeBatch.VectorsOf(rows, types, encoded))| ==
            FIXED_PART + WireTotal(encoded)
  {
    hide NativeBatch.WellTyped, NativeBatch.TypeBytes, NativeBatch.VectorBytes, NativeBatch.AllSized,
      NativeBatch.Framable;
    var vectors := NativeBatch.VectorsOf(rows, types, encoded);
    forall i | 0 <= i < |vectors| ensures 4 + |vectors[i]| == WireSize(encoded[i]) {
      NativeBatch.VectorSize(NativeBatch.FlatVector(rows, types[i], encoded[i]));
    }
    VectorsTotal(vectors, encoded);
  }

  predicate ExactPrediction(t: Table, offset: nat, count: nat)
    requires Accepted(t)
  {
    forall i :: 0 <= i < |t.columns| ==> ExactColumn(t, i, offset, count)
  }

  /**
   Whenever a range is measured and encoded, the payload is no longer than the prediction, and as
   long exactly if no null text row of the range spans more than 23 bytes.
   */
  lemma SizeBoundsPayload(t: Table, offset: nat, count: nat)
    requires Accepted(t) && EncodeTable(t, offset, count).Success? && EncodedSize(t, offset, count).Success?
    ensures var size, predicted := |EncodeTable(t, offset, count).value|, EncodedSize(t, offset, count).value;
            size <= predicted && (size == predicted <==> ExactPrediction(t, offset, count))
  {
    hide NativeBatch.AllFramable, NativeBatch.BatchBytes, NativeBatch.VectorsOf, NativeBatch.WellTyped, EncodedUpTo,
      SizeUpTo, SourceMatches, ExactColumn, WireTotal;
    TotalIsPredicted(t, |t.columns|, offset, count);
    BatchSize(count, t.types, EncodedUpTo(t, |t.columns|, offset, count).value);
  }

  // ---------------------------------------------------------------------------
  // The prediction grows with the range
  // ---------------------------------------------------------------------------

  lemma {:induction false} AreaGrows(c: Column, memory: Bytes, offset: nat, count: nat, skip: nat, sub: nat)
    requires GoodOffsets(c) && skip + sub <= count
    requires AreaBytes(c, memory, offset, count).Success? && AreaBytes(c, memory, offset + skip, sub).Success?
    ensures AreaBytes(c, memory, offset + skip, sub).value <= AreaBytes(c, memory, offset, count).value
    decreases count
  {
    hide GoodOffsets, AreaCost;
    if sub != 0 {
      if skip + sub < count {
        AreaGrows(c, memory, offset, count - 1, skip, sub);
      } else {
        AreaGrows(c, memory, offset, count - 1, skip, sub - 1);
        assert offset + skip + sub - 1 == offset + count - 1;
      }
    }
  }

  lemma {:induction false} NoNullIn(c: Column, memory: Bytes, offset: nat, count: nat, skip: nat, sub: nat)
    requires skip + sub <= count && AnyNull(c, memory, offset, count) == Success(false)
    ensures AnyNull(c, memory, offset + skip, sub) == Success(false)
    decreases count
  {
    hide RowIsNull;
    if sub != 0 {
      if skip == 0 {
        NoNullIn(c, memory, offset + 1, count - 1, 0, sub - 1);
      } else {
        NoNullIn(c, memory, offset + 1, count - 1, skip - 1, sub);
        assert offset + 1 + (skip - 1) == offset + skip;
      }
    }
  }

  lemma CellsGrow(size: nat, small: nat, large: nat)
    requires small <= large
    ensures small * size <= large * size && WordCount(small) <= WordCount(large)
  {
    Multiples(large - small, size);
    assert (large - small) * size == large * size - small * size;
  }

  lemma ColumnGrows(c: Column, memory: Bytes, t: ColumnType, offset: nat, count: nat, skip: nat, sub: nat)
    requires skip + sub <= count
    requires ColumnSize(c, memory, t, offset, count).Success? && ColumnSize(c, memory, t, offset + skip, sub).Success?
    ensures ColumnSize(c, memory, t, offset + skip, sub).value <= ColumnSize(c, memory, t, offset, count).value
  {
    hide AreaBytes, GoodOffsets, AnyNull, MaskCovers, WordCount, NativeBatch.IsText, NativeBatch.TypeSize;
    CellsGrow(NativeBatch.TypeSize(t.oid), sub, count);
    if NativeBatch.IsText(t.oid) {
      AreaGrows(c, memory, offset, count, skip, sub);
    }
    if c.hasNullMask && AnyNull(c, memory, offset, count) == Success(false) {
      NoNullIn(c, memory, offset, count, skip, sub);
    }
  }

  lemma {:induction false} TotalGrows(t: Table, k: nat, offset: nat, count: nat, skip: nat, sub: nat)
    requires Accepted(t) && k <= |t.columns| && skip + sub <= count
    requires SizeUpTo(t, k, offset, count).Success? && SizeUpTo(t, k, offset + skip, sub).Success?
    ensures SizeUpTo(t, k, offset + skip, sub).value <= SizeUpTo(t, k, offset, count).value
  {
    hide ColumnSize, SourceMatches, NativeBatch.WellTyped;
    if k != 0 {
      TotalGrows(t, k - 1, offset, count, skip, sub);
      ColumnGrows(t.columns[k - 1], t.memory, t.types[k - 1], offset, count, skip, sub);
    }
  }

  /** A part of a range is never predicted larger than the range. */
  lemma SizeGrows(t: Table, offset: nat, count: nat, from: nat, sub: nat)
    requires Accepted(t) && offset <= from && from + sub <= offset + count
    requires EncodedSize(t, offset, count).Success? && EncodedSize(t, from, sub).Success?
    ensures EncodedSize(t, from, sub).value <= EncodedSize(t, offset, count).value
  {
    hide Accepted, SizeUpTo;
    TotalGrows(t, |t.columns|, offset, count, from - offset, sub);
  }

  // ---------------------------------------------------------------------------
  // The prediction stays inside 64 bits
  // ---------------------------------------------------------------------------

  predicate SpansGood(c: Column, memory: Bytes, offset: nat, count: nat)
    requires GoodOffsets(c)
  {
    forall row :: offset <= row < offset + count ==> Span(c, memory, row).Success?
  }

  /**
   The offsets telescope, so the areas of a range never exceed the character buffer: the area sum
   fails only for offsets that do not fit it, never for leaving 64 bits.
   */
  lemma {:induction false} AreaFits(c: Column, memory: Bytes, offset: nat, count: nat)
    requires GoodOffsets(c) && c.dataSize <= MAX_U64
    ensures AreaBytes(c, memory, offset, count).Success? <==> SpansGood(c, memory, offset, count)
    ensures AreaBytes(c, memory, offset, count).Success? && count != 0 ==>
              AreaBytes(c, memory, offset, count).value <= Span(c, memory, offset + count - 1).value.1
    ensures AreaBytes(c, memory, offset, count).Success? ==> AreaBytes(c, memory, offset, count).value <= c.dataSize
  {
    hide OffsetAt, GoodOffsets;
    if count != 0 {
      var last := offset + count - 1;
      AreaFits(c, memory, offset, count - 1);
      if SpansGood(c, memory, offset, count) {
        assert SpansGood(c, memory, offset, count - 1);
        assert Span(c, memory, last).Success?;
      }
      if count > 1 && Span(c, memory, last - 1).Success? && Span(c, memory, last).Success? {
        assert Span(c, memory, last - 1).value.1 == Span(c, memory, last).value.0;
      }
    }
  }

  /** What a column adds stays far inside 64 bits, so the unchecked sum in the source does not wrap. */
  lemma ColumnSizeFits(c: Column, memory: Bytes, t: ColumnType, offset: nat, count: nat)
    requires c.dataSize <= U64 / 2 && count <= MAX_I32 && ColumnSize(c, memory, t, offset, count).Success?
    ensures ColumnSize(c, memory, t, offset, count).value <= MAX_U64
  {
    hide AreaBytes, GoodOffsets, HasNullIn;
    if NativeBatch.IsText(t.oid) {
      AreaFits(c, memory, offset, count);
    }
    CellsGrow(NativeBatch.TypeSize(t.oid), count, MAX_I32);
  }

  // ---------------------------------------------------------------------------
  // The payload decodes to the rows
  // ---------------------------------------------------------------------------

  function HowOf(t: Table, i: nat): NativeBatch.Conversion
    requires Accepted(t) && i < |t.columns|
  {
    HowFor(t.columns[i], t.types[i])
  }

  function CellsIn(t: Table, i: nat, offset: nat, count: nat): Result<seq<Cell>>
    requires Accepted(t) && i < |t.columns|
  {
    HostCells(t.columns[i], t.memory, t.types[i], offset, count)
  }

  /** The decoded view holds exactly the rows of the range. */
  ghost predicate HoldsRows(view: NativeBatch.View, t: Table, offset: nat, count: nat)
    requires Accepted(t)
  {
    && view.rows == count && |view.columns| == |t.columns|
    && forall i :: 0 <= i < |t.columns| ==>
         && CellsIn(t, i, offset, count).Success?
         && ReadsBack(view.columns[i], CellsIn(t, i, offset, count).value, HowOf(t, i))
  }

  predicate Compatible(t: Table, schema: seq<NativeBatch.Substrait>)
    requires Accepted(t)
  {
    && |schema| == |t.columns|
    && forall i :: 0 <= i < |schema| ==>
         NativeBatch.Matches(schema[i], NativeBatch.MOType(t.types[i].oid, t.types[i].width, t.types[i].scale))
  }

  function SourcesIn(t: Table, offset: nat, count: nat): (s: seq<Source>)
    requires Accepted(t) && forall i :: 0 <= i < |t.columns| ==> CellsIn(t, i, offset, count).Success?
    ensures |s| == |t.columns|
  {
    seq(|t.columns|, i requires 0 <= i < |t.columns| =>
      Source(CellsIn(t, i, offset, count).value, t.types[i], HowOf(t, i)))
  }

  lemma SourceEncodable(t: Table, schema: seq<NativeBatch.Substrait>, i: nat, offset: nat, count: nat)
    requires Accepted(t) && Compatible(t, schema) && i < |t.columns| && GoodRange(t, offset, count)
    requires CellsIn(t, i, offset, count).Success?
    ensures var cells := CellsIn(t, i, offset, count).value;
            && |cells| == count && Encodable(cells, t.types[i], HowOf(t, i), schema[i])
            && EncodeOf(t, i, offset, count) == NativeBatch.EncodeColumn(cells, t.types[i], HowOf(t, i))
  {
    hide NativeBatch.EncodeColumn, NativeBatch.WellSized, NativeBatch.Converts, NativeBatch.WellTyped,
      NativeBatch.Matches, HostCells, SourceMatches, HowFor;
    HostCellsShape(t.columns[i], t.memory, t.types[i], offset, count);
    MatchConverts(t.columns[i], t.types[i]);
  }

  lemma {:induction false} ColumnsEncode(sources: seq<Source>, encoded: seq<Encoded>)
    requires |sources| == |encoded|
    requires forall j :: 0 <= j < |sources| ==>
               && NativeBatch.Converts(sources[j].t.oid, sources[j].how)
               && NativeBatch.WellSized(sources[j].cells, sources[j].t.oid, sources[j].how)
               && NativeBatch.EncodeColumn(sources[j].cells, sources[j].t, sources[j].how) == Success(encoded[j])
    ensures EncodeColumns(sources) == Success(encoded)
  {
    hide NativeBatch.EncodeColumn, NativeBatch.Converts, NativeBatch.WellSized;
    if sources != [] {
      ColumnsEncode(sources[1..], encoded[1..]);
      assert encoded == [encoded[0]] + encoded[1..];
    }
  }

  lemma SourcesEncode(t: Table, schema: seq<NativeBatch.Substrait>, offset: nat, count: nat, encoded: seq<Encoded>)
    requires Accepted(t) && Compatible(t, schema) && GoodRange(t, offset, count)
    requires EncodedUpTo(t, |t.columns|, offset, count) == Success(encoded)
    ensures forall i :: 0 <= i < |t.columns| ==> CellsIn(t, i, offset, count).Success?
    ensures Encodables(SourcesIn(t, offset, count), count, schema)
    ensures forall i :: 0 <= i < |encoded| ==>
              var s := SourcesIn(t, offset, count)[i];
              NativeBatch.EncodeColumn(s.cells, s.t, s.how) == Success(encoded[i])
  {
    hide EncodedUpTo, NativeBatch.WellSized, NativeBatch.Converts, HostCells, HowOf, SourceMatches, HowFor,
      NativeBatch.Matches, NativeBatch.WellTyped, NativeBatch.EncodeColumn;
    forall i | 0 <= i < |t.columns|
      ensures CellsIn(t, i, offset, count).Success?
      ensures var cells := CellsIn(t, i, offset, count).value;
              && |cells| == count && Encodable(cells, t.types[i], HowOf(t, i), schema[i])
              && NativeBatch.EncodeColumn(cells, t.types[i], HowOf(t, i)) == Success(encoded[i])
    {
      EncodedAt(t, |t.columns|, offset, count, i);
      SourceEncodable(t, schema, i, offset, count);
    }
  }

  lemma EncodedIsBatch(t: Table, schema: seq<NativeBatch.Substrait>, offset: nat, count: nat)
    requires Accepted(t) && Compatible(t, schema) && EncodeTable(t, offset, count).Success?
    ensures forall i :: 0 <= i < |t.columns| ==> CellsIn(t, i, offset, count).Success?
    ensures Encodables(SourcesIn(t, offset, count), count, schema)
    ensures EncodeBatch(SourcesIn(t, offset, count), count) == EncodeTable(t, offset, count)
  {
    hide EncodedUpTo, CellsIn, HowOf, NativeBatch.WellSized, NativeBatch.Converts, NativeBatch.Matches,
      NativeBatch.WellTyped, NativeBatch.Assemble, SourceMatches, NativeBatch.EncodeColumn;
    var encoded := EncodedUpTo(t, |t.columns|, offset, count).value;
    SourcesEncode(t, schema, offset, count, encoded);
    var sources := SourcesIn(t, offset, count);
    ColumnsEncode(sources, encoded);
    assert TypesOf(sources) == t.types;
  }

  /** Every payload the host encoder produces is accepted by the decoder and holds exactly the rows of its range. */
  lemma TableRoundTrip(t: Table, schema: seq<NativeBatch.Substrait>, offset: nat, count: nat)
    requires Accepted(t) && Compatible(t, schema) && EncodeTable(t, offset, count).Success?
    ensures var r := NativeBatch.ParseBatch(EncodeTable(t, offset, count).value, schema);
            r.Success? && HoldsRows(r.value, t, offset, count)
  {
    hide CellsIn, HowOf, Encodables, EncodeBatch, NativeBatch.ParseBatch, ReadsBack, Compatible, SourceMatches,
      NativeBatch.WellTyped, EncodedUpTo, NativeBatch.Assemble;
    EncodedIsBatch(t, schema, offset, count);
    var sources := SourcesIn(t, offset, count);
    BatchRoundTrip(sources, count, schema);
    var view := NativeBatch.ParseBatch(EncodeTable(t, offset, count).value, schema).value;
    forall i | 0 <= i < |t.columns|
      ensures ReadsBack(view.columns[i], CellsIn(t, i, offset, count).value, HowOf(t, i))
    {
      assert ReadsBack(view.columns[i], sources[i].cells, sources[i].how);
    }
  }
}
