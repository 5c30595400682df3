/**
 Columns of a Sirius host table: where their null mask, offsets and characters lie in the table's
 memory, the logical cells of a row range, the predicted size of its encoding and the encoding.
 */
module HostColumn {
  import opened Bytes
  import opened NullBitmap
  import opened Varlena
  import opened NativeBatch
  import opened HostMemory
  import opened CodecRoundTrip

  datatype TypeId =
    | BOOL8 | INT8 | INT16 | INT32 | INT64 | FLOAT32 | FLOAT64
    | DECIMAL32 | DECIMAL64 | DECIMAL128 | TIMESTAMP_DAYS | STRING | OTHER

  datatype Offsets = Offsets(typeId: TypeId, hasData: bool, dataOffset: nat, dataSize: nat)

  datatype Column = Column(
    typeId: TypeId, scale: int, numRows: nat,
    hasNullMask: bool, nullMaskOffset: nat, nullMaskSize: nat,
    hasData: bool, dataOffset: nat, dataSize: nat,
    children: seq<Offsets>,
    rounding: map<Bytes, int>)   // what the platform rounds each DOUBLE of the column to

  /** `source_type_matches`. */
  predicate SourceMatches(c: Column, t: ColumnType) {
    if t.oid == T_BOOL then c.typeId == BOOL8
    else if t.oid == T_INT8 then c.typeId == INT8
    else if t.oid == T_INT16 then c.typeId == INT16
    else if t.oid == T_INT32 then c.typeId == INT32
    else if t.oid == T_INT64 || t.oid == T_UINT32 then c.typeId == INT64
    else if t.oid == T_FLOAT32 then c.typeId == FLOAT32
    else if t.oid == T_FLOAT64 then c.typeId == FLOAT64
    else if t.oid == T_DECIMAL64 then
      ((c.typeId == DECIMAL32 || c.typeId == DECIMAL64) && c.scale == -t.scale) || c.typeId == FLOAT64
    else if t.oid == T_DECIMAL128 then
      (c.typeId == DECIMAL128 && c.scale == -t.scale) || c.typeId == FLOAT64 || (c.typeId == INT64 && t.scale == 0)
    else if t.oid == T_DATE then c.typeId == TIMESTAMP_DAYS
    else if IsText(t.oid) then c.typeId == STRING
    else false
  }

  /** A DOUBLE rounded to a DECIMAL. */
  predicate RoundsDouble(c: Column, t: ColumnType) {
    (t.oid == T_DECIMAL64 || t.oid == T_DECIMAL128) && c.typeId == FLOAT64
  }

  function HowFor(c: Column, t: ColumnType): Conversion {
    if t.oid == T_UINT32 then NarrowToU32
    else if t.oid == T_DATE then ShiftDate
    else if t.oid == T_DECIMAL64 && c.typeId == DECIMAL32 then WidenI32
    else if RoundsDouble(c, t) then RoundDouble(t.oid == T_DECIMAL128, c.rounding)
    else if t.oid == T_DECIMAL128 && c.typeId == INT64 then WidenI64
    else Copy
  }

  lemma MatchConverts(c: Column, t: ColumnType)
    requires SourceMatches(c, t)
    ensures Converts(t.oid, HowFor(c, t)) && TypeSize(t.oid) > 0 && (IsText(t.oid) ==> HowFor(c, t).Copy?)
  {
  }

  // ---------------------------------------------------------------------------
  // Reading
  // ---------------------------------------------------------------------------

  /** Whether a row is null: the mask has a set bit for a valid row. */
  function RowIsNull(c: Column, memory: Bytes, row: nat): Result<bool> {
    var b :- Fetch(memory, c.nullMaskOffset + row / 8, 1);
    Success(!Bit(b[0], row % 8))
  }

  predicate MaskCovers(c: Column, rows: nat) {
    c.nullMaskSize >= (rows + 7) / 8
  }

  /** The nullness of `count` rows from `offset`, ignoring whether the column is required. */
  function NullRows(c: Column, memory: Bytes, offset: nat, count: nat): Result<seq<bool>> {
    if count == 0 then Success([])
    else
      var nulls :- NullRows(c, memory, offset, count - 1);
      var last :- RowIsNull(c, memory, offset + count - 1);
      Success(nulls + [last])
  }

  function ReadNulls(c: Column, memory: Bytes, offset: nat, count: nat): Result<seq<bool>> {
    if !c.hasNullMask then Success(seq(count, _ => false))
    else if !MaskCovers(c, offset + count) then Failure
    else NullRows(c, memory, offset, count)
  }

  predicate GoodOffsets(c: Column) {
    && |c.children| == 1 && c.children[0].hasData
    && (c.children[0].typeId == INT32 || c.children[0].typeId == INT64)
    && c.children[0].dataSize >= (c.numRows + 1) * (if c.children[0].typeId == INT32 then 4 else 8)
  }

  /** `offset_at`: a 32-bit offset is sign-extended to 64 bits. */
  function OffsetAt(c: Column, memory: Bytes, row: nat): Result<nat>
    requires GoodOffsets(c)
  {
    var offsets := c.children[0];
    if offsets.typeId == INT32 then
      var b :- Fetch(memory, offsets.dataOffset + row * 4, 4);
      FromLEBound(b);
      Pow256Values();
      Success(AsUnsigned(Int32Of(b), U64))
    else
      var b :- Fetch(memory, offsets.dataOffset + row * 8, 8);
      Success(FromLE(b))
  }

  /** The character range of a text row. */
  function Span(c: Column, memory: Bytes, row: nat): (r: Result<(nat, nat)>)
    requires GoodOffsets(c)
    ensures r.Success? ==> r.value.0 <= r.value.1 <= c.dataSize
  {
    var begin :- OffsetAt(c, memory, row);
    var end :- OffsetAt(c, memory, row + 1);
    if end < begin || end > c.dataSize then Failure else Success((begin, end))
  }

  predicate GoodBuffers(c: Column, t: ColumnType) {
    if IsText(t.oid) then GoodOffsets(c) && c.hasData
    else c.hasData && c.dataSize >= c.numRows * SourceSize(t.oid, HowFor(c, t))
  }

  /** The logical cell of one row, given its nullness; a null row's buffers are not read. */
  function CellOf(c: Column, memory: Bytes, t: ColumnType, row: nat, isNull: bool): (r: Result<Cell>)
    requires GoodBuffers(c, t)
    ensures r.Success? && r.value.Value? && !IsText(t.oid) ==> |r.value.bytes| == SourceSize(t.oid, HowFor(c, t))
    ensures r.Success? ==> r.value.Null? == isNull
  {
    if isNull then Success(Null)
    else if IsText(t.oid) then
      var span :- Span(c, memory, row);
      var bytes :- Fetch(memory, c.dataOffset + span.0, span.1 - span.0);
      Success(Value(bytes))
    else
      var size := SourceSize(t.oid, HowFor(c, t));
      var bytes :- Fetch(memory, c.dataOffset + row * size, size);
      Success(Value(bytes))
  }

  function CellsOf(c: Column, memory: Bytes, t: ColumnType, offset: nat, nulls: seq<bool>): (r: Result<seq<Cell>>)
    requires GoodBuffers(c, t)
    ensures r.Success? ==> |r.value| == |nulls|
  {
    if nulls == [] then Success([])
    else
      var n := |nulls| - 1;
      var cells :- CellsOf(c, memory, t, offset, nulls[..n]);
      var last :- CellOf(c, memory, t, offset + n, nulls[n]);
      Success(cells + [last])
  }

  lemma {:induction false} CellsAt(c: Column, memory: Bytes, t: ColumnType, offset: nat, nulls: seq<bool>, i: nat)
    requires GoodBuffers(c, t) && CellsOf(c, memory, t, offset, nulls).Success? && i < |nulls|
    ensures CellOf(c, memory, t, offset + i, nulls[i]) == Success(CellsOf(c, memory, t, offset, nulls).value[i])
  {
    hide CellOf, GoodBuffers;
    var n := |nulls| - 1;
    if i < n { CellsAt(c, memory, t, offset, nulls[..n], i); }
  }

  lemma CellsAreWellSized(c: Column, memory: Bytes, t: ColumnType, offset: nat, nulls: seq<bool>)
    requires GoodBuffers(c, t) && CellsOf(c, memory, t, offset, nulls).Success?
    ensures WellSized(CellsOf(c, memory, t, offset, nulls).value, t.oid, HowFor(c, t))
    ensures NullsOf(CellsOf(c, memory, t, offset, nulls).value) == nulls
  {
    hide CellOf, GoodBuffers, CellsOf;
    var cells := CellsOf(c, memory, t, offset, nulls).value;
    forall i | 0 <= i < |cells|
      ensures cells[i].Null? == nulls[i]
      ensures cells[i].Value? && !IsText(t.oid) ==> |cells[i].bytes| == SourceSize(t.oid, HowFor(c, t))
    {
      CellsAt(c, memory, t, offset, nulls, i);
    }
  }

  predicate InRange(c: Column, t: ColumnType, offset: nat, count: nat) {
    SourceMatches(c, t) && offset + count <= c.numRows
  }

  /** The logical rows of a range, or the failure of reading them. */
  function HostCells(c: Column, memory: Bytes, t: ColumnType, offset: nat, count: nat): Result<seq<Cell>> {
    if !InRange(c, t, offset, count) then Failure
    else
      var nulls :- ReadNulls(c, memory, offset, count);
      if !GoodBuffers(c, t) then Failure else CellsOf(c, memory, t, offset, nulls)
  }

  lemma {:induction false} NullRowsCount(c: Column, memory: Bytes, offset: nat, count: nat)
    requires NullRows(c, memory, offset, count).Success?
    ensures |NullRows(c, memory, offset, count).value| == count
  {
    if count != 0 { NullRowsCount(c, memory, offset, count - 1); }
  }

  lemma HostCellsShape(c: Column, memory: Bytes, t: ColumnType, offset: nat, count: nat)
    requires HostCells(c, memory, t, offset, count).Success?
    ensures var cells := HostCells(c, memory, t, offset, count).value;
            && |cells| == count && WellSized(cells, t.oid, HowFor(c, t)) && Converts(t.oid, HowFor(c, t))
            && ReadNulls(c, memory, offset, count) == Success(NullsOf(cells))
  {
    hide CellsOf, GoodBuffers, SourceMatches, NullRows, WellSized, Converts;
    var nulls := ReadNulls(c, memory, offset, count).value;
    if c.hasNullMask { NullRowsCount(c, memory, offset, count); }
    CellsAreWellSized(c, memory, t, offset, nulls);
    MatchConverts(c, t);
  }

  /** `encode_host_column`: the encoding of the logical rows. */
  function EncodeHost(c: Column, memory: Bytes, t: ColumnType, offset: nat, count: nat): Result<Encoded> {
    var cells :- HostCells(c, memory, t, offset, count);
    HostCellsShape(c, memory, t, offset, count);
    EncodeColumn(cells, t, HowFor(c, t))
  }

  // ---------------------------------------------------------------------------
  // Predicting the size
  // ---------------------------------------------------------------------------

  /** What a text row adds to the predicted area, null or not. */
  function AreaCost(c: Column, memory: Bytes, row: nat): Result<nat>
    requires GoodOffsets(c)
  {
    var span :- Span(c, memory, row);
    Success(if span.1 - span.0 > INLINE_MAX then span.1 - span.0 else 0)
  }

  /** The area loop, which stops when the sum leaves 64 bits. */
  function AreaBytes(c: Column, memory: Bytes, offset: nat, count: nat): Result<nat>
    requires GoodOffsets(c)
  {
    if count == 0 then Success(0)
    else
      var sum :- AreaBytes(c, memory, offset, count - 1);
      var cost :- AreaCost(c, memory, offset + count - 1);
      if sum + cost > MAX_U64 then Failure else Success(sum + cost)
  }

  /** The null search, which stops at the first null row. */
  function AnyNull(c: Column, memory: Bytes, offset: nat, count: nat): Result<bool>
    decreases count
  {
    if count == 0 then Success(false)
    else
      var isNull :- RowIsNull(c, memory, offset);
      if isNull then Success(true) else AnyNull(c, memory, offset + 1, count - 1)
  }

  function HasNullIn(c: Column, memory: Bytes, offset: nat, count: nat): Result<bool> {
    if !c.hasNullMask then Success(false)
    else if !MaskCovers(c, offset + count) then Failure
    else AnyNull(c, memory, offset, count)
  }

  function NullBytes(hasNull: bool, count: nat): nat {
    if hasNull then HEADER + 8 * WordCount(count) else 0
  }

  /** What one column adds to `encoded_size`. */
  function ColumnSize(c: Column, memory: Bytes, t: ColumnType, offset: nat, count: nat): Result<nat> {
    var area :- if !IsText(t.oid) then Success(0) else if GoodOffsets(c) then AreaBytes(c, memory, offset, count)
      else Failure;
    var hasNull :- HasNullIn(c, memory, offset, count);
    Success(4 + 34 + count * TypeSize(t.oid) + area + NullBytes(hasNull, count))
  }

  // ---------------------------------------------------------------------------
  // The prediction against the encoding
  // ---------------------------------------------------------------------------

  lemma {:induction false} NullRowsAt(c: Column, memory: Bytes, offset: nat, count: nat, i: nat)
    requires NullRows(c, memory, offset, count).Success? && i < count
    ensures |NullRows(c, memory, offset, count).value| == count
    ensures RowIsNull(c, memory, offset + i) == Success(NullRows(c, memory, offset, count).value[i])
  {
    hide RowIsNull;
    NullRowsCount(c, memory, offset, count - 1);
    if i < count - 1 { NullRowsAt(c, memory, offset, count - 1, i); }
  }

  /** Searching for a null from row k on finds one exactly if there is one. */
  lemma {:induction false} AnyNullFinds(c: Column, memory: Bytes, offset: nat, nulls: seq<bool>, k: nat)
    requires NullRows(c, memory, offset, |nulls|) == Success(nulls) && k <= |nulls|
    ensures AnyNull(c, memory, offset + k, |nulls| - k) == Success(exists i :: k <= i < |nulls| && nulls[i])
    decreases |nulls| - k
  {
    hide RowIsNull;
    if k < |nulls| {
      NullRowsAt(c, memory, offset, |nulls|, k);
      AnyNullFinds(c, memory, offset, nulls, k + 1);
    }
  }

  lemma HasNullIsCount(c: Column, memory: Bytes, offset: nat, nulls: seq<bool>)
    requires ReadNulls(c, memory, offset, |nulls|) == Success(nulls)
    ensures HasNullIn(c, memory, offset, |nulls|) == Success(CountTrue(nulls) > 0)
  {
    hide NullRows, AnyNull, RowIsNull, MaskCovers, CountTrue;
    CountTruePositive(nulls);
    if c.hasNullMask {
      AnyNullFinds(c, memory, offset, nulls, 0);
    }
  }

  lemma {:induction false} CountTruePositive(nulls: seq<bool>)
    ensures CountTrue(nulls) > 0 <==> exists i :: 0 <= i < |nulls| && nulls[i]
  {
    if nulls != [] {
      CountTruePositive(nulls[1..]);
      if CountTrue(nulls[1..]) > 0 {
        var i :| 0 <= i < |nulls| - 1 && nulls[1..][i];
        assert nulls[i + 1];
      } else if i: nat :| 0 <= i < |nulls| && nulls[i] && i > 0 {
        assert nulls[1..][i - 1];
      }
    }
  }

  /** No null text row of the range spans more than the 23 inline bytes. */
  predicate NullSpansFit(c: Column, memory: Bytes, offset: nat, nulls: seq<bool>)
    requires GoodOffsets(c)
  {
    forall i :: 0 <= i < |nulls| && nulls[i] ==> AreaCost(c, memory, offset + i) == Success(0)
  }

  /** The area bytes of one cell. */
  function BigBytes(cell: Cell): nat {
    if IsBig(cell) then |cell.bytes| else 0
  }

  lemma CostIsPredicted(c: Column, memory: Bytes, t: ColumnType, row: nat, isNull: bool)
    requires IsText(t.oid) && GoodBuffers(c, t)
    requires CellOf(c, memory, t, row, isNull).Success? && AreaCost(c, memory, row).Success?
    ensures BigBytes(CellOf(c, memory, t, row, isNull).value) ==
            if isNull then 0 else AreaCost(c, memory, row).value
  {
    hide OffsetAt, Span;
  }

  lemma AreaStep(cells: seq<Cell>, last: Cell)
    ensures |Area(cells + [last])| == |Area(cells)| + BigBytes(last)
  {
    assert (cells + [last])[..|cells|] == cells;
  }

  lemma {:induction false} AreaIsPredicted(c: Column, memory: Bytes, t: ColumnType, offset: nat, nulls: seq<bool>)
    requires IsText(t.oid) && GoodBuffers(c, t)
    requires CellsOf(c, memory, t, offset, nulls).Success? && AreaBytes(c, memory, offset, |nulls|).Success?
    ensures var area := |Area(CellsOf(c, memory, t, offset, nulls).value)|;
            var predicted := AreaBytes(c, memory, offset, |nulls|).value;
            area <= predicted && (area == predicted <==> NullSpansFit(c, memory, offset, nulls))
  {
    hide CellOf, AreaCost, GoodOffsets, BigBytes, IsText;
    if nulls != [] {
      hide Area, NullSpansFit;
      var n := |nulls| - 1;
      AreaIsPredicted(c, memory, t, offset, nulls[..n]);
      CostIsPredicted(c, memory, t, offset + n, nulls[n]);
      AreaStep(CellsOf(c, memory, t, offset, nulls[..n]).value, CellOf(c, memory, t, offset + n, nulls[n]).value);
      SpansFitStep(c, memory, offset, nulls);
    }
  }

  lemma SpansFitStep(c: Column, memory: Bytes, offset: nat, nulls: seq<bool>)
    requires GoodOffsets(c) && nulls != []
    ensures var n := |nulls| - 1;
            NullSpansFit(c, memory, offset, nulls) <==>
              NullSpansFit(c, memory, offset, nulls[..n])
                && (nulls[n] ==> AreaCost(c, memory, offset + n) == Success(0))
  {
    hide AreaCost;
    var n := |nulls| - 1;
    if NullSpansFit(c, memory, offset, nulls) {
      assert forall i :: 0 <= i < n ==> nulls[..n][i] == nulls[i];
    }
    if NullSpansFit(c, memory, offset, nulls[..n]) && (nulls[n] ==> AreaCost(c, memory, offset + n) == Success(0)) {
      forall i | 0 <= i < |nulls| && nulls[i] ensures AreaCost(c, memory, offset + i) == Success(0) {
        if i < n { assert nulls[..n][i]; }
      }
    }
  }

  function WireSize(e: Encoded): nat {
    4 + 34 + |e.data| + |e.area| + |e.nulls|
  }

  lemma EncodedColumnSize(cells: seq<Cell>, t: ColumnType, how: Conversion)
    requires Converts(t.oid, how) && WellSized(cells, t.oid, how) && EncodeColumn(cells, t, how).Success?
    ensures var e := EncodeColumn(cells, t, how).value;
            && WireSize(e) == 38 + |cells| * TypeSize(t.oid) + |e.area|
              + NullBytes(CountTrue(NullsOf(cells)) > 0, |cells|)
            && e.area == if IsText(t.oid) then Area(cells) else []
  {
    hide EncodeNulls, Descriptors, Area, FixedData, TypeSize, Converts, CountTrue;
    EncodedNullsSize(NullsOf(cells));
    if IsText(t.oid) {
      TextSize(t.oid);
    } else {
      FixedDataSize(cells, t.oid, how);
      assert |cells| * TypeSize(t.oid) == TypeSize(t.oid) * |cells|;
    }
  }

  /** Whether the prediction for a range is exact: it charges the area for null text rows, which the encoder skips. */
  predicate PredictionIsExact(c: Column, memory: Bytes, t: ColumnType, offset: nat, count: nat) {
    IsText(t.oid) && GoodOffsets(c) && ReadNulls(c, memory, offset, count).Success? ==>
      NullSpansFit(c, memory, offset, ReadNulls(c, memory, offset, count).value)
  }

  /**
   The predicted size bounds the encoded size of every column and range, and is exact if and only if
   no null text row of the range spans more than 23 bytes.
   */
  lemma ColumnSizeBounds(c: Column, memory: Bytes, t: ColumnType, offset: nat, count: nat)
    requires EncodeHost(c, memory, t, offset, count).Success? && ColumnSize(c, memory, t, offset, count).Success?
    ensures var size := WireSize(EncodeHost(c, memory, t, offset, count).value);
            var predicted := ColumnSize(c, memory, t, offset, count).value;
            size <= predicted && (size == predicted <==> PredictionIsExact(c, memory, t, offset, count))
  {
    hide EncodeColumn, CellsOf, ReadNulls, AreaBytes, HasNullIn, NullSpansFit, WellSized, Converts, TypeSize, Area,
      CountTrue, SourceMatches, WireSize, EncodeNulls;
    var cells := HostCells(c, memory, t, offset, count).value;
    HostCellsShape(c, memory, t, offset, count);
    HasNullIsCount(c, memory, offset, NullsOf(cells));
    EncodedColumnSize(cells, t, HowFor(c, t));
    if IsText(t.oid) {
      AreaIsPredicted(c, memory, t, offset, NullsOf(cells));
    }
  }
}
