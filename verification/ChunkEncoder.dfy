/**
 The encoder of DuckDB chunks, which walks a vector through its selection in one pass, against the
 encoding of the logical rows that the host-column encoder is proved against.
 */
module ChunkEncoder {
  import opened Bytes
  import opened NullBitmap
  import opened Varlena
  import NativeBatch
  import opened CodecRoundTrip
  import HostColumn
  import HostTable
  import opened HostEncoder

  type ColumnType = NativeBatch.ColumnType
  type Encoded = NativeBatch.Encoded
  type Conversion = NativeBatch.Conversion

  /**
   A unified vector: row r of the chunk is element `selection[r]` of the validity and, in the width the
   encoder reads, of the data buffer; the strings of a text vector are given as such.
   */
  datatype Vector = Vector(selection: seq<nat>, validity: seq<bool>, data: Bytes, texts: seq<Bytes>)

  function HowOf(t: ColumnType): Conversion {
    if t.oid == NativeBatch.T_UINT32 then NativeBatch.NarrowToU32
    else if t.oid == NativeBatch.T_DATE then NativeBatch.ShiftDate
    else NativeBatch.Copy
  }

  function Width(t: ColumnType): nat {
    NativeBatch.SourceSize(t.oid, HowOf(t))
  }

  /** The element lies in its buffer, as the encoder reads it. */
  predicate InBuffer(v: Vector, t: ColumnType, e: nat) {
    if NativeBatch.IsText(t.oid) then e < |v.texts| else e * Width(t) + Width(t) <= |v.data|
  }

  /** Every selected element has a validity bit and, if valid, can be read; the encoder tests neither. */
  predicate WellFormed(v: Vector, t: ColumnType) {
    && NativeBatch.Converts(t.oid, HowOf(t))
    && forall r :: 0 <= r < |v.selection| ==>
         v.selection[r] < |v.validity| && (v.validity[v.selection[r]] ==> InBuffer(v, t, v.selection[r]))
  }

  function ElementAt(v: Vector, t: ColumnType, e: nat): (b: Bytes)
    requires InBuffer(v, t, e)
    ensures !NativeBatch.IsText(t.oid) ==> |b| == Width(t)
  {
    if NativeBatch.IsText(t.oid) then v.texts[e] else v.data[e * Width(t) .. e * Width(t) + Width(t)]
  }

  function RowCell(v: Vector, t: ColumnType, row: nat): (c: Cell)
    requires WellFormed(v, t) && row < |v.selection|
    ensures c.Value? && !NativeBatch.IsText(t.oid) ==> |c.bytes| == NativeBatch.SourceSize(t.oid, HowOf(t))
  {
    var e := v.selection[row];
    if v.validity[e] then Value(ElementAt(v, t, e)) else Null
  }

  function Cells(v: Vector, t: ColumnType, offset: nat, count: nat): (cells: seq<Cell>)
    requires WellFormed(v, t) && offset + count <= |v.selection|
    ensures |cells| == count && NativeBatch.WellSized(cells, t.oid, HowOf(t))
  {
    var cells := seq(count, i requires 0 <= i < count => RowCell(v, t, offset + i));
    assert forall i :: 0 <= i < count ==> cells[i] == RowCell(v, t, offset + i);
    cells
  }

  /** The data and area after a prefix of the rows, or the failure of encoding it. */
  function DataOf(cells: seq<Cell>, t: ColumnType): Result<(Bytes, Bytes)>
    requires NativeBatch.Converts(t.oid, HowOf(t)) && NativeBatch.WellSized(cells, t.oid, HowOf(t))
  {
    if NativeBatch.IsText(t.oid) then EncodeText(cells)
    else
      var data :- NativeBatch.FixedData(cells, t.oid, HowOf(t));
      Success((data, []))
  }

  lemma DataStops(cells: seq<Cell>, t: ColumnType, k: nat)
    requires NativeBatch.Converts(t.oid, HowOf(t)) && NativeBatch.WellSized(cells, t.oid, HowOf(t)) && k <= |cells|
    ensures NativeBatch.WellSized(cells[..k], t.oid, HowOf(t))
    ensures DataOf(cells[..k], t).Failure? ==> DataOf(cells, t).Failure?
  {
    hide NativeBatch.FixedData, Descriptors, Area, HowOf;
    if NativeBatch.IsText(t.oid) {
      AreaOfPrefix(cells, k);
    } else {
      FixedPrefix(cells, t.oid, HowOf(t), k);
    }
  }

  /** Appending one row to the data and area. */
  function AppendRow(data: Bytes, area: Bytes, cell: Cell, t: ColumnType): Result<(Bytes, Bytes)>
    requires NativeBatch.Converts(t.oid, HowOf(t))
    requires cell.Value? && !NativeBatch.IsText(t.oid) ==> |cell.bytes| == NativeBatch.SourceSize(t.oid, HowOf(t))
  {
    if NativeBatch.IsText(t.oid) then
      if !IsBig(cell) then Success((data + Descriptor(cell, |area|), area))
      else if |area| > MAX_U32 || |cell.bytes| > MAX_U32 - |area| then Failure
      else Success((data + Descriptor(cell, |area|), area + cell.bytes))
    else
      var element :- NativeBatch.FixedElement(t.oid, HowOf(t), cell);
      Success((data + element, area))
  }

  lemma DataMore(cells: seq<Cell>, cell: Cell, t: ColumnType)
    requires NativeBatch.Converts(t.oid, HowOf(t)) && NativeBatch.WellSized(cells, t.oid, HowOf(t))
    requires cell.Value? && !NativeBatch.IsText(t.oid) ==> |cell.bytes| == NativeBatch.SourceSize(t.oid, HowOf(t))
    requires DataOf(cells, t).Success?
    ensures NativeBatch.WellSized(cells + [cell], t.oid, HowOf(t))
    ensures DataOf(cells + [cell], t) == AppendRow(DataOf(cells, t).value.0, DataOf(cells, t).value.1, cell, t)
  {
    hide NativeBatch.FixedData, NativeBatch.FixedElement, Descriptors, Descriptor, Area, HowOf, NativeBatch.Converts,
      NativeBatch.SourceSize;
    if NativeBatch.IsText(t.oid) {
      TextMore(cells, cell);
      assert Area(cells) + [] == Area(cells);
    } else {
      FixedMore(cells, cell, t.oid, HowOf(t));
    }
  }

  lemma ColumnOf(cells: seq<Cell>, t: ColumnType)
    requires NativeBatch.Converts(t.oid, HowOf(t)) && NativeBatch.WellSized(cells, t.oid, HowOf(t))
    ensures NativeBatch.EncodeColumn(cells, t, HowOf(t)) ==
              if (t.notNullable && NativeBatch.HasNull(cells)) || DataOf(cells, t).Failure? then Failure
              else Success(NativeBatch.Encoded(DataOf(cells, t).value.0, DataOf(cells, t).value.1,
                EncodeNulls(NativeBatch.NullsOf(cells))))
  {
    hide NativeBatch.FixedData, Descriptors, Area, HowOf, EncodeNulls, NativeBatch.WellSized;
  }

  /** The state of the pass after `row` rows. */
  ghost predicate Passed(cells: seq<Cell>, t: ColumnType, row: nat, words: seq<nat>, nullCount: nat, data: Bytes,
      area: Bytes)
    requires NativeBatch.Converts(t.oid, HowOf(t))
  {
    && row <= |cells| && Packed(words, NativeBatch.NullsOf(cells), row)
    && nullCount == CountTrue(NativeBatch.NullsOf(cells)[..row])
    && (t.notNullable ==> forall i :: 0 <= i < row ==> cells[i].Value?)
    && NativeBatch.WellSized(cells[..row], t.oid, HowOf(t))
    && DataOf(cells[..row], t) == Success((data, area))
  }

  lemma PassStarts(cells: seq<Cell>, t: ColumnType)
    requires NativeBatch.Converts(t.oid, HowOf(t))
    ensures Passed(cells, t, 0, seq(WordCount(|cells|), _ => 0), 0, [], [])
  {
    assert cells[..0] == [] && NativeBatch.NullsOf(cells)[..0] == [];
  }

  lemma PassEnds(cells: seq<Cell>, t: ColumnType, words: seq<nat>, nullCount: nat, data: Bytes, area: Bytes)
    requires NativeBatch.Converts(t.oid, HowOf(t)) && NativeBatch.WellSized(cells, t.oid, HowOf(t))
    requires Passed(cells, t, |cells|, words, nullCount, data, area)
    ensures NativeBatch.EncodeColumn(cells, t, HowOf(t)) ==
              Success(NativeBatch.Encoded(data, area, MaskBytes(nullCount, |cells|, words)))
  {
    ColumnOf(cells, t);
    hide NativeBatch.EncodeColumn, NativeBatch.WellSized, DataOf, HowOf, WordBytes, LE, CountTrue,
      NativeBatch.Converts;
    var nulls := NativeBatch.NullsOf(cells);
    assert cells[..|cells|] == cells && nulls[..|cells|] == nulls;
    assert words == WordsOf(nulls);
  }

  lemma PassStep(cells: seq<Cell>, t: ColumnType, row: nat, words: seq<nat>, nullCount: nat, data: Bytes, area: Bytes)
    requires NativeBatch.Converts(t.oid, HowOf(t)) && NativeBatch.WellSized(cells, t.oid, HowOf(t))
    requires row < |cells| && Passed(cells, t, row, words, nullCount, data, area)
    requires cells[row].Value? && !NativeBatch.IsText(t.oid) ==>
             |cells[row].bytes| == NativeBatch.SourceSize(t.oid, HowOf(t))
    ensures row / 64 < |words|
    ensures var next := AppendRow(data, area, cells[row], t);
            var isNull := cells[row].Null?;
            if (isNull && t.notNullable) || next.Failure? then NativeBatch.EncodeColumn(cells, t, HowOf(t)).Failure?
            else Passed(cells, t, row + 1, if isNull then MarkNull(words, row) else words,
                        if isNull then nullCount + 1 else nullCount,
                        next.value.0, next.value.1)
  {
    hide NativeBatch.EncodeColumn, NativeBatch.WellSized, NativeBatch.SourceSize, DataOf, Packed, MarkNull, CountTrue,
      AppendRow, EncodeNulls, HowOf, NativeBatch.Converts;
    var nulls := NativeBatch.NullsOf(cells);
    ColumnOf(cells, t);
    PackedStep(words, nulls, row);
    CountPrefix(nulls, row);
    assert cells[..row] + [cells[row]] == cells[..row + 1];
    DataMore(cells[..row], cells[row], t);
    DataStops(cells, t, row + 1);
  }

  /** `encode_column`: one pass that marks nulls, refuses them in a required column, and appends data. */
  method EncodeChunkColumn(v: Vector, t: ColumnType, offset: nat, count: nat) returns (r: Result<Encoded>)
    requires WellFormed(v, t) && offset + count <= |v.selection|
    ensures r == NativeBatch.EncodeColumn(Cells(v, t, offset, count), t, HowOf(t))
  {
    hide NativeBatch.EncodeColumn, NativeBatch.WellSized, NativeBatch.SourceSize, Passed, MarkNull, AppendRow, HowOf,
      NativeBatch.Converts, MaskBytes, RowCell, WordCount;
    ghost var cells := Cells(v, t, offset, count);
    var words := seq(WordCount(count), _ => 0);
    var nullCount, data: Bytes, area: Bytes := 0, [], [];
    PassStarts(cells, t);
    var row := 0;
    while row < count
      invariant 0 <= row <= count && Passed(cells, t, row, words, nullCount, data, area)
    {
      var cell := RowCell(v, t, offset + row);
      assert cell == cells[row];
      PassStep(cells, t, row, words, nullCount, data, area);
      if cell.Null? {
        words, nullCount := MarkNull(words, row), nullCount + 1;
        if t.notNullable { return Failure; }
      }
      var next := AppendRow(data, area, cell, t);
      if next.Failure? { return Failure; }
      data, area := next.value.0, next.value.1;
      row := row + 1;
    }
    PassEnds(cells, t, words, nullCount, data, area);
    return Success(NativeBatch.Encoded(data, area, MaskBytes(nullCount, count, words)));
  }

  // ---------------------------------------------------------------------------
  // Whole chunks
  // ---------------------------------------------------------------------------

  datatype Chunk = Chunk(columns: seq<Vector>, rows: nat)

  /** Every column has the chunk's rows and, where the schema has a column for it, its width. */
  predicate Readable(chunk: Chunk, types: seq<ColumnType>) {
    forall i :: 0 <= i < |chunk.columns| ==>
      && |chunk.columns[i].selection| == chunk.rows
      && (i < |types| ==> NativeBatch.WellTyped(types[i]) && WellFormed(chunk.columns[i], types[i]))
  }

  predicate GoodRange(chunk: Chunk, types: seq<ColumnType>, offset: nat, count: nat) {
    count != 0 && offset + count <= chunk.rows && |chunk.columns| == |types|
  }

  function EncodeOf(chunk: Chunk, types: seq<ColumnType>, i: nat, offset: nat, count: nat): Result<Encoded>
    requires Readable(chunk, types) && GoodRange(chunk, types, offset, count) && i < |types|
  {
    NativeBatch.EncodeColumn(Cells(chunk.columns[i], types[i], offset, count), types[i], HowOf(types[i]))
  }

  function EncodedUpTo(chunk: Chunk, types: seq<ColumnType>, k: nat, offset: nat, count: nat): (r: Result<seq<Encoded>>)
    requires Readable(chunk, types) && GoodRange(chunk, types, offset, count) && k <= |types|
    ensures r.Success? ==> |r.value| == k
  {
    if k == 0 then Success([])
    else
      var before :- EncodedUpTo(chunk, types, k - 1, offset, count);
      var last :- EncodeOf(chunk, types, k - 1, offset, count);
      Success(before + [last])
  }

  /** The payload of a row range of a chunk. */
  function EncodeChunk(chunk: Chunk, types: seq<ColumnType>, offset: nat, count: nat): Result<Bytes>
    requires Readable(chunk, types)
  {
    if !GoodRange(chunk, types, offset, count) then Failure
    else
      var encoded :- EncodedUpTo(chunk, types, |types|, offset, count);
      NativeBatch.Assemble(count, types, encoded)
  }

  lemma {:induction false} EncodedPrefix(chunk: Chunk, types: seq<ColumnType>, k: nat, n: nat, offset: nat, count: nat)
    requires Readable(chunk, types) && GoodRange(chunk, types, offset, count) && k <= n <= |types|
    requires EncodedUpTo(chunk, types, n, offset, count).Success?
    ensures EncodedUpTo(chunk, types, k, offset, count) ==
            Success(EncodedUpTo(chunk, types, n, offset, count).value[..k])
    decreases n
  {
    hide Readable, EncodeOf;
    var all := EncodedUpTo(chunk, types, n, offset, count).value;
    if k < n {
      EncodedPrefix(chunk, types, k, n - 1, offset, count);
      assert all[..n - 1] == EncodedUpTo(chunk, types, n - 1, offset, count).value && all[..n - 1][..k] == all[..k];
    } else {
      assert all[..k] == all;
    }
  }

  /** A column that cannot be encoded or framed fails the chunk. */
  lemma ChunkStops(chunk: Chunk, types: seq<ColumnType>, k: nat, offset: nat, count: nat)
    requires Readable(chunk, types) && GoodRange(chunk, types, offset, count) && k < |types|
    requires var some := EncodedUpTo(chunk, types, k + 1, offset, count);
             some.Failure? || !NativeBatch.Framable(NativeBatch.FlatVector(count, types[k], some.value[k]))
    ensures EncodeChunk(chunk, types, offset, count).Failure?
  {
    hide EncodedUpTo, WellFormed, NativeBatch.WellTyped, NativeBatch.Framable, NativeBatch.VectorBytes,
      NativeBatch.TypeBytes;
    if EncodedUpTo(chunk, types, |types|, offset, count).Success? {
      EncodedPrefix(chunk, types, k + 1, |types|, offset, count);
    }
  }

  /** Only a non-empty range inside the chunk, with a schema column for each of its columns, is encoded. */
  lemma RangeIsChecked(chunk: Chunk, types: seq<ColumnType>, offset: nat, count: nat)
    requires Readable(chunk, types) && EncodeChunk(chunk, types, offset, count).Success?
    ensures 1 <= count && offset + count <= chunk.rows && |chunk.columns| == |types|
    ensures forall i :: 0 <= i < |types| ==> EncodeOf(chunk, types, i, offset, count).Success?
  {
    hide EncodedUpTo, EncodeOf, WellFormed, NativeBatch.WellTyped, NativeBatch.Assemble;
    forall i | 0 <= i < |types| ensures EncodeOf(chunk, types, i, offset, count).Success? {
      EncodedPrefix(chunk, types, i + 1, |types|, offset, count);
      LastIsEncoded(chunk, types, i, offset, count);
    }
  }

  lemma LastIsEncoded(chunk: Chunk, types: seq<ColumnType>, i: nat, offset: nat, count: nat)
    requires Readable(chunk, types) && GoodRange(chunk, types, offset, count) && i < |types|
    requires EncodedUpTo(chunk, types, i + 1, offset, count).Success?
    ensures EncodeOf(chunk, types, i, offset, count).Success?
  {
    hide EncodeOf, Readable;
  }

  /** The vectors of the first columns, as `encode_native_result_batch` collects them. */
  predicate Collected(chunk: Chunk, types: seq<ColumnType>, k: nat, offset: nat, count: nat, encoded: seq<Encoded>,
      vectors: seq<Bytes>)
    requires Readable(chunk, types) && GoodRange(chunk, types, offset, count) && k <= |types|
  {
    && EncodedUpTo(chunk, types, k, offset, count) == Success(encoded) && |vectors| == k
    && forall i :: 0 <= i < k ==>
         && NativeBatch.Framable(NativeBatch.FlatVector(count, types[i], encoded[i]))
         && vectors[i] == NativeBatch.VectorBytes(NativeBatch.FlatVector(count, types[i], encoded[i]))
  }

  /** The first loop: one framed vector per column. */
  method CollectVectors(chunk: Chunk, types: seq<ColumnType>, offset: nat, count: nat)
    returns (r: Result<seq<Bytes>>, ghost encoded: seq<Encoded>)
    requires Readable(chunk, types) && GoodRange(chunk, types, offset, count)
    ensures r.Failure? ==> EncodeChunk(chunk, types, offset, count).Failure?
    ensures r.Success? ==> Collected(chunk, types, |types|, offset, count, encoded, r.value)
  {
    hide EncodeChunk, WellFormed, NativeBatch.WellTyped, NativeBatch.Framable, NativeBatch.VectorBytes,
      NativeBatch.TypeBytes, NativeBatch.EncodeColumn, Cells, HowOf;
    var vectors: seq<Bytes> := [];
    encoded := [];
    for i := 0 to |types|
      invariant Collected(chunk, types, i, offset, count, encoded, vectors)
    {
      var column := EncodeChunkColumn(chunk.columns[i], types[i], offset, count);
      assert column == EncodeOf(chunk, types, i, offset, count);
      if column.Failure? {
        ChunkStops(chunk, types, i, offset, count);
        return Failure, encoded;
      }
      var flat := NativeBatch.FlatVector(count, types[i], column.value);
      if !NativeBatch.Framable(flat) {
        assert EncodedUpTo(chunk, types, i + 1, offset, count) == Success(encoded + [column.value]);
        ChunkStops(chunk, types, i, offset, count);
        return Failure, encoded;
      }
      vectors, encoded := vectors + [NativeBatch.VectorBytes(flat)], encoded + [column.value];
    }
    return Success(vectors), encoded;
  }

  /** The second loop: the vectors, each after its length. */
  method AppendVectors(output: Bytes, vectors: seq<Bytes>) returns (r: Result<Bytes>)
    ensures r == if forall i :: 0 <= i < |vectors| ==> |vectors[i]| <= MAX_U32
                 then Success(output + NativeBatch.AllSized(vectors)) else Failure
  {
    hide NativeBatch.AllSized, NativeBatch.Sized;
    var all := output;
    EmptySized();
    assert vectors[..0] == [];
    for i := 0 to |vectors|
      invariant all == output + NativeBatch.AllSized(vectors[..i])
      invariant forall k :: 0 <= k < i ==> |vectors[k]| <= MAX_U32
    {
      if |vectors[i]| > MAX_U32 { return Failure; }
      AllSizedMore(vectors[..i], vectors[i]);
      assert vectors[..i] + [vectors[i]] == vectors[..i + 1];
      all := all + NativeBatch.Sized(vectors[i]);
    }
    assert vectors[..|vectors|] == vectors;
    return Success(all);
  }

  lemma CollectedAssembles(chunk: Chunk, types: seq<ColumnType>, offset: nat, count: nat, encoded: seq<Encoded>,
      vectors: seq<Bytes>)
    requires Readable(chunk, types) && GoodRange(chunk, types, offset, count)
    requires Collected(chunk, types, |types|, offset, count, encoded, vectors)
    ensures EncodeChunk(chunk, types, offset, count) ==
            if forall i :: 0 <= i < |vectors| ==> |vectors[i]| <= MAX_U32
            then Success(NativeBatch.BatchBytes(count, vectors)) else Failure
  {
    hide WellFormed, NativeBatch.WellTyped, NativeBatch.Framable, NativeBatch.VectorBytes, NativeBatch.TypeBytes,
      EncodedUpTo, NativeBatch.BatchBytes;
    assert NativeBatch.VectorsOf(count, types, encoded) == vectors;
  }

  lemma BatchLayout(count: nat, vectors: seq<Bytes>)
    ensures NativeBatch.BatchBytes(count, vectors) ==
            LE(8, count) + LE(4, |vectors|) + NativeBatch.AllSized(vectors) + LE(4, 0) + LE(4, 0) + LE(4, 0) + LE(4, 0)
  {
    hide LE, NativeBatch.AllSized;
  }

  /** `encode_native_result_batch`. */
  method EncodeChunkBatch(chunk: Chunk, types: seq<ColumnType>, offset: nat, count: nat) returns (r: Result<Bytes>)
    requires Readable(chunk, types)
    ensures r == EncodeChunk(chunk, types, offset, count)
  {
    if !GoodRange(chunk, types, offset, count) { return Failure; }
    hide EncodeChunk, Readable, Collected, NativeBatch.AllSized, NativeBatch.BatchBytes, LE;
    var vectors, encoded := CollectVectors(chunk, types, offset, count);
    if vectors.Failure? { return Failure; }
    CollectedAssembles(chunk, types, offset, count, encoded, vectors.value);
    BatchLayout(count, vectors.value);
    var output := AppendVectors(LE(8, count) + LE(4, |vectors.value|), vectors.value);
    if output.Failure? { return Failure; }
    return Success(output.value + LE(4, 0) + LE(4, 0) + LE(4, 0) + LE(4, 0));
  }

  // ---------------------------------------------------------------------------
  // Both encoders
  // ---------------------------------------------------------------------------

  /** No value is changed by rounding: always, unless the host encoder rounds doubles for a decimal column. */
  predicate RoundsToItself(how: Conversion, cells: seq<Cell>) {
    how.RoundDouble? ==>
      forall i :: 0 <= i < |cells| && cells[i].Value? ==>
        |cells[i].bytes| == 8 && NativeBatch.Convert(how, cells[i].bytes) == Success(cells[i].bytes)
  }

  lemma RoundsStep(how: Conversion, cells: seq<Cell>)
    requires cells != []
    ensures var n := |cells| - 1;
            RoundsToItself(how, cells) <==>
              && RoundsToItself(how, cells[..n])
              && (how.RoundDouble? && cells[n].Value? ==>
                    |cells[n].bytes| == 8 && NativeBatch.Convert(how, cells[n].bytes) == Success(cells[n].bytes))
  {
    hide NativeBatch.Convert;
    var n := |cells| - 1;
    if RoundsToItself(how, cells[..n]) {
      assert forall i :: 0 <= i < n ==> cells[..n][i] == cells[i];
    }
    if RoundsToItself(how, cells) {
      assert forall i :: 0 <= i < n ==> cells[..n][i] == cells[i];
    }
  }

  lemma SameElement(oid: nat, how: Conversion, plain: Conversion, cell: Cell)
    requires NativeBatch.Converts(oid, how) && NativeBatch.Converts(oid, plain) && !NativeBatch.IsText(oid)
             && !plain.RoundDouble?
    requires how.RoundDouble? ==> plain.Copy?
    requires cell.Value? ==> |cell.bytes| == NativeBatch.SourceSize(oid, how) == NativeBatch.SourceSize(oid, plain)
    ensures NativeBatch.FixedElement(oid, how, cell) == NativeBatch.FixedElement(oid, plain, cell) <==>
            (how.RoundDouble? && cell.Value? ==>
               |cell.bytes| == 8 && NativeBatch.Convert(how, cell.bytes) == Success(cell.bytes))
  {
  }

  lemma ElementSize(oid: nat, how: Conversion, cell: Cell)
    requires NativeBatch.Converts(oid, how) && !NativeBatch.IsText(oid)
    requires cell.Value? ==> |cell.bytes| == NativeBatch.SourceSize(oid, how)
    ensures NativeBatch.FixedElement(oid, how, cell).Success? ==>
              |NativeBatch.FixedElement(oid, how, cell).value| == NativeBatch.TypeSize(oid)
  {
    if NativeBatch.FixedElement(oid, how, cell).Success? { ConvertedSize(oid, how, cell); }
  }

  /**
   A conversion and a plain one that can both read the cells write the same data exactly if no value
   is changed by rounding, given that the plain one writes them.
   */
  lemma {:induction false} SameData(cells: seq<Cell>, oid: nat, how: Conversion, plain: Conversion)
    requires NativeBatch.Converts(oid, how) && NativeBatch.Converts(oid, plain) && !NativeBatch.IsText(oid)
             && !plain.RoundDouble?
    requires NativeBatch.WellSized(cells, oid, how) && NativeBatch.WellSized(cells, oid, plain)
    requires how.RoundDouble? ==> plain.Copy? && NativeBatch.FixedData(cells, oid, plain).Success?
    ensures NativeBatch.FixedData(cells, oid, how) == NativeBatch.FixedData(cells, oid, plain) <==>
            RoundsToItself(how, cells)
  {
    hide NativeBatch.Convert, NativeBatch.FixedElement, NativeBatch.Converts, NativeBatch.SourceSize,
      NativeBatch.TypeSize, RoundsToItself;
    PlainRounds(how, cells);
    if cells != [] {
      var n := |cells| - 1;
      SameData(cells[..n], oid, how, plain);
      RoundsStep(how, cells);
      SameElement(oid, how, plain, cells[n]);
      ElementSize(oid, how, cells[n]);
      ElementSize(oid, plain, cells[n]);
      var a, b := NativeBatch.FixedData(cells[..n], oid, how), NativeBatch.FixedData(cells[..n], oid, plain);
      if a.Success? { FixedDataSize(cells[..n], oid, how); }
      if b.Success? { FixedDataSize(cells[..n], oid, plain); }
      var x, y := NativeBatch.FixedElement(oid, how, cells[n]), NativeBatch.FixedElement(oid, plain, cells[n]);
      if a.Success? && b.Success? && x.Success? && y.Success? { SameHalves(a.value, x.value, b.value, y.value); }
    }
  }

  lemma PlainRounds(how: Conversion, cells: seq<Cell>)
    ensures !how.RoundDouble? || cells == [] ==> RoundsToItself(how, cells)
  {
  }

  lemma SameHalves(a: Bytes, x: Bytes, b: Bytes, y: Bytes)
    requires |a| == |b| && |x| == |y|
    ensures a + x == b + y <==> a == b && x == y
  {
    if a + x == b + y {
      assert a == (a + x)[..|a|] && b == (b + y)[..|b|] && x == (a + x)[|a|..] && y == (b + y)[|b|..];
    }
  }

  /** The host column and the vector hold the same source elements. */
  predicate SameSource(v: Vector, from: nat, c: HostColumn.Column, memory: Bytes, offset: nat, count: nat,
      t: ColumnType)
    requires WellFormed(v, t) && from + count <= |v.selection|
  {
    HostColumn.HostCells(c, memory, t, offset, count) == Success(Cells(v, t, from, count))
  }

  /**
   For the same source elements the two encoders produce the same column exactly if no value is changed
   by rounding, or both refuse a null in a required column.
   */
  lemma SameSourceColumn(v: Vector, from: nat, c: HostColumn.Column, memory: Bytes, offset: nat, count: nat,
      t: ColumnType)
    requires WellFormed(v, t) && from + count <= |v.selection| && SameSource(v, from, c, memory, offset, count, t)
    ensures var cells := Cells(v, t, from, count);
            HostColumn.EncodeHost(c, memory, t, offset, count) == NativeBatch.EncodeColumn(cells, t, HowOf(t)) <==>
              RoundsToItself(HostColumn.HowFor(c, t), cells) || (t.notNullable && NativeBatch.HasNull(cells))
  {
    hide HostColumn.HostCells, NativeBatch.WellSized, Cells, EncodeText, EncodeNulls, NativeBatch.Converts,
      NativeBatch.FixedData, RoundsToItself, NativeBatch.HasNull;
    HostColumn.HostCellsShape(c, memory, t, offset, count);
    var cells, how := Cells(v, t, from, count), HostColumn.HowFor(c, t);
    TextIsCopied(c, t, cells);
    if !NativeBatch.IsText(t.oid) {
      if how.RoundDouble? { CopyNeverFails(cells, t.oid, HowOf(t)); }
      SameData(cells, t.oid, how, HowOf(t));
    }
  }

  lemma TextIsCopied(c: HostColumn.Column, t: ColumnType, cells: seq<Cell>)
    ensures NativeBatch.IsText(t.oid) ==> RoundsToItself(HostColumn.HowFor(c, t), cells)
    ensures HostColumn.HowFor(c, t).RoundDouble? ==> HowOf(t).Copy?
  {
  }

  lemma {:induction false} CopyNeverFails(cells: seq<Cell>, oid: nat, how: Conversion)
    requires NativeBatch.Converts(oid, how) && !NativeBatch.IsText(oid) && NativeBatch.WellSized(cells, oid, how)
             && how.Copy?
    ensures NativeBatch.FixedData(cells, oid, how).Success?
  {
    if cells != [] { CopyNeverFails(cells[..|cells| - 1], oid, how); }
  }

  /** Every DOUBLE of a rounded column has a decimal; always, unless the host encoder rounds. */
  predicate AllRound(how: Conversion, cells: seq<Cell>) {
    how.RoundDouble? ==>
      forall i :: 0 <= i < |cells| && cells[i].Value? ==>
        |cells[i].bytes| == 8 && NativeBatch.Convert(how, cells[i].bytes).Success?
  }

  /** The cells of the vector are the logical cells of the host column. */
  predicate AreLogical(how: Conversion, host: seq<Cell>, cells: seq<Cell>) {
    |host| == |cells| && forall i :: 0 <= i < |host| ==> cells[i] == Logical(how, host[i])
  }

  predicate Agrees(how: Conversion, plain: Conversion) {
    if how.WidenI32? || how.WidenI64? || how.RoundDouble? then plain.Copy? else how == plain
  }

  lemma LogicalElement(oid: nat, how: Conversion, plain: Conversion, cell: Cell)
    requires NativeBatch.Converts(oid, how) && NativeBatch.Converts(oid, plain) && Agrees(how, plain)
    requires !NativeBatch.IsText(oid)
    requires cell.Value? ==> |cell.bytes| == NativeBatch.SourceSize(oid, how)
    requires Logical(how, cell).Value? ==> |Logical(how, cell).bytes| == NativeBatch.SourceSize(oid, plain)
    ensures var element := NativeBatch.FixedElement(oid, how, cell);
            if how.RoundDouble? && cell.Value? && NativeBatch.Convert(how, cell.bytes).Failure? then element.Failure?
            else element == NativeBatch.FixedElement(oid, plain, Logical(how, cell))
    ensures how.RoundDouble? && cell.Value? ==> |cell.bytes| == 8
  {
  }

  /** Logical cells written plainly are the host cells written with their conversion, unless a DOUBLE has no decimal. */
  lemma {:induction false} LogicalData(host: seq<Cell>, cells: seq<Cell>, oid: nat, how: Conversion, plain: Conversion)
    requires NativeBatch.Converts(oid, how) && NativeBatch.Converts(oid, plain) && Agrees(how, plain)
    requires !NativeBatch.IsText(oid) && AreLogical(how, host, cells)
    requires NativeBatch.WellSized(host, oid, how) && NativeBatch.WellSized(cells, oid, plain)
    ensures AllRound(how, host) ==>
              NativeBatch.FixedData(host, oid, how) == NativeBatch.FixedData(cells, oid, plain)
    ensures !AllRound(how, host) ==> NativeBatch.FixedData(host, oid, how).Failure?
  {
    hide NativeBatch.Convert, NativeBatch.FixedElement, NativeBatch.Converts, NativeBatch.SourceSize, Logical;
    if host != [] {
      var n := |host| - 1;
      LogicalData(host[..n], cells[..n], oid, how, plain);
      LogicalElement(oid, how, plain, host[n]);
      AllRoundStep(how, host);
    }
  }

  lemma AllRoundStep(how: Conversion, cells: seq<Cell>)
    requires cells != []
    ensures var n := |cells| - 1;
            AllRound(how, cells) <==>
              && AllRound(how, cells[..n])
              && (how.RoundDouble? && cells[n].Value? ==>
                    |cells[n].bytes| == 8 && NativeBatch.Convert(how, cells[n].bytes).Success?)
  {
    hide NativeBatch.Convert;
    var n := |cells| - 1;
    assert forall i :: 0 <= i < n ==> cells[..n][i] == cells[i];
    if AllRound(how, cells[..n]) && how.RoundDouble? {
      forall i | 0 <= i < n && cells[i].Value?
        ensures |cells[i].bytes| == 8 && NativeBatch.Convert(how, cells[i].bytes).Success?
      {
        assert cells[..n][i].Value?;
      }
    }
  }

  /** The host column and the vector hold the same logical rows, in whatever source width. */
  predicate SameRows(v: Vector, from: nat, c: HostColumn.Column, memory: Bytes, offset: nat, count: nat, t: ColumnType)
    requires WellFormed(v, t) && from + count <= |v.selection|
  {
    var host := HostColumn.HostCells(c, memory, t, offset, count);
    host.Success? && AreLogical(HostColumn.HowFor(c, t), host.value, Cells(v, t, from, count))
  }

  lemma HowAgrees(c: HostColumn.Column, t: ColumnType)
    requires HostColumn.SourceMatches(c, t)
    ensures Agrees(HostColumn.HowFor(c, t), HowOf(t))
    ensures HostColumn.HowFor(c, t).RoundDouble? ==> HowOf(t).Copy? && !NativeBatch.IsText(t.oid)
    ensures NativeBatch.IsText(t.oid) ==> HostColumn.HowFor(c, t).Copy?
  {
  }

  lemma LogicalNulls(how: Conversion, host: seq<Cell>, cells: seq<Cell>)
    requires AreLogical(how, host, cells)
    ensures NativeBatch.NullsOf(cells) == NativeBatch.NullsOf(host)
    ensures NativeBatch.HasNull(cells) <==> NativeBatch.HasNull(host)
    ensures how.Copy? ==> cells == host
  {
    assert forall i :: 0 <= i < |host| ==> cells[i].Null? == host[i].Null?;
    if i :| 0 <= i < |host| && host[i].Null? { assert cells[i].Null?; }
  }

  /**
   For the same logical rows the two encoders produce the same column exactly if every DOUBLE the host
   encoder rounds has a decimal, or both refuse a null in a required column.
   */
  lemma SameColumn(v: Vector, from: nat, c: HostColumn.Column, memory: Bytes, offset: nat, count: nat, t: ColumnType)
    requires WellFormed(v, t) && from + count <= |v.selection| && SameRows(v, from, c, memory, offset, count, t)
    ensures var host := HostColumn.HostCells(c, memory, t, offset, count).value;
            HostColumn.EncodeHost(c, memory, t, offset, count) ==
            NativeBatch.EncodeColumn(Cells(v, t, from, count), t, HowOf(t)) <==>
              AllRound(HostColumn.HowFor(c, t), host) || (t.notNullable && NativeBatch.HasNull(host))
  {
    var host, cells := HostColumn.HostCells(c, memory, t, offset, count).value, Cells(v, t, from, count);
    var how := HostColumn.HowFor(c, t);
    HowAgrees(c, t) by { assert HostColumn.InRange(c, t, offset, count); }
    hide HostColumn.HostCells, NativeBatch.WellSized, Cells, EncodeText, EncodeNulls, NativeBatch.Converts,
      NativeBatch.FixedData, NativeBatch.HasNull, HostColumn.HowFor, HowOf, AreLogical, NativeBatch.NullsOf,
      NativeBatch.IsText;
    HostColumn.HostCellsShape(c, memory, t, offset, count);
    LogicalNulls(how, host, cells);
    if NativeBatch.IsText(t.oid) {
      assert AllRound(how, host);
    } else {
      if how.RoundDouble? { CopyNeverFails(cells, t.oid, HowOf(t)); }
      LogicalData(host, cells, t.oid, how, HowOf(t));
    }
  }

  /** Same logical rows in every column, and a decimal for every DOUBLE to be rounded. */
  predicate SameTable(chunk: Chunk, from: nat, table: HostTable.Table, offset: nat, count: nat)
    requires HostTable.Accepted(table) && Readable(chunk, table.types) && GoodRange(chunk, table.types, from, count)
  {
    forall i :: 0 <= i < |table.columns| ==>
      var c, t := table.columns[i], table.types[i];
      && SameRows(chunk.columns[i], from, c, table.memory, offset, count, t)
      && AllRound(HostColumn.HowFor(c, t), HostColumn.HostCells(c, table.memory, t, offset, count).value)
  }

  lemma {:induction false} SameColumns(chunk: Chunk, from: nat, table: HostTable.Table, offset: nat, count: nat, k: nat)
    requires HostTable.Accepted(table) && Readable(chunk, table.types) && GoodRange(chunk, table.types, from, count)
    requires SameTable(chunk, from, table, offset, count) && k <= |table.columns|
    ensures EncodedUpTo(chunk, table.types, k, from, count) == HostTable.EncodedUpTo(table, k, offset, count)
  {
    hide SameRows, AllRound, HostColumn.HowFor, HostColumn.HostCells, NativeBatch.HasNull, WellFormed,
      NativeBatch.WellTyped, HostColumn.SourceMatches, NativeBatch.EncodeColumn, Cells, HowOf, HostColumn.EncodeHost;
    if k != 0 {
      SameColumns(chunk, from, table, offset, count, k - 1);
      SameColumn(chunk.columns[k - 1], from, table.columns[k - 1], table.memory, offset, count, table.types[k - 1]);
    }
  }

  /** The DuckDB-chunk and the host encoder produce identical payloads for the same logical rows. */
  method EncodeBoth(chunk: Chunk, from: nat, table: HostTable.Table, offset: nat, count: nat)
    returns (ofChunk: Result<Bytes>, ofTable: Result<Bytes>)
    requires HostTable.Accepted(table) && Readable(chunk, table.types) && GoodRange(chunk, table.types, from, count)
    requires SameTable(chunk, from, table, offset, count)
    ensures ofChunk == ofTable == EncodeChunk(chunk, table.types, from, count)
  {
    ofChunk := EncodeChunkBatch(chunk, table.types, from, count);
    ofTable := EncodeRange(table, offset, count);
    SamePayload(chunk, from, table, offset, count);
  }

  lemma SamePayload(chunk: Chunk, from: nat, table: HostTable.Table, offset: nat, count: nat)
    requires HostTable.Accepted(table) && Readable(chunk, table.types) && GoodRange(chunk, table.types, from, count)
    requires SameTable(chunk, from, table, offset, count)
    ensures EncodeChunk(chunk, table.types, from, count) == HostTable.EncodeTable(table, offset, count)
  {
    hide EncodedUpTo, HostTable.EncodedUpTo, WellFormed, NativeBatch.WellTyped, NativeBatch.Assemble, Cells,
      HostColumn.ReadNulls, HostColumn.GoodBuffers, HostColumn.CellsOf;
    SameColumns(chunk, from, table, offset, count, |table.columns|);
    assert SameRows(chunk.columns[0], from, table.columns[0], table.memory, offset, count, table.types[0]);
  }
}
