/**
 How a list of cells lies in memory, written down without reference to the encoders: element buffers,
 validity masks, text offsets and characters. Whatever column and memory hold such a layout, wherever
 its buffers are, the encoders read exactly the listed cells.
 */
module HostLayout {
  import opened Bytes
  import opened Varlena
  import NativeBatch
  import opened HostMemory
  import opened HostColumn
  import ChunkEncoder

  type ColumnType = NativeBatch.ColumnType

  // ---------------------------------------------------------------------------
  // Buffers
  // ---------------------------------------------------------------------------

  /** The buffer lies at this place of a memory. */
  predicate Holds(memory: Bytes, at: nat, buffer: Bytes) {
    at + |buffer| <= |memory| && memory[at .. at + |buffer|] == buffer
  }

  /** The stored width of a fixed-width column. */
  function WidthOf(id: TypeId): nat {
    match id
    case BOOL8 | INT8 => 1
    case INT16 => 2
    case INT32 | FLOAT32 | DECIMAL32 | TIMESTAMP_DAYS => 4
    case INT64 | FLOAT64 | DECIMAL64 => 8
    case DECIMAL128 => 16
    case STRING | OTHER => 0
  }

  predicate AllOfWidth(cells: seq<Cell>, width: nat) {
    forall i :: 0 <= i < |cells| && cells[i].Value? ==> |cells[i].bytes| == width
  }

  /** One element after the other; a null row takes its space too. */
  function Elements(cells: seq<Cell>, width: nat): Bytes {
    if cells == [] then []
    else
      var last := cells[|cells| - 1];
      Elements(cells[..|cells| - 1], width) + if last.Value? then last.bytes else Zeros(width)
  }

  /** Eight rows a byte, the first in the lowest bit, set for a row that is not null. */
  function MaskByte(cells: seq<Cell>, k: nat): (b: byte)
    requires 8 * k < |cells|
  {
    var bits := ValidBits(cells[8 * k .. if 8 * k + 8 < |cells| then 8 * k + 8 else |cells|]);
    ByteBound(bits);
    Word(bits)
  }

  function ValidBits(cells: seq<Cell>): (bits: seq<bool>)
    ensures |bits| == |cells| && forall i :: 0 <= i < |cells| ==> bits[i] == cells[i].Value?
  {
    seq(|cells|, i requires 0 <= i < |cells| => cells[i].Value?)
  }

  lemma ByteBound(bits: seq<bool>)
    requires |bits| <= 8
    ensures Word(bits) < 256
  {
    WordBound(bits);
    assert Pow2(8) == 256;
    SmallPow2(|bits|);
  }

  lemma {:induction false} SmallPow2(n: nat)
    requires n <= 8
    ensures Pow2(n) <= Pow2(8)
    decreases 8 - n
  {
    if n < 8 {
      SmallPow2(n + 1);
      assert Pow2(n + 1) == 2 * Pow2(n);
    }
  }

  function Mask(cells: seq<Cell>): (m: Bytes)
    ensures |m| == (|cells| + 7) / 8
  {
    seq((|cells| + 7) / 8, k requires 0 <= k < (|cells| + 7) / 8 => MaskByte(cells, k))
  }

  /** The characters of all rows, a null row's included. */
  function Characters(texts: seq<Bytes>): Bytes {
    if texts == [] then [] else Characters(texts[..|texts| - 1]) + texts[|texts| - 1]
  }

  /** Where each text begins, and where the last one ends. */
  function Offsets(texts: seq<Bytes>, width: nat): Bytes {
    if texts == [] then LE(width, 0) else Offsets(texts[..|texts| - 1], width) + LE(width, |Characters(texts)|)
  }

  // ---------------------------------------------------------------------------
  // Columns
  // ---------------------------------------------------------------------------

  predicate LaysOutNulls(c: Column, memory: Bytes, cells: seq<Cell>) {
    if c.hasNullMask then c.nullMaskSize >= |Mask(cells)| && Holds(memory, c.nullMaskOffset, Mask(cells))
    else forall i :: 0 <= i < |cells| ==> cells[i].Value?
  }

  predicate LaysOutFixed(c: Column, memory: Bytes, cells: seq<Cell>) {
    var width := WidthOf(c.typeId);
    && AllOfWidth(cells, width) && c.hasData && c.dataSize >= |cells| * width
    && Holds(memory, c.dataOffset, Elements(cells, width))
  }

  predicate LaysOutText(c: Column, memory: Bytes, cells: seq<Cell>, texts: seq<Bytes>) {
    && |texts| == |cells| && (forall i :: 0 <= i < |cells| && cells[i].Value? ==> cells[i].bytes == texts[i])
    && c.hasData && c.dataSize >= |Characters(texts)| && Holds(memory, c.dataOffset, Characters(texts))
    && |c.children| == 1 && c.children[0].hasData
    && (c.children[0].typeId == INT32 || c.children[0].typeId == INT64)
    && var width, limit := OffsetWidth(c), if c.children[0].typeId == INT32 then MAX_I32 else MAX_U64;
       && |Characters(texts)| <= limit && c.children[0].dataSize >= (|cells| + 1) * width
       && Holds(memory, c.children[0].dataOffset, Offsets(texts, width))
  }

  function OffsetWidth(c: Column): nat
    requires |c.children| == 1
  {
    if c.children[0].typeId == INT32 then 4 else 8
  }

  /** The memory holds these cells as this column; `texts` are the stored strings of a text column. */
  predicate LaysOut(c: Column, memory: Bytes, cells: seq<Cell>, texts: seq<Bytes>) {
    && c.numRows == |cells| && LaysOutNulls(c, memory, cells)
    && if c.typeId == STRING then LaysOutText(c, memory, cells, texts) else LaysOutFixed(c, memory, cells)
  }

  // ---------------------------------------------------------------------------
  // Reading the mask
  // ---------------------------------------------------------------------------

  lemma HeldSlice(memory: Bytes, at: nat, buffer: Bytes, from: nat, size: nat)
    requires Holds(memory, at, buffer) && from + size <= |buffer|
    ensures Fetch(memory, at + from, size) == Success(buffer[from .. from + size])
  {
    SliceOfSlice(memory, at, |buffer|, from, size);
  }

  lemma MaskBit(cells: seq<Cell>, row: nat)
    requires row < |cells|
    ensures row / 8 < |Mask(cells)| && Bit(Mask(cells)[row / 8], row % 8) == cells[row].Value?
  {
    hide Bit, Word;
    var k := row / 8;
    var slice := cells[8 * k .. if 8 * k + 8 < |cells| then 8 * k + 8 else |cells|];
    assert slice[row % 8] == cells[row];
    WordBit(ValidBits(slice), row % 8);
  }

  lemma RowIsRead(c: Column, memory: Bytes, cells: seq<Cell>, row: nat)
    requires c.hasNullMask && LaysOutNulls(c, memory, cells) && row < |cells|
    ensures RowIsNull(c, memory, row) == Success(cells[row].Null?)
  {
    hide Bit, Mask, Fetch;
    MaskBit(cells, row);
    HeldSlice(memory, c.nullMaskOffset, Mask(cells), row / 8, 1);
  }

  lemma {:induction false} NullsAreRead(c: Column, memory: Bytes, cells: seq<Cell>, offset: nat, count: nat)
    requires c.hasNullMask && LaysOutNulls(c, memory, cells) && offset + count <= |cells|
    ensures NullRows(c, memory, offset, count) == Success(NativeBatch.NullsOf(cells[offset .. offset + count]))
  {
    hide RowIsNull, LaysOutNulls;
    if count != 0 {
      NullsAreRead(c, memory, cells, offset, count - 1);
      RowIsRead(c, memory, cells, offset + count - 1);
      assert NativeBatch.NullsOf(cells[offset .. offset + count]) ==
        NativeBatch.NullsOf(cells[offset .. offset + (count - 1)]) + [cells[offset + count - 1].Null?];
    }
  }

  // ---------------------------------------------------------------------------
  // Reading elements
  // ---------------------------------------------------------------------------

  /** Block i of a buffer of equal blocks, given the last block apart. */
  lemma LastBlock(prefix: Bytes, last: Bytes, width: nat, n: nat, i: nat)
    requires |prefix| == n * width && |last| == width && i <= n
    ensures i * width + width <= |prefix + last| && (i < n ==> i * width + width <= |prefix|)
    ensures i < n ==>
              (prefix + last)[i * width .. i * width + width] == prefix[i * width .. i * width + width]
    ensures i == n ==> (prefix + last)[i * width .. i * width + width] == last
  {
    if i < n { Fits(i, n, width); }
    BlockAt(prefix, last, width, i * width);
  }

  lemma BlockAt(prefix: Bytes, last: Bytes, width: nat, at: nat)
    requires |last| == width && (at + width <= |prefix| || at == |prefix|)
    ensures at + width <= |prefix| ==> (prefix + last)[at .. at + width] == prefix[at .. at + width]
    ensures at == |prefix| ==> (prefix + last)[at .. at + width] == last
  {
  }

  lemma {:induction false} ElementsAt(cells: seq<Cell>, width: nat, row: nat)
    requires AllOfWidth(cells, width) && row < |cells|
    ensures |Elements(cells, width)| == |cells| * width && row * width + width <= |cells| * width
    ensures cells[row].Value? ==> Elements(cells, width)[row * width .. row * width + width] == cells[row].bytes
  {
    var n := |cells| - 1;
    var prefix, last := Elements(cells[..n], width), if cells[n].Value? then cells[n].bytes else Zeros(width);
    assert Elements(cells, width) == prefix + last;
    hide Elements;
    ElementsSize(cells[..n], width);
    ElementsSize(cells, width);
    LastBlock(prefix, last, width, n, row);
    if row < n { ElementsAt(cells[..n], width, row); }
  }

  lemma {:induction false} ElementsSize(cells: seq<Cell>, width: nat)
    requires AllOfWidth(cells, width)
    ensures |Elements(cells, width)| == |cells| * width
  {
    if cells != [] {
      var n := |cells| - 1;
      ElementsSize(cells[..n], width);
      assert n * width + width == |cells| * width;
    }
  }

  /** The encoder reads each accepted column in the width it is stored with. */
  lemma ReadWidth(c: Column, t: ColumnType)
    requires SourceMatches(c, t)
    ensures (c.typeId == STRING <==> NativeBatch.IsText(t.oid))
    ensures !NativeBatch.IsText(t.oid) ==> NativeBatch.SourceSize(t.oid, HowFor(c, t)) == WidthOf(c.typeId)
  {
  }

  lemma FixedIsRead(c: Column, memory: Bytes, t: ColumnType, cells: seq<Cell>, row: nat)
    requires SourceMatches(c, t) && c.typeId != STRING && c.numRows == |cells| && row < |cells|
    requires LaysOutFixed(c, memory, cells)
    ensures GoodBuffers(c, t) && CellOf(c, memory, t, row, cells[row].Null?) == Success(cells[row])
  {
    hide SourceMatches, HowFor, Fetch, Holds, NativeBatch.SourceSize;
    var width := WidthOf(c.typeId);
    ReadWidth(c, t);
    ElementsAt(cells, width, row);
    HeldSlice(memory, c.dataOffset, Elements(cells, width), row * width, width);
  }

  // ---------------------------------------------------------------------------
  // Reading texts
  // ---------------------------------------------------------------------------

  lemma {:induction false} OffsetsAt(texts: seq<Bytes>, width: nat, i: nat)
    requires i <= |texts|
    ensures |Offsets(texts, width)| == (|texts| + 1) * width && i * width + width <= (|texts| + 1) * width
    ensures Offsets(texts, width)[i * width .. i * width + width] == LE(width, |Characters(texts[..i])|)
  {
    hide Offsets, Characters, LE;
    var n := |texts|;
    OffsetsSize(texts, width);
    OffsetsLast(texts, width);
    if n == 0 {
      assert texts[..i] == texts && Offsets(texts, width)[0 .. width] == Offsets(texts, width);
    } else {
      OffsetsSize(texts[..n - 1], width);
      LastBlock(Offsets(texts[..n - 1], width), LE(width, |Characters(texts)|), width, n, i);
      if i < n {
        OffsetsAt(texts[..n - 1], width, i);
        assert texts[..n - 1][..i] == texts[..i];
      } else {
        assert texts[..i] == texts;
      }
    }
  }

  lemma OffsetsLast(texts: seq<Bytes>, width: nat)
    ensures var last := LE(width, |Characters(texts)|);
            Offsets(texts, width) == if texts == [] then last else Offsets(texts[..|texts| - 1], width) + last
  {
  }

  lemma {:induction false} OffsetsSize(texts: seq<Bytes>, width: nat)
    ensures |Offsets(texts, width)| == (|texts| + 1) * width
  {
    if texts != [] {
      OffsetsSize(texts[..|texts| - 1], width);
      assert (|texts| + 1) * width == |texts| * width + width;
    }
  }

  lemma {:induction false} CharactersAt(texts: seq<Bytes>, i: nat)
    requires i < |texts|
    ensures |Characters(texts[..i + 1])| == |Characters(texts[..i])| + |texts[i]| <= |Characters(texts)|
    ensures var from := |Characters(texts[..i])|; Characters(texts)[from .. from + |texts[i]|] == texts[i]
  {
    assert texts[..i + 1][..i] == texts[..i];
    var n := |texts| - 1;
    if i == n {
      assert texts[..i + 1] == texts;
    } else {
      CharactersAt(texts[..n], i);
      assert texts[..n][..i + 1] == texts[..i + 1] && texts[..n][..i] == texts[..i];
    }
  }

  lemma {:induction false} CharactersGrow(texts: seq<Bytes>, i: nat)
    requires i <= |texts|
    ensures |Characters(texts[..i])| <= |Characters(texts)|
    decreases |texts| - i
  {
    if i < |texts| {
      CharactersAt(texts, i);
      CharactersGrow(texts, i + 1);
    } else {
      assert texts[..i] == texts;
    }
  }

  lemma OffsetIsRead(c: Column, memory: Bytes, cells: seq<Cell>, texts: seq<Bytes>, row: nat)
    requires LaysOutText(c, memory, cells, texts) && GoodOffsets(c) && row <= |cells|
    ensures OffsetAt(c, memory, row) == Success(|Characters(texts[..row])|)
  {
    hide Fetch, Holds, Characters, Offsets, LE, FromLE;
    var width, at := OffsetWidth(c), |Characters(texts[..row])|;
    OffsetsAt(texts, width, row);
    CharactersGrow(texts, row);
    HeldSlice(memory, c.children[0].dataOffset, Offsets(texts, width), row * width, width);
    if width == 4 { LE4(at); } else { LE8(at); }
  }

  lemma TextIsRead(c: Column, memory: Bytes, t: ColumnType, cells: seq<Cell>, texts: seq<Bytes>, row: nat)
    requires SourceMatches(c, t) && c.typeId == STRING && c.numRows == |cells| && row < |cells|
    requires LaysOutText(c, memory, cells, texts)
    ensures GoodBuffers(c, t) && CellOf(c, memory, t, row, cells[row].Null?) == Success(cells[row])
  {
    hide OffsetAt, Fetch, Holds, Characters, Offsets, SourceMatches, HowFor;
    ReadWidth(c, t);
    assert GoodOffsets(c);
    OffsetIsRead(c, memory, cells, texts, row);
    OffsetIsRead(c, memory, cells, texts, row + 1);
    CharactersAt(texts, row);
    HeldSlice(memory, c.dataOffset, Characters(texts), |Characters(texts[..row])|, |texts[row]|);
  }

  // ---------------------------------------------------------------------------
  // Theorems
  // ---------------------------------------------------------------------------

  lemma {:induction false} CellsAreRead(
    c: Column, memory: Bytes, t: ColumnType, cells: seq<Cell>, texts: seq<Bytes>, offset: nat, count: nat)
    requires SourceMatches(c, t) && LaysOut(c, memory, cells, texts) && GoodBuffers(c, t) && offset + count <= |cells|
    ensures CellsOf(c, memory, t, offset, NativeBatch.NullsOf(cells[offset .. offset + count])) ==
            Success(cells[offset .. offset + count])
  {
    hide CellOf, SourceMatches, GoodBuffers, LaysOutText, LaysOutFixed, LaysOutNulls;
    if count != 0 {
      var row := offset + count - 1;
      var nulls := NativeBatch.NullsOf(cells[offset .. offset + count]);
      CellsAreRead(c, memory, t, cells, texts, offset, count - 1);
      assert nulls[..count - 1] == NativeBatch.NullsOf(cells[offset .. offset + (count - 1)]);
      assert nulls[count - 1] == cells[row].Null?;
      if c.typeId == STRING { TextIsRead(c, memory, t, cells, texts, row); }
        else { FixedIsRead(c, memory, t, cells, row); }
      assert cells[offset .. offset + count] == cells[offset .. offset + (count - 1)] + [cells[row]];
    }
  }

  lemma BuffersAreGood(c: Column, memory: Bytes, t: ColumnType, cells: seq<Cell>, texts: seq<Bytes>)
    requires SourceMatches(c, t) && LaysOut(c, memory, cells, texts)
    ensures GoodBuffers(c, t)
  {
    hide SourceMatches, HowFor, Holds, Characters, Offsets, Elements, NativeBatch.SourceSize;
    ReadWidth(c, t);
  }

  /**
   The encoder reads what is there. For every list of cells, every accepted column type, every memory
   that holds the list as that column, wherever its buffers lie, and every row range, the rows that are
   encoded are exactly the cells of the range.
   */
  lemma LayoutIsRead(
    c: Column, memory: Bytes, t: ColumnType, cells: seq<Cell>, texts: seq<Bytes>, offset: nat, count: nat)
    requires SourceMatches(c, t) && LaysOut(c, memory, cells, texts) && offset + count <= |cells|
    ensures HostCells(c, memory, t, offset, count) == Success(cells[offset .. offset + count])
  {
    hide CellsOf, SourceMatches, NullRows, Holds, GoodBuffers, Mask;
    BuffersAreGood(c, memory, t, cells, texts);
    CellsAreRead(c, memory, t, cells, texts, offset, count);
    if c.hasNullMask {
      NullsAreRead(c, memory, cells, offset, count);
    } else {
      assert NativeBatch.NullsOf(cells[offset .. offset + count]) == seq(count, _ => false);
    }
  }

  predicate NoLonger(cells: seq<Cell>, size: nat) {
    forall i :: 0 <= i < |cells| && cells[i].Value? ==> |cells[i].bytes| <= size
  }

  /**
   A truncated buffer is refused: rows are read only if the declared mask covers the range, the declared
   data covers all rows in their stored width, and the declared offsets of a text column cover all rows
   and the end of the last; and no text read reaches beyond the declared characters.
   */
  lemma ReadsStayInside(c: Column, memory: Bytes, t: ColumnType, offset: nat, count: nat)
    requires HostCells(c, memory, t, offset, count).Success?
    ensures offset + count <= c.numRows
    ensures c.hasNullMask ==> offset + count <= 8 * c.nullMaskSize
    ensures c.hasData && (c.typeId != STRING ==> c.numRows * WidthOf(c.typeId) <= c.dataSize)
    ensures c.typeId == STRING ==>
              && |c.children| == 1 && c.children[0].hasData
              && (c.numRows + 1) * OffsetWidth(c) <= c.children[0].dataSize
              && NoLonger(HostCells(c, memory, t, offset, count).value, c.dataSize)
  {
    hide CellsOf, CellOf, NullRows, SourceMatches, HowFor, NativeBatch.SourceSize;
    ReadWidth(c, t);
    HostCellsShape(c, memory, t, offset, count);
    var nulls, cells := ReadNulls(c, memory, offset, count).value, HostCells(c, memory, t, offset, count).value;
    forall row | 0 <= row < count && cells[row].Value? && c.typeId == STRING ensures |cells[row].bytes| <= c.dataSize {
      CellsAt(c, memory, t, offset, nulls, row);
      TextStaysInside(c, memory, t, offset + row, nulls[row]);
    }
  }

  lemma TextStaysInside(c: Column, memory: Bytes, t: ColumnType, row: nat, isNull: bool)
    requires GoodBuffers(c, t) && NativeBatch.IsText(t.oid) && CellOf(c, memory, t, row, isNull).Success?
    ensures var cell := CellOf(c, memory, t, row, isNull).value; cell.Value? ==> |cell.bytes| <= c.dataSize
  {
    hide OffsetAt, Fetch;
  }

  /** A negative 32-bit offset, which becomes a huge 64-bit one, is refused. */
  lemma NegativeOffsetIsRefused(c: Column, memory: Bytes, row: nat)
    requires GoodOffsets(c) && c.children[0].typeId == INT32 && c.dataSize < U64 / 2
    requires var at := c.children[0].dataOffset + row * 4;
             var begin, end := Fetch(memory, at, 4), Fetch(memory, at + 4, 4);
             begin.Success? && end.Success?
               && (NativeBatch.Int32Of(begin.value) < 0 || NativeBatch.Int32Of(end.value) < 0)
    ensures Span(c, memory, row).Failure?
  {
    hide FromLE;
    Pow256Values();
    assert c.children[0].dataOffset + (row + 1) * 4 == c.children[0].dataOffset + row * 4 + 4;
    FromLEBound(Fetch(memory, c.children[0].dataOffset + row * 4, 4).value);
    FromLEBound(Fetch(memory, c.children[0].dataOffset + row * 4 + 4, 4).value);
  }

  /** The size prediction refuses a truncated mask and truncated offsets too. */
  lemma MeasuresStayInside(c: Column, memory: Bytes, t: ColumnType, offset: nat, count: nat)
    requires ColumnSize(c, memory, t, offset, count).Success?
    ensures c.hasNullMask ==> offset + count <= 8 * c.nullMaskSize
    ensures NativeBatch.IsText(t.oid) ==>
              && |c.children| == 1 && c.children[0].hasData
              && (c.numRows + 1) * OffsetWidth(c) <= c.children[0].dataSize
  {
    hide AreaBytes, AnyNull, NativeBatch.TypeSize;
  }

  // ---------------------------------------------------------------------------
  // DuckDB vectors
  // ---------------------------------------------------------------------------

  /** A DuckDB vector that holds these elements, seen through any selection. */
  predicate VectorHolds(v: ChunkEncoder.Vector, t: ColumnType, elements: seq<Cell>) {
    && NativeBatch.Converts(t.oid, ChunkEncoder.HowOf(t))
    && v.validity == ValidBits(elements)
    && (forall r :: 0 <= r < |v.selection| ==> v.selection[r] < |elements|)
    && if NativeBatch.IsText(t.oid)
       then |v.texts| == |elements| && forall e :: 0 <= e < |elements| && elements[e].Value? ==>
         v.texts[e] == elements[e].bytes
       else AllOfWidth(elements, ChunkEncoder.Width(t)) && v.data == Elements(elements, ChunkEncoder.Width(t))
  }

  lemma ElementIsRead(v: ChunkEncoder.Vector, t: ColumnType, elements: seq<Cell>, e: nat)
    requires VectorHolds(v, t, elements) && e < |elements| && elements[e].Value?
    ensures ChunkEncoder.InBuffer(v, t, e) && ChunkEncoder.ElementAt(v, t, e) == elements[e].bytes
  {
    hide ChunkEncoder.Width, ChunkEncoder.HowOf, Elements;
    if !NativeBatch.IsText(t.oid) { ElementsAt(elements, ChunkEncoder.Width(t), e); }
  }

  /** The chunk encoder reads, for each row, the element that the selection names. */
  lemma SelectionIsRead(v: ChunkEncoder.Vector, t: ColumnType, elements: seq<Cell>, offset: nat, count: nat)
    requires VectorHolds(v, t, elements) && offset + count <= |v.selection|
    ensures ChunkEncoder.WellFormed(v, t)
    ensures var cells := ChunkEncoder.Cells(v, t, offset, count);
            forall i :: 0 <= i < count ==> cells[i] == elements[v.selection[offset + i]]
  {
    hide ChunkEncoder.InBuffer, ChunkEncoder.ElementAt, ChunkEncoder.HowOf, Elements, ChunkEncoder.Width;
    forall r | 0 <= r < |v.selection|
      ensures v.validity[v.selection[r]] ==>
                && ChunkEncoder.InBuffer(v, t, v.selection[r])
                && ChunkEncoder.ElementAt(v, t, v.selection[r]) == elements[v.selection[r]].bytes
    {
      if v.validity[v.selection[r]] { ElementIsRead(v, t, elements, v.selection[r]); }
    }
    var cells := ChunkEncoder.Cells(v, t, offset, count);
    forall i | 0 <= i < count ensures cells[i] == elements[v.selection[offset + i]] {
      assert cells[i] == ChunkEncoder.RowCell(v, t, offset + i);
    }
  }
}
