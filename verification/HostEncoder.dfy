/**
 The loops of the result encoder over host tables, each proved against the encoding of the logical
 rows it reads or against the size prediction.
 */
module HostEncoder {
  import opened Bytes
  import opened NullBitmap
  import opened Varlena
  import NativeBatch
  import opened HostMemory
  import opened CodecRoundTrip
  import opened HostColumn
  import opened HostTable

  // ---------------------------------------------------------------------------
  // Reading the null mask
  // ---------------------------------------------------------------------------

  predicate AnyTrue(nulls: seq<bool>) {
    exists i :: 0 <= i < |nulls| && nulls[i]
  }

  /** A required column with a null row is refused. */
  function NullsFor(c: Column, memory: Bytes, offset: nat, count: nat, required: bool): Result<seq<bool>> {
    var nulls :- ReadNulls(c, memory, offset, count);
    if required && AnyTrue(nulls) then Failure else Success(nulls)
  }

  lemma NullRowsStop(c: Column, memory: Bytes, offset: nat, count: nat, row: nat)
    requires row < count
    requires RowIsNull(c, memory, offset + row).Failure? || RowIsNull(c, memory, offset + row).value
    ensures NullRows(c, memory, offset, count).Failure? || AnyTrue(NullRows(c, memory, offset, count).value)
    ensures RowIsNull(c, memory, offset + row).Failure? ==> NullRows(c, memory, offset, count).Failure?
  {
    hide RowIsNull, NullRows;
    if NullRows(c, memory, offset, count).Success? {
      NullRowsAt(c, memory, offset, count, row);
    }
  }

  /** `read_nulls`. */
  method ReadNullRows(c: Column, memory: Bytes, offset: nat, count: nat, required: bool) returns (r: Result<seq<bool>>)
    ensures r == NullsFor(c, memory, offset, count, required)
    ensures r.Success? ==> |r.value| == count
  {
    if !c.hasNullMask { return Success(seq(count, _ => false)); }
    if !MaskCovers(c, offset + count) { return Failure; }
    hide RowIsNull, MaskCovers;
    var nulls: seq<bool> := [];
    var row := 0;
    while row < count
      invariant 0 <= row <= count && |nulls| == row
      invariant NullRows(c, memory, offset, row) == Success(nulls)
      invariant required ==> !AnyTrue(nulls)
    {
      var isNull := RowIsNull(c, memory, offset + row);
      if isNull.Failure? || (required && isNull.value) {
        NullRowsStop(c, memory, offset, count, row);
        return Failure;
      }
      nulls := nulls + [isNull.value];
      row := row + 1;
    }
    return Success(nulls);
  }

  // ---------------------------------------------------------------------------
  // Encoding a column
  // ---------------------------------------------------------------------------

  lemma {:induction false} CellsPrefix(c: Column, memory: Bytes, t: ColumnType, offset: nat, nulls: seq<bool>, k: nat)
    requires GoodBuffers(c, t) && k <= |nulls| && CellsOf(c, memory, t, offset, nulls).Success?
    ensures CellsOf(c, memory, t, offset, nulls[..k]) == Success(CellsOf(c, memory, t, offset, nulls).value[..k])
  {
    hide CellOf, GoodBuffers;
    var all := CellsOf(c, memory, t, offset, nulls).value;
    if k < |nulls| {
      var n := |nulls| - 1;
      CellsPrefix(c, memory, t, offset, nulls[..n], k);
      assert nulls[..n][..k] == nulls[..k] && all[..n][..k] == all[..k];
      assert all[..n] == CellsOf(c, memory, t, offset, nulls[..n]).value;
    } else {
      assert nulls[..k] == nulls && all[..k] == all;
    }
  }

  lemma CellsMore(c: Column, memory: Bytes, t: ColumnType, offset: nat, nulls: seq<bool>, row: nat)
    requires GoodBuffers(c, t) && row < |nulls| && CellsOf(c, memory, t, offset, nulls[..row]).Success?
    ensures var more := CellsOf(c, memory, t, offset, nulls[..row + 1]);
            var cell := CellOf(c, memory, t, offset + row, nulls[row]);
            more == if cell.Failure? then Failure
              else Success(CellsOf(c, memory, t, offset, nulls[..row]).value + [cell.value])
  {
    hide CellOf, GoodBuffers;
    assert nulls[..row + 1][..row] == nulls[..row];
  }

  /** The text loop: the first row that cannot be read or does not fit the area fails the column. */
  method TextRows(c: Column, memory: Bytes, t: ColumnType, offset: nat, nulls: seq<bool>)
      returns (r: Result<(Bytes, Bytes)>)
    requires GoodBuffers(c, t) && NativeBatch.IsText(t.oid)
    ensures var cells := CellsOf(c, memory, t, offset, nulls);
            r == if cells.Failure? then Failure else EncodeText(cells.value)
  {
    hide CellOf, GoodBuffers, CellsOf, Descriptors, Area, Descriptor;
    assert nulls[..0] == [];
    var data: Bytes, area: Bytes := [], [];
    ghost var cells: seq<Cell> := [];
    EmptyText(c, memory, t, offset);
    var row := 0;
    while row < |nulls|
      invariant 0 <= row <= |nulls| && |cells| == row
      invariant CellsOf(c, memory, t, offset, nulls[..row]) == Success(cells)
      invariant data == Descriptors(cells) && area == Area(cells) && |area| <= MAX_U32
    {
      CellsMore(c, memory, t, offset, nulls, row);
      var cell := CellOf(c, memory, t, offset + row, nulls[row]);
      if cell.Failure? {
        TextStops(c, memory, t, offset, nulls, row + 1);
        return Failure;
      }
      TextMore(cells, cell.value);
      data := data + Descriptor(cell.value, |area|);
      if IsBig(cell.value) {
        if |cell.value.bytes| > MAX_U32 - |area| {
          TextStops(c, memory, t, offset, nulls, row + 1);
          return Failure;
        }
        area := area + cell.value.bytes;
      }
      cells := cells + [cell.value];
      row := row + 1;
    }
    assert nulls[..row] == nulls;
    return Success((data, area));
  }

  lemma EmptyText(c: Column, memory: Bytes, t: ColumnType, offset: nat)
    requires GoodBuffers(c, t)
    ensures CellsOf(c, memory, t, offset, []) == Success([]) && Descriptors([]) == [] && Area([]) == []
  {
  }

  lemma TextMore(cells: seq<Cell>, cell: Cell)
    ensures Descriptors(cells + [cell]) == Descriptors(cells) + Descriptor(cell, |Area(cells)|)
    ensures Area(cells + [cell]) == Area(cells) + if IsBig(cell) then cell.bytes else []
  {
    assert (cells + [cell])[..|cells|] == cells;
  }

  /** A prefix that cannot be read or overflows the area settles the whole column. */
  lemma TextStops(c: Column, memory: Bytes, t: ColumnType, offset: nat, nulls: seq<bool>, k: nat)
    requires GoodBuffers(c, t) && k <= |nulls|
    requires var some := CellsOf(c, memory, t, offset, nulls[..k]); some.Failure? || |Area(some.value)| > MAX_U32
    ensures var all := CellsOf(c, memory, t, offset, nulls); all.Failure? || EncodeText(all.value).Failure?
  {
    hide CellsOf, GoodBuffers, Area;
    var all := CellsOf(c, memory, t, offset, nulls);
    if all.Success? {
      CellsPrefix(c, memory, t, offset, nulls, k);
      AreaOfPrefix(all.value, k);
    }
  }

  lemma {:induction false} AreaOfPrefix(cells: seq<Cell>, k: nat)
    requires k <= |cells|
    ensures |Area(cells[..k])| <= |Area(cells)|
  {
    if k < |cells| {
      AreaOfPrefix(cells[..|cells| - 1], k);
      assert cells[..|cells| - 1][..k] == cells[..k];
    } else {
      assert cells[..k] == cells;
    }
  }

  lemma {:induction false} FixedPrefix(cells: seq<Cell>, oid: nat, how: NativeBatch.Conversion, k: nat)
    requires NativeBatch.Converts(oid, how) && !NativeBatch.IsText(oid) && NativeBatch.WellSized(cells, oid, how)
             && k <= |cells|
    ensures NativeBatch.WellSized(cells[..k], oid, how)
    ensures NativeBatch.FixedData(cells[..k], oid, how).Failure? ==> NativeBatch.FixedData(cells, oid, how).Failure?
  {
    hide NativeBatch.FixedElement, NativeBatch.Converts;
    if k < |cells| {
      FixedPrefix(cells[..|cells| - 1], oid, how, k);
      assert cells[..|cells| - 1][..k] == cells[..k];
    } else {
      assert cells[..k] == cells;
    }
  }

  lemma FixedMore(cells: seq<Cell>, cell: Cell, oid: nat, how: NativeBatch.Conversion)
    requires NativeBatch.Converts(oid, how) && !NativeBatch.IsText(oid) && NativeBatch.WellSized(cells, oid, how)
    requires cell.Value? ==> |cell.bytes| == NativeBatch.SourceSize(oid, how)
    ensures NativeBatch.WellSized(cells + [cell], oid, how)
    ensures var data, element := NativeBatch.FixedData(cells, oid, how), NativeBatch.FixedElement(oid, how, cell);
            NativeBatch.FixedData(cells + [cell], oid, how) ==
              if data.Success? && element.Success? then Success(data.value + element.value) else Failure
  {
    hide NativeBatch.FixedElement, NativeBatch.Converts, NativeBatch.SourceSize;
    assert (cells + [cell])[..|cells|] == cells;
  }

  /** What the fixed-width loop computes. */
  function FixedRowsOf(c: Column, memory: Bytes, t: ColumnType, offset: nat, nulls: seq<bool>): Result<Bytes>
    requires GoodBuffers(c, t) && SourceMatches(c, t) && !NativeBatch.IsText(t.oid)
  {
    var cells :- CellsOf(c, memory, t, offset, nulls);
    CellsAreWellSized(c, memory, t, offset, nulls);
    MatchConverts(c, t);
    NativeBatch.FixedData(cells, t.oid, HowFor(c, t))
  }

  lemma FixedStops(c: Column, memory: Bytes, t: ColumnType, offset: nat, nulls: seq<bool>, k: nat)
    requires GoodBuffers(c, t) && SourceMatches(c, t) && !NativeBatch.IsText(t.oid) && k <= |nulls|
    requires FixedRowsOf(c, memory, t, offset, nulls[..k]).Failure?
    ensures FixedRowsOf(c, memory, t, offset, nulls).Failure?
  {
    hide CellsOf, GoodBuffers, SourceMatches, HowFor, NativeBatch.FixedData;
    var all := CellsOf(c, memory, t, offset, nulls);
    if all.Success? {
      CellsPrefix(c, memory, t, offset, nulls, k);
      CellsAreWellSized(c, memory, t, offset, nulls);
      MatchConverts(c, t);
      FixedPrefix(all.value, t.oid, HowFor(c, t), k);
    }
  }

  lemma FixedRowMore(c: Column, memory: Bytes, t: ColumnType, offset: nat, nulls: seq<bool>, row: nat)
    requires GoodBuffers(c, t) && SourceMatches(c, t) && !NativeBatch.IsText(t.oid) && row < |nulls|
    requires FixedRowsOf(c, memory, t, offset, nulls[..row]).Success?
    ensures FixedRowsOf(c, memory, t, offset, nulls[..row + 1]) ==
              match FixedRow(c, memory, t, offset + row, nulls[row]) {
                case Failure => Failure
                case Success(element) => Success(FixedRowsOf(c, memory, t, offset, nulls[..row]).value + element)
              }
  {
    hide CellsOf, CellOf, GoodBuffers, SourceMatches, HowFor, NativeBatch.FixedData, NativeBatch.FixedElement,
      NativeBatch.SourceSize, NativeBatch.Converts, NativeBatch.WellSized;
    CellsMore(c, memory, t, offset, nulls, row);
    MatchConverts(c, t);
    CellsAreWellSized(c, memory, t, offset, nulls[..row]);
    var cell := CellOf(c, memory, t, offset + row, nulls[row]);
    if cell.Success? {
      FixedMore(CellsOf(c, memory, t, offset, nulls[..row]).value, cell.value, t.oid, HowFor(c, t));
    }
  }

  /** One element: zeros for a null row, the converted source element otherwise. */
  function FixedRow(c: Column, memory: Bytes, t: ColumnType, row: nat, isNull: bool): Result<Bytes>
    requires GoodBuffers(c, t) && SourceMatches(c, t) && !NativeBatch.IsText(t.oid)
  {
    var cell :- CellOf(c, memory, t, row, isNull);
    MatchConverts(c, t);
    NativeBatch.FixedElement(t.oid, HowFor(c, t), cell)
  }

  method FixedRows(c: Column, memory: Bytes, t: ColumnType, offset: nat, nulls: seq<bool>) returns (r: Result<Bytes>)
    requires GoodBuffers(c, t) && SourceMatches(c, t) && !NativeBatch.IsText(t.oid)
    ensures r == FixedRowsOf(c, memory, t, offset, nulls)
  {
    var data: Bytes := [];
    assert nulls[..0] == [];
    var row := 0;
    while row < |nulls|
      invariant 0 <= row <= |nulls| && FixedRowsOf(c, memory, t, offset, nulls[..row]) == Success(data)
    {
      hide FixedRow, FixedRowsOf, GoodBuffers, SourceMatches;
      FixedRowMore(c, memory, t, offset, nulls, row);
      var element := FixedRow(c, memory, t, offset + row, nulls[row]);
      if element.Failure? {
        FixedStops(c, memory, t, offset, nulls, row + 1);
        return Failure;
      }
      data := data + element.value;
      row := row + 1;
    }
    assert nulls[..row] == nulls;
    return Success(data);
  }

  /** `encode_host_column`. */
  method EncodeHostColumn(c: Column, memory: Bytes, t: ColumnType, offset: nat, count: nat) returns (r: Result<Encoded>)
    ensures r == EncodeHost(c, memory, t, offset, count)
  {
    hide ReadNulls, CellsOf, GoodBuffers, SourceMatches, HowFor, EncodeText, NativeBatch.FixedData,
      NativeBatch.IsText, EncodeNulls, NativeBatch.Converts, NativeBatch.WellSized;
    if !InRange(c, t, offset, count) { return Failure; }
    var nulls := ReadNullRows(c, memory, offset, count, t.notNullable);
    if nulls.Failure? {
      RequiredFails(c, memory, t, offset, count);
      return Failure;
    }
    var mask := EncodeNullMask(nulls.value);
    if !GoodBuffers(c, t) { return Failure; }
    SameNulls(c, memory, t, offset, count, nulls.value);
    if NativeBatch.IsText(t.oid) {
      var text := TextRows(c, memory, t, offset, nulls.value);
      r := if text.Failure? then Failure else Success(NativeBatch.Encoded(text.value.0, text.value.1, mask));
    } else {
      var data := FixedRows(c, memory, t, offset, nulls.value);
      r := if data.Failure? then Failure else Success(NativeBatch.Encoded(data.value, [], mask));
    }
  }

  lemma RequiredFails(c: Column, memory: Bytes, t: ColumnType, offset: nat, count: nat)
    requires NullsFor(c, memory, offset, count, t.notNullable).Failure?
    ensures EncodeHost(c, memory, t, offset, count).Failure?
  {
    hide ReadNulls, CellsOf, GoodBuffers, SourceMatches, HowFor, EncodeText, NativeBatch.FixedData,
      NativeBatch.IsText, EncodeNulls, NativeBatch.Converts, NativeBatch.WellSized;
    if HostCells(c, memory, t, offset, count).Success? {
      HostCellsShape(c, memory, t, offset, count);
      var cells := HostCells(c, memory, t, offset, count).value;
      var nulls := NativeBatch.NullsOf(cells);
      var i :| 0 <= i < |nulls| && nulls[i];
      assert cells[i].Null?;
    }
  }

  lemma SameNulls(c: Column, memory: Bytes, t: ColumnType, offset: nat, count: nat, nulls: seq<bool>)
    requires InRange(c, t, offset, count) && GoodBuffers(c, t)
    requires NullsFor(c, memory, offset, count, t.notNullable) == Success(nulls)
    ensures HostCells(c, memory, t, offset, count) == CellsOf(c, memory, t, offset, nulls)
    ensures HostCells(c, memory, t, offset, count).Success? ==>
              var cells := HostCells(c, memory, t, offset, count).value;
              NativeBatch.NullsOf(cells) == nulls && !(t.notNullable && NativeBatch.HasNull(cells))
  {
    hide ReadNulls, CellsOf, GoodBuffers, SourceMatches;
    if HostCells(c, memory, t, offset, count).Success? {
      CellsAreWellSized(c, memory, t, offset, nulls);
    }
  }

  // ---------------------------------------------------------------------------
  // Predicting the size
  // ---------------------------------------------------------------------------

  lemma {:induction false} AreaStops(c: Column, memory: Bytes, offset: nat, count: nat, k: nat)
    requires GoodOffsets(c) && k <= count && AreaBytes(c, memory, offset, k).Failure?
    ensures AreaBytes(c, memory, offset, count).Failure?
    decreases count
  {
    hide AreaCost, GoodOffsets;
    if k < count { AreaStops(c, memory, offset, count - 1, k); }
  }

  /** The area loop of `encoded_size`. */
  method SumAreas(c: Column, memory: Bytes, offset: nat, count: nat) returns (r: Result<nat>)
    requires GoodOffsets(c)
    ensures r == AreaBytes(c, memory, offset, count)
  {
    hide AreaCost, GoodOffsets;
    var sum := 0;
    var row := 0;
    while row < count
      invariant 0 <= row <= count && AreaBytes(c, memory, offset, row) == Success(sum)
    {
      var cost := AreaCost(c, memory, offset + row);
      assert AreaBytes(c, memory, offset, row + 1) ==
        if cost.Failure? || sum + cost.value > MAX_U64 then Failure else Success(sum + cost.value);
      if cost.Failure? || cost.value > MAX_U64 - sum {
        AreaStops(c, memory, offset, count, row + 1);
        return Failure;
      }
      sum := sum + cost.value;
      row := row + 1;
    }
    return Success(sum);
  }

  /** The null search of `encoded_size`. */
  method FindNull(c: Column, memory: Bytes, offset: nat, count: nat) returns (r: Result<bool>)
    ensures r == HasNullIn(c, memory, offset, count)
  {
    hide RowIsNull, MaskCovers;
    if !c.hasNullMask { return Success(false); }
    if !MaskCovers(c, offset + count) { return Failure; }
    var row, hasNull := 0, false;
    while row < count && !hasNull
      invariant 0 <= row <= count
      invariant AnyNull(c, memory, offset, count) == if hasNull then Success(true)
                else AnyNull(c, memory, offset + row, count - row)
    {
      var isNull := RowIsNull(c, memory, offset + row);
      if isNull.Failure? { return Failure; }
      hasNull := isNull.value;
      row := row + 1;
    }
    return Success(hasNull);
  }

  /** What one column adds. */
  method MeasureColumn(c: Column, memory: Bytes, t: ColumnType, offset: nat, count: nat) returns (r: Result<nat>)
    ensures r == ColumnSize(c, memory, t, offset, count)
  {
    hide AreaBytes, HasNullIn, GoodOffsets, NativeBatch.IsText, NativeBatch.TypeSize, NullBytes;
    var area := Success(0);
    if NativeBatch.IsText(t.oid) {
      if !GoodOffsets(c) { return Failure; }
      area := SumAreas(c, memory, offset, count);
      if area.Failure? { return Failure; }
    }
    var hasNull := FindNull(c, memory, offset, count);
    if hasNull.Failure? { return Failure; }
    return Success(4 + 34 + count * NativeBatch.TypeSize(t.oid) + area.value + NullBytes(hasNull.value, count));
  }

  lemma {:induction false} SizeStops(t: Table, k: nat, n: nat, offset: nat, count: nat)
    requires Accepted(t) && k <= n <= |t.columns| && SizeUpTo(t, k, offset, count).Failure?
    ensures SizeUpTo(t, n, offset, count).Failure?
    decreases n
  {
    hide Accepted, SizeOfColumn;
    if k < n { SizeStops(t, k, n - 1, offset, count); }
  }

  /** `encoded_size` on the host path. */
  method MeasureTable(t: Table, offset: nat, count: nat) returns (r: Result<nat>)
    requires Accepted(t)
    ensures r == EncodedSize(t, offset, count)
  {
    hide ColumnSize, SourceMatches, NativeBatch.WellTyped;
    if !GoodRange(t, offset, count) { return Failure; }
    var total := FIXED_PART;
    var i := 0;
    while i < |t.columns|
      invariant 0 <= i <= |t.columns| && SizeUpTo(t, i, offset, count) == Success(total)
    {
      var size := MeasureColumn(t.columns[i], t.memory, t.types[i], offset, count);
      assert size == SizeOfColumn(t, i, offset, count);
      if size.Failure? || size.value > MAX_U64 - total {
        SizeStops(t, i + 1, |t.columns|, offset, count);
        return Failure;
      }
      total := total + size.value;
      i := i + 1;
    }
    return Success(total);
  }

  lemma {:induction false} EncodedStops(t: Table, k: nat, n: nat, offset: nat, count: nat)
    requires Accepted(t) && k <= n <= |t.columns| && EncodedUpTo(t, k, offset, count).Failure?
    ensures EncodedUpTo(t, n, offset, count).Failure?
    decreases n
  {
    hide Accepted, EncodeOf;
    if k < n { EncodedStops(t, k, n - 1, offset, count); }
  }

  /** `encode` on the host path. */
  method EncodeRange(t: Table, offset: nat, count: nat) returns (r: Result<Bytes>)
    requires Accepted(t)
    ensures r == EncodeTable(t, offset, count)
  {
    hide EncodeHost, SourceMatches, NativeBatch.WellTyped, NativeBatch.Assemble;
    if !GoodRange(t, offset, count) { return Failure; }
    var encoded: seq<Encoded> := [];
    var i := 0;
    while i < |t.columns|
      invariant 0 <= i <= |t.columns| && EncodedUpTo(t, i, offset, count) == Success(encoded)
    {
      var column := EncodeHostColumn(t.columns[i], t.memory, t.types[i], offset, count);
      assert column == EncodeOf(t, i, offset, count);
      if column.Failure? {
        EncodedStops(t, i + 1, |t.columns|, offset, count);
        return Failure;
      }
      encoded := encoded + [column.value];
      i := i + 1;
    }
    r := AssembleBatch(count, t.types, encoded);
  }

  lemma {:induction false} AllSizedMore(vectors: seq<Bytes>, last: Bytes)
    ensures NativeBatch.AllSized(vectors + [last]) == NativeBatch.AllSized(vectors) + NativeBatch.Sized(last)
  {
    hide NativeBatch.Sized;
    if vectors != [] {
      AllSizedMore(vectors[1..], last);
      assert (vectors + [last])[1..] == vectors[1..] + [last];
    } else {
      assert (vectors + [last])[1..] == [];
    }
  }

  /** `assemble_native_batch`: one sized vector after the other, between the row and column counts and four zeros. */
  method AssembleBatch(rows: nat, types: seq<ColumnType>, columns: seq<Encoded>) returns (r: Result<Bytes>)
    requires |types| == |columns| && forall i :: 0 <= i < |types| ==> NativeBatch.WellTyped(types[i])
    ensures r == NativeBatch.Assemble(rows, types, columns)
  {
    hide NativeBatch.WellTyped, NativeBatch.TypeBytes, NativeBatch.VectorBytes, NativeBatch.Sized,
      NativeBatch.AllSized, LE;
    var output := LE(8, rows) + LE(4, |columns|);
    ghost var head := output;
    ghost var all := NativeBatch.VectorsOf(rows, types, columns);
    EmptySized();
    assert all[..0] == [];
    var i := 0;
    while i < |columns|
      invariant 0 <= i <= |columns|
      invariant output == head + NativeBatch.AllSized(all[..i])
      invariant forall k :: 0 <= k < i ==>
                  && NativeBatch.Framable(NativeBatch.FlatVector(rows, types[k], columns[k]))
                  && |NativeBatch.VectorBytes(NativeBatch.FlatVector(rows, types[k], columns[k]))| <= MAX_U32
    {
      var flat := NativeBatch.FlatVector(rows, types[i], columns[i]);
      var vector := NativeBatch.VectorBytes(flat);
      if !NativeBatch.Framable(flat) || |vector| > MAX_U32 { return Failure; }
      AllSizedMore(all[..i], vector);
      assert all[..i] + [vector] == all[..i + 1];
      output := output + NativeBatch.Sized(vector);
      i := i + 1;
    }
    assert all[..i] == all;
    var zero := LE(4, 0);
    output := output + zero + zero + zero + zero;
    assert output == LE(8, rows) + (LE(4, |all|) + (NativeBatch.AllSized(all) + (zero + (zero + (zero + zero)))));
    return Success(output);
  }

  lemma EmptySized()
    ensures NativeBatch.AllSized([]) == []
  {
  }
}
