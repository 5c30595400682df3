/** Materialising an accepted batch: `fill_column`, and when it is defined. */
module Scan {
  import opened Bytes
  import opened NullBitmap
  import opened Varlena
  import opened NativeBatch
  import opened CodecRoundTrip

  /** Every column of an accepted batch is valid and has the batch's row count. */
  lemma {:induction false} AcceptedColumnsAreValid(s: Bytes, rows: nat, schema: seq<Substrait>)
    requires 1 <= rows <= MAX_U32 && ParseColumns(s, rows, schema).Success?
    ensures var columns := ParseColumns(s, rows, schema).value.0;
            && |columns| == |schema|
            && forall j :: 0 <= j < |columns| ==>
                 ValidColumn(columns[j]) && columns[j].rows == rows && Matches(schema[j], columns[j].type_)
    decreases |schema|
  {
    hide ParseColumn, ValidColumn, Matches, TakeSized;
    if schema != [] {
      var (vector, s1) := TakeSized(s).value;
      AcceptedIsValid(vector, rows, schema[0]);
      AcceptedColumnsAreValid(s1, rows, schema[1..]);
    }
  }

  lemma AcceptedBatchIsValid(s: Bytes, schema: seq<Substrait>)
    requires ParseBatch(s, schema).Success?
    ensures var view := ParseBatch(s, schema).value;
            && 1 <= view.rows <= MAX_U32 && |view.columns| == |schema|
            && forall j :: 0 <= j < |schema| ==>
                 && ValidColumn(view.columns[j]) && view.columns[j].rows == view.rows
                 && Matches(schema[j], view.columns[j].type_)
  {
    hide ValidColumn, ParseColumns, FromLE, Matches, SkipAttributes, LE;
    var s1 := TakeLE(s, 8).value.1;
    var s2 := TakeLE(s1, 4).value.1;
    AcceptedColumnsAreValid(s2, ParseBatch(s, schema).value.rows, schema);
  }

  /** The stored value and validity of an output vector show the cell of this row. */
  predicate Shows(c: Column, row: nat, value: Bytes, valid: bool)
    requires ValidColumn(c) && row < c.rows
  {
    CellAt(c, row) == Success(if valid then Value(value) else Null)
  }

  /** A flat row that is not null is stored as the scan reads it. */
  predicate Stored(c: Column, row: nat, value: Bytes)
    requires ValidColumn(c) && !c.constant && row < c.rows
  {
    IsNull(c.mask.words, row) || ReadElement(c.type_.oid, ElementAt(c, row), c.area) == Success(value)
  }

  lemma NoNullsWhenCountIsZero(c: Column, row: nat)
    requires ValidColumn(c) && c.mask.count == 0 && row < c.rows
    ensures !IsNull(c.mask.words, row)
  {
    CountTrueBound(NullBits(c.mask.words, c.rows));
    assert NullBits(c.mask.words, c.rows)[row] == IsNull(c.mask.words, row);
  }

  lemma CellIs(c: Column, row: nat, value: Bytes)
    requires ValidColumn(c) && row < c.rows
    ensures NullAt(c, row) ==> CellAt(c, row) == Success(Null)
    ensures !NullAt(c, row) ==>
              var e := ReadElement(c.type_.oid, ElementAt(c, if c.constant then 0 else row), c.area);
              e == Success(value) ==> CellAt(c, row) == Success(Value(value))
  {
  }

  /**
   `fill_column`: values first, null rows marked afterwards and only when the declared null count is
   not zero. It fails exactly when a date it converts, null or not, leaves the 32-bit range, and
   otherwise the output vector shows the cell of every requested row.
   */
  method FillColumn(c: Column, offset: nat, count: nat, values: array<Bytes>, valid: array<bool>) returns (ok: bool)
    requires ValidColumn(c) && offset + count <= c.rows && count <= values.Length && count <= valid.Length
    modifies values, valid
    ensures ok == DatesInRange(c, offset, count)
    ensures ok ==> forall i :: 0 <= i < count ==> Shows(c, offset + i, values[i], valid[i])
  {
    if c.constant {
      ok := FillConstant(c, offset, count, values, valid);
      return;
    }
    ok := FillValues(c, offset, count, values);
    if !ok {
      return;
    }
    MarkNulls(c, offset, count, valid);
    forall i | 0 <= i < count
      ensures Shows(c, offset + i, values[i], valid[i])
    {
      assert Stored(c, offset + i, values[i]);
      CellIs(c, offset + i, values[i]);
    }
  }

  /** The validity half: all rows valid, then the null ones invalid, a loop skipped when the null count is zero. */
  method MarkNulls(c: Column, offset: nat, count: nat, valid: array<bool>)
    requires ValidColumn(c) && !c.constant && offset + count <= c.rows && count <= valid.Length
    modifies valid
    ensures forall i :: 0 <= i < count ==> valid[i] == !NullAt(c, offset + i)
  {
    for i := 0 to count
      invariant forall k :: 0 <= k < i ==> valid[k]
    {
      valid[i] := true;
    }
    if c.mask.count != 0 {
      for i := 0 to count
        invariant forall k :: 0 <= k < i ==> valid[k] == !NullAt(c, offset + k)
        invariant forall k :: i <= k < count ==> valid[k]
      {
        if IsNull(c.mask.words, offset + i) {
          valid[i] := false;
        }
      }
    } else {
      forall k {:trigger valid[k]} | 0 <= k < count ensures !NullAt(c, offset + k) {
        NoNullsWhenCountIsZero(c, offset + k);
      }
    }
  }

  /** The value half of a flat vector: text rows that are null are skipped, fixed-width rows are not. */
  method FillValues(c: Column, offset: nat, count: nat, values: array<Bytes>) returns (ok: bool)
    requires ValidColumn(c) && !c.constant && offset + count <= c.rows && count <= values.Length
    modifies values
    ensures ok == DatesInRange(c, offset, count)
    ensures ok ==> forall i :: 0 <= i < count ==> Stored(c, offset + i, values[i])
  {
    for i := 0 to count
      invariant DatesInRange(c, offset, i)
      invariant forall k :: 0 <= k < i ==> Stored(c, offset + k, values[k])
    {
      hide IsNull, ValidColumn;
      if IsText(c.type_.oid) && IsNull(c.mask.words, offset + i) {
        continue;
      }
      var read := ReadElement(c.type_.oid, ElementAt(c, offset + i), c.area);
      if read.Failure? {
        assert !DateInRange(ElementAt(c, offset + i));
        return false;
      }
      values[i] := read.value;
    }
    ok := true;
  }

  /** A constant vector: one element or null for every row. */
  method FillConstant(c: Column, offset: nat, count: nat, values: array<Bytes>, valid: array<bool>) returns (ok: bool)
    requires ValidColumn(c) && c.constant && offset + count <= c.rows && count <= values.Length && count <= valid.Length
    modifies values, valid
    ensures ok == DatesInRange(c, offset, count)
    ensures ok ==> forall i :: 0 <= i < count ==> Shows(c, offset + i, values[i], valid[i])
  {
    var isNull := c.data == [] || IsNull(c.mask.words, 0);
    var value: Bytes := [];
    if !isNull {
      var read := ReadElement(c.type_.oid, ElementAt(c, 0), c.area);
      if read.Failure? {
        return false;
      }
      value := read.value;
    }
    for i := 0 to count
      invariant forall k :: 0 <= k < i ==> valid[k] == !isNull && values[k] == value
    {
      values[i], valid[i] := value, !isNull;
    }
    forall i | 0 <= i < count
      ensures Shows(c, offset + i, values[i], valid[i])
    {
      CellIs(c, offset + i, value);
    }
    ok := true;
  }

  /** The wire form of a date column with one row and no nulls. */
  function OneDate(e: Bytes): Bytes {
    VectorBytes(FlatVector(1, ColumnType(T_DATE, 0, 0, 0, false), Encoded(e, [], [])))
  }

  /**
   Acceptance does not bound dates: a one-row date column is accepted whatever its four bytes are, and
   its scan is defined if and only if the date is at least INT32_MIN + 719162, so not for INT32_MIN.
   */
  lemma AcceptedDateMayOverflow(e: Bytes)
    requires |e| == 4
    ensures var r := ParseColumn(OneDate(e), 1, Date);
            r.Success? && ValidColumn(r.value) && r.value.rows == 1 && (DatesInRange(r.value, 0, 1) <==> DateInRange(e))
    ensures e == LE(4, 0x8000_0000) ==> !DateInRange(e)
  {
    hide LE, FromLE, SplitVector, VectorBytes, TypeBytes, TypeOf;
    var t := ColumnType(T_DATE, 0, 0, 0, false);
    var v := FlatVector(1, t, Encoded(e, [], []));
    TypeRoundTrip(t);
    SplitVectorRoundTrip(v);
    var c := Column(false, MOType(T_DATE, 0, 0), 1, e, [], NO_NULLS, false);
    assert ParseColumn(OneDate(e), 1, Date) == Success(c);
    AcceptedIsValid(OneDate(e), 1, Date);
    assert ElementAt(c, 0) == e;
    LE4(0x8000_0000);
  }

  /**
   Decoder acceptance is sufficient for the scan of every row range, except that it does not bound
   dates: a range is materialised if and only if its dates convert (`FillColumn`), which every column
   of another type, and every column the encoder wrote, satisfies.
   */
  lemma AcceptedBatchScans(s: Bytes, schema: seq<Substrait>, j: nat, offset: nat, count: nat)
    requires ParseBatch(s, schema).Success? && j < |schema|
    requires offset + count <= ParseBatch(s, schema).value.rows
    ensures var view := ParseBatch(s, schema).value;
            && |view.columns| == |schema| && ValidColumn(view.columns[j]) && view.columns[j].rows == view.rows
            && (!schema[j].Date? ==> DatesInRange(view.columns[j], offset, count))
            && (DatesInRange(view.columns[j], offset, count) ==>
                  forall row {:trigger CellAt(view.columns[j], row)} :: offset <= row < offset + count ==>
                    CellAt(view.columns[j], row).Success?)
  {
    hide ParseBatch, IsNull;
    AcceptedBatchIsValid(s, schema);
    var c := ParseBatch(s, schema).value.columns[j];
    if DatesInRange(c, offset, count) && !c.constant {
      forall row {:trigger CellAt(c, row)} | offset <= row < offset + count ensures CellAt(c, row).Success? {
        var e := ElementAt(c, row);
      }
    }
  }

  // ---------------------------------------------------------------------------
  // Chunk by chunk
  // ---------------------------------------------------------------------------

  lemma DatesSplit(c: Column, offset: nat, count: nat)
    requires ValidColumn(c) && offset + count <= c.rows
    ensures (offset > 0 ==> DatesInRange(c, 0, offset)) && DatesInRange(c, offset, count) ==>
            DatesInRange(c, 0, offset + count)
    ensures DatesInRange(c, 0, c.rows) ==> DatesInRange(c, offset, count)
  {
    hide ValidColumn, DateInRange;
  }

  /** The rows of one column that the chunks so far show. */
  ghost predicate Emitted(c: Column, rows: nat, values: seq<Bytes>, valid: seq<bool>)
    requires ValidColumn(c) && rows <= c.rows
  {
    |values| == |valid| == rows && forall row :: 0 <= row < rows ==> Shows(c, row, values[row], valid[row])
  }

  lemma EmitMore(c: Column, rows: nat, values: seq<Bytes>, valid: seq<bool>, moreValues: seq<Bytes>,
      moreValid: seq<bool>)
    requires ValidColumn(c) && |moreValues| == |moreValid| && rows + |moreValues| <= c.rows
             && Emitted(c, rows, values, valid)
    requires forall i :: 0 <= i < |moreValues| ==> Shows(c, rows + i, moreValues[i], moreValid[i])
    ensures Emitted(c, rows + |moreValues|, values + moreValues, valid + moreValid)
  {
    hide Shows, ValidColumn;
    forall row | 0 <= row < rows + |moreValues|
      ensures Shows(c, row, (values + moreValues)[row], (valid + moreValid)[row])
    {
      if row >= rows { assert Shows(c, rows + (row - rows), moreValues[row - rows], moreValid[row - rows]); }
    }
  }

  /**
   The calls of `scan_stream` on one batch, for one column: chunks of at most 2048 rows from a moving
   offset. The chunks show exactly the rows of the batch, in order, and scanning fails exactly when
   some date of the column does not convert.
   */
  method ScanColumn(c: Column) returns (ok: bool, values: seq<Bytes>, valid: seq<bool>)
    requires ValidColumn(c)
    ensures ok == DatesInRange(c, 0, c.rows)
    ensures ok ==> Emitted(c, c.rows, values, valid)
  {
    values, valid := [], [];
    assert c.rows > 0;
    var offset := 0;
    while offset < c.rows
      invariant 0 <= offset <= c.rows && (offset > 0 ==> DatesInRange(c, 0, offset))
                && Emitted(c, offset, values, valid)
    {
      hide ValidColumn, DatesInRange, Emitted, Shows;
      var left := c.rows - offset;
      var count := if STANDARD_VECTOR_SIZE < left then STANDARD_VECTOR_SIZE else left;
      var chunk, mask := new Bytes[count](_ => []), new bool[count](_ => false);
      var filled := FillColumn(c, offset, count, chunk, mask);
      DatesSplit(c, offset, count);
      if !filled { return false, values, valid; }
      EmitMore(c, offset, values, valid, chunk[..], mask[..]);
      values, valid, offset := values + chunk[..], valid + mask[..], offset + count;
    }
    ok := true;
  }
}
