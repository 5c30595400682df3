/**
 Forms of the native batch that the decoder must read although the sidecar's own encoder never writes
 them: constant vectors, and batches with attribute names.
 */
module DecoderForms {
  import opened Bytes
  import opened NullBitmap
  import opened Varlena
  import opened NativeBatch
  import opened CodecRoundTrip
  import opened BitmapForms

  // ---------------------------------------------------------------------------
  // Constant vectors
  // ---------------------------------------------------------------------------

  /** A vector of class 1: one element, or none, for all rows. */
  function ConstantVector(rows: nat, t: ColumnType, data: Bytes, area: Bytes, nulls: Bytes): Vector
    requires WellTyped(t)
  {
    Vector(1, TypeBytes(t), rows, data, area, nulls, 0)
  }

  /** The column the decoder makes of it. */
  function ConstantColumn(rows: nat, t: ColumnType, data: Bytes, area: Bytes, mask: Mask): Column {
    Column(true, MOType(t.oid, t.width, t.scale), rows, data, area, mask, false)
  }

  lemma ConstantIsAccepted(rows: nat, t: ColumnType, data: Bytes, area: Bytes, bits: seq<bool>, expected: Substrait)
    requires WellTyped(t) && Matches(expected, MOType(t.oid, t.width, t.scale)) && |bits| == rows
    requires 1 <= rows <= MAX_U32 && Framable(ConstantVector(rows, t, data, area, EncodeNulls(bits)))
    requires data == [] || |data| == TypeSize(t.oid)
    requires if IsText(t.oid) then (|data| == Varlena.SIZE ==> InArea(data, area)) else area == []
    ensures var mask := ParseNulls(EncodeNulls(bits), rows);
            && mask.Success? && NullBits(mask.value.words, rows) == bits
            && var r := ParseColumn(VectorBytes(ConstantVector(rows, t, data, area, EncodeNulls(bits))), rows,
              expected);
               r == Success(ConstantColumn(rows, t, data, area, mask.value)) && ValidColumn(r.value)
  {
    hide ParseNulls, SplitVector, VectorBytes, EncodeNulls, TypeBytes, TypeOf, TypeSize, Matches, InArea, ValidColumn;
    var v := ConstantVector(rows, t, data, area, EncodeNulls(bits));
    NullsRoundTrip(bits);
    SplitVectorRoundTrip(v);
    TypeRoundTrip(t);
    if IsText(t.oid) {
      TextSize(t.oid);
      OneDescriptor(data, area);
    }
    AcceptedIsValid(VectorBytes(v), rows, expected);
  }

  lemma OneDescriptor(data: Bytes, area: Bytes)
    requires data == [] || (|data| == Varlena.SIZE && InArea(data, area))
    ensures DescriptorsInArea(data, area, if data == [] then 0 else 1)
  {
    if data != [] {
      assert Element(data, Varlena.SIZE, 0) == data;
    }
  }

  /**
   The constant round trip. A class-1 vector that carries the one encoded element of a value is
   accepted for any number of rows, and every row is that value; unless its bitmap marks row 0, in which
   case every row is null, whatever it says of the other rows.
   */
  lemma ConstantRoundTrip(cell: Cell, t: ColumnType, how: Conversion, expected: Substrait, bits: seq<bool>, row: nat)
    requires cell.Value? && Encodable([cell], t, how, expected) && EncodeColumn([cell], t, how).Success?
    requires row < |bits| <= MAX_U32
    requires var e := EncodeColumn([cell], t, how).value;
             Framable(ConstantVector(|bits|, t, e.data, e.area, EncodeNulls(bits)))
    ensures var e := EncodeColumn([cell], t, how).value;
            var r := ParseColumn(VectorBytes(ConstantVector(|bits|, t, e.data, e.area, EncodeNulls(bits))), |bits|,
              expected);
            && r.Success? && ValidColumn(r.value) && r.value.rows == |bits|
            && CellAt(r.value, row) == Success(if bits[0] then Null else Logical(how, cell))
            && DatesInRange(r.value, 0, |bits|)
  {
    hide EncodeColumn, ParseColumn, VectorBytes, EncodeNulls, ParseNulls, ValidColumn, Logical, Matches, Converts,
      TypeSize, WellSized, InArea, ReadElement, DateInRange;
    var e := EncodeColumn([cell], t, how).value;
    var element := OneElement(cell, t, how, expected);
    ConstantIsAccepted(|bits|, t, e.data, e.area, bits, expected);
    var c := ParseColumn(VectorBytes(ConstantVector(|bits|, t, e.data, e.area, EncodeNulls(bits))), |bits|,
      expected).value;
    assert NullBits(c.mask.words, |bits|)[0] == bits[0];
    assert IsNull(c.mask.words, 0) == bits[0];
    ConstantElement(c);
  }

  /** What one encoded value looks like, and that it reads back. */
  lemma OneElement(cell: Cell, t: ColumnType, how: Conversion, expected: Substrait) returns (e: Encoded)
    requires cell.Value? && Encodable([cell], t, how, expected) && EncodeColumn([cell], t, how).Success?
    ensures e == EncodeColumn([cell], t, how).value && |e.data| == TypeSize(t.oid) > 0
    ensures if IsText(t.oid) then |e.data| == Varlena.SIZE && InArea(e.data, e.area) else e.area == []
    ensures ReadElement(t.oid, e.data, e.area) == Success(Logical(how, cell).bytes) && Logical(how, cell).Value?
    ensures t.oid == T_DATE ==> DateInRange(e.data)
  {
    hide EncodeColumn, EncodeNulls, Descriptors, Area, Text, InArea, Convert, DateInRange, Matches;
    e := EncodeColumn([cell], t, how).value;
    EncodedShape([cell], t, how, expected);
    if IsText(t.oid) {
      TextSize(t.oid);
      TextVectorAccepted([cell]);
      assert Element(e.data, Varlena.SIZE, 0) == e.data;
    } else {
      NotUint32(expected, MOType(t.oid, t.width, t.scale));
      FixedDataAt([cell], t.oid, how, 0);
      assert Element(e.data, TypeSize(t.oid), 0) == e.data;
      ElementRoundTrip(t.oid, how, cell);
    }
  }

  lemma ConstantElement(c: Column)
    requires ValidColumn(c) && c.constant && c.data != []
    ensures ElementAt(c, 0) == c.data
  {
  }

  /** A class-1 vector without data is accepted, and every row is null. */
  lemma EmptyConstantIsNull(t: ColumnType, expected: Substrait, bits: seq<bool>, row: nat)
    requires WellTyped(t) && Matches(expected, MOType(t.oid, t.width, t.scale)) && row < |bits| <= MAX_U32
    requires Framable(ConstantVector(|bits|, t, [], [], EncodeNulls(bits)))
    ensures var r := ParseColumn(VectorBytes(ConstantVector(|bits|, t, [], [], EncodeNulls(bits))), |bits|, expected);
            && r.Success? && ValidColumn(r.value) && r.value.rows == |bits|
            && CellAt(r.value, row) == Success(Null)
  {
    hide ParseColumn, VectorBytes, EncodeNulls, ParseNulls, ValidColumn, Matches, TypeSize, InArea;
    ConstantIsAccepted(|bits|, t, [], [], bits, expected);
  }

  // ---------------------------------------------------------------------------
  // Attribute names
  // ---------------------------------------------------------------------------

  /** A batch with attribute names and closing fields. */
  function NamedBatchBytes(rows: nat, vectors: seq<Bytes>, names: seq<Bytes>, closing: Bytes): Bytes {
    LE(8, rows) + (LE(4, |vectors|) + (AllSized(vectors) + (LE(4, |names|) + (AllSized(names) + closing))))
  }

  predicate AllParse(vectors: seq<Bytes>, rows: nat, schema: seq<Substrait>)
    requires |vectors| == |schema|
  {
    forall j :: 0 <= j < |schema| ==> ParseColumn(vectors[j], rows, schema[j]).Success?
  }

  /** The vectors of a batch are decoded one by one, whatever follows them. */
  lemma {:induction false} VectorsParse(vectors: seq<Bytes>, rows: nat, schema: seq<Substrait>, rest: Bytes)
    requires |vectors| == |schema| && forall j :: 0 <= j < |vectors| ==> |vectors[j]| <= MAX_U32
    ensures var r := ParseColumns(AllSized(vectors) + rest, rows, schema);
            && (r.Success? <==> AllParse(vectors, rows, schema))
            && (r.Success? ==>
                  && r.value.1 == rest && |r.value.0| == |schema|
                  && forall j :: 0 <= j < |schema| ==>
                    ParseColumn(vectors[j], rows, schema[j]) == Success(r.value.0[j]))
    decreases |schema|
  {
    hide ParseColumn, TakeSized, Sized;
    if schema == [] {
      assert AllSized(vectors) + rest == rest;
    } else {
      var tail := AllSized(vectors[1..]) + rest;
      assert AllSized(vectors) + rest == Sized(vectors[0]) + tail;
      TakeSizedAppend(vectors[0], tail);
      VectorsParse(vectors[1..], rows, schema[1..], rest);
      var r := ParseColumns(AllSized(vectors) + rest, rows, schema);
      if AllParse(vectors, rows, schema) {
        assert forall j :: 0 <= j < |schema| - 1 ==> vectors[1..][j] == vectors[j + 1];
        assert forall j :: 0 <= j < |schema| - 1 ==> schema[1..][j] == schema[j + 1];
        assert AllParse(vectors[1..], rows, schema[1..]);
      }
      if r.Success? {
        forall j | 0 <= j < |schema| ensures ParseColumn(vectors[j], rows, schema[j]) == Success(r.value.0[j]) {
          if j > 0 { assert vectors[1..][j - 1] == vectors[j] && schema[1..][j - 1] == schema[j]; }
        }
      }
    }
  }

  lemma {:induction false} NamesAreSkipped(names: seq<Bytes>, rest: Bytes)
    requires forall j :: 0 <= j < |names| ==> |names[j]| <= MAX_I32
    ensures SkipAttributes(AllSized(names) + rest, |names|) == Success(rest)
  {
    hide LE, FromLE, TakeLE, Take;
    if names == [] {
      assert AllSized(names) + rest == rest;
    } else {
      var tail := AllSized(names[1..]) + rest;
      assert AllSized(names) + rest == LE(4, |names[0]|) + (names[0] + tail);
      Take4(|names[0]|, names[0] + tail);
      TakeAppend(names[0], tail);
      NamesAreSkipped(names[1..], rest);
    }
  }

  predicate NamesFit(names: seq<Bytes>) {
    |names| <= MAX_I32 && forall j :: 0 <= j < |names| ==> |names[j]| <= MAX_I32
  }

  lemma TailIsValid(names: seq<Bytes>, closing: Bytes, vectors: nat)
    requires NamesFit(names)
    ensures ValidTail(LE(4, |names|) + (AllSized(names) + closing), vectors) <==>
              (names == [] || |names| == vectors) && closing == LE(4, 0) + LE(4, 0) + LE(4, 0)
  {
    hide LE, FromLE, TakeLE, AllSized, SkipAttributes;
    Take4(|names|, AllSized(names) + closing);
    NamesAreSkipped(names, closing);
  }

  /**
   Which batches are accepted: a positive 32-bit row count, one vector per schema column, each of them
   accepted on its own, no attribute names or one per vector, three zero fields and nothing after them.
   The view holds the columns in order, and the names change nothing.
   */
  lemma BatchIsAcceptedExactly(
    rows: nat, vectors: seq<Bytes>, names: seq<Bytes>, closing: Bytes, schema: seq<Substrait>)
    requires rows < U64 / 2 && |vectors| <= MAX_I32 && NamesFit(names)
    requires forall j :: 0 <= j < |vectors| ==> |vectors[j]| <= MAX_U32
    ensures var r := ParseBatch(NamedBatchBytes(rows, vectors, names, closing), schema);
            && (r.Success? <==>
                  && 1 <= rows <= MAX_U32 && |vectors| == |schema| && AllParse(vectors, rows, schema)
                  && (names == [] || |names| == |vectors|) && closing == LE(4, 0) + LE(4, 0) + LE(4, 0))
            && (r.Success? ==>
                  && r.value.rows == rows && |r.value.columns| == |schema|
                  && forall j :: 0 <= j < |schema| ==>
                       ParseColumn(vectors[j], rows, schema[j]) == Success(r.value.columns[j]))
  {
    hide LE, FromLE, TakeLE, AllSized, ParseColumns, ParseColumn, ValidTail;
    Pow256Values();
    var tail := LE(4, |names|) + (AllSized(names) + closing);
    TakeLEAppend(8, rows, LE(4, |vectors|) + (AllSized(vectors) + tail));
    Take4(|vectors|, AllSized(vectors) + tail);
    if |vectors| == |schema| {
      VectorsParse(vectors, rows, schema, tail);
      TailIsValid(names, closing, |schema|);
    }
  }

  // ---------------------------------------------------------------------------
  // Which vectors are accepted
  // ---------------------------------------------------------------------------

  ghost predicate LegalNulls(nulls: Bytes, rows: nat) {
    nulls == [] || exists bits :: IsBitmap(nulls, rows, bits)
  }

  /** The data of a flat vector has an element per row, that of a constant one has one element or none. */
  predicate LegalData(v: Vector, size: nat) {
    if v.class_ == 0 then |v.data| == v.rows * size else v.data == [] || |v.data| == size
  }

  ghost predicate LegalText(v: Vector) {
    forall i {:trigger Element(v.data, Varlena.SIZE, i)} :: 0 <= i && Varlena.SIZE * i + Varlena.SIZE <= |v.data| ==>
      InArea(Element(v.data, Varlena.SIZE, i), v.area)
  }

  /** A vector as the format describes it. */
  ghost predicate Legal(v: Vector, rows: nat, expected: Substrait)
    requires |v.typeBytes| == TYPE_BYTES
  {
    var type_ := TypeOf(v.typeBytes);
    && (v.class_ == 0 || v.class_ == 1) && (v.sorted == 0 || v.sorted == 1)
    && Matches(expected, type_) && v.rows == rows && LegalData(v, TypeSize(type_.oid))
    && (if IsText(type_.oid) then LegalText(v) else v.area == [])
    && LegalNulls(v.nulls, rows)
  }

  lemma NullsAreAcceptedExactly(nulls: Bytes, rows: nat)
    ensures ParseNulls(nulls, rows).Success? <==> LegalNulls(nulls, rows)
  {
    hide ParseNulls, IsBitmap;
    if ParseNulls(nulls, rows).Success? && nulls != [] {
      var bits := AcceptedIsBitmap(nulls, rows);
    }
    if LegalNulls(nulls, rows) {
      if nulls == [] {
        NoBitmap(rows);
      } else {
        var bits :| IsBitmap(nulls, rows, bits);
        BitmapIsAccepted(nulls, rows, bits);
      }
    }
  }

  lemma NoBitmap(rows: nat)
    ensures ParseNulls([], rows).Success?
  {
  }

  lemma TextIsLegal(v: Vector, count: nat)
    requires |v.data| == Varlena.SIZE * count
    ensures DescriptorsInArea(v.data, v.area, count) <==> LegalText(v)
  {
    hide InArea;
  }

  /** A framed vector is accepted exactly if it is legal. */
  lemma VectorIsAcceptedExactly(v: Vector, rows: nat, expected: Substrait)
    requires Framable(v)
    ensures ParseColumn(VectorBytes(v), rows, expected).Success? <==> Legal(v, rows, expected)
  {
    hide SplitVector, VectorBytes, ParseNulls, LegalNulls, Matches, TypeOf, LegalText, DescriptorsInArea, TypeSize;
    SplitVectorRoundTrip(v);
    NullsAreAcceptedExactly(v.nulls, rows);
    var size := TypeSize(TypeOf(v.typeBytes).oid);
    if v.class_ <= 1 { SizesAgree(v, size); }
    if IsText(TypeOf(v.typeBytes).oid) {
      TextSize(TypeOf(v.typeBytes).oid);
      var count := PhysicalRows(v.class_ == 1, v.data, v.rows);
      if |v.data| == count * size { TextIsLegal(v, count); }
    }
  }

  lemma SizesAgree(v: Vector, size: nat)
    requires v.class_ <= 1
    ensures |v.data| == PhysicalRows(v.class_ == 1, v.data, v.rows) * size <==> LegalData(v, size)
  {
  }
}
