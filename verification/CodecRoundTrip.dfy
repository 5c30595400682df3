/** The decoder undoes the encoder, and what it accepts is exactly what the framing can produce. */
module CodecRoundTrip {
  import opened Bytes
  import opened NullBitmap
  import opened Varlena
  import opened NativeBatch

  // ---------------------------------------------------------------------------
  // Framing
  // ---------------------------------------------------------------------------

  lemma TakeAppend(a: Bytes, b: Bytes)
    ensures Take(a + b, |a|) == Success((a, b))
  {
    assert (a + b)[..|a|] == a && (a + b)[|a|..] == b;
  }

  lemma TakeLEAppend(n: nat, v: nat, b: Bytes)
    requires v < Pow256(n)
    ensures TakeLE(LE(n, v) + b, n) == Success((v, b))
  {
    TakeAppend(LE(n, v), b);
    LERoundTrip(n, v);
  }

  lemma Take4(v: nat, b: Bytes)
    requires v <= MAX_U32
    ensures TakeLE(LE(4, v) + b, 4) == Success((v, b))
  {
    Pow256Values();
    TakeLEAppend(4, v, b);
  }

  lemma TakeSizedAppend(a: Bytes, b: Bytes)
    requires |a| <= MAX_U32
    ensures TakeSized(Sized(a) + b) == Success((a, b))
  {
    hide LE, FromLE;
    assert Sized(a) + b == LE(4, |a|) + (a + b);
    Take4(|a|, a + b);
    TakeAppend(a, b);
  }

  lemma TakeSplits(s: Bytes, n: nat)
    requires Take(s, n).Success?
    ensures var (a, b) := Take(s, n).value; s == a + b && |a| == n
  {
  }

  lemma TakeLESplits(s: Bytes, n: nat)
    requires TakeLE(s, n).Success?
    ensures var (v, b) := TakeLE(s, n).value; v < Pow256(n) && s == LE(n, v) + b
  {
    FromLERoundTrip(s[..n]);
    FromLEBound(s[..n]);
  }

  lemma TakeSizedSplits(s: Bytes)
    requires TakeSized(s).Success?
    ensures var (a, b) := TakeSized(s).value; |a| <= MAX_U32 && s == Sized(a) + b
  {
    Pow256Values();
    TakeLESplits(s, 4);
    hide LE, FromLE;
    var (n, rest) := TakeLE(s, 4).value;
    var (a, b) := Take(rest, n).value;
    assert rest == a + b;
    assert LE(4, n) + rest == Sized(a) + b;
  }

  lemma SplitVectorRoundTrip(v: Vector)
    requires Framable(v)
    ensures SplitVector(VectorBytes(v)) == Success(v)
  {
    hide LE, FromLE, Sized, TakeSized, TakeLE;
    var s6 := [v.sorted];
    var s5 := Sized(v.nulls) + s6;
    var s4 := Sized(v.area) + s5;
    var s3 := Sized(v.data) + s4;
    var s2 := LE(4, v.rows) + s3;
    TakeAppend([v.class_], v.typeBytes + s2);
    TakeAppend(v.typeBytes, s2);
    Take4(v.rows, s3);
    TakeSizedAppend(v.data, s4);
    TakeSizedAppend(v.area, s5);
    TakeSizedAppend(v.nulls, s6);
    assert s6 + [] == s6;
    TakeAppend(s6, []);
  }

  /** Any byte string that splits is the framing of what it splits into: no two byte strings are read as one vector. */
  lemma SplitVectorCanonical(s: Bytes)
    requires SplitVector(s).Success?
    ensures Framable(SplitVector(s).value) && VectorBytes(SplitVector(s).value) == s
  {
    hide LE, FromLE, Sized, TakeSized, TakeLE;
    Pow256Values();
    TakeSplits(s, 1);
    var (class_, s1) := Take(s, 1).value;
    TakeSplits(s1, TYPE_BYTES);
    var (typeBytes, s2) := Take(s1, TYPE_BYTES).value;
    TakeLESplits(s2, 4);
    var (rows, s3) := TakeLE(s2, 4).value;
    TakeSizedSplits(s3);
    var (data, s4) := TakeSized(s3).value;
    TakeSizedSplits(s4);
    var (area, s5) := TakeSized(s4).value;
    TakeSizedSplits(s5);
    var (nulls, s6) := TakeSized(s5).value;
    TakeSplits(s6, 1);
    assert s6 == [s6[0]];
    assert class_ == [class_[0]];
  }

  lemma TypeSizeBound(oid: nat)
    ensures TypeSize(oid) <= 24
  {
  }

  lemma TypeRoundTrip(t: ColumnType)
    requires WellTyped(t)
    ensures TypeOf(TypeBytes(t)) == MOType(t.oid, t.width, t.scale)
    ensures var s := TypeBytes(t);
            && s[0] == t.oid && s[1] == t.charset && s[2] == (if t.notNullable then 1 else 0) && s[3] == 0
            && FromLE(s[4..8]) == TypeSize(t.oid)
            && Int32Of(s[8..12]) == t.width && Int32Of(s[12..16]) == t.scale
  {
    TypeSizeBound(t.oid);
    hide LE, FromLE, TypeSize;
    LE4(TypeSize(t.oid));
    assert TypeBytes(t)[4..8] == LE(4, TypeSize(t.oid));
    var s := TypeBytes(t);
    assert s[8..12] == LE(4, AsUnsigned(t.width, U32)) && s[12..16] == LE(4, AsUnsigned(t.scale, U32));
    SignedRoundTrip(t.width, U32);
    SignedRoundTrip(t.scale, U32);
    LE4(AsUnsigned(t.width, U32));
    LE4(AsUnsigned(t.scale, U32));
  }

  // ---------------------------------------------------------------------------
  // Elements
  // ---------------------------------------------------------------------------

  /** The cell the encoder was given, in the target's width; a DOUBLE for a decimal column is its rounded value. */
  function Logical(how: Conversion, c: Cell): Cell {
    if c.Value? && ((how.WidenI32? && |c.bytes| == 4) || (how.WidenI64? && |c.bytes| == 8))
    then Value(Convert(how, c.bytes).value)
    else if c.Value? && how.RoundDouble? && |c.bytes| == 8 && Convert(how, c.bytes).Success?
    then Value(Convert(how, c.bytes).value)
    else c
  }

  /** Widening a decimal keeps its signed value. */
  lemma WideningKeepsValue(b: Bytes)
    ensures |b| == 4 ==> AsSigned(FromLE(Convert(WidenI32, b).value), U64) == Int32Of(b)
    ensures |b| == 8 ==> AsSigned(FromLE(Convert(WidenI64, b).value), U64 * U64) == Int64Of(b)
  {
    Pow256Values();
    FromLEBound(b);
    if |b| == 4 {
      SignedRoundTrip(Int32Of(b), U64);
      LERoundTrip(8, AsUnsigned(Int32Of(b), U64));
    }
    if |b| == 8 {
      SignedRoundTrip(Int64Of(b), U64 * U64);
      LERoundTrip(16, AsUnsigned(Int64Of(b), U64 * U64));
    }
  }

  /** A rounded DOUBLE is stored as the integer it was rounded to, or refused when that leaves the decimal's storage. */
  lemma RoundingKeepsValue(wide: bool, rounded: map<Bytes, int>, b: Bytes)
    requires |b| == 8
    ensures var modulus := if wide then U64 * U64 else U64;
            var r := Convert(RoundDouble(wide, rounded), b);
            && (r.Success? <==> b in rounded && 0 - modulus <= 2 * rounded[b] < modulus)
            && (r.Success? ==> |r.value| == if wide then 16 else 8)
            && (r.Success? ==> AsSigned(FromLE(r.value), modulus) == rounded[b])
  {
    hide LE, FromLE;
    Pow256Values();
    var modulus := if wide then U64 * U64 else U64;
    if b in rounded && 0 - modulus <= 2 * rounded[b] < modulus {
      SignedRoundTrip(rounded[b], modulus);
      LERoundTrip(if wide then 16 else 8, AsUnsigned(rounded[b], modulus));
    }
  }

  lemma ConvertedSize(oid: nat, how: Conversion, c: Cell)
    requires Converts(oid, how) && !IsText(oid) && (c.Value? ==> |c.bytes| == SourceSize(oid, how))
    requires FixedElement(oid, how, c).Success?
    ensures |FixedElement(oid, how, c).value| == TypeSize(oid)
  {
  }

  /** Shifting a date there and back loses nothing and stays in range. */
  lemma DateRoundTrip(b: Bytes)
    requires |b| == 4 && Convert(ShiftDate, b).Success?
    ensures var e := Convert(ShiftDate, b).value;
            |e| == 4 && IsInt32(Int32Of(e)) && DateInRange(e)
              && LE(4, AsUnsigned(Int32Of(e) - UNIX_EPOCH_DAYS, U32)) == b
  {
    FromLEBound(b);
    Pow256Values();
    var v := Int32Of(b);
    SignedRoundTrip(v + UNIX_EPOCH_DAYS, U32);
    LE4(AsUnsigned(v + UNIX_EPOCH_DAYS, U32));
    FromLERoundTrip(b);
  }

  lemma ZeroDateInRange()
    ensures DateInRange(Zeros(4))
  {
    assert Zeros(4)[1..] == Zeros(3) && Zeros(3)[1..] == Zeros(2) && Zeros(2)[1..] == Zeros(1) && Zeros(1)[1..] == [];
    assert FromLE(Zeros(1)) == 0;
    assert FromLE(Zeros(2)) == 0;
    assert FromLE(Zeros(3)) == 0;
  }

  lemma ElementRoundTrip(oid: nat, how: Conversion, c: Cell)
    requires Converts(oid, how) && !IsText(oid) && oid != T_UINT32
    requires c.Value? ==> |c.bytes| == SourceSize(oid, how)
    requires FixedElement(oid, how, c).Success?
    ensures var e := FixedElement(oid, how, c).value;
            && |e| == TypeSize(oid)
            && (oid == T_DATE ==> DateInRange(e))
            && (c.Value? ==> ReadElement(oid, e, []) == Success(Logical(how, c).bytes))
  {
    hide LE, FromLE;
    ConvertedSize(oid, how, c);
    if oid == T_DATE {
      ZeroDateInRange();
      if c.Value? { DateRoundTrip(c.bytes); }
    }
  }

  lemma {:induction false} FixedDataSize(cells: seq<Cell>, oid: nat, how: Conversion)
    requires Converts(oid, how) && !IsText(oid) && WellSized(cells, oid, how)
    requires FixedData(cells, oid, how).Success?
    ensures |FixedData(cells, oid, how).value| == TypeSize(oid) * |cells|
  {
    hide TypeSize, Convert, SourceSize, Converts;
    if cells != [] {
      var n := |cells| - 1;
      FixedDataSize(cells[..n], oid, how);
      ConvertedSize(oid, how, cells[n]);
      assert TypeSize(oid) * n + TypeSize(oid) == TypeSize(oid) * |cells|;
    }
  }

  lemma ElementOfAppend(a: Bytes, b: Bytes, size: nat, n: nat, i: nat)
    requires |a| == size * n && |b| == size && i <= n
    ensures size * i + size <= |a + b|
    ensures i < n ==> size * i + size <= |a| && Element(a + b, size, i) == Element(a, size, i)
    ensures i == n ==> Element(a + b, size, i) == b
  {
    Fits(i, n + 1, size);
    if i < n { Fits(i, n, size); }
  }

  lemma {:induction false} FixedDataAt(cells: seq<Cell>, oid: nat, how: Conversion, i: nat)
    requires Converts(oid, how) && !IsText(oid) && WellSized(cells, oid, how)
    requires FixedData(cells, oid, how).Success? && i < |cells|
    ensures |FixedData(cells, oid, how).value| == TypeSize(oid) * |cells|
    ensures TypeSize(oid) * i + TypeSize(oid) <= TypeSize(oid) * |cells|
    ensures FixedElement(oid, how, cells[i]) == Success(Element(FixedData(cells, oid, how).value, TypeSize(oid), i))
  {
    hide TypeSize, Convert, SourceSize, Converts, Element, FixedElement;
    var n := |cells| - 1;
    FixedDataSize(cells, oid, how);
    FixedDataSize(cells[..n], oid, how);
    ConvertedSize(oid, how, cells[n]);
    Fits(i, |cells|, TypeSize(oid));
    ElementOfAppend(FixedData(cells[..n], oid, how).value, FixedElement(oid, how, cells[n]).value, TypeSize(oid), n, i);
    if i < n { FixedDataAt(cells[..n], oid, how, i); }
  }

  // ---------------------------------------------------------------------------
  // Columns
  // ---------------------------------------------------------------------------

  lemma AcceptedMask(nulls: Bytes, rows: nat)
    requires ParseNulls(nulls, rows).Success?
    ensures var mask := ParseNulls(nulls, rows).value;
            && (mask.words == [] || 8 * WordCount(rows) <= |mask.words|)
            && mask.count == CountTrue(NullBits(mask.words, rows))
  {
    AcceptedCountIsExact(nulls, rows);
    hide FromLE, Within, PopSum, CountTrue, NullBits;
    if nulls != [] {
      var bits := FromLE(nulls[8..16]);
      assert WordCount(rows) <= WordCount(bits);
    }
  }

  /**
   Acceptance is all the scan needs: in every accepted column each element, descriptor, area range and
   bitmap word the scan reads is in range, and the declared null count is the number of null rows.
   */
  lemma AcceptedIsValid(s: Bytes, rows: nat, expected: Substrait)
    requires 1 <= rows <= MAX_U32 && ParseColumn(s, rows, expected).Success?
    ensures var c := ParseColumn(s, rows, expected).value;
            ValidColumn(c) && c.rows == rows && Matches(expected, c.type_)
  {
    hide FromLE, ParseNulls, CountTrue, NullBits, SplitVector, WordCount;
    var v := SplitVector(s).value;
    AcceptedMask(v.nulls, rows);
  }

  /** A decoded column that carries exactly the encoder's parts and reads back every cell. */
  ghost predicate ReadsBack(c: Column, cells: seq<Cell>, how: Conversion)
  {
    && ValidColumn(c) && !c.constant && c.rows == |cells|
    && DatesInRange(c, 0, |cells|)
    && forall row {:trigger CellAt(c, row)} :: 0 <= row < |cells| ==>
      CellAt(c, row) == Success(Logical(how, cells[row]))
  }

  lemma TextVectorAccepted(cells: seq<Cell>)
    requires |Area(cells)| <= MAX_U32
    ensures DescriptorsInArea(Descriptors(cells), Area(cells), |cells|)
    ensures forall i {:trigger Element(Descriptors(cells), Varlena.SIZE, i)} :: 0 <= i < |cells| && cells[i].Value? ==>
              Text(Element(Descriptors(cells), Varlena.SIZE, i), Area(cells)) == cells[i].bytes
  {
    hide Descriptors, Area, InArea, Text, Descriptor;
    forall i {:trigger Element(Descriptors(cells), Varlena.SIZE, i)} | 0 <= i < |cells|
      ensures InArea(Element(Descriptors(cells), Varlena.SIZE, i), Area(cells))
      ensures cells[i].Value? ==> Text(Element(Descriptors(cells), Varlena.SIZE, i), Area(cells)) == cells[i].bytes
    {
      DescriptorAt(cells, i);
      DescriptorRoundTrip(cells, i);
    }
  }

  /** The column the decoder builds from an encoded one. */
  function ViewColumn(rows: nat, t: ColumnType, e: Encoded, mask: Mask): Column {
    Column(false, MOType(t.oid, t.width, t.scale), rows, e.data, e.area, mask, false)
  }

  predicate Encodable(cells: seq<Cell>, t: ColumnType, how: Conversion, expected: Substrait) {
    && 1 <= |cells| <= MAX_U32 && WellTyped(t)
    && Converts(t.oid, how) && WellSized(cells, t.oid, how)
    && Matches(expected, MOType(t.oid, t.width, t.scale))
    && (IsText(t.oid) ==> how.Copy?)
  }

  lemma EncodedShape(cells: seq<Cell>, t: ColumnType, how: Conversion, expected: Substrait)
    requires Encodable(cells, t, how, expected) && EncodeColumn(cells, t, how).Success?
    ensures var e := EncodeColumn(cells, t, how).value;
            && |e.data| == |cells| * TypeSize(t.oid)
            && e.nulls == EncodeNulls(NullsOf(cells))
            && (IsText(t.oid) ==> e.data == Descriptors(cells) && e.area == Area(cells) && |e.area| <= MAX_U32)
            && (!IsText(t.oid) ==> e.area == [] && FixedData(cells, t.oid, how) == Success(e.data))
  {
    hide EncodeNulls, Descriptors, Area, FixedData, TypeSize, Matches, Converts;
    if IsText(t.oid) {
      assert TypeSize(t.oid) == Varlena.SIZE by { TextSize(t.oid); }
    } else {
      FixedDataSize(cells, t.oid, how);
      assert |cells| * TypeSize(t.oid) == TypeSize(t.oid) * |cells|;
    }
  }

  lemma TextSize(oid: nat)
    requires IsText(oid)
    ensures TypeSize(oid) == Varlena.SIZE
  {
  }

  lemma EncodedIsAccepted(cells: seq<Cell>, t: ColumnType, how: Conversion, expected: Substrait)
    requires Encodable(cells, t, how, expected) && EncodeColumn(cells, t, how).Success?
    requires Framable(FlatVector(|cells|, t, EncodeColumn(cells, t, how).value))
    ensures var e := EncodeColumn(cells, t, how).value;
            var mask := ParseNulls(EncodeNulls(NullsOf(cells)), |cells|);
            && mask.Success?
            && ParseColumn(VectorBytes(FlatVector(|cells|, t, e)), |cells|, expected)
               == Success(ViewColumn(|cells|, t, e, mask.value))
  {
    hide EncodeColumn, ParseNulls, SplitVector, VectorBytes, EncodeNulls, TypeBytes, TypeOf, Descriptors, Area,
      TypeSize, Matches, Converts, NullsOf, DescriptorsInArea, WellSized;
    var e := EncodeColumn(cells, t, how).value;
    var v := FlatVector(|cells|, t, e);
    NullsRoundTrip(NullsOf(cells));
    SplitVectorRoundTrip(v);
    TypeRoundTrip(t);
    EncodedShape(cells, t, how, expected);
    if IsText(t.oid) { TextVectorAccepted(cells); TextSize(t.oid); }
  }

  lemma TextCell(c: Column, cells: seq<Cell>, row: nat)
    requires ValidColumn(c) && !c.constant && c.rows == |cells| && IsText(c.type_.oid)
    requires |Area(cells)| <= MAX_U32 && c.data == Descriptors(cells) && c.area == Area(cells)
    requires row < |cells| && NullAt(c, row) == cells[row].Null?
    ensures CellAt(c, row) == Success(cells[row])
  {
    hide Descriptors, Area, Text, InArea, FromLE, IsNull, NullBits, DescriptorsInArea;
    TextVectorAccepted(cells);
    TextSize(c.type_.oid);
    if cells[row].Value? {
      assert ElementAt(c, row) == Element(Descriptors(cells), Varlena.SIZE, row);
    }
  }

  lemma FixedCell(c: Column, cells: seq<Cell>, how: Conversion, row: nat)
    requires ValidColumn(c) && !c.constant && c.rows == |cells| && !IsText(c.type_.oid) && c.type_.oid != T_UINT32
    requires Converts(c.type_.oid, how) && WellSized(cells, c.type_.oid, how)
    requires FixedData(cells, c.type_.oid, how) == Success(c.data)
    requires row < |cells| && NullAt(c, row) == cells[row].Null?
    ensures c.type_.oid == T_DATE ==> DateInRange(ElementAt(c, row))
    ensures CellAt(c, row) == Success(Logical(how, cells[row]))
  {
    hide FromLE, IsNull, NullBits, FixedData, FixedElement, Convert, DateInRange;
    var oid := c.type_.oid;
    FixedDataAt(cells, oid, how, row);
    ElementRoundTrip(oid, how, cells[row]);
    assert ElementAt(c, row) == Element(c.data, TypeSize(oid), row);
    assert IsText(oid) == false;
    ReadIgnoresArea(oid, ElementAt(c, row), c.area);
  }

  lemma ReadIgnoresArea(oid: nat, e: Bytes, area: Bytes)
    requires |e| == TypeSize(oid) && !IsText(oid)
    ensures ReadElement(oid, e, area) == ReadElement(oid, e, [])
  {
  }

  lemma EncodedCell(cells: seq<Cell>, t: ColumnType, how: Conversion, expected: Substrait, c: Column, row: nat)
    requires Encodable(cells, t, how, expected) && EncodeColumn(cells, t, how).Success? && row < |cells|
    requires ParseNulls(EncodeNulls(NullsOf(cells)), |cells|).Success?
    requires c == ViewColumn(|cells|, t, EncodeColumn(cells, t, how).value,
                                ParseNulls(EncodeNulls(NullsOf(cells)), |cells|).value)
    requires ValidColumn(c)
    ensures c.type_.oid == T_DATE ==> DateInRange(ElementAt(c, row))
    ensures CellAt(c, row) == Success(Logical(how, cells[row]))
  {
    hide EncodeColumn, ParseNulls, EncodeNulls, ValidColumn, CellAt, TypeSize, Matches, Converts, WellSized,
      DateInRange, Descriptors, Area, FixedData, IsNull, Logical;
    NullsRoundTrip(NullsOf(cells));
    assert NullBits(c.mask.words, |cells|)[row] == NullsOf(cells)[row];
    assert NullAt(c, row) == cells[row].Null?;
    EncodedShape(cells, t, how, expected);
    if IsText(t.oid) {
      TextCell(c, cells, row);
      LogicalCopy(cells[row]);
      assert t.oid != T_DATE;
    } else {
      NotUint32(expected, c.type_);
      FixedCell(c, cells, how, row);
    }
  }

  lemma LogicalCopy(c: Cell)
    ensures Logical(Copy, c) == c
  {
  }

  lemma NotUint32(expected: Substrait, actual: MOType)
    requires Matches(expected, actual)
    ensures actual.oid != T_UINT32
  {
  }

  /** One column makes the round trip: accepted, and every row's nullness and value recovered. */
  lemma ColumnRoundTrip(cells: seq<Cell>, t: ColumnType, how: Conversion, expected: Substrait)
    requires Encodable(cells, t, how, expected) && EncodeColumn(cells, t, how).Success?
    requires Framable(FlatVector(|cells|, t, EncodeColumn(cells, t, how).value))
    ensures var r := ParseColumn(VectorBytes(FlatVector(|cells|, t, EncodeColumn(cells, t, how).value)), |cells|,
            expected);
            r.Success? && ReadsBack(r.value, cells, how)
  {
    hide EncodeColumn, ParseColumn, VectorBytes, EncodeNulls, ParseNulls, CellAt, DateInRange, ElementAt, ValidColumn,
      Logical, Matches, Converts, TypeSize;
    var s := VectorBytes(FlatVector(|cells|, t, EncodeColumn(cells, t, how).value));
    EncodedIsAccepted(cells, t, how, expected);
    AcceptedIsValid(s, |cells|, expected);
    var c := ParseColumn(s, |cells|, expected).value;
    forall row | 0 <= row < |cells|
      ensures CellAt(c, row) == Success(Logical(how, cells[row]))
      ensures c.type_.oid == T_DATE ==> DateInRange(ElementAt(c, row))
    {
      EncodedCell(cells, t, how, expected, c, row);
    }
  }

  // ---------------------------------------------------------------------------
  // Batches
  // ---------------------------------------------------------------------------

  datatype Source = Source(cells: seq<Cell>, t: ColumnType, how: Conversion)

  predicate Encodables(columns: seq<Source>, rows: nat, schema: seq<Substrait>) {
    && |columns| == |schema| <= MAX_I32
    && forall j :: 0 <= j < |columns| ==>
         |columns[j].cells| == rows && Encodable(columns[j].cells, columns[j].t, columns[j].how, schema[j])
  }

  function EncodeColumns(columns: seq<Source>): Result<seq<Encoded>>
    requires forall j :: 0 <= j < |columns| ==>
               Converts(columns[j].t.oid, columns[j].how)
                 && WellSized(columns[j].cells, columns[j].t.oid, columns[j].how)
  {
    if columns == [] then Success([])
    else
      var first :- EncodeColumn(columns[0].cells, columns[0].t, columns[0].how);
      var rest :- EncodeColumns(columns[1..]);
      Success([first] + rest)
  }

  function TypesOf(columns: seq<Source>): (types: seq<ColumnType>)
    ensures |types| == |columns|
  {
    seq(|columns|, j requires 0 <= j < |columns| => columns[j].t)
  }

  /** The payload of one row range. */
  function EncodeBatch(columns: seq<Source>, rows: nat): Result<Bytes>
    requires forall j :: 0 <= j < |columns| ==>
               && WellTyped(columns[j].t)
               && Converts(columns[j].t.oid, columns[j].how)
                 && WellSized(columns[j].cells, columns[j].t.oid, columns[j].how)
  {
    var encoded :- EncodeColumns(columns);
    EncodedCount(columns);
    Assemble(rows, TypesOf(columns), encoded)
  }

  lemma {:induction false} EncodedCount(columns: seq<Source>)
    requires forall j :: 0 <= j < |columns| ==>
               Converts(columns[j].t.oid, columns[j].how)
                 && WellSized(columns[j].cells, columns[j].t.oid, columns[j].how)
    requires EncodeColumns(columns).Success?
    ensures |EncodeColumns(columns).value| == |columns|
    ensures forall j :: 0 <= j < |columns| ==>
              EncodeColumn(columns[j].cells, columns[j].t, columns[j].how) == Success(EncodeColumns(columns).value[j])
  {
    hide EncodeColumn, Converts, WellSized;
    if columns != [] {
      EncodedCount(columns[1..]);
      forall j | 0 <= j < |columns|
        ensures EncodeColumn(columns[j].cells, columns[j].t, columns[j].how) == Success(EncodeColumns(columns).value[j])
      {
        if j > 0 { assert columns[j] == columns[1..][j - 1]; }
      }
    }
  }

  ghost predicate ViewReadsBack(view: seq<Column>, columns: seq<Source>)
    requires |view| == |columns|
  {
    forall j :: 0 <= j < |columns| ==> ReadsBack(view[j], columns[j].cells, columns[j].how)
  }

  /** The vectors of a batch parse one after the other, leaving what follows them. */
  lemma {:induction false} ColumnsRoundTrip(vectors: seq<Bytes>, columns: seq<Source>, rows: nat,
      schema: seq<Substrait>, rest: Bytes)
    requires Encodables(columns, rows, schema) && |vectors| == |columns|
    requires forall j :: 0 <= j < |columns| ==>
               var r := EncodeColumn(columns[j].cells, columns[j].t, columns[j].how);
               && r.Success? && Framable(FlatVector(rows, columns[j].t, r.value))
               && vectors[j] == VectorBytes(FlatVector(rows, columns[j].t, r.value)) && |vectors[j]| <= MAX_U32
    ensures var r := ParseColumns(AllSized(vectors) + rest, rows, schema);
            && r.Success? && r.value.1 == rest && |r.value.0| == |columns|
            && ViewReadsBack(r.value.0, columns)
    decreases |schema|
  {
    hide EncodeColumn, ParseColumn, VectorBytes, TakeSized, Sized, Encodable, WellTyped, Framable, ReadsBack;
    if schema == [] {
      assert AllSized(vectors) + rest == rest;
    } else {
      var tail := AllSized(vectors[1..]) + rest;
      assert AllSized(vectors) + rest == Sized(vectors[0]) + tail;
      TakeSizedAppend(vectors[0], tail);
      ColumnRoundTrip(columns[0].cells, columns[0].t, columns[0].how, schema[0]);
      ColumnsRoundTrip(vectors[1..], columns[1..], rows, schema[1..], rest);
      var view := ParseColumns(AllSized(vectors) + rest, rows, schema).value.0;
      forall j | 0 <= j < |columns|
        ensures ReadsBack(view[j], columns[j].cells, columns[j].how)
      {
        if j > 0 { assert columns[1..][j - 1] == columns[j] && view[1..][j - 1] == view[j]; }
      }
    }
  }

  lemma EnvelopeOfBatch(rows: nat, vectors: seq<Bytes>, schema: seq<Substrait>, columns: seq<Column>)
    requires 1 <= rows <= MAX_U32 && |vectors| == |schema| <= MAX_I32
    requires ParseColumns(AllSized(vectors) + (LE(4, 0) + (LE(4, 0) + (LE(4, 0) + LE(4, 0)))), rows, schema)
             == Success((columns, LE(4, 0) + (LE(4, 0) + (LE(4, 0) + LE(4, 0)))))
    ensures ParseBatch(BatchBytes(rows, vectors), schema) == Success(View(rows, columns))
  {
    hide LE, FromLE, TakeLE, AllSized, ParseColumns, Take;
    var end := LE(4, 0) + (LE(4, 0) + LE(4, 0));
    Pow256Values();
    TakeLEAppend(8, rows, LE(4, |vectors|) + (AllSized(vectors) + (LE(4, 0) + end)));
    Take4(|vectors|, AllSized(vectors) + (LE(4, 0) + end));
    Take4(0, end);
    assert SkipAttributes(end, 0) == Success(end);
    assert end == LE(4, 0) + LE(4, 0) + LE(4, 0);
  }

  /**
   The batch codec round trip. Whenever the encoder produces a payload for a non-empty row range of
   columns whose types both sides support, the decoder accepts it, with the same row count and
   columns, and the scan recovers the nullness and the value of every row of every column.
   */
  lemma BatchRoundTrip(columns: seq<Source>, rows: nat, schema: seq<Substrait>)
    requires 1 <= rows && Encodables(columns, rows, schema) && columns != []
    requires EncodeBatch(columns, rows).Success?
    ensures var r := ParseBatch(EncodeBatch(columns, rows).value, schema);
            && r.Success? && r.value.rows == rows && |r.value.columns| == |columns|
            && ViewReadsBack(r.value.columns, columns)
  {
    hide EncodeColumn, VectorBytes, ParseColumns, ReadsBack, BatchBytes, ParseBatch, LE, AllSized, WellTyped,
      Converts, WellSized, Matches, Framable, EncodeColumns;
    var encoded := EncodeColumns(columns).value;
    EncodedCount(columns);
    var vectors := VectorsOf(rows, TypesOf(columns), encoded);
    var end := LE(4, 0) + (LE(4, 0) + (LE(4, 0) + LE(4, 0)));
    assert rows <= MAX_U32 by { assert |columns[0].cells| == rows; }
    ColumnsRoundTrip(vectors, columns, rows, schema, end);
    EnvelopeOfBatch(rows, vectors, schema, ParseColumns(AllSized(vectors) + end, rows, schema).value.0);
  }
}
