/**
 The MatrixOne native batch: column vectors with a 16-byte type, fixed-width or varlena data, an
 overflow area and a null bitmap. The first half is what the result encoder writes, the second what
 the streamed-input decoder accepts and how the scan reads a row back.
 */
module NativeBatch {
  import opened Bytes
  import opened NullBitmap
  import opened Varlena

  const T_BOOL: nat := 10
  const T_INT8: nat := 20
  const T_INT16: nat := 21
  const T_INT32: nat := 22
  const T_INT64: nat := 23
  const T_UINT32: nat := 27
  const T_FLOAT32: nat := 30
  const T_FLOAT64: nat := 31
  const T_CHAR: nat := 40
  const T_VARCHAR: nat := 41
  const T_DATE: nat := 50
  const T_DECIMAL64: nat := 60
  const T_DECIMAL128: nat := 61

  const UNIX_EPOCH_DAYS: int := 719162
  const TYPE_BYTES: nat := 16

  predicate IsText(oid: nat) {
    oid == T_CHAR || oid == T_VARCHAR
  }

  /** Bytes of one element; a text element is its descriptor. Zero for an unsupported type. */
  function TypeSize(oid: nat): nat {
    if IsText(oid) then Varlena.SIZE
    else if oid == T_BOOL || oid == T_INT8 then 1
    else if oid == T_INT16 then 2
    else if oid == T_INT32 || oid == T_UINT32 || oid == T_FLOAT32 || oid == T_DATE then 4
    else if oid == T_INT64 || oid == T_FLOAT64 || oid == T_DECIMAL64 then 8
    else if oid == T_DECIMAL128 then 16
    else 0
  }

  /** A column of the result schema. */
  datatype ColumnType = ColumnType(oid: nat, width: int, scale: int, charset: nat, notNullable: bool)

  predicate WellTyped(t: ColumnType) {
    t.oid < 256 && t.charset < 256 && IsInt32(t.width) && IsInt32(t.scale) && TypeSize(t.oid) > 0
  }

  // ---------------------------------------------------------------------------
  // Encoding one column
  // ---------------------------------------------------------------------------

  /**
   How a non-null source element becomes a target element. `RoundDouble` carries what the platform's
   long double arithmetic makes of each 8-byte DOUBLE: the scaled and rounded integer, or nothing if
   the value is not finite or not below the decimal's magnitude limit.
   */
  datatype Conversion =
    | Copy | NarrowToU32 | ShiftDate | WidenI32 | WidenI64
    | RoundDouble(wide: bool, rounded: map<Bytes, int>)

  predicate Converts(oid: nat, how: Conversion) {
    match how
    case NarrowToU32 => oid == T_UINT32
    case ShiftDate => oid == T_DATE
    case WidenI32 => oid == T_DECIMAL64
    case WidenI64 => oid == T_DECIMAL128
    case RoundDouble(wide, _) => oid == if wide then T_DECIMAL128 else T_DECIMAL64
    case Copy => oid != T_UINT32 && oid != T_DATE && TypeSize(oid) > 0
  }

  function SourceSize(oid: nat, how: Conversion): nat {
    match how
    case Copy => TypeSize(oid)
    case ShiftDate | WidenI32 => 4
    case NarrowToU32 | WidenI64 | RoundDouble(_, _) => 8
  }

  function Int32Of(b: Bytes): int {
    AsSigned(FromLE(b), U32)
  }

  function Int64Of(b: Bytes): int {
    AsSigned(FromLE(b), U64)
  }

  function Convert(how: Conversion, b: Bytes): Result<Bytes>
    requires how.ShiftDate? || how.WidenI32? ==> |b| == 4
    requires how.WidenI64? || how.NarrowToU32? || how.RoundDouble? ==> |b| == 8
  {
    FromLEBound(b);
    Pow256Values();
    match how
    case Copy => Success(b)
    case NarrowToU32 =>
      if Int64Of(b) < 0 || Int64Of(b) > MAX_U32 then Failure else Success(LE(4, Int64Of(b)))
    case ShiftDate =>
      if Int32Of(b) > MAX_I32 - UNIX_EPOCH_DAYS then Failure
      else Success(LE(4, AsUnsigned(Int32Of(b) + UNIX_EPOCH_DAYS, U32)))
    case WidenI32 => Success(LE(8, AsUnsigned(Int32Of(b), U64)))
    case WidenI64 => Success(LE(16, AsUnsigned(Int64Of(b), U64 * U64)))
    case RoundDouble(wide, rounded) =>
      var modulus := if wide then U64 * U64 else U64;
      if b !in rounded || !(0 - modulus <= 2 * rounded[b] < modulus) then Failure
      else Success(LE(if wide then 16 else 8, AsUnsigned(rounded[b], modulus)))
  }

  /** Source cells of the width the conversion reads; text of any length. */
  predicate WellSized(cells: seq<Cell>, oid: nat, how: Conversion) {
    IsText(oid) || forall i :: 0 <= i < |cells| && cells[i].Value? ==> |cells[i].bytes| == SourceSize(oid, how)
  }

  function FixedElement(oid: nat, how: Conversion, c: Cell): Result<Bytes>
    requires Converts(oid, how) && !IsText(oid) && (c.Value? ==> |c.bytes| == SourceSize(oid, how))
  {
    if c.Null? then Success(Zeros(TypeSize(oid))) else Convert(how, c.bytes)
  }

  function FixedData(cells: seq<Cell>, oid: nat, how: Conversion): Result<Bytes>
    requires Converts(oid, how) && !IsText(oid) && WellSized(cells, oid, how)
  {
    if cells == [] then Success([])
    else
      var data :- FixedData(cells[..|cells| - 1], oid, how);
      var element :- FixedElement(oid, how, cells[|cells| - 1]);
      Success(data + element)
  }

  function NullsOf(cells: seq<Cell>): (nulls: seq<bool>)
    ensures |nulls| == |cells| && forall i :: 0 <= i < |cells| ==> nulls[i] == cells[i].Null?
  {
    seq(|cells|, i requires 0 <= i < |cells| => cells[i].Null?)
  }

  datatype Encoded = Encoded(data: Bytes, area: Bytes, nulls: Bytes)

  predicate HasNull(cells: seq<Cell>) {
    exists i :: 0 <= i < |cells| && cells[i].Null?
  }

  function EncodeColumn(cells: seq<Cell>, t: ColumnType, how: Conversion): Result<Encoded>
    requires Converts(t.oid, how) && WellSized(cells, t.oid, how)
  {
    if t.notNullable && HasNull(cells) then Failure
    else if IsText(t.oid) then
      var text :- EncodeText(cells);
      Success(Encoded(text.0, text.1, EncodeNulls(NullsOf(cells))))
    else
      var data :- FixedData(cells, t.oid, how);
      Success(Encoded(data, [], EncodeNulls(NullsOf(cells))))
  }

  // ---------------------------------------------------------------------------
  // Assembling the payload
  // ---------------------------------------------------------------------------

  function TypeBytes(t: ColumnType): (s: Bytes)
    requires WellTyped(t)
    ensures |s| == TYPE_BYTES
  {
    [t.oid, t.charset, if t.notNullable then 1 else 0, 0]
    + LE(4, TypeSize(t.oid)) + LE(4, AsUnsigned(t.width, U32)) + LE(4, AsUnsigned(t.scale, U32))
  }

  /** The fields of one vector as they lie on the wire. */
  datatype Vector = Vector(class_: byte, typeBytes: Bytes, rows: nat, data: Bytes, area: Bytes, nulls: Bytes,
    sorted: byte)

  predicate Framable(v: Vector) {
    |v.typeBytes| == TYPE_BYTES && v.rows <= MAX_U32 && |v.data| <= MAX_U32 && |v.area| <= MAX_U32
      && |v.nulls| <= MAX_U32
  }

  function Sized(s: Bytes): Bytes {
    LE(4, |s|) + s
  }

  function VectorBytes(v: Vector): Bytes {
    [v.class_] + (v.typeBytes + (LE(4, v.rows) + (Sized(v.data) + (Sized(v.area) + (Sized(v.nulls) + [v.sorted])))))
  }

  lemma VectorSize(v: Vector)
    requires Framable(v)
    ensures |VectorBytes(v)| == 34 + |v.data| + |v.area| + |v.nulls|
  {
  }

  function FlatVector(rows: nat, t: ColumnType, e: Encoded): Vector
    requires WellTyped(t)
  {
    Vector(0, TypeBytes(t), rows, e.data, e.area, e.nulls, 0)
  }

  function AllSized(parts: seq<Bytes>): Bytes {
    if parts == [] then [] else Sized(parts[0]) + AllSized(parts[1..])
  }

  /** The batch around its vectors; the four closing integers are the attribute count, extra, recursive and shuffle
   fields. */
  function BatchBytes(rows: nat, vectors: seq<Bytes>): Bytes {
    LE(8, rows) + (LE(4, |vectors|) + (AllSized(vectors) + (LE(4, 0) + (LE(4, 0) + (LE(4, 0) + LE(4, 0))))))
  }

  predicate AllFramable(rows: nat, types: seq<ColumnType>, columns: seq<Encoded>)
    requires |types| == |columns|
    requires forall i :: 0 <= i < |types| ==> WellTyped(types[i])
  {
    forall i :: 0 <= i < |columns| ==>
      && Framable(FlatVector(rows, types[i], columns[i]))
      && |VectorBytes(FlatVector(rows, types[i], columns[i]))| <= MAX_U32
  }

  function VectorsOf(rows: nat, types: seq<ColumnType>, columns: seq<Encoded>): (vs: seq<Bytes>)
    requires |types| == |columns|
    requires forall i :: 0 <= i < |types| ==> WellTyped(types[i])
    ensures |vs| == |columns|
  {
    seq(|columns|, i requires 0 <= i < |columns| => VectorBytes(FlatVector(rows, types[i], columns[i])))
  }

  function Assemble(rows: nat, types: seq<ColumnType>, columns: seq<Encoded>): Result<Bytes>
    requires |types| == |columns|
    requires forall i :: 0 <= i < |types| ==> WellTyped(types[i])
  {
    if AllFramable(rows, types, columns) then Success(BatchBytes(rows, VectorsOf(rows, types, columns))) else Failure
  }

  // ---------------------------------------------------------------------------
  // Decoding
  // ---------------------------------------------------------------------------

  datatype Substrait =
    | Bool | I8 | I16 | I32 | I64 | Fp32 | Fp64 | String | Varchar | Date
    | Decimal(precision: int, scale: int)
    | Other

  datatype MOType = MOType(oid: nat, width: int, scale: int)

  function TypeOf(s: Bytes): MOType
    requires |s| == TYPE_BYTES
  {
    MOType(s[0], Int32Of(s[8..12]), Int32Of(s[12..16]))
  }

  predicate Matches(expected: Substrait, actual: MOType) {
    match expected
    case Bool => actual.oid == T_BOOL
    case I8 => actual.oid == T_INT8
    case I16 => actual.oid == T_INT16
    case I32 => actual.oid == T_INT32
    case I64 => actual.oid == T_INT64
    case Fp32 => actual.oid == T_FLOAT32
    case Fp64 => actual.oid == T_FLOAT64
    case String | Varchar => IsText(actual.oid)
    case Date => actual.oid == T_DATE
    case Decimal(precision, scale) =>
      && (if precision <= 18 then actual.oid == T_DECIMAL64 else actual.oid == T_DECIMAL128)
      && actual.width == precision && actual.scale == scale
    case Other => false
  }

  function Take(s: Bytes, n: nat): Result<(Bytes, Bytes)> {
    if n > |s| then Failure else Success((s[..n], s[n..]))
  }

  function TakeLE(s: Bytes, n: nat): Result<(nat, Bytes)> {
    var (bytes, rest) :- Take(s, n);
    Success((FromLE(bytes), rest))
  }

  function TakeSized(s: Bytes): Result<(Bytes, Bytes)> {
    var (n, rest) :- TakeLE(s, 4);
    Take(rest, n)
  }

  /** The framing half of `parse_column`. */
  function SplitVector(s: Bytes): Result<Vector> {
    var (class_, s1) :- Take(s, 1);
    var (typeBytes, s2) :- Take(s1, TYPE_BYTES);
    var (rows, s3) :- TakeLE(s2, 4);
    var (data, s4) :- TakeSized(s3);
    var (area, s5) :- TakeSized(s4);
    var (nulls, s6) :- TakeSized(s5);
    var (sorted, s7) :- Take(s6, 1);
    if s7 != [] then Failure else Success(Vector(class_[0], typeBytes, rows, data, area, nulls, sorted[0]))
  }

  datatype Column = Column(constant: bool, type_: MOType, rows: nat, data: Bytes, area: Bytes, mask: Mask, sorted: bool)

  function PhysicalRows(constant: bool, data: Bytes, rows: nat): nat {
    if constant then (if data == [] then 0 else 1) else rows
  }

  /** Element `row` of a vector with this element size. */
  function Element(data: Bytes, size: nat, row: nat): (e: Bytes)
    requires size * row + size <= |data|
    ensures |e| == size
  {
    data[size * row .. size * row + size]
  }

  predicate DescriptorsInArea(data: Bytes, area: Bytes, rows: nat)
    requires |data| == Varlena.SIZE * rows
  {
    forall row {:trigger Element(data, Varlena.SIZE, row)} :: 0 <= row < rows ==>
      InArea(Element(data, Varlena.SIZE, row), area)
  }

  /** The validating half of `parse_column`. */
  function CheckVector(v: Vector, rows: nat, expected: Substrait): Result<Column>
    requires |v.typeBytes| == TYPE_BYTES
  {
    var type_ := TypeOf(v.typeBytes);
    var constant := v.class_ == 1;
    var physical := PhysicalRows(constant, v.data, v.rows);
    if v.class_ > 1 || v.sorted > 1 || !Matches(expected, type_) || v.rows != rows then Failure
    else if |v.data| != physical * TypeSize(type_.oid) || (!IsText(type_.oid) && v.area != []) then Failure
    else
      var mask :- ParseNulls(v.nulls, rows);
      if IsText(type_.oid) && !DescriptorsInArea(v.data, v.area, physical) then Failure
      else Success(Column(constant, type_, v.rows, v.data, v.area, mask, v.sorted == 1))
  }

  function ParseColumn(s: Bytes, rows: nat, expected: Substrait): Result<Column> {
    var v :- SplitVector(s);
    if |v.typeBytes| != TYPE_BYTES then Failure else CheckVector(v, rows, expected)
  }

  datatype View = View(rows: nat, columns: seq<Column>)

  function ParseColumns(s: Bytes, rows: nat, schema: seq<Substrait>): Result<(seq<Column>, Bytes)>
    decreases |schema|
  {
    if schema == [] then Success(([], s))
    else
      var (vector, s1) :- TakeSized(s);
      var column :- ParseColumn(vector, rows, schema[0]);
      var (columns, s2) :- ParseColumns(s1, rows, schema[1..]);
      Success(([column] + columns, s2))
  }

  function SkipAttributes(s: Bytes, count: nat): Result<Bytes> {
    if count == 0 then Success(s)
    else
      var (size, s1) :- TakeLE(s, 4);
      if AsSigned(size, U32) < 0 then Failure
      else
        var (_, s2) :- Take(s1, size);
        SkipAttributes(s2, count - 1)
  }

  /** What must follow the vectors: no attribute names or one per vector, then three zero fields and nothing else. */
  predicate ValidTail(s: Bytes, vectors: nat) {
    var count := TakeLE(s, 4);
    && count.Success?
    && (AsSigned(count.value.0, U32) == 0 || AsSigned(count.value.0, U32) == vectors)
    && SkipAttributes(count.value.1, count.value.0) == Success(LE(4, 0) + LE(4, 0) + LE(4, 0))
  }

  /** `native_batch_view`. */
  function ParseBatch(s: Bytes, schema: seq<Substrait>): Result<View> {
    var (unsignedRows, s1) :- TakeLE(s, 8);
    var rows := AsSigned(unsignedRows, U64);
    if rows <= 0 || rows > MAX_U32 then Failure
    else
      var (vectors, s2) :- TakeLE(s1, 4);
      if AsSigned(vectors, U32) != |schema| then Failure
      else
        var (columns, s3) :- ParseColumns(s2, rows, schema);
        if ValidTail(s3, |schema|) then Success(View(rows, columns)) else Failure
  }

  // ---------------------------------------------------------------------------
  // Reading a row back
  // ---------------------------------------------------------------------------

  predicate DateInRange(e: Bytes) {
    Int32Of(e) - UNIX_EPOCH_DAYS >= MIN_I32
  }

  /** What the scan stores for one physical element; `Failure` is a signed overflow of the date subtraction. */
  function ReadElement(oid: nat, e: Bytes, area: Bytes): Result<Bytes>
    requires |e| == TypeSize(oid)
    requires IsText(oid) ==> InArea(e, area)
  {
    if IsText(oid) then Success(Text(e, area))
    else if oid == T_DATE then
      FromLEBound(e);
      Pow256Values();
      if DateInRange(e) then Success(LE(4, AsUnsigned(Int32Of(e) - UNIX_EPOCH_DAYS, U32))) else Failure
    else Success(e)
  }

  /** What the decoder's acceptance of a column establishes. */
  predicate ValidColumn(c: Column) {
    && 1 <= c.rows <= MAX_U32 && TypeSize(c.type_.oid) > 0
    && |c.data| == PhysicalRows(c.constant, c.data, c.rows) * TypeSize(c.type_.oid)
    && (IsText(c.type_.oid) ==> DescriptorsInArea(c.data, c.area, PhysicalRows(c.constant, c.data, c.rows)))
    && (c.mask.words == [] || 8 * WordCount(c.rows) <= |c.mask.words|)
    && c.mask.count == CountTrue(NullBits(c.mask.words, c.rows))
  }

  function ElementAt(c: Column, row: nat): (e: Bytes)
    requires ValidColumn(c) && row < PhysicalRows(c.constant, c.data, c.rows)
    ensures |e| == TypeSize(c.type_.oid)
    ensures IsText(c.type_.oid) ==> InArea(e, c.area)
  {
    var size := TypeSize(c.type_.oid);
    assert size * row + size <= size * PhysicalRows(c.constant, c.data, c.rows);
    Element(c.data, TypeSize(c.type_.oid), row)
  }

  /** Whether row `row` of the batch is null to the scan: a constant vector answers for all its rows with row 0. */
  predicate NullAt(c: Column, row: nat) {
    if c.constant then c.data == [] || IsNull(c.mask.words, 0) else IsNull(c.mask.words, row)
  }

  /** The cell the scan emits for one row. */
  function CellAt(c: Column, row: nat): Result<Cell>
    requires ValidColumn(c) && row < c.rows
  {
    if NullAt(c, row) then Success(Null)
    else
      var bytes :- ReadElement(c.type_.oid, ElementAt(c, if c.constant then 0 else row), c.area);
      Success(Value(bytes))
  }

  /** The date loop of `fill_column` converts null rows too; a constant vector has one element, unless it is null. */
  predicate DatesInRange(c: Column, offset: nat, count: nat)
    requires ValidColumn(c) && offset + count <= c.rows
  {
    c.type_.oid == T_DATE ==>
      if c.constant then NullAt(c, 0) || DateInRange(ElementAt(c, 0))
      else forall row {:trigger ElementAt(c, row)} :: offset <= row < offset + count ==> DateInRange(ElementAt(c, row))
  }
}
