/**
 The decoder as the source runs it: a cursor whose position advances, checks interleaved with reads,
 and loops over words, descriptors, columns and attributes. Each method is proved to compute the
 corresponding function of module `NativeBatch`.
 */
module BatchReader {
  import opened Bytes
  import opened NullBitmap
  import opened Varlena
  import opened NativeBatch
  import CodecRoundTrip

  class Cursor {
    const bytes: Bytes
    var position: nat

    ghost predicate Valid()
      reads this
    {
      position <= |bytes|
    }

    ghost function Rest(): Bytes
      reads this
      requires Valid()
    {
      bytes[position..]
    }

    constructor (bytes: Bytes)
      ensures Valid() && this.bytes == bytes && Rest() == bytes
    {
      this.bytes := bytes;
      position := 0;
    }

    method Read(size: nat) returns (r: Result<Bytes>)
      requires Valid()
      modifies this`position
      ensures Valid()
      ensures Take(old(Rest()), size) == if r.Success? then Success((r.value, Rest())) else Failure
      ensures r.Success? ==> |r.value| == size
    {
      if size > |bytes| - position {
        return Failure;
      }
      var value := bytes[position .. position + size];
      assert value == Rest()[..size] && bytes[position + size..] == Rest()[size..];
      position := position + size;
      return Success(value);
    }

    /** `u32` and `u64`: accumulate `width` bytes, least significant first. */
    method Unsigned(width: nat) returns (r: Result<nat>)
      requires Valid()
      modifies this`position
      ensures Valid()
      ensures TakeLE(old(Rest()), width) == if r.Success? then Success((r.value, Rest())) else Failure
    {
      var read := Read(width);
      if read.Failure? {
        return Failure;
      }
      var value := Accumulate(read.value);
      return Success(value);
    }

    static method Accumulate(s: Bytes) returns (value: nat)
      ensures value == FromLE(s)
    {
      var unit: nat := 1;
      value := 0;
      for i := 0 to |s|
        invariant value == FromLE(s[..i]) && unit == Pow256(i)
      {
        FromLEAppend(s[..i], s[i]);
        assert s[..i + 1] == s[..i] + [s[i]];
        value := value + s[i] * unit;
        unit := unit * 256;
      }
      assert s[..|s|] == s;
    }

    /** `read(u32())`. */
    method ReadSized() returns (r: Result<Bytes>)
      requires Valid()
      modifies this`position
      ensures Valid()
      ensures TakeSized(old(Rest())) == if r.Success? then Success((r.value, Rest())) else Failure
    {
      var size := Unsigned(4);
      if size.Failure? {
        return Failure;
      }
      r := Read(size.value);
    }

    predicate Done()
      reads this
    {
      position == |bytes|
    }
  }

  /** The null half of `parse_column`. */
  method DecodeNulls(nulls: Bytes, rows: nat) returns (r: Result<Mask>)
    ensures r == ParseNulls(nulls, rows)
  {
    if nulls == [] {
      return Success(NO_NULLS);
    }
    if |nulls| < HEADER || !GoodHeader(nulls, rows) {
      return Failure;
    }
    var words := nulls[HEADER..];
    var count := AsSigned(FromLE(nulls[0..8]), U64);
    var ok := CheckWords(words, rows, count);
    return if ok then Success(Mask(count, words)) else Failure;
  }

  /** The descriptor loop of `parse_column`. */
  method CheckDescriptors(data: Bytes, area: Bytes, rows: nat) returns (ok: bool)
    requires |data| == Varlena.SIZE * rows
    ensures ok == DescriptorsInArea(data, area, rows)
  {
    hide InArea;
    for row := 0 to rows
      invariant forall k {:trigger Element(data, Varlena.SIZE, k)} :: 0 <= k < row ==>
                InArea(Element(data, Varlena.SIZE, k), area)
    {
      if !InArea(Element(data, Varlena.SIZE, row), area) {
        return false;
      }
    }
    ok := true;
  }

  /** The checks of `parse_column` that follow the framing. */
  method CheckColumn(v: Vector, rows: nat, expected: Substrait) returns (r: Result<Column>)
    requires |v.typeBytes| == TYPE_BYTES
    ensures r == CheckVector(v, rows, expected)
  {
    hide InArea, ParseNulls, FromLE, Matches, DescriptorsInArea;
    var type_ := TypeOf(v.typeBytes);
    var constant := v.class_ == 1;
    var physical := PhysicalRows(constant, v.data, v.rows);
    if v.class_ > 1 || v.sorted > 1 || !Matches(expected, type_) || v.rows != rows {
      return Failure;
    }
    if |v.data| != physical * TypeSize(type_.oid) || (!IsText(type_.oid) && v.area != []) {
      return Failure;
    }
    var mask := DecodeNulls(v.nulls, rows);
    if mask.Failure? {
      return Failure;
    }
    if IsText(type_.oid) {
      var ok := CheckDescriptors(v.data, v.area, physical);
      if !ok {
        return Failure;
      }
    }
    return Success(Column(constant, type_, v.rows, v.data, v.area, mask.value, v.sorted == 1));
  }

  method DecodeColumn(s: Bytes, rows: nat, expected: Substrait) returns (r: Result<Column>)
    ensures r == ParseColumn(s, rows, expected)
  {
    hide Take, TakeSized, TakeLE, CheckVector, FromLE;
    var input := new Cursor(s);
    var class_ := input.Read(1);
    if class_.Failure? { return Failure; }
    var typeBytes := input.Read(TYPE_BYTES);
    if typeBytes.Failure? { return Failure; }
    var logicalRows := input.Unsigned(4);
    if logicalRows.Failure? { return Failure; }
    var data := input.ReadSized();
    if data.Failure? { return Failure; }
    var area := input.ReadSized();
    if area.Failure? { return Failure; }
    var nulls := input.ReadSized();
    if nulls.Failure? { return Failure; }
    var sorted := input.Read(1);
    if sorted.Failure? { return Failure; }
    if !input.Done() { return Failure; }
    r := CheckColumn(
      Vector(class_.value[0], typeBytes.value, logicalRows.value, data.value, area.value, nulls.value, sorted.value[0]),
      rows, expected);
  }

  /** The columns already decoded, put before the ones still to be parsed. */
  function Prepend(done: seq<Column>, rest: Result<(seq<Column>, Bytes)>): Result<(seq<Column>, Bytes)> {
    match rest
    case Success((columns, s)) => Success((done + columns, s))
    case Failure => Failure
  }

  lemma PrependNothing(rest: Result<(seq<Column>, Bytes)>)
    ensures Prepend([], rest) == rest
  {
    if rest.Success? { assert [] + rest.value.0 == rest.value.0; }
  }

  method DecodeColumns(input: Cursor, rows: nat, schema: seq<Substrait>) returns (r: Result<seq<Column>>)
    requires input.Valid()
    modifies input`position
    ensures input.Valid()
    ensures ParseColumns(old(input.Rest()), rows, schema) == if r.Success? then Success((r.value, input.Rest()))
            else Failure
  {
    hide TakeSized, ParseColumn;
    var columns: seq<Column> := [];
    assert schema[0..] == schema;
    PrependNothing(ParseColumns(input.Rest(), rows, schema));
    for j := 0 to |schema|
      invariant input.Valid()
      invariant ParseColumns(old(input.Rest()), rows, schema)
             == Prepend(columns, ParseColumns(input.Rest(), rows, schema[j..]))
    {
      assert schema[j..][1..] == schema[j + 1..];
      var vector := input.ReadSized();
      if vector.Failure? {
        return Failure;
      }
      var column := DecodeColumn(vector.value, rows, schema[j]);
      if column.Failure? {
        return Failure;
      }
      ghost var rest := ParseColumns(input.Rest(), rows, schema[j + 1..]);
      assert rest.Success? ==> columns + ([column.value] + rest.value.0) == columns + [column.value] + rest.value.0;
      columns := columns + [column.value];
    }
    assert columns + [] == columns;
    return Success(columns);
  }

  method SkipAttributeNames(input: Cursor, count: nat) returns (ok: bool)
    requires input.Valid()
    modifies input`position
    ensures input.Valid()
    ensures SkipAttributes(old(input.Rest()), count) == if ok then Success(input.Rest()) else Failure
  {
    for i := 0 to count
      invariant input.Valid()
      invariant SkipAttributes(old(input.Rest()), count) == SkipAttributes(input.Rest(), count - i)
    {
      hide TakeLE, Take;
      var size := input.Unsigned(4);
      if size.Failure? || AsSigned(size.value, U32) < 0 {
        return false;
      }
      var name := input.Read(size.value);
      if name.Failure? {
        return false;
      }
    }
    ok := true;
  }

  lemma ClosingZeros(s: Bytes)
    ensures s == LE(4, 0) + LE(4, 0) + LE(4, 0) <==>
              var a := TakeLE(s, 4);
              a.Success? && a.value.0 == 0 &&
              var b := TakeLE(a.value.1, 4);
              b.Success? && b.value.0 == 0 &&
              var c := TakeLE(b.value.1, 4);
              c.Success? && c.value.0 == 0 && c.value.1 == []
  {
    hide LE, FromLE, TakeLE;
    var z := LE(4, 0);
    if s == z + z + z {
      assert s == z + (z + (z + []));
      CodecRoundTrip.Take4(0, z + (z + []));
      CodecRoundTrip.Take4(0, z + []);
      CodecRoundTrip.Take4(0, []);
    }
    var a := TakeLE(s, 4);
    if a.Success? {
      CodecRoundTrip.TakeLESplits(s, 4);
      var b := TakeLE(a.value.1, 4);
      if b.Success? {
        CodecRoundTrip.TakeLESplits(a.value.1, 4);
        if TakeLE(b.value.1, 4).Success? { CodecRoundTrip.TakeLESplits(b.value.1, 4); }
      }
    }
  }

  method DecodeTail(input: Cursor, vectors: nat) returns (ok: bool)
    requires input.Valid()
    modifies input`position
    ensures ok == ValidTail(old(input.Rest()), vectors)
  {
    hide Take, TakeLE, FromLE, LE, SkipAttributes;
    var attributes := input.Unsigned(4);
    if attributes.Failure? { return false; }
    if AsSigned(attributes.value, U32) != 0 && AsSigned(attributes.value, U32) != vectors { return false; }
    ok := SkipAttributeNames(input, attributes.value);
    if !ok { return false; }
    ClosingZeros(input.Rest());
    var extra := input.Unsigned(4);
    if extra.Failure? || extra.value != 0 { return false; }
    var recursive := input.Unsigned(4);
    if recursive.Failure? || recursive.value != 0 { return false; }
    var shuffle := input.Unsigned(4);
    return shuffle.Success? && shuffle.value == 0 && input.Done();
  }

  method DecodeBatch(s: Bytes, schema: seq<Substrait>) returns (r: Result<View>)
    ensures r == ParseBatch(s, schema)
  {
    hide Take, TakeLE, FromLE, ParseColumns, ValidTail;
    var input := new Cursor(s);
    var unsignedRows := input.Unsigned(8);
    if unsignedRows.Failure? { return Failure; }
    var rows := AsSigned(unsignedRows.value, U64);
    if rows <= 0 || rows > MAX_U32 { return Failure; }
    var vectors := input.Unsigned(4);
    if vectors.Failure? || AsSigned(vectors.value, U32) != |schema| { return Failure; }
    var columns := DecodeColumns(input, rows, schema);
    if columns.Failure? { return Failure; }
    var ok := DecodeTail(input, |schema|);
    return if ok then Success(View(rows, columns.value)) else Failure;
  }
}
