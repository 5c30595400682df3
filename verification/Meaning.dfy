/**
 What the types and conversions mean: which source types a MatrixOne column can hold and which Substrait
 types it can be read as, by kind, width and scale; that every conversion keeps the value; and exactly
 when a column cannot be encoded.
 */
module Meaning {
  import opened Bytes
  import opened NullBitmap
  import opened Varlena
  import opened NativeBatch
  import opened CodecRoundTrip
  import HostColumn
  import HostLayout

  datatype Kind = Boolean | Integer | Unsigned | Floating | Decimals(scale: int) | Days | Texts | Unknown

  function SourceKind(c: HostColumn.Column): Kind {
    match c.typeId
    case BOOL8 => Boolean
    case INT8 | INT16 | INT32 | INT64 => Integer
    case FLOAT32 | FLOAT64 => Floating
    case DECIMAL32 | DECIMAL64 | DECIMAL128 => Decimals(-c.scale)
    case TIMESTAMP_DAYS => Days
    case STRING => Texts
    case OTHER => Unknown
  }

  function TargetKind(oid: nat, scale: int): Kind {
    if oid == T_BOOL then Boolean
    else if oid == T_INT8 || oid == T_INT16 || oid == T_INT32 || oid == T_INT64 then Integer
    else if oid == T_UINT32 then Unsigned
    else if oid == T_FLOAT32 || oid == T_FLOAT64 then Floating
    else if oid == T_DECIMAL64 || oid == T_DECIMAL128 then Decimals(scale)
    else if oid == T_DATE then Days
    else if oid == T_CHAR || oid == T_VARCHAR then Texts
    else Unknown
  }

  /**
   A target holds a source of its own kind, of equal width, or for decimals of equal scale and no
   greater width of the same family; an unsigned 32-bit integer comes as a 64-bit one, a decimal also
   as a double, and a wide decimal without scale also as a 64-bit integer.
   */
  predicate Holds(c: HostColumn.Column, t: ColumnType) {
    var source, target := SourceKind(c), TargetKind(t.oid, t.scale);
    var from, to := HostLayout.WidthOf(c.typeId), TypeSize(t.oid);
    match target
    case Boolean => source.Boolean?
    case Integer => source.Integer? && from == to
    case Unsigned => source.Integer? && from == 8
    case Floating => source.Floating? && from == to
    case Decimals(scale) =>
      || (source == target && (if to == 16 then from == 16 else from <= 8))
      || (source.Floating? && from == 8)
      || (source.Integer? && from == 8 && to == 16 && scale == 0)
    case Days => source.Days?
    case Texts => source.Texts?
    case Unknown => false
  }

  /** The host encoder takes exactly the columns that the target can hold. */
  lemma MatchesExactly(c: HostColumn.Column, t: ColumnType)
    ensures HostColumn.SourceMatches(c, t) <==> Holds(c, t)
  {
  }

  function SubstraitKind(e: Substrait): Kind {
    match e
    case Bool => Boolean
    case I8 | I16 | I32 | I64 => Integer
    case Fp32 | Fp64 => Floating
    case String | Varchar => Texts
    case Date => Days
    case Decimal(_, scale) => Decimals(scale)
    case Other => Unknown
  }

  function SubstraitWidth(e: Substrait): nat {
    match e
    case Bool | I8 => 1
    case I16 => 2
    case I32 | Fp32 | Date => 4
    case I64 | Fp64 => 8
    case String | Varchar => 24
    case Decimal(precision, _) => if precision <= 18 then 8 else 16
    case Other => 0
  }

  /** The decoder takes exactly the vectors of the kind, width and, for decimals, precision and scale of the schema. */
  lemma DecodesExactly(e: Substrait, actual: MOType)
    ensures Matches(e, actual) <==>
              && !SubstraitKind(e).Unknown? && TargetKind(actual.oid, actual.scale) == SubstraitKind(e)
              && TypeSize(actual.oid) == SubstraitWidth(e) && (e.Decimal? ==> actual.width == e.precision)
  {
  }

  // ---------------------------------------------------------------------------
  // Values
  // ---------------------------------------------------------------------------

  /** A two's-complement integer of any width. */
  function Signed(b: Bytes): int {
    AsSigned(FromLE(b), Pow256(|b|))
  }

  /** The integer a MatrixOne element stands for; a date counts days since 1970. */
  function TargetValue(oid: nat, e: Bytes): int {
    if oid == T_UINT32 then FromLE(e)
    else if oid == T_DATE then Signed(e) - 719162
    else Signed(e)
  }

  /** Whether the target has a place for the value of a source element. */
  predicate Fits(c: HostColumn.Column, t: ColumnType, b: Bytes) {
    if HostColumn.RoundsDouble(c, t) then
      && b in c.rounding
      && 0 - Pow256(TypeSize(t.oid)) <= 2 * c.rounding[b] < Pow256(TypeSize(t.oid))
    else if t.oid == T_UINT32 then 0 <= Signed(b) < U32
    else if t.oid == T_DATE then Signed(b) + 719162 <= MAX_I32
    else true
  }

  /**
   A conversion fails exactly if the target has no place for the value, and otherwise keeps it: the
   target element stands for the integer of the source element, for the rounded value of a double, and
   booleans, floats and texts are the same bytes.
   */
  lemma ConversionKeepsValue(c: HostColumn.Column, t: ColumnType, b: Bytes)
    requires HostColumn.SourceMatches(c, t) && (c.typeId.STRING? || |b| == HostLayout.WidthOf(c.typeId))
    ensures var how := HostColumn.HowFor(c, t);
            && (how.ShiftDate? || how.WidenI32? ==> |b| == 4)
            && (how.WidenI64? || how.NarrowToU32? || how.RoundDouble? ==> |b| == 8)
            && (Convert(how, b).Success? <==> Fits(c, t, b))
            && (Convert(how, b).Success? ==>
                  var e := Convert(how, b).value;
                  if HostColumn.RoundsDouble(c, t) then TargetValue(t.oid, e) == c.rounding[b]
                  else if SourceKind(c).Floating? || SourceKind(c).Texts? || SourceKind(c).Boolean? then e == b
                  else TargetValue(t.oid, e) == Signed(b))
  {
    var how := HostColumn.HowFor(c, t);
    Pow256Values();
    FromLEBound(b);
    hide LE, FromLE;
    match how {
      case Copy =>
      case NarrowToU32 => if Fits(c, t, b) { LE4(Signed(b)); }
      case ShiftDate => if Fits(c, t, b) { DateValue(b); }
      case WidenI32 => WideningKeepsValue(b);
      case WidenI64 => WideningKeepsValue(b);
      case RoundDouble(wide, rounded) => RoundingKeepsValue(wide, rounded, b);
    }
  }

  lemma DateValue(b: Bytes)
    requires |b| == 4 && Signed(b) + 719162 <= MAX_I32
    ensures Convert(ShiftDate, b).Success? && |Convert(ShiftDate, b).value| == 4
    ensures Signed(Convert(ShiftDate, b).value) == Signed(b) + 719162
  {
    Pow256Values();
    FromLEBound(b);
    var v := Signed(b) + 719162;
    SignedRoundTrip(v, U32);
    LE4(AsUnsigned(v, U32));
  }

  // ---------------------------------------------------------------------------
  // Failure
  // ---------------------------------------------------------------------------

  /** Some value of the column cannot be converted. */
  predicate SomeFails(cells: seq<Cell>, oid: nat, how: Conversion)
    requires Converts(oid, how) && WellSized(cells, oid, how) && !IsText(oid)
  {
    exists i :: 0 <= i < |cells| && cells[i].Value? && Convert(how, cells[i].bytes).Failure?
  }

  lemma {:induction false} DataFailsExactly(cells: seq<Cell>, oid: nat, how: Conversion)
    requires Converts(oid, how) && WellSized(cells, oid, how) && !IsText(oid)
    ensures FixedData(cells, oid, how).Failure? <==> SomeFails(cells, oid, how)
  {
    hide Convert, Converts;
    if cells != [] {
      var n := |cells| - 1;
      DataFailsExactly(cells[..n], oid, how);
      if SomeFails(cells[..n], oid, how) {
        var i :| 0 <= i < n && cells[..n][i].Value? && Convert(how, cells[..n][i].bytes).Failure?;
        assert cells[i].Value? && Convert(how, cells[i].bytes).Failure?;
      }
      if SomeFails(cells, oid, how) && FixedElement(oid, how, cells[n]).Success? {
        var i :| 0 <= i <= n && cells[i].Value? && Convert(how, cells[i].bytes).Failure?;
        assert i < n && cells[..n][i] == cells[i];
      }
    }
  }

  /** The lengths of the texts that do not fit their descriptor. */
  function LongLengths(cells: seq<Cell>): nat {
    if cells == [] then 0
    else
      var last := cells[|cells| - 1];
      LongLengths(cells[..|cells| - 1]) + if last.Value? && |last.bytes| > 23 then |last.bytes| else 0
  }

  lemma {:induction false} AreaIsLong(cells: seq<Cell>)
    ensures |Area(cells)| == LongLengths(cells)
  {
    if cells != [] { AreaIsLong(cells[..|cells| - 1]); }
  }

  /**
   A column cannot be encoded exactly if it is required and has a null row, or some value has no place
   in the target, or its texts longer than 23 bytes take more than 32 bits of area together.
   */
  lemma EncodingFailsExactly(cells: seq<Cell>, t: ColumnType, how: Conversion)
    requires Converts(t.oid, how) && WellSized(cells, t.oid, how)
    ensures EncodeColumn(cells, t, how).Failure? <==>
              || (t.notNullable && exists i :: 0 <= i < |cells| && cells[i].Null?)
              || (if IsText(t.oid) then LongLengths(cells) > 0xFFFF_FFFF else SomeFails(cells, t.oid, how))
  {
    hide FixedData, Area, Descriptors, EncodeNulls, LongLengths, SomeFails, Converts;
    if IsText(t.oid) { AreaIsLong(cells); } else { DataFailsExactly(cells, t.oid, how); }
  }
}
