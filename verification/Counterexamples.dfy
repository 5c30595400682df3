/** Concrete inputs on which a plausible property of the code fails; the exact conditions are stated beside the
 properties. */
module Counterexamples {
  import opened Bytes
  import opened NullBitmap
  import opened Varlena
  import opened Wire
  import NativeBatch
  import CodecRoundTrip
  import HostColumn
  import opened HostTable
  import ChunkEncoder
  import Envelope
  import ExecuteRequest
  import Identities

  // ---------------------------------------------------------------------------
  // A null text row is charged but not encoded
  // ---------------------------------------------------------------------------

  const VARCHAR := NativeBatch.ColumnType(NativeBatch.T_VARCHAR, 0, 0, 0, false)

  /** One VARCHAR column: the mask byte, the offsets 0 and 24, and 24 characters. */
  const MEMORY: Bytes := [0, 0, 0, 0, 0, 24, 0, 0, 0] + Zeros(24)

  const NAMES := HostColumn.Column(
    HostColumn.STRING, 0, 1, true, 0, 1, true, 9, 24, [HostColumn.Offsets(HostColumn.INT32, true, 1, 8)], map[])

  const NULL_TEXT := Table([NAMES], [VARCHAR], MEMORY, 1)

  lemma RowIsNull()
    ensures HostColumn.NullRows(NAMES, MEMORY, 0, 1) == Success([true])
  {
    assert MEMORY[0..1] == [0];
    assert !Bit(0, 0);
    assert HostColumn.RowIsNull(NAMES, MEMORY, 0) == Success(true);
    assert HostColumn.NullRows(NAMES, MEMORY, 0, 0) == Success([]);
    assert [] + [true] == [true];
  }

  lemma SpanIsLong()
    ensures HostColumn.Span(NAMES, MEMORY, 0) == Success((0, 24))
  {
    assert MEMORY[1..5] == [0, 0, 0, 0] && MEMORY[5..9] == [24, 0, 0, 0];
    FourBytes(0);
    FourBytes(24);
    assert HostColumn.OffsetAt(NAMES, MEMORY, 0) == Success(0);
    assert HostColumn.OffsetAt(NAMES, MEMORY, 1) == Success(24);
  }

  lemma FourBytes(b: byte)
    ensures FromLE([b, 0, 0, 0]) == b
  {
    assert FromLE([0]) == 0;
    assert [0, 0][1..] == [0] && [0, 0, 0][1..] == [0, 0] && [b, 0, 0, 0][1..] == [0, 0, 0];
    assert FromLE([0, 0]) == 0;
    assert FromLE([0, 0, 0]) == 0;
  }

  lemma CellIsNull()
    ensures HostColumn.HostCells(NAMES, MEMORY, VARCHAR, 0, 1) == Success([Null])
  {
    RowIsNull();
    hide HostColumn.NullRows;
    assert [true][..0] == [];
    assert HostColumn.CellsOf(NAMES, MEMORY, VARCHAR, 0, []) == Success([]);
    assert [] + [Null] == [Null];
    assert HostColumn.CellsOf(NAMES, MEMORY, VARCHAR, 0, [true]) == Success([Null]);
  }

  lemma ColumnIsEncoded()
    ensures HostColumn.EncodeHost(NAMES, MEMORY, VARCHAR, 0, 1).Success?
  {
    hide HostColumn.HostCells, EncodeNulls, Descriptors;
    CellIsNull();
    HostColumn.HostCellsShape(NAMES, MEMORY, VARCHAR, 0, 1);
    assert [Null][..0] == [];
    assert Area([]) == [];
    assert Area([Null]) == [];
  }

  lemma ColumnIsMeasured()
    ensures HostColumn.ColumnSize(NAMES, MEMORY, VARCHAR, 0, 1).Success?
    ensures HostColumn.ColumnSize(NAMES, MEMORY, VARCHAR, 0, 1).value == 118
    ensures !HostColumn.PredictionIsExact(NAMES, MEMORY, VARCHAR, 0, 1)
  {
    SpanIsLong();
    RowIsNull();
    hide HostColumn.Span, HostColumn.NullRows;
    assert HostColumn.ReadNulls(NAMES, MEMORY, 0, 1) == Success([true]);
    assert HostColumn.AreaCost(NAMES, MEMORY, 0) == Success(24);
    assert HostColumn.AreaBytes(NAMES, MEMORY, 0, 0) == Success(0);
    assert HostColumn.AreaBytes(NAMES, MEMORY, 0, 1) == Success(24);
    HostColumn.HasNullIsCount(NAMES, MEMORY, 0, [true]);
    assert CountTrue([true]) == 1;
    assert [true][0] && HostColumn.AreaCost(NAMES, MEMORY, 0 + 0) != Success(0);
  }

  /** A null VARCHAR row that spans 24 characters: measured and encoded, and shorter than predicted. */
  lemma NullTextIsCharged()
    ensures Accepted(NULL_TEXT) && EncodeTable(NULL_TEXT, 0, 1).Success? && EncodedSize(NULL_TEXT, 0, 1) == Success(146)
    ensures !ExactPrediction(NULL_TEXT, 0, 1) && |EncodeTable(NULL_TEXT, 0, 1).value| < 146
  {
    ColumnIsEncoded();
    ColumnIsMeasured();
    hide HostColumn.EncodeHost, HostColumn.ColumnSize, HostColumn.PredictionIsExact, NativeBatch.TypeBytes, LE;
    var e := HostColumn.EncodeHost(NAMES, MEMORY, VARCHAR, 0, 1).value;
    HostColumn.ColumnSizeBounds(NAMES, MEMORY, VARCHAR, 0, 1);
    assert EncodeOf(NULL_TEXT, 0, 0, 1) == Success(e);
    assert EncodedUpTo(NULL_TEXT, 0, 0, 1) == Success([]);
    assert [] + [e] == [e];
    assert EncodedUpTo(NULL_TEXT, 1, 0, 1) == Success([e]);
    NativeBatch.VectorSize(NativeBatch.FlatVector(1, VARCHAR, e));
    assert NativeBatch.AllFramable(1, NULL_TEXT.types, [e]);
    assert SizeOfColumn(NULL_TEXT, 0, 0, 1) == Success(118);
    assert SizeUpTo(NULL_TEXT, 0, 0, 1) == Success(28);
    assert SizeUpTo(NULL_TEXT, 1, 0, 1) == Success(146);
    assert !ExactColumn(NULL_TEXT, 0, 0, 1);
    SizeBoundsPayload(NULL_TEXT, 0, 1);
  }

  // ---------------------------------------------------------------------------
  // Frames and tags
  // ---------------------------------------------------------------------------

  /** A payload one byte over 4 MiB is serialized, and its frame is refused. */
  lemma LargeFrameIsRefused()
    ensures var f := Envelope.Frame(1, Zeros(MAX_STREAM_INPUT_BATCH_BYTES + 1));
            Envelope.SerializeFrame(f).Success? && Envelope.ParseFrame(Envelope.SerializeFrame(f).value) == Failure
  {
    hide Envelope.SerializeFrame, Envelope.ParseFrame;
    Envelope.FrameRoundTrip(Envelope.Frame(1, Zeros(MAX_STREAM_INPUT_BATCH_BYTES + 1)));
  }

  const REQUEST := ExecuteRequest.Request(4, [], [], 0, 0, [], Zeros(16), Zeros(32), 0, 0, [])
  const ORDER: seq<nat> := [1, 2, 3, 4, 5, 6, 7, 8, 9, 10, 11]

  /** The request with bit 35 of its first tag set. */
  function Aliased(): Bytes
    requires ExecuteRequest.AreFields(ORDER)
  {
    Varint(8 + 8 * U32) + (Varint(4) + ExecuteRequest.EncodeFields(REQUEST, ORDER[1..]))
  }

  /** The execute parser reads the aliased request as the request, while the upload parser refuses such a tag. */
  lemma AliasedTagIsAccepted()
    ensures ExecuteRequest.AreFields(ORDER) && ExecuteRequest.ParseExecuteRequest(Aliased()) == Success(REQUEST)
    ensures Identities.ReadId(Varint(10 + 8 * U32) + [0], {}).Failure?
    ensures Identities.ReadId(Varint(10) + [0], {}).Success?
  {
    OrderIsPermutation();
    RequestIsSendable();
    FirstField();
    hide Varint, ExecuteRequest.ParseFields, ExecuteRequest.EncodeFields, ExecuteRequest.Sendable,
      ExecuteRequest.Permutation, ReadVarint, Room;
    var rest := Varint(4) + ExecuteRequest.EncodeFields(REQUEST, ORDER[1..]);
    ExecuteRequest.AnyOrderParses(REQUEST, ORDER);
    Identities.OversizedTags(8, 1, rest, {}, ExecuteRequest.EMPTY);
    ShortTag();
    Identities.OversizedTags(10, 1, [0], {}, ExecuteRequest.EMPTY);
    assert [10, 0] == Identities.IdBytes(1, []) + [] && Varint(10) + [0] == [10, 0] by { OneByte(10); }
    Identities.ReadIdBytes(1, [], [], {});
  }

  lemma OneByte(b: byte)
    requires b < 128
    ensures Varint(b) == [b]
  {
  }

  /** The aliased tag takes at most ten bytes, for which the size cap has room. */
  lemma ShortTag()
    ensures ExecuteRequest.AreFields(ORDER) && 0 < |Aliased()| <= ExecuteRequest.MAX_REQUEST_BYTES
  {
    OrderIsPermutation();
    RequestIsSendable();
    FirstField();
    assert Room(0) == U64;
    VarintSize(8 + 8 * U32, 0);
    hide Varint, ExecuteRequest.EncodeFields, ExecuteRequest.Sendable, ExecuteRequest.MostOf,
      ExecuteRequest.MostOfAll;
    ExecuteRequest.FieldsSize(REQUEST, ORDER, {});
    ExecuteRequest.MostIsBounded({} + ExecuteRequest.Range(ORDER), ExecuteRequest.FIELDS);
    ExecuteRequest.AllFieldsFit();
  }

  lemma OrderIsPermutation()
    ensures ExecuteRequest.AreFields(ORDER) && ExecuteRequest.Permutation(ORDER) && ExecuteRequest.Fresh(ORDER, {})
  {
    assert forall i :: 0 <= i < 11 ==> ORDER[i] == i + 1;
    forall f | 1 <= f <= ExecuteRequest.FIELDS ensures f in ORDER {
      assert ORDER[f - 1] == f;
    }
  }

  lemma RequestIsSendable()
    ensures ExecuteRequest.Sendable(REQUEST)
  {
  }

  lemma FirstField()
    ensures ExecuteRequest.AreFields(ORDER)
    ensures ExecuteRequest.EncodeFields(REQUEST, ORDER) ==
            Varint(8) + (Varint(4) + ExecuteRequest.EncodeFields(REQUEST, ORDER[1..]))
  {
    hide Varint, ExecuteRequest.EncodeFields;
    OrderIsPermutation();
    OneField(REQUEST, ORDER);
    assert ExecuteRequest.FieldBytes(REQUEST, 1) == Varint(8) + Varint(4);
  }

  lemma OneField(r: ExecuteRequest.Request, order: seq<nat>)
    requires ExecuteRequest.AreFields(order) && order != []
    ensures ExecuteRequest.EncodeFields(r, order) ==
            ExecuteRequest.FieldBytes(r, order[0]) + ExecuteRequest.EncodeFields(r, order[1..])
  {
  }

  // ---------------------------------------------------------------------------
  // A DOUBLE for a decimal column
  // ---------------------------------------------------------------------------

  const DECIMAL := NativeBatch.ColumnType(NativeBatch.T_DECIMAL64, 18, 0, 0, false)

  /** The bits of 1.0. */
  const ONE: Bytes := [0, 0, 0, 0, 0, 0, 0xF0, 0x3F]

  const DOUBLES := HostColumn.Column(HostColumn.FLOAT64, 0, 1, false, 0, 0, true, 0, 8, [], map[ONE := 1])
  const DOUBLE_VECTOR := ChunkEncoder.Vector([0], [true], ONE, [])

  lemma DoubleIsRead()
    ensures HostColumn.HostCells(DOUBLES, ONE, DECIMAL, 0, 1) == Success([Value(ONE)])
  {
    var nulls := seq(1, _ => false);
    assert nulls == [false] && nulls[..0] == [];
    assert HostColumn.ReadNulls(DOUBLES, ONE, 0, 1) == Success([false]);
    assert HostColumn.CellsOf(DOUBLES, ONE, DECIMAL, 0, nulls[..0]) == Success([]);
    assert ONE[0..8] == ONE && [] + [Value(ONE)] == [Value(ONE)];
    assert HostColumn.CellOf(DOUBLES, ONE, DECIMAL, 0, false) == Success(Value(ONE));
  }

  lemma OneElement(how: NativeBatch.Conversion, e: Bytes)
    requires NativeBatch.Converts(NativeBatch.T_DECIMAL64, how)
             && NativeBatch.SourceSize(NativeBatch.T_DECIMAL64, how) == 8
    requires NativeBatch.Convert(how, ONE) == Success(e)
    ensures NativeBatch.EncodeColumn([Value(ONE)], DECIMAL, how) == Success(NativeBatch.Encoded(e, [], []))
  {
    hide NativeBatch.Convert;
    var cells := [Value(ONE)];
    assert cells[..0] == [];
    assert NativeBatch.FixedData(cells[..0], NativeBatch.T_DECIMAL64, how) == Success([]);
    assert [] + e == e;
    assert NativeBatch.FixedData(cells, NativeBatch.T_DECIMAL64, how) == Success(e);
    assert NativeBatch.NullsOf(cells) == [false];
    assert CountTrue([false]) == 0;
  }

  /** The two encoders disagree on a DOUBLE for a decimal column: the host encoder rounds it, the chunk encoder copies
   its bits. */
  lemma DoublesAreCopied()
    ensures ChunkEncoder.WellFormed(DOUBLE_VECTOR, DECIMAL)
    ensures HostColumn.HostCells(DOUBLES, ONE, DECIMAL, 0, 1) ==
            Success(ChunkEncoder.Cells(DOUBLE_VECTOR, DECIMAL, 0, 1))
    ensures HostColumn.EncodeHost(DOUBLES, ONE, DECIMAL, 0, 1) !=
            NativeBatch.EncodeColumn(ChunkEncoder.Cells(DOUBLE_VECTOR, DECIMAL, 0, 1), DECIMAL,
              ChunkEncoder.HowOf(DECIMAL))
  {
    DoubleIsRead();
    hide HostColumn.HostCells, NativeBatch.EncodeColumn;
    assert ChunkEncoder.InBuffer(DOUBLE_VECTOR, DECIMAL, 0) && ONE[0..8] == ONE;
    var cells := ChunkEncoder.Cells(DOUBLE_VECTOR, DECIMAL, 0, 1);
    assert cells == [Value(ONE)];
    HostColumn.HostCellsShape(DOUBLES, ONE, DECIMAL, 0, 1);
    var how := NativeBatch.RoundDouble(false, map[ONE := 1]);
    assert LE(8, 1)[0] == 1;
    OneElement(how, LE(8, 1));
    OneElement(NativeBatch.Copy, ONE);
  }
}
