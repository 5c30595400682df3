/**
 From uploaded bytes to the query: what the envelope parser and the batch decoder hand to the input
 slot, and a clean scan of an upload against the rows that were sent.
 */
module InputStream {
  import opened Bytes
  import opened Varlena
  import NativeBatch
  import opened CodecRoundTrip
  import Envelope
  import Scan
  import S = StreamSlot

  type Schema = seq<NativeBatch.Substrait>

  // ---------------------------------------------------------------------------
  // One frame
  // ---------------------------------------------------------------------------

  predicate ValidView(view: NativeBatch.View, schema: Schema) {
    && 1 <= view.rows <= MAX_U32 && |view.columns| == |schema|
    && forall j :: 0 <= j < |schema| ==> NativeBatch.ValidColumn(view.columns[j]) && view.columns[j].rows == view.rows
  }

  /** A cell as the scan emits it. */
  function Emitted(cell: Result<Cell>): Result<Option<Bytes>> {
    match cell
    case Failure => Failure
    case Success(Null) => Success(None)
    case Success(Value(b)) => Success(Some(b))
  }

  function RowOf(view: NativeBatch.View, schema: Schema, r: nat): (row: S.Row)
    requires ValidView(view, schema) && r < view.rows
    ensures |row| == |schema|
  {
    seq(|schema|, j requires 0 <= j < |schema| => Emitted(NativeBatch.CellAt(view.columns[j], r)))
  }

  function RowsOf(view: NativeBatch.View, schema: Schema): (rows: seq<S.Row>)
    requires ValidView(view, schema)
    ensures |rows| == view.rows
  {
    seq(view.rows, r requires 0 <= r < view.rows => RowOf(view, schema, r))
  }

  /** What `publish` makes of a frame before it looks at the slot. */
  function BatchOf(frame: Bytes, schema: Schema): Result<S.Batch> {
    var f :- Envelope.ParseFrame(frame);
    var view :- NativeBatch.ParseBatch(f.payload, schema);
    ParsedIsValid(f.payload, schema);
    Success(S.Batch(f.sequence, RowsOf(view, schema), |f.payload|))
  }

  lemma ParsedIsValid(payload: Bytes, schema: Schema)
    requires NativeBatch.ParseBatch(payload, schema).Success?
    ensures ValidView(NativeBatch.ParseBatch(payload, schema).value, schema)
  {
    hide NativeBatch.ParseBatch, NativeBatch.ValidColumn, NativeBatch.Matches;
    Scan.AcceptedBatchIsValid(payload, schema);
  }

  /** Every frame that parser and decoder accept meets the assumption of the slot protocol. */
  lemma AcceptedIsDecoded(frame: Bytes, schema: Schema)
    requires BatchOf(frame, schema).Success?
    ensures S.Decoded(BatchOf(frame, schema).value)
  {
    hide Envelope.ParseFrame, NativeBatch.ParseBatch, NativeBatch.ValidColumn, RowOf;
    Envelope.ParseIsCanonical(frame);
    ParsedIsValid(Envelope.ParseFrame(frame).value.payload, schema);
  }

  // ---------------------------------------------------------------------------
  // What was sent
  // ---------------------------------------------------------------------------

  /** One batch as a client encodes it. */
  datatype Sent = Sent(columns: seq<Source>, rows: nat)

  predicate Encodes(b: Sent, schema: Schema) {
    && b.columns != [] && 1 <= b.rows && Encodables(b.columns, b.rows, schema)
      && EncodeBatch(b.columns, b.rows).Success?
    && |EncodeBatch(b.columns, b.rows).value| <= MAX_STREAM_INPUT_BATCH_BYTES
  }

  lemma PayloadIsNotEmpty(columns: seq<Source>, rows: nat)
    requires forall j :: 0 <= j < |columns| ==>
               && NativeBatch.WellTyped(columns[j].t) && NativeBatch.Converts(columns[j].t.oid, columns[j].how)
               && NativeBatch.WellSized(columns[j].cells, columns[j].t.oid, columns[j].how)
    requires EncodeBatch(columns, rows).Success?
    ensures |EncodeBatch(columns, rows).value| >= 8
  {
    hide EncodeColumns, NativeBatch.WellTyped, NativeBatch.Converts, NativeBatch.WellSized, NativeBatch.AllFramable,
      NativeBatch.VectorsOf, NativeBatch.AllSized;
  }

  /** The frame of the batch with this sequence number. */
  function FrameOf(b: Sent, schema: Schema, sequence: nat): Bytes
    requires Encodes(b, schema) && 1 <= sequence <= MAX_U64
  {
    PayloadIsNotEmpty(b.columns, b.rows);
    Envelope.SerializeFrame(Envelope.Frame(sequence, EncodeBatch(b.columns, b.rows).value)).value
  }

  /** Cell r of column j as it was sent. */
  function CellSent(b: Sent, schema: Schema, r: nat, j: nat): Result<Option<Bytes>>
    requires Encodes(b, schema) && r < b.rows && j < |schema|
  {
    Emitted(Success(Logical(b.columns[j].how, b.columns[j].cells[r])))
  }

  function RowSent(b: Sent, schema: Schema, r: nat): (row: S.Row)
    requires Encodes(b, schema) && r < b.rows
    ensures |row| == |schema|
  {
    seq(|schema|, j requires 0 <= j < |schema| => CellSent(b, schema, r, j))
  }

  function RowsSent(b: Sent, schema: Schema): (rows: seq<S.Row>)
    requires Encodes(b, schema)
    ensures |rows| == b.rows
  {
    seq(b.rows, r requires 0 <= r < b.rows => RowSent(b, schema, r))
  }

  lemma ViewHoldsRow(view: NativeBatch.View, b: Sent, schema: Schema, r: nat)
    requires Encodes(b, schema) && ValidView(view, schema) && view.rows == b.rows && r < b.rows
    requires |view.columns| == |b.columns| && ViewReadsBack(view.columns, b.columns)
    ensures RowOf(view, schema, r) == RowSent(b, schema, r)
  {
    hide EncodeBatch, Encodable, NativeBatch.ValidColumn, NativeBatch.CellAt, NativeBatch.DatesInRange, Logical,
      Emitted;
    forall j | 0 <= j < |schema| ensures RowOf(view, schema, r)[j] == RowSent(b, schema, r)[j] {
      assert ReadsBack(view.columns[j], b.columns[j].cells, b.columns[j].how);
      assert NativeBatch.CellAt(view.columns[j], r) == Success(Logical(b.columns[j].how, b.columns[j].cells[r]));
    }
  }

  /** A frame written by the encoder is accepted and carries exactly the rows that were sent. */
  lemma SentIsAccepted(b: Sent, schema: Schema, sequence: nat)
    requires Encodes(b, schema) && 1 <= sequence <= MAX_U64
    ensures BatchOf(FrameOf(b, schema, sequence), schema) ==
            Success(S.Batch(sequence, RowsSent(b, schema), |EncodeBatch(b.columns, b.rows).value|))
  {
    hide Envelope.ParseFrame, Envelope.SerializeFrame, NativeBatch.ParseBatch, EncodeBatch, ViewReadsBack,
      NativeBatch.ValidColumn, RowOf, RowSent, NativeBatch.WellTyped, NativeBatch.Converts, NativeBatch.WellSized,
      NativeBatch.Matches;
    var payload := EncodeBatch(b.columns, b.rows).value;
    PayloadIsNotEmpty(b.columns, b.rows);
    Envelope.FrameRoundTrip(Envelope.Frame(sequence, payload));
    BatchRoundTrip(b.columns, b.rows, schema);
    ParsedIsValid(payload, schema);
    var view := NativeBatch.ParseBatch(payload, schema).value;
    forall r | 0 <= r < b.rows ensures RowOf(view, schema, r) == RowSent(b, schema, r) {
      ViewHoldsRow(view, b, schema, r);
    }
    assert RowsOf(view, schema) == RowsSent(b, schema);
  }

  // ---------------------------------------------------------------------------
  // The whole upload
  // ---------------------------------------------------------------------------

  predicate AllEncode(sent: seq<Sent>, schema: Schema) {
    forall k :: 0 <= k < |sent| ==> Encodes(sent[k], schema)
  }

  function AllSent(sent: seq<Sent>, schema: Schema): seq<S.Row>
    requires AllEncode(sent, schema)
  {
    if sent == [] then []
    else
      assert Encodes(sent[|sent| - 1], schema);
      AllSent(sent[..|sent| - 1], schema) + RowsSent(sent[|sent| - 1], schema)
  }

  lemma {:induction false} UploadedRows(uploaded: seq<S.Batch>, sent: seq<Sent>, schema: Schema)
    requires AllEncode(sent, schema) && |uploaded| == |sent|
    requires forall k :: 0 <= k < |sent| ==> uploaded[k].rows == RowsSent(sent[k], schema)
    ensures S.AllRows(uploaded) == AllSent(sent, schema)
  {
    hide Encodes, RowsSent;
    if sent != [] {
      var n := |sent| - 1;
      UploadedRows(uploaded[..n], sent[..n], schema);
    }
  }

  /**
   The input path end to end. In every interleaving of the uploader, the scan and the cancellers: if
   the frames the handler read are those of these batches in order, then a scan that ended cleanly has
   emitted exactly the rows that were sent, and a closing acknowledgement that is not "not needed" says
   so. No frame is lost between the reader and the slot, not even the last, which no gap would reveal.
   */
  lemma CleanInputIsTheUpload(steps: seq<S.Step>, t: S.State, sent: seq<Sent>, schema: Schema)
    requires S.Reaches(S.INIT, steps, t) && AllEncode(sent, schema) && |sent| == |t.received| <= MAX_U64
    requires forall k :: 0 <= k < |sent| ==> BatchOf(FrameOf(sent[k], schema, k + 1), schema) == Success(t.received[k])
    requires t.scan.ScanEof? || (t.final.Some? && !t.final.value.notNeeded)
    ensures t.emitted == AllSent(sent, schema)
    ensures t.uploaded == t.received
    ensures forall k :: 0 <= k < |sent| ==>
              t.uploaded[k].sequence == k + 1 && t.uploaded[k].rows == RowsSent(sent[k], schema)
  {
    hide Encodes, BatchOf, FrameOf, RowsSent, S.Reaches, S.AllRows, S.TotalRows, S.TotalBytes;
    S.Stay(t);
    if t.scan.ScanEof? {
      S.CleanScanIsComplete(steps, t, [], t);
    } else {
      S.FinalAckIsReceipt(steps, t, [], t);
    }
    forall k | 0 <= k < |sent|
      ensures t.uploaded[k].sequence == k + 1 && t.uploaded[k].rows == RowsSent(sent[k], schema)
    {
      SentIsAccepted(sent[k], schema, k + 1);
    }
    UploadedRows(t.uploaded, sent, schema);
  }
}
