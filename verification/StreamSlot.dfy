/**
 One streamed input: the single slot that `stream_input` keeps under its mutex, the DoPut handler
 that uploads frames into it, the scan that materialises and releases them, and whoever cancels the
 input or declares it not needed.

 `Slot` is the mutex-protected state and each function on it is one critical section; `State` adds
 the two threads and the history, and a sequence of steps is one interleaving.
 */
module StreamSlot {
  import opened Bytes

  /** One optional value per column; a failure where the scan's date arithmetic overflows. */
  type Row = seq<Result<Option<Bytes>>>

  /** A decoded frame. */
  datatype Batch = Batch(sequence: nat, rows: seq<Row>, bytes: nat)

  /** What the envelope parser and the batch decoder guarantee of anything they accept; see
   `InputStream.AcceptedIsDecoded`. */
  predicate Decoded(b: Batch) {
    1 <= b.sequence < U64 && 1 <= |b.rows| < 0x1_0000_0000 && 1 <= b.bytes <= MAX_STREAM_INPUT_BATCH_BYTES
  }

  datatype Ack = Ack(batches: nat, rows: nat, bytes: nat, complete: bool, notNeeded: bool)

  // ---------------------------------------------------------------------------
  // Critical sections
  // ---------------------------------------------------------------------------

  datatype Slot = Slot(
    batch: Option<Batch>,
    batches: nat, rows: nat, bytes: nat,   // acknowledged, as uint64
    attached: bool,
    detached: bool,
    producerEof: bool,
    consumerEof: bool,
    notNeeded: bool,
    cancelled: bool)

  const EMPTY := Slot(None, 0, 0, 0, false, false, false, false, false, false)

  predicate Ended(m: Slot) {
    m.cancelled || m.notNeeded
  }

  /** What every critical section keeps: the endings that exclude each other, and an empty slot after an ending. */
  predicate Coherent(m: Slot) {
    && !(m.cancelled && m.notNeeded)
    && (Ended(m) ==> m.batch.None?)
    && (m.consumerEof ==> !m.notNeeded)
  }

  predicate MayAttach(m: Slot) {
    !m.attached && !m.cancelled
  }

  /** The tests at the head of `publish`, before it waits for the slot. */
  predicate Accepts(m: Slot, b: Batch) {
    m.attached && !m.detached && !m.producerEof && b.sequence == (m.batches + 1) % U64
  }

  function CumulativeAck(m: Slot, complete: bool): Ack {
    Ack(m.batches, m.rows, m.bytes, complete, m.notNeeded)
  }

  function Consumed(m: Slot, sequence: nat): Slot {
    if m.batch.None? || m.batch.value.sequence != sequence then m
    else m.(batch := None,
            batches := (m.batches + 1) % U64,
            rows := (m.rows + |m.batch.value.rows|) % U64,
            bytes := (m.bytes + m.batch.value.bytes) % U64)
  }

  function NotNeeded(m: Slot): Slot {
    if m.cancelled || m.consumerEof then m else m.(notNeeded := true, batch := None)
  }

  function CancelledSlot(m: Slot): Slot {
    if Ended(m) then m else m.(cancelled := true, batch := None)
  }

  // ---------------------------------------------------------------------------
  // Threads
  // ---------------------------------------------------------------------------

  /** The DoPut handler. */
  datatype Producer =
    | Unattached
    | Reading               // at reader->Next()
    | SlotWait(next: Batch) // in publish, before the frame enters the slot
    | ReleaseWait           // in publish, after it
    | FinishWait            // in finish_upload
    | Failing               // about to cancel the execution, then detach
    | Unwinding             // an exception: about to detach, then cancel
    | LateFailing
    | Leaving
    | Left

  /** The scan: `offset` rows of the held batch have been emitted. */
  datatype Scan =
    | Empty
    | Holding(held: Batch, offset: nat)
    | ScanEof
    | ScanNotNeeded
    | ScanFailed

  datatype State = State(
    m: Slot,
    producer: Producer,
    scan: Scan,
    received: seq<Batch>,   // frames the handler read and decoded
    uploaded: seq<Batch>,   // frames that entered the slot
    seen: seq<Batch>,       // frames the scan obtained
    consumed: seq<Batch>,   // frames the scan released
    emitted: seq<Row>,      // rows handed to the query
    acks: seq<Ack>,         // acknowledgements publish returned with more to come
    final: Option<Ack>)     // the closing acknowledgement

  const INIT := State(EMPTY, Unattached, Empty, [], [], [], [], [], [], None)

  datatype Step =
    | Attach
    | Upload(b: Batch, written: bool)
    | PollSlot(stopped: bool, written: bool)
    | PollRelease(stopped: bool, written: bool)
    | BeginFinish
    | PollFinish(stopped: bool)
    | ReadFails
    | DecodeThrows
    | FailInput
    | Detach
    | NextBatch
    | EmitChunk
    | MarkConsumed
    | MarkNotNeeded
    | CancelInput

  predicate Enabled(s: State, step: Step) {
    match step
    case Attach => s.producer.Unattached? && MayAttach(s.m)
    case Upload(b, _) => s.producer.Reading? && Decoded(b)
    case PollSlot(stopped, _) => s.producer.SlotWait? && (stopped || s.m.batch.None? || Ended(s.m))
    case PollRelease(stopped, _) => s.producer.ReleaseWait? && (stopped || s.m.batch.None? || Ended(s.m))
    case BeginFinish => s.producer.Reading?
    case PollFinish(stopped) => s.producer.FinishWait? && (stopped || s.m.consumerEof || Ended(s.m))
    case ReadFails => s.producer.Reading?
    case DecodeThrows => s.producer.Reading?
    case FailInput => s.producer.Failing? || s.producer.LateFailing?
    case Detach => s.producer.Leaving? || s.producer.Unwinding?
    case NextBatch => s.scan.Empty? && (s.m.batch.Some? || s.m.producerEof || Ended(s.m))
    case EmitChunk => s.scan.Holding? && s.scan.offset < |s.scan.held.rows|
    case MarkConsumed => s.scan.Holding? && s.scan.offset == |s.scan.held.rows|
    case MarkNotNeeded => true
    case CancelInput => true
  }

  /** `publish` once the first wait is over; `written` says whether an acknowledgement it returns reaches the client. */
  function AfterSlotWait(s: State, b: Batch, written: bool): State {
    if s.m.cancelled then s.(producer := Failing)
    else if s.m.notNeeded then
      s.(producer := if written then Leaving else Failing, final := Some(CumulativeAck(s.m, true)))
    else s.(producer := ReleaseWait, m := s.m.(batch := Some(b)), uploaded := s.uploaded + [b])
  }

  function AfterUpload(s: State, b: Batch, written: bool): State {
    if !Accepts(s.m, b) then s.(producer := Failing)
    else if s.m.batch.Some? && !Ended(s.m) then s.(producer := SlotWait(b))
    else AfterSlotWait(s, b, written)
  }

  function AfterRelease(s: State, stopped: bool, written: bool): State {
    if stopped || s.m.cancelled then s.(producer := Failing)
    else if s.m.notNeeded then
      s.(producer := if written then Leaving else Failing, final := Some(CumulativeAck(s.m, true)))
    else
      s.(producer := if written then Reading else Failing, acks := s.acks + [CumulativeAck(s.m, false)])
  }

  function AfterFinish(s: State, stopped: bool): State {
    if stopped || s.m.cancelled then s.(producer := Failing)
    else s.(producer := Leaving, final := Some(CumulativeAck(s.m, true)))
  }

  function AfterNextBatch(s: State): State {
    if s.m.cancelled then s.(scan := ScanFailed)
    else if s.m.notNeeded then s.(scan := ScanNotNeeded)
    else if s.m.batch.None? then s.(scan := ScanEof, m := s.m.(consumerEof := true))
    else s.(scan := Holding(s.m.batch.value, 0), seen := s.seen + [s.m.batch.value])
  }

  function AfterChunk(s: State): State
    requires s.scan.Holding? && s.scan.offset < |s.scan.held.rows|
  {
    var left := |s.scan.held.rows| - s.scan.offset;
    var count := if STANDARD_VECTOR_SIZE < left then STANDARD_VECTOR_SIZE else left;
    s.(scan := s.scan.(offset := s.scan.offset + count),
       emitted := s.emitted + s.scan.held.rows[s.scan.offset .. s.scan.offset + count])
  }

  function AfterMark(s: State): State
    requires s.scan.Holding?
  {
    var m' := Consumed(s.m, s.scan.held.sequence);
    s.(m := m', scan := Empty, consumed := if m' == s.m then s.consumed else s.consumed + [s.scan.held])
  }

  function Apply(s: State, step: Step): State
    requires Enabled(s, step)
  {
    match step
    case Attach => s.(producer := Reading, m := s.m.(attached := true, detached := false))
    case Upload(b, written) => AfterUpload(s.(received := s.received + [b]), b, written)
    case PollSlot(stopped, written) =>
      if stopped then s.(producer := Failing)
      else AfterSlotWait(s, s.producer.next, written)
    case PollRelease(stopped, written) => AfterRelease(s, stopped, written)
    case BeginFinish => s.(producer := FinishWait, m := s.m.(producerEof := true))
    case PollFinish(stopped) => AfterFinish(s, stopped)
    case ReadFails => s.(producer := Failing)
    case DecodeThrows => s.(producer := Unwinding)
    case FailInput => s.(producer := if s.producer.Failing? then Leaving else Left, m := CancelledSlot(s.m))
    case Detach => s.(producer := if s.producer.Leaving? then Left else LateFailing, m := s.m.(detached := true))
    case NextBatch => AfterNextBatch(s)
    case EmitChunk => AfterChunk(s)
    case MarkConsumed => AfterMark(s)
    case MarkNotNeeded => s.(m := NotNeeded(s.m))
    case CancelInput => s.(m := CancelledSlot(s.m))
  }

  predicate Reaches(s: State, steps: seq<Step>, t: State)
    decreases |steps|
  {
    if steps == [] then s == t
    else Enabled(s, steps[0]) && Reaches(Apply(s, steps[0]), steps[1..], t)
  }

  // ---------------------------------------------------------------------------
  // Totals
  // ---------------------------------------------------------------------------

  function AllRows(bs: seq<Batch>): seq<Row> {
    if bs == [] then [] else AllRows(bs[..|bs| - 1]) + bs[|bs| - 1].rows
  }

  function TotalRows(bs: seq<Batch>): nat {
    if bs == [] then 0 else TotalRows(bs[..|bs| - 1]) + |bs[|bs| - 1].rows|
  }

  function TotalBytes(bs: seq<Batch>): nat {
    if bs == [] then 0 else TotalBytes(bs[..|bs| - 1]) + bs[|bs| - 1].bytes
  }

  predicate Tallies(batches: nat, rows: nat, bytes: nat, bs: seq<Batch>) {
    batches == |bs| && rows == TotalRows(bs) % U64 && bytes == TotalBytes(bs) % U64
  }

  lemma TallyGrows(m: Slot, bs: seq<Batch>, b: Batch)
    requires Tallies(m.batches, m.rows, m.bytes, bs) && m.batch == Some(b) && |bs| + 1 < U64
    ensures var m' := Consumed(m, b.sequence); Tallies(m'.batches, m'.rows, m'.bytes, bs + [b])
  {
    assert (bs + [b])[..|bs|] == bs;
  }

  lemma AllRowsGrow(bs: seq<Batch>, b: Batch)
    ensures AllRows(bs + [b]) == AllRows(bs) + b.rows
  {
    assert (bs + [b])[..|bs|] == bs;
  }

  // ---------------------------------------------------------------------------
  // The inductive invariant
  // ---------------------------------------------------------------------------

  predicate EndingInv(s: State) {
    && Coherent(s.m)
    && (s.m.consumerEof ==> s.m.producerEof)
    && (s.m.producerEof ==> s.m.batch.None?)
    && (s.m.consumerEof <==> s.scan.ScanEof?)
    && (s.scan.ScanNotNeeded? ==> s.m.notNeeded)
    && (s.scan.ScanFailed? ==> s.m.cancelled)
  }

  predicate SlotInv(s: State) {
    && s.consumed <= s.seen <= s.uploaded
    && |s.uploaded| <= |s.consumed| + 1
    && (forall i :: 0 <= i < |s.uploaded| ==> Decoded(s.uploaded[i]) && s.uploaded[i].sequence == i + 1)
    && Tallies(s.m.batches, s.m.rows, s.m.bytes, s.consumed)
    && (s.m.batch.Some? ==> |s.uploaded| == |s.consumed| + 1 && s.m.batch.value == s.uploaded[|s.consumed|])
    && (s.m.batch.None? && !Ended(s.m) ==> s.uploaded == s.consumed)
  }

  predicate ProducerInv(s: State) {
    && (s.m.attached <==> !s.producer.Unattached?)
    && (s.producer.Unattached? ==> s.uploaded == [])
    && (s.producer.Reading? || s.producer.FinishWait? ==> s.m.batch.None?)
    && (s.producer.Reading? || s.producer.ReleaseWait? ==> !s.m.detached && !s.m.producerEof && s.final.None?)
    && (s.producer.FinishWait? ==> s.m.producerEof && s.final.None?)
    && !s.producer.SlotWait?
    && (s.producer.Unattached? ==> !s.m.producerEof && !s.m.detached && s.final.None?)
  }

  predicate ScanInv(s: State) {
    && (s.scan.Holding? ==>
          && |s.seen| == |s.consumed| + 1
          && s.scan.held == s.seen[|s.consumed|]
          && s.scan.offset <= |s.scan.held.rows|
          && s.emitted == AllRows(s.consumed) + s.scan.held.rows[..s.scan.offset])
    && (!s.scan.Holding? ==> s.emitted == AllRows(s.seen))
    && (s.scan.Empty? ==> s.seen == s.consumed || Ended(s.m))
    && (s.scan.ScanEof? ==> s.seen == s.consumed == s.uploaded)
  }

  predicate AckInv(s: State) {
    && |s.acks| <= |s.consumed|
    && (forall k :: 0 <= k < |s.acks| ==>
          && !s.acks[k].complete && !s.acks[k].notNeeded
          && Tallies(s.acks[k].batches, s.acks[k].rows, s.acks[k].bytes, s.consumed[..k + 1]))
    && (s.producer.Reading? ==> |s.acks| == |s.uploaded|)
    && (s.producer.ReleaseWait? ==> |s.acks| + 1 == |s.uploaded|)
    && (s.final.Some? ==>
          && s.final.value.complete
          && (s.producer.Failing? || s.producer.Leaving? || s.producer.Left?)
          && (!s.final.value.notNeeded ==>
                && s.m.consumerEof
                && Tallies(s.final.value.batches, s.final.value.rows, s.final.value.bytes, s.uploaded)))
  }

  /** Where the handler is when everything it has read has entered the slot. */
  predicate Faithful(p: Producer) {
    p.Unattached? || p.Reading? || p.ReleaseWait? || p.FinishWait?
  }

  /** The handler drops no frame that it reads and then goes on: only on its way out may one be missing. */
  predicate ReceivedInv(s: State) {
    && s.uploaded <= s.received
    && (Faithful(s.producer) ==> s.received == s.uploaded)
    && (s.m.producerEof ==>
          && s.received == s.uploaded
          && !s.producer.Unattached? && !s.producer.Reading? && !s.producer.SlotWait? && !s.producer.ReleaseWait?)
  }

  predicate Inv(s: State) {
    EndingInv(s) && SlotInv(s) && ProducerInv(s) && ScanInv(s) && AckInv(s) && ReceivedInv(s)
  }

  lemma InitInv()
    ensures Inv(INIT)
  {
  }

  lemma StepEnding(s: State, step: Step)
    requires EndingInv(s) && SlotInv(s) && ProducerInv(s) && Enabled(s, step)
    ensures EndingInv(Apply(s, step))
  {
  }

  lemma StepProducer(s: State, step: Step)
    requires EndingInv(s) && SlotInv(s) && ProducerInv(s) && AckInv(s) && Enabled(s, step)
    ensures ProducerInv(Apply(s, step))
  {
    hide Tallies, AllRows, TotalRows, TotalBytes;
  }

  lemma StepReceived(s: State, step: Step)
    requires EndingInv(s) && SlotInv(s) && ProducerInv(s) && ReceivedInv(s) && Enabled(s, step)
    ensures ReceivedInv(Apply(s, step))
  {
    hide Tallies, AllRows, TotalRows, TotalBytes;
  }

  lemma UploadSlot(s: State, b: Batch, written: bool)
    requires EndingInv(s) && SlotInv(s) && ProducerInv(s) && Enabled(s, Upload(b, written))
    ensures SlotInv(Apply(s, Upload(b, written)))
  {
    hide AllRows, TotalRows, TotalBytes;
    if s.uploaded != [] {
      assert s.uploaded[|s.uploaded| - 1].sequence < U64;
    }
  }

  lemma MarkSlot(s: State)
    requires SlotInv(s) && ScanInv(s) && Enabled(s, MarkConsumed)
    ensures SlotInv(AfterMark(s))
  {
    var s' := AfterMark(s);
    if s.m.batch.Some? {
      var b := s.m.batch.value;
      assert s.scan.held == s.uploaded[|s.consumed|] == b;
      TallyGrows(s.m, s.consumed, b);
      assert s'.consumed == s.uploaded[..|s.consumed| + 1];
    }
  }

  lemma QuietSlot(s: State, step: Step)
    requires EndingInv(s) && SlotInv(s) && ProducerInv(s) && ScanInv(s)
    requires Enabled(s, step) && !step.Upload? && !step.MarkConsumed?
    ensures SlotInv(Apply(s, step))
  {
    hide Tallies, Decoded, AllRows;
  }

  lemma StepSlot(s: State, step: Step)
    requires Inv(s) && Enabled(s, step)
    ensures SlotInv(Apply(s, step))
  {
    hide EndingInv, SlotInv, ProducerInv, ScanInv, AckInv, ReceivedInv, Enabled;
    match step {
      case Upload(b, written) => UploadSlot(s, b, written);
      case MarkConsumed => MarkSlot(s);
      case _ => QuietSlot(s, step);
    }
  }

  lemma NextBatchScan(s: State)
    requires EndingInv(s) && SlotInv(s) && ScanInv(s) && Enabled(s, NextBatch)
    ensures ScanInv(AfterNextBatch(s))
  {
    hide Tallies;
  }

  lemma ChunkScan(s: State)
    requires ScanInv(s) && Enabled(s, EmitChunk)
    ensures ScanInv(AfterChunk(s))
  {
    var s' := AfterChunk(s);
    assert s.scan.held.rows[..s'.scan.offset]
        == s.scan.held.rows[..s.scan.offset] + s.scan.held.rows[s.scan.offset..s'.scan.offset];
  }

  lemma MarkScan(s: State)
    requires EndingInv(s) && SlotInv(s) && ScanInv(s) && Enabled(s, MarkConsumed)
    ensures ScanInv(AfterMark(s))
  {
    hide Tallies;
    assert s.seen == s.consumed + [s.scan.held];
    AllRowsGrow(s.consumed, s.scan.held);
    assert s.scan.held.rows[..|s.scan.held.rows|] == s.scan.held.rows;
  }

  lemma StepScan(s: State, step: Step)
    requires Inv(s) && Enabled(s, step)
    ensures ScanInv(Apply(s, step))
  {
    hide Tallies, AllRows;
    match step {
      case NextBatch => NextBatchScan(s);
      case EmitChunk => ChunkScan(s);
      case MarkConsumed => MarkScan(s);
      case _ =>
    }
  }

  lemma MarkAck(s: State)
    requires EndingInv(s) && SlotInv(s) && ScanInv(s) && AckInv(s) && Enabled(s, MarkConsumed)
    ensures AckInv(AfterMark(s))
  {
    hide Tallies, AllRows;
    var s' := AfterMark(s);
    forall k {:trigger s'.acks[k]} | 0 <= k < |s'.acks|
      ensures s'.consumed[..k + 1] == s.consumed[..k + 1]
    {
    }
  }

  lemma ReleaseAck(s: State, stopped: bool, written: bool)
    requires EndingInv(s) && SlotInv(s) && ProducerInv(s) && AckInv(s) && Enabled(s, PollRelease(stopped, written))
    ensures AckInv(AfterRelease(s, stopped, written))
  {
    hide TotalRows, TotalBytes, AllRows;
    assert s.consumed[..|s.consumed|] == s.consumed;
  }

  lemma StepAck(s: State, step: Step)
    requires Inv(s) && Enabled(s, step)
    ensures AckInv(Apply(s, step))
  {
    hide TotalRows, TotalBytes, AllRows;
    match step {
      case MarkConsumed => MarkAck(s);
      case PollRelease(stopped, written) => ReleaseAck(s, stopped, written);
      case _ =>
    }
  }

  lemma StepInv(s: State, step: Step)
    requires Inv(s) && Enabled(s, step)
    ensures Inv(Apply(s, step))
  {
    hide EndingInv, SlotInv, ProducerInv, ScanInv, AckInv, ReceivedInv, Apply, Enabled;
    StepEnding(s, step);
    StepSlot(s, step);
    StepProducer(s, step);
    StepScan(s, step);
    StepAck(s, step);
    StepReceived(s, step);
  }

  lemma {:induction false} RunInv(s: State, steps: seq<Step>, t: State)
    requires Inv(s) && Reaches(s, steps, t)
    ensures Inv(t)
    decreases |steps|
  {
    hide Inv, Apply, Enabled;
    if steps != [] {
      StepInv(s, steps[0]);
      RunInv(Apply(s, steps[0]), steps[1..], t);
    }
  }

  // ---------------------------------------------------------------------------
  // What no later step can undo
  // ---------------------------------------------------------------------------

  ghost predicate Later(s: State, t: State) {
    && s.received <= t.received && s.uploaded <= t.uploaded && s.seen <= t.seen && s.consumed <= t.consumed
    && s.emitted <= t.emitted && s.acks <= t.acks
    && (s.m.attached ==> t.m.attached)
    && (s.m.cancelled ==> t.m.cancelled && (t.m.consumerEof ==> s.m.consumerEof))
    && (s.m.notNeeded ==> t.m.notNeeded)
    && (s.m.producerEof ==> t.m.producerEof && t.uploaded == s.uploaded && t.received == s.received)
    && (s.m.consumerEof ==> t.m.consumerEof && t.emitted == s.emitted)
    && (s.final.Some? ==> t.final == s.final)
  }

  lemma StepLater(s: State, step: Step)
    requires Inv(s) && Enabled(s, step)
    ensures Later(s, Apply(s, step))
  {
    hide AllRows, TotalRows, TotalBytes, Tallies, SlotInv;
  }

  lemma {:induction false} RunLater(s: State, steps: seq<Step>, t: State)
    requires Inv(s) && Reaches(s, steps, t)
    ensures Later(s, t)
    decreases |steps|
  {
    hide Inv, Apply, Enabled;
    if steps != [] {
      StepLater(s, steps[0]);
      StepInv(s, steps[0]);
      RunLater(Apply(s, steps[0]), steps[1..], t);
    }
  }

  // ---------------------------------------------------------------------------
  // Theorems over every interleaving
  // ---------------------------------------------------------------------------

  /**
   Delivery is exactly once and in order: the scan sees frames 1, 2, 3, ... each once, releases them
   in that order, and has emitted exactly the rows of the released frames plus a prefix of the one it
   holds. A batch in the slot always carries the sequence after the last acknowledged one, and the
   wait that precedes posting never happens.
   */
  lemma DeliveredExactlyOnce(steps: seq<Step>, t: State)
    requires Reaches(INIT, steps, t)
    ensures t.consumed <= t.seen <= t.uploaded && |t.uploaded| <= |t.consumed| + 1
    ensures forall i :: 0 <= i < |t.uploaded| ==> t.uploaded[i].sequence == i + 1
    ensures t.m.batch.Some? ==> t.m.batch.value.sequence == t.m.batches + 1
    ensures t.scan.Holding? ==>
              && t.scan.offset <= |t.scan.held.rows|
              && t.emitted == AllRows(t.consumed) + t.scan.held.rows[..t.scan.offset]
    ensures !t.scan.Holding? ==> t.emitted == AllRows(t.seen)
    ensures !t.producer.SlotWait?
  {
    InitInv();
    RunInv(INIT, steps, t);
  }

  /** Acknowledgement k is returned only after frame k was released, and carries the totals of frames 1..k. */
  lemma AcknowledgedAfterRelease(steps: seq<Step>, t: State, k: nat)
    requires Reaches(INIT, steps, t) && k < |t.acks|
    ensures k < |t.consumed| <= |t.uploaded| && t.acks[k].batches == k + 1 && !t.acks[k].complete
    ensures t.acks[k].rows == TotalRows(t.uploaded[..k + 1]) % U64
    ensures t.acks[k].bytes == TotalBytes(t.uploaded[..k + 1]) % U64
  {
    hide TotalRows, TotalBytes, AllRows;
    InitInv();
    RunInv(INIT, steps, t);
    assert t.consumed[..k + 1] == t.uploaded[..k + 1];
  }

  /**
   A closing acknowledgement that is complete and not "not needed" is a receipt for everything: every
   frame the handler read entered the slot and was released, every row of every one was emitted, and
   its totals are exact below 2^32 frames (the counters are 64 bits wide, a frame has fewer than 2^32
   rows and at most 4 MiB).
   Nothing is uploaded or emitted after it, and it is never withdrawn.
   */
  lemma FinalAckIsReceipt(before: seq<Step>, s: State, after: seq<Step>, t: State)
    requires Reaches(INIT, before, s) && Reaches(s, after, t)
    requires s.final.Some? && !s.final.value.notNeeded
    ensures t.final == s.final && t.received == s.received == s.uploaded == t.uploaded && t.emitted == s.emitted
    ensures s.consumed == s.uploaded && s.emitted == AllRows(s.uploaded)
    ensures s.final.value.batches == |s.uploaded|
    ensures s.final.value.rows == TotalRows(s.uploaded) % U64
    ensures s.final.value.bytes == TotalBytes(s.uploaded) % U64
    ensures |s.uploaded| <= 0x1_0000_0000 ==>
              s.final.value.rows == TotalRows(s.uploaded) && s.final.value.bytes == TotalBytes(s.uploaded)
  {
    hide TotalRows, TotalBytes, AllRows, Reaches;
    InitInv();
    RunInv(INIT, before, s);
    RunLater(s, after, t);
    TotalsAreBounded(s.uploaded);
  }

  lemma {:induction false} TotalsAreBounded(bs: seq<Batch>)
    requires forall i :: 0 <= i < |bs| ==> Decoded(bs[i])
    ensures TotalRows(bs) <= |bs| * 0xFFFF_FFFF
    ensures TotalBytes(bs) <= |bs| * MAX_STREAM_INPUT_BATCH_BYTES
  {
    if bs != [] { TotalsAreBounded(bs[..|bs| - 1]); }
  }

  /** A scan that ends cleanly has emitted every row of every frame the handler read, and no more will be read. */
  lemma CleanScanIsComplete(before: seq<Step>, s: State, after: seq<Step>, t: State)
    requires Reaches(INIT, before, s) && s.scan.ScanEof? && Reaches(s, after, t)
    ensures s.received == s.uploaded && s.emitted == AllRows(s.received)
    ensures t.received == s.received && t.uploaded == s.uploaded && t.emitted == s.emitted
  {
    hide Tallies, AllRows;
    InitInv();
    RunInv(INIT, before, s);
    RunLater(s, after, t);
  }

  /**
   "Not needed" excludes both other endings for ever. Cancelled and consumed may meet, since a cancel
   does not look at the consumer's end, but only in that order: a cancel makes both hold exactly if the
   consumer had reached the end, an input that is cancelled before the
   consumer's end never reaches it, and one that was consumed first has already emitted everything
   that was uploaded. An input is attached at most once.
   */
  lemma EndingsAreExclusive(before: seq<Step>, s: State, after: seq<Step>, t: State)
    requires Reaches(INIT, before, s) && Reaches(s, after, t)
    ensures s.m.notNeeded ==> !t.m.cancelled && !t.m.consumerEof
    ensures s.m.cancelled || s.m.consumerEof ==> !t.m.notNeeded
    ensures s.m.cancelled && !s.m.consumerEof ==> t.m.cancelled && !t.m.consumerEof
    ensures s.m.consumerEof ==>
              && t.m.consumerEof && t.uploaded == t.consumed == s.uploaded
              && t.emitted == s.emitted == AllRows(s.uploaded)
    ensures var u := Apply(s, CancelInput); u.m.cancelled && u.m.consumerEof <==> s.m.consumerEof
    ensures s.m.attached ==> !MayAttach(t.m)
  {
    hide Tallies, AllRows;
    InitInv();
    RunInv(INIT, before, s);
    RunInv(s, after, t);
    RunLater(s, after, t);
  }

  /**
   What is right goes through. A handler attaches exactly once, unless the input was cancelled. As long
   as nothing has ended the input, the frame with the next number enters the slot, and any other fails
   the upload and leaves slot and history alone; the handler is told of the release exactly when the
   scan has released the frame, with the totals so far; and closing the upload completes exactly when
   the scan has seen the end, as not "not needed".
   */
  lemma UploadMakesProgress(steps: seq<Step>, t: State, b: Batch, written: bool)
    requires Reaches(INIT, steps, t) && Decoded(b)
    ensures Enabled(t, Attach) <==> t.producer.Unattached? && !t.m.cancelled
    ensures t.producer.Reading? && !Ended(t.m) && |t.received| < MAX_U64 ==>
              var u := Apply(t, Upload(b, written));
              if b.sequence == |t.received| + 1
              then u == t.(producer := ReleaseWait, m := t.m.(batch := Some(b)),
                           received := t.received + [b], uploaded := t.uploaded + [b])
              else u == t.(producer := Failing, received := t.received + [b])
    ensures t.producer.ReleaseWait? && !Ended(t.m) ==>
              && (Enabled(t, PollRelease(false, written)) <==> t.consumed == t.received)
              && (t.consumed == t.received ==>
                    var u := Apply(t, PollRelease(false, written));
                    && u.producer == (if written then Reading else Failing) && u.acks == t.acks + [u.acks[|t.acks|]]
                    && !u.acks[|t.acks|].complete && u.acks[|t.acks|].batches == |t.received|)
    ensures t.producer.FinishWait? && !Ended(t.m) ==>
              && (Enabled(t, PollFinish(false)) <==> t.scan.ScanEof?)
              && (t.scan.ScanEof? ==>
                    var u := Apply(t, PollFinish(false));
                    && u.producer.Leaving? && u.final.Some?
                    && u.final.value.complete && !u.final.value.notNeeded && u.final.value.batches == |t.received|)
  {
    hide Reaches, TotalRows, TotalBytes, AllRows;
    InitInv();
    RunInv(INIT, steps, t);
  }

  /** What the handler does next on an input that has ended, if no one stops it and its writes succeed. */
  function NextOfEnded(t: State, b: Batch): State
    requires Ended(t.m) && (t.producer.Reading? || t.producer.ReleaseWait? || t.producer.FinishWait?) && Decoded(b)
  {
    if t.producer.Reading? then Apply(t, Upload(b, true))
    else if t.producer.ReleaseWait? then Apply(t, PollRelease(false, true))
    else Apply(t, PollFinish(false))
  }

  /**
   The answer to an upload whose input has ended: an input that is not needed is acknowledged as
   complete and not needed, with the totals of what was released; a cancelled one fails without an
   acknowledgement.
   */
  lemma EndedUploadsAreAnswered(steps: seq<Step>, t: State, b: Batch)
    requires Reaches(INIT, steps, t) && Ended(t.m) && Decoded(b)
    requires t.producer.Reading? || t.producer.ReleaseWait? || t.producer.FinishWait?
    requires t.producer.Reading? ==> b.sequence == (|t.consumed| + 1) % U64
    ensures var u := NextOfEnded(t, b);
            && (t.m.notNeeded ==>
                  && u.producer.Leaving? && u.final.Some? && u.final.value.complete && u.final.value.notNeeded
                  && u.final.value.batches == |t.consumed|)
            && (t.m.cancelled ==> u.producer.Failing? && u.final == t.final && u.acks == t.acks)
  {
    hide Reaches, TotalRows, TotalBytes, AllRows;
    InitInv();
    RunInv(INIT, steps, t);
  }

  /**
   The scan makes progress as long as nothing has ended the input: it obtains the batch in the slot,
   emits chunks of 2048 rows and a last shorter one, releases the batch when all its rows are emitted,
   which empties the slot and counts it, and sees the end exactly after the uploader closed.
   */
  lemma ScanMakesProgress(steps: seq<Step>, t: State)
    requires Reaches(INIT, steps, t) && !Ended(t.m)
    ensures t.scan.Empty? ==> (Enabled(t, NextBatch) <==> t.m.batch.Some? || t.m.producerEof)
    ensures t.scan.Empty? && t.m.batch.Some? ==>
              Apply(t, NextBatch) == t.(scan := Holding(t.m.batch.value, 0), seen := t.seen + [t.m.batch.value])
    ensures t.scan.Empty? && t.m.batch.None? && t.m.producerEof ==> Apply(t, NextBatch).scan.ScanEof?
    ensures t.scan.Holding? && t.scan.offset < |t.scan.held.rows| ==>
              var left := |t.scan.held.rows| - t.scan.offset;
              |Apply(t, EmitChunk).emitted| == |t.emitted| + if left > 2048 then 2048 else left
    ensures t.scan.Holding? && t.scan.offset == |t.scan.held.rows| ==>
              var u := Apply(t, MarkConsumed);
              && u.scan.Empty? && u.m.batch.None?
              && u.consumed == t.consumed + [t.scan.held] && u.m.batches == t.m.batches + 1
  {
    hide Reaches, TotalRows, TotalBytes, AllRows;
    InitInv();
    RunInv(INIT, steps, t);
  }

  /**
   An input can be consumed and then cancelled: the scan ended cleanly with everything uploaded, yet
   the upload fails without a closing acknowledgement.
   */
  lemma ConsumedMayBeCancelled() returns (t: State)
    ensures Reaches(INIT, [Attach, BeginFinish, NextBatch, CancelInput], t)
    ensures t.m.cancelled && t.m.consumerEof && t.scan.ScanEof? && t.final.None?
    ensures Enabled(t, PollFinish(false)) && Apply(t, PollFinish(false)) == t.(producer := Failing)
  {
    hide Reaches, AfterUpload, AfterSlotWait, AfterRelease, AfterChunk, AfterMark;
    var s1 := INIT.(producer := Reading, m := EMPTY.(attached := true));
    var s2 := s1.(producer := FinishWait, m := s1.m.(producerEof := true));
    var s3 := s2.(scan := ScanEof, m := s2.m.(consumerEof := true));
    t := s3.(m := s3.m.(cancelled := true));
    Stay(t);
    Prepend(s3, CancelInput, [], t);
    Prepend(s2, NextBatch, [CancelInput] + [], t);
    Prepend(s1, BeginFinish, [NextBatch] + ([CancelInput] + []), t);
    Prepend(INIT, Attach, [BeginFinish] + ([NextBatch] + ([CancelInput] + [])), t);
    assert [Attach, BeginFinish, NextBatch, CancelInput] ==
      [Attach] + ([BeginFinish] + ([NextBatch] + ([CancelInput] + [])));
  }

  lemma Stay(t: State)
    ensures Reaches(t, [], t)
  {
  }

  lemma Prepend(s: State, step: Step, rest: seq<Step>, t: State)
    requires Enabled(s, step) && Reaches(Apply(s, step), rest, t)
    ensures Reaches(s, [step] + rest, t)
  {
    assert ([step] + rest)[1..] == rest;
  }
}
