/**
 The mutable `stream_input`. Every method is one critical section, updates the fields in place, and is
 proved to be the corresponding function on slots of module `StreamSlot`.
 */
module StreamInputObject {
  import opened Bytes
  import opened StreamSlot

  /** The outcome of one look at the slot by `publish` or `finish_upload`. */
  datatype Poll = Pending | Stopped | Acked(ack: Ack) | Posted

  datatype Next = NothingYet | EndOfInput | InputCancelled | Got(batch: Batch)

  class StreamInput {
    var batch: Option<Batch>
    var acknowledgedBatches: nat
    var acknowledgedRows: nat
    var acknowledgedBytes: nat
    var attached: bool
    var detached: bool
    var producerEof: bool
    var consumerEof: bool
    var notNeeded: bool
    var cancelled: bool

    ghost function View(): Slot
      reads this
    {
      Slot(batch, acknowledgedBatches, acknowledgedRows, acknowledgedBytes,
           attached, detached, producerEof, consumerEof, notNeeded, cancelled)
    }

    ghost predicate Valid()
      reads this
    {
      Coherent(View())
    }

    constructor ()
      ensures Valid() && View() == EMPTY
    {
      batch, acknowledgedBatches, acknowledgedRows, acknowledgedBytes := None, 0, 0, 0;
      attached, detached, producerEof, consumerEof, notNeeded, cancelled := false, false, false, false, false, false;
    }

    method Attach() returns (ok: bool)
      requires Valid()
      modifies this`attached, this`detached
      ensures Valid()
      ensures ok == MayAttach(old(View()))
      ensures View() == if ok then old(View()).(attached := true, detached := false) else old(View())
    {
      if attached || cancelled { return false; }
      attached, detached := true, false;
      return true;
    }

    /** The tests of `publish` before its first wait. */
    method Writable(next: Batch) returns (ok: bool)
      requires Valid()
      ensures ok == Accepts(View(), next)
    {
      ok := attached && !detached && !producerEof && next.sequence == (acknowledgedBatches + 1) % U64;
    }

    /** One look at the slot in the first wait of `publish`: post the frame unless the input has ended. */
    method TryPost(next: Batch) returns (r: Poll)
      requires Valid()
      modifies this`batch
      ensures Valid()
      ensures r.Pending? <==> old(batch).Some? && !Ended(old(View()))
      ensures r.Posted? <==> old(batch).None? && !Ended(old(View()))
      ensures r.Stopped? <==> old(cancelled)
      ensures r.Acked? ==> r.ack == CumulativeAck(old(View()), true) && r.ack.notNeeded
      ensures View() == if r.Posted? then old(View()).(batch := Some(next)) else old(View())
    {
      if batch.Some? && !cancelled && !notNeeded { return Pending; }
      if cancelled { return Stopped; }
      if notNeeded { return Acked(Ack(acknowledgedBatches, acknowledgedRows, acknowledgedBytes, true, true)); }
      batch := Some(next);
      return Posted;
    }

    /** One look at the slot in the second wait of `publish`. */
    method PollReleased() returns (r: Poll)
      requires Valid()
      ensures r.Pending? <==> batch.Some? && !Ended(View())
      ensures r.Stopped? <==> cancelled
      ensures r.Acked? ==> r.ack == CumulativeAck(View(), notNeeded)
      ensures !r.Posted?
    {
      if batch.Some? && !cancelled && !notNeeded { return Pending; }
      if cancelled { return Stopped; }
      return Acked(Ack(acknowledgedBatches, acknowledgedRows, acknowledgedBytes, notNeeded, notNeeded));
    }

    method BeginFinish()
      requires Valid()
      modifies this`producerEof
      ensures Valid()
      ensures View() == old(View()).(producerEof := true)
    {
      producerEof := true;
    }

    /** One look at the slot in `finish_upload`. */
    method PollFinished() returns (r: Poll)
      requires Valid()
      ensures r.Pending? <==> !consumerEof && !Ended(View())
      ensures r.Stopped? <==> cancelled
      ensures r.Acked? ==> r.ack == CumulativeAck(View(), true)
      ensures !r.Posted?
    {
      if !consumerEof && !cancelled && !notNeeded { return Pending; }
      if cancelled { return Stopped; }
      return Acked(Ack(acknowledgedBatches, acknowledgedRows, acknowledgedBytes, true, notNeeded));
    }

    method Detach()
      requires Valid()
      modifies this`detached
      ensures Valid()
      ensures View() == old(View()).(detached := true)
    {
      detached := true;
    }

    /** One look at the slot in `next_batch`; the batch stays in the slot until it is marked consumed. */
    method TryNext() returns (r: Next)
      requires Valid()
      modifies this`consumerEof
      ensures Valid()
      ensures r.NothingYet? <==> old(batch).None? && !old(producerEof) && !Ended(old(View()))
      ensures r.InputCancelled? <==> old(cancelled)
      ensures r.Got? ==> old(batch) == Some(r.batch) && !Ended(old(View()))
      ensures r.EndOfInput? ==> notNeeded || old(batch).None?
      ensures View() == if r.EndOfInput? && !old(notNeeded) then old(View()).(consumerEof := true) else old(View())
    {
      if batch.None? && !producerEof && !cancelled && !notNeeded { return NothingYet; }
      if cancelled { return InputCancelled; }
      if notNeeded { return EndOfInput; }
      if batch.None? {
        consumerEof := true;
        return EndOfInput;
      }
      return Got(batch.value);
    }

    method MarkConsumed(sequence: nat)
      requires Valid()
      modifies this`batch, this`acknowledgedBatches, this`acknowledgedRows, this`acknowledgedBytes
      ensures Valid()
      ensures View() == Consumed(old(View()), sequence)
    {
      if batch.None? || batch.value.sequence != sequence { return; }
      acknowledgedBatches := (acknowledgedBatches + 1) % U64;
      acknowledgedRows := (acknowledgedRows + |batch.value.rows|) % U64;
      acknowledgedBytes := (acknowledgedBytes + batch.value.bytes) % U64;
      batch := None;
    }

    method MarkNotNeeded()
      requires Valid()
      modifies this`notNeeded, this`batch
      ensures Valid()
      ensures View() == NotNeeded(old(View()))
    {
      if !cancelled && !consumerEof {
        notNeeded, batch := true, None;
      }
    }

    method Cancel()
      requires Valid()
      modifies this`cancelled, this`batch
      ensures Valid()
      ensures View() == CancelledSlot(old(View()))
    {
      if !cancelled && !notNeeded {
        cancelled, batch := true, None;
      }
    }
  }
}
