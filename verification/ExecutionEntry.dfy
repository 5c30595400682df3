/**
 The mutable object itself. Every method is one critical section of `execution_entry`, updates the
 fields in place, and is proved to be the corresponding function of module `Execution`.
 */
module ExecutionEntryObject {
  import opened Bytes
  import opened Execution

  datatype Read = Wait | Got(frame: Frame) | End(status: Status)

  class ExecutionEntry {
    const limit: nat
    var claimed: bool
    var terminal: bool
    var quiesced: bool
    var terminalNotified: bool
    var terminalStatus: Status
    var frame: Option<Frame>
    var joinable: bool
    var sequence: nat

    ghost function View(): Shared
      reads this
    {
      Shared(claimed, terminal, quiesced, terminalNotified, terminalStatus, frame, joinable)
    }

    ghost predicate Valid()
      reads this
    {
      Consistent(View()) && sequence <= MAX_U64
    }

    constructor (limit: nat)
      ensures Valid() && View() == FRESH && sequence == 0 && this.limit == limit
    {
      this.limit := limit;
      claimed, terminal, quiesced, terminalNotified, joinable := false, false, false, false, false;
      terminalStatus, frame, sequence := OK, None, 0;
    }

    method ClaimOnce() returns (ok: bool)
      requires Valid()
      modifies this`claimed
      ensures Valid()
      ensures ok == Replayable(old(View()))
      ensures View() == if ok then old(View()).(claimed := true) else old(View())
    {
      if claimed || terminal {
        return false;
      }
      claimed := true;
      return true;
    }

    method StartWorker() returns (spawned: bool)
      requires Valid()
      modifies this`joinable
      ensures Valid()
      ensures spawned == MayStart(old(View()))
      ensures View() == if spawned then old(View()).(joinable := true) else old(View())
    {
      if !claimed || joinable || terminal {
        return false;
      }
      joinable := true;
      return true;
    }

    method TryRead() returns (r: Read)
      requires Valid()
      modifies this`frame
      ensures Valid()
      ensures r.Got? <==> old(frame).Some?
      ensures r.Got? ==> r.frame == old(frame).value && View() == old(View()).(frame := None)
      ensures !r.Got? ==> View() == old(View())
      ensures r.End? <==> old(frame).None? && terminal
      ensures r.End? ==> r.status == terminalStatus
    {
      if frame.Some? {
        r := Got(frame.value);
        frame := None;
      } else if terminal {
        r := End(terminalStatus);
      } else {
        r := Wait;
      }
    }

    method BeginCancel(code: Code) returns (outcome: Marked)
      requires Valid()
      modifies this`terminal, this`terminalStatus, this`frame
      ensures Valid()
      ensures View() == MarkTerminal(old(View()), code)
      ensures outcome == MarkOutcome(old(View()))
    {
      if quiesced {
        return AlreadyQuiesced;
      }
      if !terminal {
        terminal := true;
        terminalStatus := Error(code);
        frame := None;
      }
      outcome := if joinable then WorkerOwnsQuiescence else Unstarted;
    }

    /** The second critical section of a canceller that found no worker: it has marked the execution terminal. */
    method EndCancel()
      requires Valid() && terminal
      modifies this`quiesced
      ensures Valid()
      ensures View() == old(View()).(quiesced := true)
    {
      quiesced := true;
    }

    /** The part of `publish` before the mutex; `None` is the thrown size or envelope error. */
    method NextFrame(payload: Payload) returns (r: Option<Frame>)
      requires Valid()
      modifies this`sequence
      ensures Valid()
      ensures r.Some? <==> 0 < |payload| <= limit && old(sequence) < MAX_U64
      ensures r.Some? ==> r.value == Frame(old(sequence) + 1, payload) && sequence == old(sequence) + 1
    {
      if |payload| > limit {
        return None;
      }
      sequence := (sequence + 1) % (U64);
      if sequence == 0 || payload == [] {
        return None;
      }
      return Some(Frame(sequence, payload));
    }

    /** The first wait of `publish` satisfied: either the frame enters the slot or the callback cancels. */
    method TryPost(next: Frame) returns (posted: bool)
      requires Valid()
      requires frame.None? || terminal
      modifies this`frame
      ensures Valid()
      ensures posted == !terminal
      ensures View() == if posted then old(View()).(frame := Some(next)) else old(View())
    {
      if terminal {
        return false;
      }
      frame := Some(next);
      return true;
    }

    method FinishWith(status: Status)
      requires Valid() && frame.None?
      modifies this`terminal, this`terminalStatus, this`quiesced
      ensures Valid()
      ensures View() == Finished(old(View()), status)
    {
      if !terminal {
        terminal := true;
        terminalStatus := status;
      }
      quiesced := true;
    }

    method MaybeNotify(activeHandlers: nat) returns (notify: bool)
      requires Valid()
      modifies this`terminalNotified
      ensures Valid()
      ensures notify == MustNotify(old(View()), activeHandlers)
      ensures View() == Notified(old(View()), activeHandlers)
    {
      notify := false;
      if quiesced && activeHandlers == 0 && !terminalNotified {
        terminalNotified := true;
        notify := true;
      }
    }
  }
}
