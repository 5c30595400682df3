/**
 The life of one prepared execution: the flags and the one-frame result slot that
 `execution_entry` keeps under its mutex, the worker thread that fills the slot, the reader
 that empties it, any number of concurrent cancellers, and the input handlers that are
 counted outside the mutex.

 `Shared` is the mutex-protected state and each function on it is one critical section.
 `State` adds the program counters of every thread and the history the theorems speak of;
 `Step` names one atomic step of one thread, so a sequence of steps is one interleaving.
 */
module Execution {
  import opened Bytes

  type Payload = Bytes

  datatype Frame = Frame(sequence: nat, payload: Payload)

  datatype Code =
    | DeadlineExceeded
    | Cancelled
    | GpuDeviceUnavailable
    | UnsupportedPlan
    | InvalidPlan
    | AuthenticationFailed
    | ReadResolutionFailed
    | ExecutionFailed

  datatype Status = OK | Error(code: Code)

  // ---------------------------------------------------------------------------
  // Critical sections
  // ---------------------------------------------------------------------------

  datatype Shared = Shared(
    claimed: bool,
    terminal: bool,
    quiesced: bool,
    notified: bool,
    status: Status,
    frame: Option<Frame>,
    joinable: bool)

  const FRESH := Shared(false, false, false, false, OK, None, false)

  /** What every critical section keeps, given when it is entered. */
  predicate Consistent(m: Shared) {
    && (m.quiesced ==> m.terminal)
    && (m.frame.Some? ==> !m.terminal)
    && (m.notified ==> m.quiesced)
  }

  predicate Replayable(m: Shared) {
    !m.claimed && !m.terminal
  }

  predicate MayStart(m: Shared) {
    m.claimed && !m.joinable && !m.terminal
  }

  /** The first critical section of `cancel` and of `fail_gpu_unavailable`. */
  function MarkTerminal(m: Shared, code: Code): Shared {
    if m.quiesced || m.terminal then m
    else m.(terminal := true, status := Error(code), frame := None)
  }

  /** What a canceller learns in that critical section and acts on after releasing the mutex. */
  datatype Marked = AlreadyQuiesced | Unstarted | WorkerOwnsQuiescence

  function MarkOutcome(m: Shared): Marked {
    if m.quiesced then AlreadyQuiesced
    else if m.joinable then WorkerOwnsQuiescence
    else Unstarted
  }

  /** The critical section of `finish`. */
  function Finished(m: Shared, status: Status): Shared {
    (if m.terminal then m else m.(terminal := true, status := status)).(quiesced := true)
  }

  /** The test inside `maybe_notify_terminal`. */
  predicate MustNotify(m: Shared, handlers: nat) {
    m.quiesced && handlers == 0 && !m.notified
  }

  function Notified(m: Shared, handlers: nat): Shared {
    if MustNotify(m, handlers) then m.(notified := true) else m
  }

  // ---------------------------------------------------------------------------
  // Threads
  // ---------------------------------------------------------------------------

  /**
   One batch handed to the callback, as its split would go without cancellation: the payloads in
   order and whether the split reaches the end of the batch. A split that is not whole stops after its
   payloads by throwing.
   */
  datatype Offer = Offer(payloads: seq<Payload>, whole: bool)

  /** Where the worker is. `rest` is what is left of the current batch, not yet handed to `publish`. */
  datatype Worker =
    | NotStarted
    | Idle
    | Entered(rest: Offer)
    | Batch(rest: Offer)
    | Ready(next: Frame, rest: Offer)
    | Posted(rest: Offer)
    | DeadlineNotify
    | Unwinding(status: Status)
    | FinishNotify
    | Exited

  predicate InBatch(w: Worker) {
    w.Idle? || w.Entered? || w.Batch? || w.Ready? || w.Posted? || w.DeadlineNotify? || w.Unwinding?
  }

  datatype State = State(
    m: Shared,
    limit: nat,               // negotiated max_batch_bytes
    sequence: nat,            // the worker's uint64 frame counter
    worker: Worker,
    handlers: nat,            // atomic handler count, changed outside the mutex
    quiescing: nat,           // cancellers that saw no worker and have yet to set quiesced
    notifying: nat,           // calls that have yet to enter maybe_notify_terminal
    firing: nat,              // calls that decided to notify and have yet to invoke on_terminal
    fired: nat,               // invocations of on_terminal
    claims: nat,              // successful claims
    begun: seq<Offer>,        // every batch handed to the worker
    offered: seq<Payload>,    // every payload of every such batch
    published: seq<Payload>,  // payloads that entered the slot
    delivered: seq<Frame>,    // frames the reader took
    ended: Option<Status>)    // the end of stream the reader was told

  function Init(limit: nat): State {
    State(FRESH, limit, 0, NotStarted, 0, 0, 0, 0, 0, 0, [], [], [], [], None)
  }

  datatype Step =
    | Claim
    | Start
    | Join
    | CancelMark(code: Code)
    | QuiesceMark
    | NotifyTerminal
    | FireTerminal
    | AttachHandler
    | DetachHandler
    | TakeFrame
    | TakeEnd
    | BeginBatch(offer: Offer)
    | CheckDeadline(expired: bool)
    | EndBatch
    | BuildFrame
    | PostFrame
    | AwaitRelease
    | EncodeFails
    | RunReturns
    | RunThrows(code: Code)
    | Finish
    | WorkerNotifies

  predicate Enabled(s: State, step: Step) {
    match step
    case Claim => Replayable(s.m)
    case Start => MayStart(s.m)
    case Join => s.worker.Exited? && s.m.joinable
    case CancelMark(code) => code.DeadlineExceeded? || code.Cancelled? || code.GpuDeviceUnavailable?
    case QuiesceMark => s.quiescing > 0
    case NotifyTerminal => s.notifying > 0
    case FireTerminal => s.firing > 0
    case AttachHandler => true
    case DetachHandler => s.handlers > 0
    case TakeFrame => s.m.frame.Some?
    case TakeEnd => s.m.frame.None? && s.m.terminal
    case BeginBatch(_) => s.worker.Idle?
    case CheckDeadline(_) => s.worker.Entered?
    case EndBatch => s.worker.Batch? && s.worker.rest.payloads == [] && s.worker.rest.whole
    case BuildFrame => s.worker.Batch? && s.worker.rest.payloads != []
    case PostFrame => s.worker.Ready? && (s.m.frame.None? || s.m.terminal)
    case AwaitRelease => s.worker.Posted? && (s.m.frame.None? || s.m.terminal)
    case EncodeFails => s.worker.Batch?
    case RunReturns => s.worker.Idle?
    case RunThrows(_) => s.worker.Idle?
    case Finish => s.worker.Unwinding?
    case WorkerNotifies => s.worker.FinishNotify? || s.worker.DeadlineNotify?
  }

  /** `publish` up to the point where it takes the mutex: the size test, the counter and the envelope. */
  function Framed(s: State): State
    requires s.worker.Batch? && s.worker.rest.payloads != []
  {
    var payload := s.worker.rest.payloads[0];
    if |payload| > s.limit then s.(worker := Unwinding(Error(ExecutionFailed)))
    else
      var next := (s.sequence + 1) % (U64);
      if next == 0 || payload == [] then s.(sequence := next, worker := Unwinding(Error(ExecutionFailed)))
      else s.(sequence := next,
        worker := Ready(Frame(next, payload), s.worker.rest.(payloads := s.worker.rest.payloads[1..])))
  }

  function Apply(s: State, step: Step): State
    requires Enabled(s, step)
  {
    match step
    case Claim => s.(m := s.m.(claimed := true), claims := s.claims + 1)
    case Start => s.(m := s.m.(joinable := true), worker := Idle)
    case Join => s.(m := s.m.(joinable := false))
    case CancelMark(code) =>
      var s' := s.(m := MarkTerminal(s.m, code));
      (match MarkOutcome(s.m)
       case AlreadyQuiesced => s'
       case Unstarted => s'.(quiescing := s.quiescing + 1)
       case WorkerOwnsQuiescence => s'.(notifying := s.notifying + 1))
    case QuiesceMark =>
      s.(m := s.m.(quiesced := true), quiescing := s.quiescing - 1, notifying := s.notifying + 1)
    case NotifyTerminal =>
      s.(m := Notified(s.m, s.handlers), notifying := s.notifying - 1,
         firing := s.firing + if MustNotify(s.m, s.handlers) then 1 else 0)
    case FireTerminal => s.(firing := s.firing - 1, fired := s.fired + 1)
    case AttachHandler => s.(handlers := s.handlers + 1)
    case DetachHandler => s.(handlers := s.handlers - 1, notifying := s.notifying + 1)
    case TakeFrame => s.(m := s.m.(frame := None), delivered := s.delivered + [s.m.frame.value])
    case TakeEnd => s.(ended := Some(s.m.status))
    case BeginBatch(offer) =>
      s.(worker := Entered(offer), begun := s.begun + [offer], offered := s.offered + offer.payloads)
    case CheckDeadline(expired) =>
      if expired then s.(m := MarkTerminal(s.m, DeadlineExceeded), worker := DeadlineNotify)
      else s.(worker := Batch(s.worker.rest))
    case EndBatch => s.(worker := Idle)
    case BuildFrame => Framed(s)
    case PostFrame =>
      if s.m.terminal then s.(worker := Idle)
      else s.(m := s.m.(frame := Some(s.worker.next)), worker := Posted(s.worker.rest),
              published := s.published + [s.worker.next.payload])
    case AwaitRelease => s.(worker := if s.m.terminal then Idle else Batch(s.worker.rest))
    case EncodeFails => s.(worker := Unwinding(Error(ExecutionFailed)))
    case RunReturns => s.(worker := Unwinding(OK))
    case RunThrows(code) => s.(worker := Unwinding(Error(code)))
    case Finish => s.(m := Finished(s.m, s.worker.status), worker := FinishNotify)
    case WorkerNotifies =>
      s.(m := Notified(s.m, s.handlers), worker := if s.worker.FinishNotify? then Exited else Idle,
         firing := s.firing + if MustNotify(s.m, s.handlers) then 1 else 0)
  }

  /** `t` is reached from `s` by exactly this interleaving. */
  predicate Reaches(s: State, steps: seq<Step>, t: State)
    decreases |steps|
  {
    if steps == [] then s == t
    else Enabled(s, steps[0]) && Reaches(Apply(s, steps[0]), steps[1..], t)
  }

  // ---------------------------------------------------------------------------
  // The inductive invariant
  // ---------------------------------------------------------------------------

  function Numbered(payloads: seq<Payload>): (frames: seq<Frame>)
    ensures |frames| == |payloads|
  {
    seq(|payloads|, i requires 0 <= i < |payloads| => Frame(i + 1, payloads[i]))
  }

  predicate FlagsInv(s: State) {
    && (s.m.quiesced ==> s.m.terminal && !InBatch(s.worker))
    && (s.m.frame.Some? ==> !s.m.terminal && s.worker.Posted?)
    && (s.worker.NotStarted? ==> !s.m.joinable)
    && (InBatch(s.worker) ==> s.m.joinable && s.m.claimed)
    && (s.worker.FinishNotify? || s.worker.Exited? ==> s.m.quiesced)
    && (s.worker.FinishNotify? ==> s.m.joinable)
    && (s.quiescing > 0 ==> s.m.terminal && s.worker.NotStarted?)
    && (s.m.terminal && s.worker.NotStarted? ==> s.m.quiesced || s.quiescing > 0)
    && (s.worker.DeadlineNotify? ==> s.m.terminal)
  }

  predicate NotifyInv(s: State) {
    && s.firing + s.fired == (if s.m.notified then 1 else 0)
    && (s.m.notified ==> s.m.quiesced)
    && (s.m.quiesced && s.handlers == 0 && s.notifying == 0 && !s.worker.FinishNotify? ==> s.m.notified)
    && s.claims == (if s.m.claimed then 1 else 0)
  }

  /** The slot never loses, repeats or renumbers a frame. */
  predicate SlotInv(s: State) {
    && |s.delivered| <= |s.published| <= |s.delivered| + 1
    && s.delivered == Numbered(s.published)[..|s.delivered|]
    && s.published <= s.offered
    && (s.m.frame.Some? ==>
          && |s.published| == |s.delivered| + 1
          && s.m.frame.value == Frame(|s.published|, s.published[|s.delivered|]))
    && (!s.m.terminal && s.m.frame.None? ==> |s.published| == |s.delivered|)
  }

  /** Until something ends the execution, everything offered is delivered, in the slot, or still with the worker. */
  predicate FlowInv(s: State) {
    && s.sequence <= MAX_U64
    && (!s.m.terminal ==>
      match s.worker
      case NotStarted => s.offered == [] && s.sequence == 0
      case Idle => s.offered == s.published && s.sequence == |s.published|
      case Entered(rest) => s.offered == s.published + rest.payloads && s.sequence == |s.published|
      case Batch(rest) => s.offered == s.published + rest.payloads && s.sequence == |s.published|
      case Posted(rest) => s.offered == s.published + rest.payloads && s.sequence == |s.published|
      case Ready(next, rest) =>
        && s.offered == s.published + [next.payload] + rest.payloads
        && s.sequence == |s.published| + 1 == next.sequence
      case Unwinding(status) => status.OK? ==> s.offered == s.published
      case _ => true)
  }

  function AllPayloads(begun: seq<Offer>): seq<Payload> {
    if begun == [] then [] else AllPayloads(begun[..|begun| - 1]) + begun[|begun| - 1].payloads
  }

  predicate AllWhole(begun: seq<Offer>) {
    forall i :: 0 <= i < |begun| ==> begun[i].whole
  }

  /** The offer of the current batch, of which only the payloads change. */
  predicate Current(begun: seq<Offer>, rest: Offer) {
    begun != [] && AllWhole(begun[..|begun| - 1]) && begun[|begun| - 1].whole == rest.whole
  }

  /** Until something ends the execution, every batch that ended was split to its end. */
  predicate BegunInv(s: State) {
    && s.offered == AllPayloads(s.begun)
    && (!s.m.terminal ==>
      match s.worker
      case NotStarted => s.begun == []
      case Idle => AllWhole(s.begun)
      case Entered(rest) => Current(s.begun, rest)
      case Batch(rest) => Current(s.begun, rest)
      case Posted(rest) => Current(s.begun, rest)
      case Ready(_, rest) => Current(s.begun, rest)
      case Unwinding(status) => status.OK? ==> AllWhole(s.begun)
      case _ => true)
    && (s.m.terminal && s.m.status.OK? ==> AllWhole(s.begun))
  }

  predicate EndInv(s: State) {
    && (s.m.terminal && s.m.status.OK? ==> s.m.quiesced && s.delivered == Numbered(s.offered))
    && (s.ended.Some? ==> s.m.terminal && s.ended.value == s.m.status)
  }

  predicate Inv(s: State) {
    FlagsInv(s) && NotifyInv(s) && SlotInv(s) && FlowInv(s) && BegunInv(s) && EndInv(s)
  }

  lemma InitInv(limit: nat)
    ensures Inv(Init(limit))
  {
  }

  lemma StepFlags(s: State, step: Step)
    requires FlagsInv(s) && Enabled(s, step)
    ensures FlagsInv(Apply(s, step))
  {
  }

  lemma StepNotify(s: State, step: Step)
    requires FlagsInv(s) && NotifyInv(s) && Enabled(s, step)
    ensures NotifyInv(Apply(s, step))
  {
    hide MarkOutcome;
  }

  lemma StepSlot(s: State, step: Step)
    requires FlagsInv(s) && SlotInv(s) && FlowInv(s) && Enabled(s, step)
    ensures SlotInv(Apply(s, step))
  {
    var s' := Apply(s, step);
    match step {
      case PostFrame =>
        if !s.m.terminal {
          assert s.published == s.offered[..|s.published|];
          assert s'.offered == s'.published + s.worker.rest.payloads;
          assert Numbered(s'.published)[..|s.delivered|] == Numbered(s.published)[..|s.delivered|];
        }
      case TakeFrame =>
        assert s'.delivered == Numbered(s.published)[..|s'.delivered|];
      case _ =>
    }
  }

  lemma StepFlow(s: State, step: Step)
    requires FlagsInv(s) && SlotInv(s) && FlowInv(s) && Enabled(s, step)
    ensures FlowInv(Apply(s, step))
  {
    hide Numbered, MarkOutcome, MustNotify;
  }

  lemma StepBegun(s: State, step: Step)
    requires FlagsInv(s) && BegunInv(s) && EndInv(s) && Enabled(s, step)
    ensures BegunInv(Apply(s, step))
  {
    hide MarkOutcome, MustNotify, AllPayloads, Numbered;
    if step.BeginBatch? {
      BeginIsCurrent(s.begun, step.offer);
    } else if step.EndBatch? {
      EndIsWhole(s.begun, s.worker.rest);
    }
    hide AllWhole, Current;
  }

  lemma BeginIsCurrent(begun: seq<Offer>, offer: Offer)
    ensures AllPayloads(begun + [offer]) == AllPayloads(begun) + offer.payloads
    ensures AllWhole(begun) ==> Current(begun + [offer], offer)
  {
    assert (begun + [offer])[..|begun|] == begun;
  }

  lemma EndIsWhole(begun: seq<Offer>, rest: Offer)
    ensures Current(begun, rest) && rest.whole ==> AllWhole(begun)
  {
  }

  lemma StepEnd(s: State, step: Step)
    requires Inv(s) && Enabled(s, step)
    ensures EndInv(Apply(s, step))
  {
    hide NotifyInv, BegunInv, MarkOutcome, MustNotify;
  }

  lemma StepInv(s: State, step: Step)
    requires Inv(s) && Enabled(s, step)
    ensures Inv(Apply(s, step))
  {
    hide FlagsInv, NotifyInv, SlotInv, FlowInv, BegunInv, EndInv, Apply, Enabled;
    StepFlags(s, step);
    StepNotify(s, step);
    StepSlot(s, step);
    StepFlow(s, step);
    StepBegun(s, step);
    StepEnd(s, step);
  }

  lemma {:induction false} RunInv(s: State, steps: seq<Step>, t: State)
    requires Inv(s) && Reaches(s, steps, t)
    ensures Inv(t)
    decreases |steps|
  {
    if steps != [] {
      StepInv(s, steps[0]);
      RunInv(Apply(s, steps[0]), steps[1..], t);
    }
  }

  // ---------------------------------------------------------------------------
  // What no later step can undo
  // ---------------------------------------------------------------------------

  ghost predicate Later(s: State, t: State) {
    && t.limit == s.limit
    && (s.m.terminal ==>
          && t.m.terminal
          && t.m.status == s.m.status
          && t.published == s.published
          && t.delivered == s.delivered)
    && (s.m.quiesced ==> t.m.quiesced && !InBatch(t.worker))
    && (s.m.notified ==> t.m.notified)
    && (s.m.claimed ==> t.m.claimed)
    && (s.ended.Some? ==> t.ended == s.ended)
    && s.published <= t.published
    && s.delivered <= t.delivered
    && s.offered <= t.offered && s.begun <= t.begun
    && s.fired <= t.fired
  }

  lemma StepLater(s: State, step: Step)
    requires Inv(s) && Enabled(s, step)
    ensures Later(s, Apply(s, step))
  {
    hide NotifyInv, FlowInv, BegunInv, Numbered, MarkOutcome, MustNotify;
    StepFlags(s, step);
  }

  lemma {:induction false} RunLater(s: State, steps: seq<Step>, t: State)
    requires Inv(s) && Reaches(s, steps, t)
    ensures Later(s, t)
    decreases |steps|
  {
    if steps != [] {
      var u := Apply(s, steps[0]);
      StepLater(s, steps[0]);
      StepInv(s, steps[0]);
      RunLater(u, steps[1..], t);
    }
  }

  // ---------------------------------------------------------------------------
  // Theorems over every interleaving
  // ---------------------------------------------------------------------------

  /**
   A clean end of stream means a complete result. In every interleaving the reader holds frames
   numbered 1, 2, 3, ... carrying a prefix of what was published; a terminal execution holds no
   frame; and a reader told OK has every payload of every batch the worker was ever given, each of
   which was split to its end.
   */
  lemma CleanEndIsComplete(limit: nat, steps: seq<Step>, t: State)
    requires Reaches(Init(limit), steps, t)
    ensures |t.delivered| <= |t.published| <= |t.delivered| + 1
    ensures t.delivered == Numbered(t.published)[..|t.delivered|]
    ensures t.published <= t.offered
    ensures t.m.terminal ==> t.m.frame.None?
    ensures t.offered == AllPayloads(t.begun)
    ensures t.ended == Some(OK) ==> t.delivered == Numbered(t.offered) && AllWhole(t.begun)
  {
    InitInv(limit);
    RunInv(Init(limit), steps, t);
  }

  /** The first terminal status wins, and whatever the reader is told is that status, however often it asks. */
  lemma FirstTerminalStatusWins(limit: nat, before: seq<Step>, s: State, after: seq<Step>, t: State)
    requires Reaches(Init(limit), before, s) && s.m.terminal && Reaches(s, after, t)
    ensures t.m.terminal && t.m.status == s.m.status
    ensures t.ended.Some? ==> t.ended.value == s.m.status
    ensures t.delivered == s.delivered && t.published == s.published
  {
    InitInv(limit);
    RunInv(Init(limit), before, s);
    RunInv(s, after, t);
    RunLater(s, after, t);
  }

  /** Once quiesced, no worker is inside a batch, now or ever: none runs and none can start. */
  lemma QuiescenceIsFinal(limit: nat, before: seq<Step>, s: State, after: seq<Step>, t: State)
    requires Reaches(Init(limit), before, s) && s.m.quiesced && Reaches(s, after, t)
    ensures s.m.terminal && t.m.quiesced
    ensures !InBatch(s.worker) && !InBatch(t.worker)
    ensures !Enabled(t, Start)
    ensures t.published == s.published && t.delivered == s.delivered
  {
    InitInv(limit);
    RunInv(Init(limit), before, s);
    RunInv(s, after, t);
    RunLater(s, after, t);
  }

  /**
   The terminal notification is neither repeated nor lost, although handlers are counted outside
   the mutex: at most one invocation, only after quiescence, and whenever no call is still on its
   way to deliver it, a quiesced execution without handlers has been notified. A ticket is
   claimed at most once.
   */
  lemma NotifiedExactlyOnce(limit: nat, steps: seq<Step>, t: State)
    requires Reaches(Init(limit), steps, t)
    ensures t.fired <= 1 && t.claims <= 1
    ensures t.fired == 1 ==> t.m.quiesced
    ensures t.m.quiesced && t.handlers == 0 && t.notifying == 0 && t.firing == 0 && !t.worker.FinishNotify?
            ==> t.fired == 1
  {
    InitInv(limit);
    RunInv(Init(limit), steps, t);
  }

  /** In every reachable state the critical sections are entered as their methods require. */
  lemma SectionsAreEntered(limit: nat, steps: seq<Step>, t: State)
    requires Reaches(Init(limit), steps, t)
    ensures Consistent(t.m)
    ensures Enabled(t, QuiesceMark) ==> t.m.terminal
    ensures Enabled(t, Finish) ==> t.m.frame.None?
  {
    hide SlotInv, FlowInv, BegunInv, EndInv;
    InitInv(limit);
    RunInv(Init(limit), steps, t);
  }

  /**
   The cause of the ending decides the status, for ever: a cancel gives its own code, a batch callback
   past the deadline gives DEADLINE_EXCEEDED, the end of the worker gives the worker's status, and
   nothing else ends an execution. Whatever the reader is told later is that status.
   */
  lemma CauseDecidesStatus(limit: nat, before: seq<Step>, s: State, step: Step, after: seq<Step>, t: State)
    requires Reaches(Init(limit), before, s) && !s.m.terminal && Enabled(s, step) && Apply(s, step).m.terminal
    requires Reaches(Apply(s, step), after, t)
    ensures step.CancelMark? || step == CheckDeadline(true) || step.Finish?
    ensures step.CancelMark? ==> t.m.status == Error(step.code)
    ensures step.CheckDeadline? ==> t.m.status == Error(DeadlineExceeded)
    ensures step.Finish? ==> s.worker.Unwinding? && t.m.status == s.worker.status
    ensures t.ended.Some? ==> t.ended.value == t.m.status
  {
    hide NotifyInv, SlotInv, FlowInv, BegunInv, Reaches;
    InitInv(limit);
    RunInv(Init(limit), before, s);
    StepInv(s, step);
    RunInv(Apply(s, step), after, t);
    RunLater(Apply(s, step), after, t);
  }

  /** The worker's status is what `run_batches` did: returned, threw a code, or had its callback throw. */
  lemma WorkerStatus(s: State, step: Step)
    requires Enabled(s, step) && (step.RunReturns? || step.RunThrows? || step.EncodeFails?)
    ensures step.RunReturns? ==> Apply(s, step).worker == Unwinding(OK)
    ensures step.RunThrows? ==> Apply(s, step).worker == Unwinding(Error(step.code))
    ensures step.EncodeFails? ==> Apply(s, step).worker == Unwinding(Error(ExecutionFailed))
  {
  }

  predicate Publishable(s: State, payload: Payload) {
    1 <= |payload| <= s.limit && |s.published| < MAX_U64
  }

  /**
   A running execution makes progress. A ticket can be claimed exactly as long as nobody did and
   nothing ended it, and a worker started exactly once after that. The next payload is framed with the
   next number and then posted exactly if it is not empty, within the limit and numberable, and
   otherwise ends the worker with EXECUTION_FAILED; the reader takes a posted frame with the number
   after its last.
   */
  lemma RunningMakesProgress(limit: nat, steps: seq<Step>, t: State)
    requires Reaches(Init(limit), steps, t)
    ensures Enabled(t, Claim) <==> t.claims == 0 && !t.m.terminal
    ensures Enabled(t, Start) <==> t.claims == 1 && !t.m.terminal && t.worker.NotStarted?
    ensures !t.m.terminal && t.worker.Batch? && t.worker.rest.payloads != [] ==>
              var p, rest := t.worker.rest.payloads[0], t.worker.rest.payloads[1..];
              Apply(t, BuildFrame).worker ==
                if Publishable(t, p) then Ready(Frame(|t.published| + 1, p), t.worker.rest.(payloads := rest))
                else Unwinding(Error(ExecutionFailed))
    ensures !t.m.terminal && t.worker.Ready? ==>
              && Enabled(t, PostFrame) && Apply(t, PostFrame).m.frame == Some(t.worker.next)
              && Apply(t, PostFrame).published == t.published + [t.worker.next.payload]
    ensures Enabled(t, TakeFrame) ==>
              && |t.delivered| < |t.published|
              && Apply(t, TakeFrame).delivered == t.delivered + [Frame(|t.delivered| + 1, t.published[|t.delivered|])]
    ensures t.limit == limit
  {
    hide Reaches, BegunInv, EndInv;
    InitInv(limit);
    RunInv(Init(limit), steps, t);
    RunLater(Init(limit), steps, t);
  }

  // ---------------------------------------------------------------------------
  // A terminal execution settles
  // ---------------------------------------------------------------------------

  /**
   Steps that only wind the execution down: the worker's, those of calls in flight and the leaving of
   input handlers. Every other step is a new batch, a new cancel, a new handler or a look by the reader.
   */
  predicate Winding(step: Step) {
    match step
    case QuiesceMark | NotifyTerminal | FireTerminal | DetachHandler => true
    case CheckDeadline(_) | EndBatch | BuildFrame | PostFrame | AwaitRelease => true
    case EncodeFails | RunReturns | RunThrows(_) | Finish | WorkerNotifies => true
    case _ => false
  }

  function Windings(steps: seq<Step>): (n: nat)
    ensures n <= |steps|
  {
    if steps == [] then 0 else (if Winding(steps[0]) then 1 else 0) + Windings(steps[1..])
  }

  function WorkerRank(w: Worker): nat {
    match w
    case Entered(_) => 9
    case Batch(_) => 8
    case Ready(_, _) | Posted(_) | DeadlineNotify => 7
    case Idle => 6
    case Unwinding(_) => 5
    case FinishNotify => 4
    case _ => 0
  }

  function Rank(s: State): nat {
    WorkerRank(s.worker) + 3 * s.handlers + 3 * s.quiescing + 2 * s.notifying + s.firing
  }

  /** Winding steps lower the rank, and no other step raises it by more than three. */
  lemma RankDescends(s: State, step: Step)
    requires Inv(s) && s.m.terminal && Enabled(s, step)
    ensures Winding(step) ==> Rank(Apply(s, step)) < Rank(s)
    ensures !Winding(step) ==> Rank(Apply(s, step)) <= Rank(s) + 3
    ensures Apply(s, step).m.terminal
  {
    hide NotifyInv, SlotInv, FlowInv, BegunInv, EndInv;
  }

  ghost predicate Settled(s: State) {
    forall step :: Winding(step) ==> !Enabled(s, step)
  }

  lemma SettledCalls(s: State)
    requires Settled(s)
    ensures s.quiescing == s.notifying == s.firing == s.handlers == 0
  {
    assert !Enabled(s, QuiesceMark) && !Enabled(s, NotifyTerminal);
    assert !Enabled(s, FireTerminal) && !Enabled(s, DetachHandler);
  }

  lemma SettledWorker(s: State)
    requires s.m.terminal && Settled(s)
    ensures s.worker.NotStarted? || s.worker.Exited?
  {
    assert !Enabled(s, RunReturns) && !Enabled(s, EncodeFails) && !Enabled(s, CheckDeadline(false));
    assert !Enabled(s, PostFrame) && !Enabled(s, AwaitRelease);
    assert !Enabled(s, Finish) && !Enabled(s, WorkerNotifies);
  }

  lemma SettledIsNotified(s: State)
    requires Inv(s) && s.m.terminal && Settled(s)
    ensures s.handlers == 0 && s.m.quiesced && s.fired == 1 && !InBatch(s.worker)
  {
    hide SlotInv, FlowInv, BegunInv, EndInv, Settled;
    SettledCalls(s);
    SettledWorker(s);
  }

  lemma {:induction false} WindingsAreBounded(s: State, steps: seq<Step>, t: State)
    requires Inv(s) && s.m.terminal && Reaches(s, steps, t)
    ensures Windings(steps) <= Rank(s) + 3 * (|steps| - Windings(steps))
    decreases |steps|
  {
    hide Inv, Apply, Enabled, Rank, Winding;
    if steps != [] {
      StepInv(s, steps[0]);
      RankDescends(s, steps[0]);
      WindingsAreBounded(Apply(s, steps[0]), steps[1..], t);
    }
  }

  /**
   A terminal execution settles, whatever the schedule, the batches still handed over, the handlers
   still attached and the cancels that still arrive: in every run the winding steps are bounded by the
   rank and three for each other step, and when none is left the handlers are gone, and the execution
   has quiesced and notified exactly once with its first status.
   */
  lemma CancellationSettles(limit: nat, before: seq<Step>, s: State, after: seq<Step>, t: State)
    requires Reaches(Init(limit), before, s) && s.m.terminal && Reaches(s, after, t)
    ensures Windings(after) <= Rank(s) + 3 * (|after| - Windings(after))
    ensures Settled(t) ==> t.handlers == 0 && t.m.quiesced && t.fired == 1 && t.m.status == s.m.status
  {
    hide Inv, Reaches, Rank, Settled;
    InitInv(limit);
    RunInv(Init(limit), before, s);
    RunInv(s, after, t);
    RunLater(s, after, t);
    WindingsAreBounded(s, after, t);
    if Settled(t) { SettledIsNotified(t); }
  }
}
