/**
 The ticket registry: every prepared execution of the process, the idempotency records that
 deduplicate preparations, and the callers that wait on, build, publish, replay, cancel, seal or
 remove them.

 `Tables` is what the registry's mutex protects and each function on it is one critical section.
 `System` joins the tables, all concurrent callers of `prepare`, and one `Execution.State` per
 constructed execution, so one run interleaves the registry with every thread of every execution.
 */
module Registry {
  import opened Bytes
  import E = Execution

  type Ticket = Bytes
  type Key = Bytes
  type Fingerprint = Bytes

  /** `id` tells apart the successive records that may occupy one key; the code identifies them by their slot in the
   map. */
  datatype Record = Record(id: nat, fingerprint: Fingerprint, ticket: Option<Ticket>, preparing: bool,
    cancelRequested: bool)

  datatype Tables = Tables(
    entries: map<Ticket, Key>,
    idempotency: map<Key, Record>,
    reserved: nat,
    stopped: bool,
    gpuUnavailable: bool)

  datatype Refusal =
    | Stopping
    | GpuUnavailable
    | TicketLimit
    | CapacityExhausted
    | IdempotencyConflict
    | IdempotencyInProgress
    | IdempotencyTerminal
    | IdempotencyStateInvalid
    | AlreadyClaimed
    | CancelledWhilePreparing
    | PrepareFailed

  datatype Verdict = Refuse(why: Refusal) | Reserve | AwaitPreparation | Reuse(id: nat, ticket: Ticket)

  // ---------------------------------------------------------------------------
  // Critical sections
  // ---------------------------------------------------------------------------

  /** `entries` and the records that are not preparing are each other's inverse. */
  predicate Paired(tables: Tables) {
    && (tables.gpuUnavailable ==> tables.stopped)
    && (forall t :: t in tables.entries ==>
          var k := tables.entries[t];
          k in tables.idempotency && tables.idempotency[k].ticket == Some(t) && !tables.idempotency[k].preparing)
    && (forall k :: k in tables.idempotency && !tables.idempotency[k].preparing ==>
          var ticket := tables.idempotency[k].ticket;
          ticket.Some? && ticket.value in tables.entries && tables.entries[ticket.value] == k)
  }

  /** One turn of the loop at the head of `prepare`; `leased` is the admission controller's answer. */
  function LookUp(tables: Tables, max: nat, key: Key, fingerprint: Fingerprint, leased: bool): Verdict {
    if tables.stopped then Refuse(if tables.gpuUnavailable then GpuUnavailable else Stopping)
    else if key !in tables.idempotency then
      if |tables.entries| + tables.reserved >= max then Refuse(TicketLimit)
      else if !leased then Refuse(CapacityExhausted)
      else Reserve
    else
      var record := tables.idempotency[key];
      if record.fingerprint != fingerprint then Refuse(IdempotencyConflict)
      else if record.preparing then AwaitPreparation
      else if record.cancelRequested then Refuse(IdempotencyTerminal)
      else if record.ticket.None? || record.ticket.value !in tables.entries then Refuse(IdempotencyStateInvalid)
      else Reuse(record.id, record.ticket.value)
  }

  function Reserved(tables: Tables, key: Key, fingerprint: Fingerprint, id: nat): Tables {
    tables.(reserved := tables.reserved + 1,
            idempotency := tables.idempotency[key := Record(id, fingerprint, None, true, false)])
  }

  function Released(tables: Tables, key: Key): Tables
    requires tables.reserved > 0
  {
    tables.(reserved := tables.reserved - 1, idempotency := tables.idempotency - {key})
  }

  function Published(tables: Tables, key: Key, ticket: Ticket): Tables
    requires tables.reserved > 0 && key in tables.idempotency && !tables.stopped
  {
    var record := tables.idempotency[key].(ticket := Some(ticket), preparing := false);
    tables.(reserved := tables.reserved - 1,
            entries := tables.entries[ticket := key],
            idempotency := tables.idempotency[key := record])
  }

  function Removed(tables: Tables, ticket: Ticket): Tables {
    if ticket in tables.entries
    then tables.(idempotency := tables.idempotency - {tables.entries[ticket]}, entries := tables.entries - {ticket})
    else tables
  }

  function CancelledKey(tables: Tables, key: Key): Tables {
    if tables.stopped || key !in tables.idempotency then tables
    else tables.(idempotency := tables.idempotency[key := tables.idempotency[key].(cancelRequested := true)])
  }

  function Sealed(tables: Tables): Tables {
    tables.(gpuUnavailable := true, stopped := true)
  }

  function Cleared(tables: Tables): Tables {
    tables.(entries := map[], idempotency := map[])
  }

  // ---------------------------------------------------------------------------
  // Callers, executions and steps
  // ---------------------------------------------------------------------------

  /** Where one call of `prepare` is. */
  datatype Caller =
    | Looking(key: Key, fingerprint: Fingerprint)
    | Waiting(key: Key, fingerprint: Fingerprint)
    | Building(key: Key, id: nat)
    | Built(key: Key, id: nat, ticket: Ticket)
    | Aborting(ticket: Ticket, gpu: bool)
    | CancelJoining(id: nat, ticket: Ticket)
    | Replaying(id: nat, ticket: Ticket)
    | Granted(id: nat, ticket: Ticket)
    | Refused(why: Refusal)

  predicate Builds(c: Caller) {
    c.Building? || c.Built?
  }

  /** Where the thread that shuts the registry down is; `todo` holds the executions it has yet to cancel or join. */
  datatype Shutdown = Running | Cancelling(todo: set<Ticket>) | Joining(todo: set<Ticket>) | Done

  /** What a caller of `prepare` asks for: the key of its request and the request's fingerprint. */
  datatype Request = Request(key: Key, fingerprint: Fingerprint)

  datatype System = System(
    max: nat,                             // max_active_tickets
    tables: Tables,
    callers: map<nat, Caller>,
    executions: map<Ticket, E.State>,     // every execution ever constructed
    exposed: set<Ticket>,                 // executions some thread other than their builder can reach
    admitted: set<Ticket>,                // executions that entered `entries`
    nextId: nat,
    asked: map<nat, Request>,             // what each caller asked for
    reservedFor: map<nat, Request>,       // what each record was reserved for
    ticketOf: map<nat, Ticket>,           // the ticket published for each record
    cancelledPreparing: set<nat>,         // records cancelled by key while they were preparing
    sealed: set<Ticket>,                  // entries present at the GPU seal
    sealTodo: set<Ticket>,                // of those, the ones the sealer has yet to fail
    shutdown: Shutdown,
    cleared: bool)                        // shutdown's final clear has happened

  function Init(max: nat): System {
    System(max, Tables(map[], map[], 0, false, false), map[], map[], {}, {}, 0, map[], map[], map[], {}, {}, {},
      Running, false)
  }

  datatype Step =
    | Call(p: nat, key: Key, fingerprint: Fingerprint)
    | Look(p: nat, leased: bool)
    | Wake(p: nat)
    | WaitExpires(p: nat)
    | BuildFails(p: nat)
    | BuildSucceeds(p: nat, ticket: Ticket, limit: nat)
    | Publish(p: nat)
    | Abort(p: nat)
    | CancelJoin(p: nat)
    | Replay(p: nat)
    | CancelKey(key: Key)
    | Stop
    | Seal
    | SealOne(ticket: Ticket)
    | BeginShutdown
    | ShutdownCancel(ticket: Ticket)
    | BeginJoins
    | ShutdownJoin(ticket: Ticket)
    | Clear
    | Entry(ticket: Ticket, step: E.Step)
    | FireAndRemove(ticket: Ticket)

  predicate Enabled(s: System, step: Step) {
    match step
    case Call(p, _, _) => p !in s.callers
    case Look(p, _) => p in s.callers && s.callers[p].Looking?
    case Wake(p) => p in s.callers && s.callers[p].Waiting?
    case WaitExpires(p) => p in s.callers && s.callers[p].Waiting?
    case BuildFails(p) => p in s.callers && s.callers[p].Building? && s.tables.reserved > 0
    case BuildSucceeds(p, ticket, _) => p in s.callers && s.callers[p].Building? && ticket !in s.executions
    case Publish(p) =>
      && p in s.callers && s.callers[p].Built? && s.tables.reserved > 0
      && s.callers[p].ticket in s.executions
      && (!s.tables.stopped ==> s.callers[p].key in s.tables.idempotency)
    case Abort(p) => p in s.callers && s.callers[p].Aborting? && s.callers[p].ticket in s.executions
    case CancelJoin(p) => p in s.callers && s.callers[p].CancelJoining? && s.callers[p].ticket in s.executions
    case Replay(p) => p in s.callers && s.callers[p].Replaying? && s.callers[p].ticket in s.executions
    case CancelKey(_) => true
    case Stop => true
    case Seal => !s.tables.gpuUnavailable
    case SealOne(ticket) => ticket in s.sealTodo && ticket in s.executions
    case BeginShutdown => s.shutdown.Running?
    case ShutdownCancel(ticket) => s.shutdown.Cancelling? && ticket in s.shutdown.todo && ticket in s.executions
    case BeginJoins => s.shutdown == Cancelling({})
    case ShutdownJoin(ticket) =>
      && s.shutdown.Joining? && ticket in s.shutdown.todo && ticket in s.executions
      && (!s.executions[ticket].m.joinable || s.executions[ticket].worker.Exited?)
    case Clear => s.shutdown == Joining({})
    case Entry(ticket, step) =>
      && ticket in s.exposed && ticket in s.executions && !step.FireTerminal?
      && E.Enabled(s.executions[ticket], step)
    case FireAndRemove(ticket) =>
      && ticket in s.exposed && ticket in s.executions
      && E.Enabled(s.executions[ticket], E.FireTerminal)
  }

  function Run(s: System, ticket: Ticket, step: E.Step): System
    requires ticket in s.executions && E.Enabled(s.executions[ticket], step)
  {
    s.(executions := s.executions[ticket := E.Apply(s.executions[ticket], step)])
  }

  function Goto(s: System, p: nat, c: Caller): System {
    s.(callers := s.callers[p := c])
  }

  function AfterReserve(s: System, p: nat): System
    requires p in s.callers && s.callers[p].Looking?
  {
    var c := s.callers[p];
    Goto(s, p, Building(c.key, s.nextId))
      .(tables := Reserved(s.tables, c.key, c.fingerprint, s.nextId), nextId := s.nextId + 1,
        reservedFor := s.reservedFor[s.nextId := Request(c.key, c.fingerprint)])
  }

  function AfterLook(s: System, p: nat, leased: bool): System
    requires p in s.callers && s.callers[p].Looking?
  {
    var c := s.callers[p];
    match LookUp(s.tables, s.max, c.key, c.fingerprint, leased)
    case Refuse(why) => Goto(s, p, Refused(why))
    case Reserve => AfterReserve(s, p)
    case AwaitPreparation => Goto(s, p, Waiting(c.key, c.fingerprint))
    case Reuse(id, ticket) => Goto(s, p, Replaying(id, ticket))
  }

  /** A builder gives its reservation up and erases its record. */
  function AfterRelease(s: System, p: nat, c: Caller): System
    requires p in s.callers && Builds(s.callers[p]) && s.tables.reserved > 0
  {
    Goto(s, p, c).(tables := Released(s.tables, s.callers[p].key))
  }

  function AfterBuild(s: System, p: nat, ticket: Ticket, limit: nat): System
    requires p in s.callers && s.callers[p].Building?
  {
    Goto(s, p, Built(s.callers[p].key, s.callers[p].id, ticket))
      .(executions := s.executions[ticket := E.Init(limit)])
  }

  function AfterAdmit(s: System, p: nat): System
    requires p in s.callers && s.callers[p].Built? && s.tables.reserved > 0
    requires !s.tables.stopped && s.callers[p].key in s.tables.idempotency
  {
    var c := s.callers[p];
    var cancelled := s.tables.idempotency[c.key].cancelRequested;
    Goto(s, p, if cancelled then CancelJoining(c.id, c.ticket) else Granted(c.id, c.ticket))
      .(tables := Published(s.tables, c.key, c.ticket),
        exposed := s.exposed + {c.ticket},
        admitted := s.admitted + {c.ticket},
        ticketOf := s.ticketOf[c.id := c.ticket])
  }

  function AfterPublish(s: System, p: nat): System
    requires Enabled(s, Publish(p))
  {
    var ticket := s.callers[p].ticket;
    if s.tables.stopped
    then AfterRelease(s, p, Aborting(ticket, s.tables.gpuUnavailable)).(exposed := s.exposed + {ticket})
    else AfterAdmit(s, p)
  }

  function AfterCancelKey(s: System, key: Key): System {
    var hit := !s.tables.stopped && key in s.tables.idempotency && s.tables.idempotency[key].preparing;
    s.(tables := CancelledKey(s.tables, key),
       cancelledPreparing := if hit then s.cancelledPreparing + {s.tables.idempotency[key].id}
         else s.cancelledPreparing)
  }

  function Apply(s: System, step: Step): System
    requires Enabled(s, step)
  {
    match step
    case Call(p, key, fingerprint) =>
      Goto(s, p, Looking(key, fingerprint)).(asked := s.asked[p := Request(key, fingerprint)])
    case Look(p, leased) => AfterLook(s, p, leased)
    case Wake(p) => Goto(s, p, Looking(s.callers[p].key, s.callers[p].fingerprint))
    case WaitExpires(p) => Goto(s, p, Refused(IdempotencyInProgress))
    case BuildFails(p) => AfterRelease(s, p, Refused(PrepareFailed))
    case BuildSucceeds(p, ticket, limit) => AfterBuild(s, p, ticket, limit)
    case Publish(p) => AfterPublish(s, p)
    case Abort(p) =>
      var c := s.callers[p];
      Goto(Run(s, c.ticket, E.CancelMark(if c.gpu then E.GpuDeviceUnavailable else E.Cancelled)),
           p, Refused(if c.gpu then GpuUnavailable else Stopping))
    case CancelJoin(p) =>
      Goto(Run(s, s.callers[p].ticket, E.CancelMark(E.Cancelled)), p, Refused(CancelledWhilePreparing))
    case Replay(p) =>
      var c := s.callers[p];
      Goto(s, p, if E.Replayable(s.executions[c.ticket].m) then Granted(c.id, c.ticket) else Refused(AlreadyClaimed))
    case CancelKey(key) => AfterCancelKey(s, key)
    case Stop => s.(tables := s.tables.(stopped := true))
    case Seal => s.(tables := Sealed(s.tables), sealed := s.tables.entries.Keys, sealTodo := s.tables.entries.Keys)
    case SealOne(ticket) =>
      Run(s, ticket, E.CancelMark(E.GpuDeviceUnavailable)).(sealTodo := s.sealTodo - {ticket})
    case BeginShutdown => s.(tables := s.tables.(stopped := true), shutdown := Cancelling(s.tables.entries.Keys))
    case ShutdownCancel(ticket) =>
      Run(s, ticket, E.CancelMark(E.Cancelled)).(shutdown := Cancelling(s.shutdown.todo - {ticket}))
    case BeginJoins => s.(shutdown := Joining(s.tables.entries.Keys))
    case ShutdownJoin(ticket) =>
      (if s.executions[ticket].m.joinable then Run(s, ticket, E.Join) else s)
        .(shutdown := Joining(s.shutdown.todo - {ticket}))
    case Clear => s.(tables := Cleared(s.tables), cleared := true, shutdown := Done)
    case Entry(ticket, step) => Run(s, ticket, step)
    case FireAndRemove(ticket) => Run(s, ticket, E.FireTerminal).(tables := Removed(s.tables, ticket))
  }

  predicate Reaches(s: System, steps: seq<Step>, t: System)
    decreases |steps|
  {
    if steps == [] then s == t
    else Enabled(s, steps[0]) && Reaches(Apply(s, steps[0]), steps[1..], t)
  }
}
