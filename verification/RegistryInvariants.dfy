/** What every interleaving of the registry keeps, and the theorems that follow. */
module RegistryInvariants {
  import opened Bytes
  import opened Registry
  import E = Execution

  // ---------------------------------------------------------------------------
  // The inductive invariant, in four groups
  // ---------------------------------------------------------------------------

  function PreparingKeys(idempotency: map<Key, Record>): set<Key> {
    set k | k in idempotency && idempotency[k].preparing
  }

  function Builders(callers: map<nat, Caller>): set<nat> {
    set p | p in callers && Builds(callers[p])
  }

  /** `entries` and the non-preparing records are each other's inverse, until the final clear empties both. */
  predicate TablesInv(s: System) {
    && Paired(s.tables)
    && (s.cleared ==> s.tables.stopped && s.tables.entries == map[] && s.tables.idempotency == map[])
  }

  predicate CountInv(s: System) {
    && s.tables.reserved == |Builders(s.callers)|
    && (!s.cleared ==> s.tables.reserved == |PreparingKeys(s.tables.idempotency)|)
    && |s.tables.entries| + s.tables.reserved <= s.max
  }

  /** Each caller that builds owns one preparing record, and no two own the same. */
  predicate OwnershipInv(s: System) {
    && (forall p :: p in s.callers && Builds(s.callers[p]) ==>
          var c := s.callers[p];
          && c.id < s.nextId && c.id !in s.ticketOf
          && (!s.cleared ==>
                && c.key in s.tables.idempotency
                && s.tables.idempotency[c.key].preparing
                && s.tables.idempotency[c.key].id == c.id))
    && (forall p, q :: p in s.callers && q in s.callers && Builds(s.callers[p]) && Builds(s.callers[q]) && p != q ==>
          s.callers[p].key != s.callers[q].key && s.callers[p].id != s.callers[q].id)
  }

  predicate RecordInv(s: System) {
    && (forall k :: k in s.tables.idempotency ==>
          var r := s.tables.idempotency[k];
          && r.id < s.nextId
          && (r.preparing ==> r.id !in s.ticketOf)
          && (!r.preparing ==> r.id in s.ticketOf && Some(s.ticketOf[r.id]) == r.ticket)
          && (r.id in s.cancelledPreparing ==> r.cancelRequested))
    && (forall k, l :: k in s.tables.idempotency && l in s.tables.idempotency && k != l ==>
          s.tables.idempotency[k].id != s.tables.idempotency[l].id)
    && (forall id :: id in s.ticketOf ==> id < s.nextId)
    && (forall id :: id in s.cancelledPreparing ==> id < s.nextId)
  }

  /** Whoever holds or is about to return a ticket holds the ticket of a record nobody cancelled while it was
   preparing. */
  predicate GrantOk(s: System, c: Caller) {
    match c
    case Replaying(id, ticket) => id in s.ticketOf && s.ticketOf[id] == ticket && id !in s.cancelledPreparing
    case Granted(id, ticket) => id in s.ticketOf && s.ticketOf[id] == ticket && id !in s.cancelledPreparing
    case CancelJoining(id, ticket) => id in s.ticketOf && s.ticketOf[id] == ticket
    case _ => true
  }

  predicate GrantInv(s: System) {
    forall p :: p in s.callers ==> GrantOk(s, s.callers[p])
  }

  predicate ExposureInv(s: System) {
    && s.admitted <= s.exposed
    && (forall t :: t in s.exposed ==> t in s.executions)
    && (forall t :: t in s.tables.entries ==> t in s.admitted)
    && (forall id :: id in s.ticketOf ==> s.ticketOf[id] in s.admitted)
    && (forall i, j :: i in s.ticketOf && j in s.ticketOf && i != j ==> s.ticketOf[i] != s.ticketOf[j])
    && (forall p :: p in s.callers ==>
          match s.callers[p]
          case Built(_, _, ticket) =>
            ticket in s.executions && ticket !in s.exposed && s.executions[ticket].fired == 0
          case Aborting(ticket, _) => ticket in s.exposed
          case _ => true)
    && (forall p, q :: p in s.callers && q in s.callers && s.callers[p].Built? && s.callers[q].Built? && p != q ==>
          s.callers[p].ticket != s.callers[q].ticket)
  }

  predicate SoundInv(s: System) {
    forall t :: t in s.executions ==> E.Inv(s.executions[t])
  }

  predicate AtRest(e: E.State) {
    e.m.terminal && !E.InBatch(e.worker)
  }

  /** An admitted execution is in `entries` exactly until its terminal notification has fired. */
  predicate LifeInv(s: System) {
    && (!s.cleared ==> forall t :: t in s.admitted && t in s.executions ==>
          (t in s.tables.entries <==> s.executions[t].fired == 0))
    && (s.cleared ==> forall t :: t in s.admitted && t in s.executions ==> AtRest(s.executions[t]))
  }

  predicate SealInv(s: System) {
    && (!s.tables.gpuUnavailable ==> s.sealed == {})
    && s.sealTodo <= s.sealed
    && (forall t :: t in s.sealed ==> t in s.exposed)
    && (forall t :: t in s.sealed && t !in s.sealTodo && t in s.executions ==> s.executions[t].m.terminal)
    && (s.tables.gpuUnavailable ==> forall t :: t in s.tables.entries ==> t in s.sealed)
  }

  predicate BookInv(s: System) {
    TablesInv(s) && CountInv(s) && OwnershipInv(s) && RecordInv(s) && GrantInv(s)
  }

  predicate WorldInv(s: System) {
    ExposureInv(s) && LifeInv(s) && SealInv(s)
  }

  predicate CoreInv(s: System) {
    BookInv(s) && WorldInv(s) && SoundInv(s)
  }

  /**
   The shutdown thread works on snapshots that only shrink: what it has cancelled stays terminal, what
   it has joined stays at rest, and nothing enters `entries` behind its back.
   */
  predicate ShutInv(s: System) {
    && (s.cleared <==> s.shutdown.Done?)
    && (!s.shutdown.Running? ==> s.tables.stopped)
    && (s.shutdown.Cancelling? ==>
          && s.shutdown.todo <= s.exposed
          && forall t :: t in s.tables.entries && t in s.executions && t !in s.shutdown.todo ==>
            s.executions[t].m.terminal)
    && (s.shutdown.Joining? ==>
          && s.shutdown.todo <= s.exposed
          && forall t :: t in s.tables.entries && t in s.executions ==>
               s.executions[t].m.terminal && (t !in s.shutdown.todo ==> AtRest(s.executions[t])))
  }

  predicate Inv(s: System) {
    CoreInv(s) && ShutInv(s)
  }

  lemma InitInv(max: nat)
    ensures Inv(Init(max))
  {
    assert Builders(map[]) == {};
    assert PreparingKeys(map[]) == {};
  }

  // ---------------------------------------------------------------------------
  // One lemma per kind of transition
  // ---------------------------------------------------------------------------

  lemma BuildersUnchanged(callers: map<nat, Caller>, p: nat, c: Caller)
    requires Builds(c) <==> p in callers && Builds(callers[p])
    ensures Builders(callers[p := c]) == Builders(callers)
  {
  }

  lemma BuildersShrink(callers: map<nat, Caller>, p: nat, c: Caller)
    requires p in callers && Builds(callers[p]) && !Builds(c)
    ensures |Builders(callers[p := c])| == |Builders(callers)| - 1
  {
    assert Builders(callers[p := c]) == Builders(callers) - {p};
  }

  lemma BuildersGrow(callers: map<nat, Caller>, p: nat, c: Caller)
    requires p in callers && !Builds(callers[p]) && Builds(c)
    ensures |Builders(callers[p := c])| == |Builders(callers)| + 1
  {
    assert Builders(callers[p := c]) == Builders(callers) + {p};
  }

  lemma PreparingAdded(idempotency: map<Key, Record>, key: Key, r: Record)
    requires key !in idempotency && r.preparing
    ensures |PreparingKeys(idempotency[key := r])| == |PreparingKeys(idempotency)| + 1
  {
    assert PreparingKeys(idempotency[key := r]) == PreparingKeys(idempotency) + {key};
  }

  lemma PreparingErased(idempotency: map<Key, Record>, key: Key)
    requires key in idempotency && idempotency[key].preparing
    ensures |PreparingKeys(idempotency - {key})| == |PreparingKeys(idempotency)| - 1
  {
    assert PreparingKeys(idempotency - {key}) == PreparingKeys(idempotency) - {key};
  }

  lemma PreparingDone(idempotency: map<Key, Record>, key: Key, r: Record)
    requires key in idempotency && idempotency[key].preparing && !r.preparing
    ensures |PreparingKeys(idempotency[key := r])| == |PreparingKeys(idempotency)| - 1
  {
    assert PreparingKeys(idempotency[key := r]) == PreparingKeys(idempotency) - {key};
  }

  // A step that leaves the callers, the records and the counters alone.

  lemma SameBooks(s: System, s': System)
    requires CountInv(s) && OwnershipInv(s) && RecordInv(s) && GrantInv(s)
    requires s'.callers == s.callers && s'.max == s.max && s'.cleared == s.cleared && s'.nextId == s.nextId
    requires s'.ticketOf == s.ticketOf && s'.cancelledPreparing == s.cancelledPreparing
    requires s'.tables.entries == s.tables.entries && s'.tables.idempotency == s.tables.idempotency
    requires s'.tables.reserved == s.tables.reserved
    ensures CountInv(s') && OwnershipInv(s') && RecordInv(s') && GrantInv(s')
  {
    assert CountInv(s') && OwnershipInv(s') by { hide RecordInv, GrantInv; }
    assert RecordInv(s') && GrantInv(s') by { hide CountInv, OwnershipInv; }
    hide CountInv, OwnershipInv, RecordInv, GrantInv;
  }

  // A caller moves without building before or after.

  lemma GotoBooks(s: System, p: nat, c: Caller)
    requires BookInv(s) && !Builds(c) && (p in s.callers ==> !Builds(s.callers[p]))
    requires GrantOk(s, c)
    ensures BookInv(Goto(s, p, c))
  {
    BuildersUnchanged(s.callers, p, c);
    var s' := Goto(s, p, c);
    assert OwnershipInv(s');
  }

  lemma GotoWorld(s: System, p: nat, c: Caller)
    requires WorldInv(s) && !c.Built? && (c.Aborting? ==> c.ticket in s.exposed)
    ensures WorldInv(Goto(s, p, c))
  {
    var s' := Goto(s, p, c);
    assert ExposureInv(s');
  }

  // A caller reserves a ticket for a new record.

  lemma ReserveCount(s: System, p: nat)
    requires CountInv(s) && p in s.callers && s.callers[p].Looking? && s.callers[p].key !in s.tables.idempotency
    requires |s.tables.entries| + s.tables.reserved < s.max
    ensures CountInv(AfterReserve(s, p))
  {
    hide Builders, PreparingKeys;
    var key := s.callers[p].key;
    var s' := AfterReserve(s, p);
    BuildersGrow(s.callers, p, s'.callers[p]);
    PreparingAdded(s.tables.idempotency, key, s'.tables.idempotency[key]);
  }

  lemma ReserveOwnership(s: System, p: nat)
    requires TablesInv(s) && OwnershipInv(s) && RecordInv(s)
    requires p in s.callers && s.callers[p].Looking? && s.callers[p].key !in s.tables.idempotency && !s.tables.stopped
    ensures OwnershipInv(AfterReserve(s, p))
  {
  }

  lemma ReserveRecords(s: System, p: nat)
    requires TablesInv(s) && RecordInv(s) && GrantInv(s)
    requires p in s.callers && s.callers[p].Looking? && s.callers[p].key !in s.tables.idempotency && !s.tables.stopped
    ensures TablesInv(AfterReserve(s, p))
    ensures RecordInv(AfterReserve(s, p))
    ensures GrantInv(AfterReserve(s, p))
  {
    ReserveTables(s, p);
    ReserveGrants(s, p);
    hide TablesInv, GrantInv;
  }

  lemma ReserveTables(s: System, p: nat)
    requires TablesInv(s)
    requires p in s.callers && s.callers[p].Looking? && s.callers[p].key !in s.tables.idempotency && !s.tables.stopped
    ensures TablesInv(AfterReserve(s, p))
  {
  }

  lemma ReserveGrants(s: System, p: nat)
    requires RecordInv(s) && GrantInv(s)
    requires p in s.callers && s.callers[p].Looking? && s.callers[p].key !in s.tables.idempotency
    ensures GrantInv(AfterReserve(s, p))
  {
  }

  lemma ReserveWorld(s: System, p: nat)
    requires WorldInv(s) && p in s.callers && s.callers[p].Looking?
    ensures WorldInv(AfterReserve(s, p))
  {
    var s' := AfterReserve(s, p);
    assert ExposureInv(s');
  }

  // A builder gives up.

  lemma ReleaseCount(s: System, p: nat, c: Caller)
    requires TablesInv(s) && CountInv(s) && OwnershipInv(s)
    requires p in s.callers && Builds(s.callers[p]) && s.tables.reserved > 0 && !Builds(c)
    ensures CountInv(AfterRelease(s, p, c))
  {
    BuildersShrink(s.callers, p, c);
    if !s.cleared { PreparingErased(s.tables.idempotency, s.callers[p].key); }
  }

  lemma ReleaseTables(s: System, p: nat, c: Caller)
    requires TablesInv(s) && OwnershipInv(s) && RecordInv(s)
    requires p in s.callers && Builds(s.callers[p]) && s.tables.reserved > 0 && !Builds(c)
    ensures TablesInv(AfterRelease(s, p, c)) && RecordInv(AfterRelease(s, p, c))
  {
  }

  lemma ReleaseOwnership(s: System, p: nat, c: Caller)
    requires OwnershipInv(s) && GrantInv(s)
    requires p in s.callers && Builds(s.callers[p]) && s.tables.reserved > 0 && (c.Refused? || c.Aborting?)
    ensures OwnershipInv(AfterRelease(s, p, c)) && GrantInv(AfterRelease(s, p, c))
  {
  }

  lemma ReleaseWorld(s: System, p: nat, c: Caller)
    requires WorldInv(s) && p in s.callers && Builds(s.callers[p]) && s.tables.reserved > 0
    requires c.Refused?
    ensures WorldInv(AfterRelease(s, p, c))
  {
    var s' := AfterRelease(s, p, c);
    assert ExposureInv(s');
  }

  lemma AbortedWorld(s: System, p: nat, gpu: bool)
    requires WorldInv(s) && p in s.callers && s.callers[p].Built? && s.tables.reserved > 0
    ensures var ticket := s.callers[p].ticket;
            WorldInv(AfterRelease(s, p, Aborting(ticket, gpu)).(exposed := s.exposed + {ticket}))
  {
    var s' := AfterRelease(s, p, Aborting(s.callers[p].ticket, gpu)).(exposed := s.exposed + {s.callers[p].ticket});
    assert ExposureInv(s');
  }

  // A builder constructs its execution.

  lemma BuildBooks(s: System, p: nat, ticket: Ticket, limit: nat)
    requires BookInv(s) && p in s.callers && s.callers[p].Building?
    ensures BookInv(AfterBuild(s, p, ticket, limit))
  {
    var s' := AfterBuild(s, p, ticket, limit);
    hide OwnershipInv, Builders, PreparingKeys;
    BuildersUnchanged(s.callers, p, s'.callers[p]);
    BuildOwnership(s, p, ticket, limit);
    assert TablesInv(s') by { hide RecordInv, GrantInv, CountInv; }
    assert RecordInv(s') by { hide TablesInv, GrantInv, CountInv; }
    assert CountInv(s') by { hide TablesInv, RecordInv, GrantInv; }
    assert GrantInv(s') by { hide TablesInv, RecordInv, CountInv; }
    hide TablesInv, RecordInv, CountInv, GrantInv;
  }

  lemma BuildOwnership(s: System, p: nat, ticket: Ticket, limit: nat)
    requires OwnershipInv(s) && p in s.callers && s.callers[p].Building?
    ensures OwnershipInv(AfterBuild(s, p, ticket, limit))
  {
  }

  lemma BuildWorld(s: System, p: nat, ticket: Ticket, limit: nat)
    requires WorldInv(s) && p in s.callers && s.callers[p].Building? && ticket !in s.executions
    ensures WorldInv(AfterBuild(s, p, ticket, limit))
  {
    var s' := AfterBuild(s, p, ticket, limit);
    E.InitInv(limit);
    assert ExposureInv(s');
    assert LifeInv(s');
    assert SealInv(s');
  }

  // A builder publishes its execution.

  lemma AdmitCount(s: System, p: nat)
    requires CountInv(s) && OwnershipInv(s) && Enabled(s, Publish(p)) && !s.tables.stopped && !s.cleared
    ensures CountInv(AfterAdmit(s, p))
  {
    var s' := AfterAdmit(s, p);
    var c := s.callers[p];
    BuildersShrink(s.callers, p, s'.callers[p]);
    PreparingDone(s.tables.idempotency, c.key, s'.tables.idempotency[c.key]);
    EntriesGrow(s.tables.entries, c.ticket, c.key);
  }

  lemma EntriesGrow(entries: map<Ticket, Key>, ticket: Ticket, key: Key)
    ensures |entries[ticket := key]| <= |entries| + 1
  {
    assert entries[ticket := key].Keys == entries.Keys + {ticket};
    assert |entries[ticket := key].Keys| <= |entries.Keys| + 1;
  }

  lemma AdmitTables(s: System, p: nat)
    requires TablesInv(s) && OwnershipInv(s) && Enabled(s, Publish(p)) && !s.tables.stopped
    requires s.callers[p].ticket !in s.tables.entries
    ensures TablesInv(AfterAdmit(s, p))
  {
  }

  lemma AdmitOwnership(s: System, p: nat)
    requires TablesInv(s) && OwnershipInv(s) && Enabled(s, Publish(p)) && !s.tables.stopped
    ensures OwnershipInv(AfterAdmit(s, p))
  {
  }

  lemma AdmitRecords(s: System, p: nat)
    requires TablesInv(s) && OwnershipInv(s) && RecordInv(s) && Enabled(s, Publish(p)) && !s.tables.stopped
    ensures RecordInv(AfterAdmit(s, p))
  {
  }

  lemma AdmitGrant(s: System, p: nat)
    requires TablesInv(s) && OwnershipInv(s) && RecordInv(s) && GrantInv(s)
    requires Enabled(s, Publish(p)) && !s.tables.stopped
    ensures GrantInv(AfterAdmit(s, p))
  {
  }

  lemma AdmitWorld(s: System, p: nat)
    requires TablesInv(s) && WorldInv(s) && Enabled(s, Publish(p)) && !s.tables.stopped
    ensures WorldInv(AfterAdmit(s, p))
  {
    var s' := AfterAdmit(s, p);
    assert ExposureInv(s');
    assert LifeInv(s');
    assert SealInv(s');
  }

  // An execution takes one step.

  lemma ExecutionFacts(e: E.State, step: E.Step)
    requires E.Inv(e) && E.Enabled(e, step)
    ensures E.Inv(E.Apply(e, step))
    ensures e.m.terminal ==> E.Apply(e, step).m.terminal
    ensures AtRest(e) ==> AtRest(E.Apply(e, step))
    ensures E.Apply(e, step).fired == e.fired + if step.FireTerminal? then 1 else 0
    ensures step.CancelMark? ==> E.Apply(e, step).m.terminal
  {
    E.StepInv(e, step);
  }

  lemma RunWorld(s: System, ticket: Ticket, e: E.State)
    requires WorldInv(s) && ticket in s.exposed
    requires e.fired == s.executions[ticket].fired
    requires s.executions[ticket].m.terminal ==> e.m.terminal
    requires AtRest(s.executions[ticket]) ==> AtRest(e)
    ensures WorldInv(s.(executions := s.executions[ticket := e]))
  {
    var s' := s.(executions := s.executions[ticket := e]);
    assert ExposureInv(s');
    assert LifeInv(s');
    assert SealInv(s');
  }

  lemma RunBooks(s: System, executions: map<Ticket, E.State>)
    requires BookInv(s)
    ensures BookInv(s.(executions := executions))
  {
  }

  lemma SoundRun(s: System, ticket: Ticket, e: E.State, s': System)
    requires SoundInv(s) && E.Inv(e) && s'.executions == s.executions[ticket := e]
    ensures SoundInv(s')
  {
    hide E.Inv;
  }

  lemma SoundSame(s: System, s': System)
    requires SoundInv(s) && s'.executions == s.executions
    ensures SoundInv(s')
  {
    hide E.Inv;
  }

  lemma SoundAt(s: System, ticket: Ticket)
    requires CoreInv(s) && ticket in s.exposed
    ensures ticket in s.executions && E.Inv(s.executions[ticket])
  {
    hide E.Inv, TablesInv, CountInv, OwnershipInv, RecordInv, GrantInv, LifeInv, SealInv;
  }

  lemma RunKeeps(s: System, ticket: Ticket, step: E.Step)
    requires CoreInv(s) && ticket in s.exposed && ticket in s.executions
    requires E.Enabled(s.executions[ticket], step) && !step.FireTerminal?
    ensures CoreInv(Run(s, ticket, step))
  {
    hide TablesInv, CountInv, OwnershipInv, RecordInv, GrantInv, ExposureInv, LifeInv, SealInv, SoundInv;
    hide E.Inv, E.Enabled, E.Apply, AtRest;
    var e := E.Apply(s.executions[ticket], step);
    SoundAt(s, ticket);
    ExecutionFacts(s.executions[ticket], step);
    RunWorld(s, ticket, e);
    RunBooks(s, Run(s, ticket, step).executions);
    SoundRun(s, ticket, e, Run(s, ticket, step));
  }

  // An execution fires its terminal notification and leaves the registry.

  function Gone(s: System, ticket: Ticket, e: E.State): System {
    s.(executions := s.executions[ticket := e], tables := Removed(s.tables, ticket))
  }

  lemma RemoveCount(s: System, ticket: Ticket, e: E.State)
    requires TablesInv(s) && CountInv(s)
    ensures CountInv(Gone(s, ticket, e))
  {
    var s' := Gone(s, ticket, e);
    if ticket in s.tables.entries {
      assert PreparingKeys(s'.tables.idempotency) == PreparingKeys(s.tables.idempotency);
      assert s'.tables.entries.Keys == s.tables.entries.Keys - {ticket};
      assert |s'.tables.entries.Keys| <= |s.tables.entries.Keys|;
    }
  }

  lemma RemoveTables(s: System, ticket: Ticket, e: E.State)
    requires TablesInv(s)
    ensures TablesInv(Gone(s, ticket, e))
  {
  }

  lemma RemoveRecords(s: System, ticket: Ticket, e: E.State)
    requires TablesInv(s) && OwnershipInv(s) && RecordInv(s) && GrantInv(s)
    ensures OwnershipInv(Gone(s, ticket, e)) && RecordInv(Gone(s, ticket, e)) && GrantInv(Gone(s, ticket, e))
  {
  }

  lemma RemoveWorld(s: System, ticket: Ticket, e: E.State)
    requires WorldInv(s) && ticket in s.exposed
    requires e.fired == s.executions[ticket].fired + 1
    requires s.executions[ticket].m.terminal ==> e.m.terminal
    requires AtRest(s.executions[ticket]) ==> AtRest(e)
    ensures WorldInv(Gone(s, ticket, e))
  {
    var s' := Gone(s, ticket, e);
    assert ExposureInv(s');
    assert LifeInv(s');
    assert SealInv(s');
  }

  // Cancelling by key, stopping, sealing, clearing.

  lemma CancelKeyCount(s: System, key: Key)
    requires CountInv(s)
    ensures CountInv(AfterCancelKey(s, key))
  {
    assert PreparingKeys(AfterCancelKey(s, key).tables.idempotency) == PreparingKeys(s.tables.idempotency);
  }

  lemma CancelKeyTables(s: System, key: Key)
    requires TablesInv(s) && OwnershipInv(s)
    ensures TablesInv(AfterCancelKey(s, key)) && OwnershipInv(AfterCancelKey(s, key))
  {
  }

  lemma CancelKeyRecords(s: System, key: Key)
    requires RecordInv(s)
    ensures RecordInv(AfterCancelKey(s, key))
  {
  }

  lemma CancelKeyGrant(s: System, key: Key)
    requires RecordInv(s) && GrantInv(s)
    ensures GrantInv(AfterCancelKey(s, key))
  {
  }

  lemma CancelKeyWorld(s: System, key: Key)
    requires WorldInv(s)
    ensures WorldInv(AfterCancelKey(s, key))
  {
  }

  lemma StopBooks(s: System, step: Step)
    requires BookInv(s) && Enabled(s, step) && (step.Stop? || step.Seal? || step.BeginShutdown?)
    ensures BookInv(Apply(s, step))
  {
    var s' := Apply(s, step);
    assert TablesInv(s') by { hide CountInv, OwnershipInv, RecordInv, GrantInv; }
    hide TablesInv, CountInv, OwnershipInv, RecordInv, GrantInv;
    SameBooks(s, s');
  }

  lemma StopWorld(s: System, step: Step)
    requires TablesInv(s) && WorldInv(s) && Enabled(s, step) && (step.Stop? || step.Seal? || step.BeginShutdown?)
    ensures WorldInv(Apply(s, step))
  {
  }

  lemma ClearWorld(s: System)
    requires TablesInv(s) && WorldInv(s) && SoundInv(s) && ShutInv(s) && Enabled(s, Clear)
    ensures WorldInv(Apply(s, Clear))
  {
    hide E.Inv, SealInv;
    var s' := Apply(s, Clear);
    forall t | t in s'.admitted && t in s'.executions
      ensures AtRest(s'.executions[t])
    {
      if t !in s.tables.entries && !s.cleared { FiredIsAtRest(s.executions[t]); }
    }
    assert SealInv(s') by { SealClears(s); }
  }

  lemma SealClears(s: System)
    requires SealInv(s)
    ensures SealInv(s.(tables := Cleared(s.tables), cleared := true, shutdown := Done))
  {
  }

  lemma FiredIsAtRest(e: E.State)
    requires E.Inv(e) && e.fired != 0
    ensures e.m.quiesced && AtRest(e)
  {
  }

  lemma ClearBooks(s: System)
    requires BookInv(s) && s.tables.stopped
    ensures BookInv(s.(tables := Cleared(s.tables), cleared := true, shutdown := Done))
  {
  }

  // ---------------------------------------------------------------------------
  // Every step keeps the invariant
  // ---------------------------------------------------------------------------

  lemma SealTodoShrinks(s: System, ticket: Ticket)
    requires WorldInv(s) && ticket in s.executions && s.executions[ticket].m.terminal
    ensures WorldInv(s.(sealTodo := s.sealTodo - {ticket}))
  {
  }

  lemma BooksIgnoreSeal(s: System, sealTodo: set<Ticket>)
    requires BookInv(s)
    ensures BookInv(s.(sealTodo := sealTodo))
  {
  }

  lemma SealOneKeeps(s: System, ticket: Ticket)
    requires CoreInv(s) && Enabled(s, SealOne(ticket)) && ticket in s.exposed
    ensures CoreInv(Apply(s, SealOne(ticket)))
  {
    hide TablesInv, CountInv, OwnershipInv, RecordInv, GrantInv, ExposureInv, LifeInv, SealInv, SoundInv;
    hide E.Inv, E.Apply;
    var step := E.CancelMark(E.GpuDeviceUnavailable);
    SoundAt(s, ticket);
    ExecutionFacts(s.executions[ticket], step);
    RunKeeps(s, ticket, step);
    var u := Run(s, ticket, step);
    SealTodoShrinks(u, ticket);
    BooksIgnoreSeal(u, u.sealTodo - {ticket});
    SoundSame(u, u.(sealTodo := u.sealTodo - {ticket}));
  }

  lemma FireKeeps(s: System, ticket: Ticket)
    requires CoreInv(s) && Enabled(s, FireAndRemove(ticket))
    ensures CoreInv(Apply(s, FireAndRemove(ticket)))
  {
    hide TablesInv, CountInv, OwnershipInv, RecordInv, GrantInv, ExposureInv, LifeInv, SealInv, SoundInv;
    hide E.Inv, E.Apply, AtRest;
    var e := E.Apply(s.executions[ticket], E.FireTerminal);
    SoundAt(s, ticket);
    ExecutionFacts(s.executions[ticket], E.FireTerminal);
    RemoveCount(s, ticket, e);
    RemoveTables(s, ticket, e);
    RemoveRecords(s, ticket, e);
    RemoveWorld(s, ticket, e);
    SoundRun(s, ticket, e, Gone(s, ticket, e));
  }

  lemma GotoKeeps(s: System, p: nat, c: Caller)
    requires CoreInv(s) && !Builds(c) && !c.Aborting? && (p in s.callers ==> !Builds(s.callers[p]))
    requires GrantOk(s, c)
    ensures CoreInv(Goto(s, p, c))
  {
    hide TablesInv, CountInv, OwnershipInv, RecordInv, GrantInv, ExposureInv, LifeInv, SealInv, SoundInv;
    GotoBooks(s, p, c);
    GotoWorld(s, p, c);
    SoundSame(s, Goto(s, p, c));
  }

  lemma ReuseIsGrantable(s: System, key: Key, fingerprint: Fingerprint, leased: bool)
    requires TablesInv(s) && RecordInv(s)
    ensures var verdict := LookUp(s.tables, s.max, key, fingerprint, leased);
            verdict.Reuse? ==> GrantOk(s, Replaying(verdict.id, verdict.ticket))
  {
  }

  lemma LookKeeps(s: System, p: nat, leased: bool)
    requires CoreInv(s) && Enabled(s, Look(p, leased))
    ensures CoreInv(AfterLook(s, p, leased))
  {
    hide TablesInv, CountInv, OwnershipInv, RecordInv, GrantInv, ExposureInv, LifeInv, SealInv, SoundInv;
    var c := s.callers[p];
    ReuseIsGrantable(s, c.key, c.fingerprint, leased);
    match LookUp(s.tables, s.max, c.key, c.fingerprint, leased) {
      case Refuse(why) => GotoKeeps(s, p, Refused(why));
      case Reserve =>
        ReserveCount(s, p);
        ReserveOwnership(s, p);
        ReserveRecords(s, p);
        ReserveWorld(s, p);
        SoundSame(s, AfterReserve(s, p));
      case AwaitPreparation => GotoKeeps(s, p, Waiting(c.key, c.fingerprint));
      case Reuse(id, ticket) => GotoKeeps(s, p, Replaying(id, ticket));
    }
  }

  lemma BuildFailsKeeps(s: System, p: nat)
    requires CoreInv(s) && Enabled(s, BuildFails(p))
    ensures CoreInv(Apply(s, BuildFails(p)))
  {
    hide TablesInv, CountInv, OwnershipInv, RecordInv, GrantInv, ExposureInv, LifeInv, SealInv, SoundInv;
    var c := Refused(PrepareFailed);
    ReleaseCount(s, p, c);
    ReleaseTables(s, p, c);
    ReleaseOwnership(s, p, c);
    ReleaseWorld(s, p, c);
    SoundSame(s, AfterRelease(s, p, c));
  }

  lemma BuildSucceedsKeeps(s: System, p: nat, ticket: Ticket, limit: nat)
    requires CoreInv(s) && Enabled(s, BuildSucceeds(p, ticket, limit))
    ensures CoreInv(AfterBuild(s, p, ticket, limit))
  {
    hide TablesInv, CountInv, OwnershipInv, RecordInv, GrantInv, ExposureInv, LifeInv, SealInv, SoundInv;
    hide E.Inv;
    BuildBooks(s, p, ticket, limit);
    BuildWorld(s, p, ticket, limit);
    E.InitInv(limit);
    SoundRun(s, ticket, E.Init(limit), AfterBuild(s, p, ticket, limit));
  }

  lemma BooksIgnoreExposure(s: System, exposed: set<Ticket>)
    requires BookInv(s)
    ensures BookInv(s.(exposed := exposed))
  {
  }

  lemma TicketIsNew(s: System, p: nat)
    requires ExposureInv(s) && p in s.callers && s.callers[p].Built?
    ensures s.callers[p].ticket !in s.tables.entries
  {
  }

  lemma PublishKeeps(s: System, p: nat)
    requires CoreInv(s) && Enabled(s, Publish(p)) && (!s.tables.stopped ==> !s.cleared)
    ensures CoreInv(AfterPublish(s, p))
  {
    hide TablesInv, CountInv, OwnershipInv, RecordInv, GrantInv, ExposureInv, LifeInv, SealInv, SoundInv;
    if s.tables.stopped {
      var c := Aborting(s.callers[p].ticket, s.tables.gpuUnavailable);
      ReleaseCount(s, p, c);
      ReleaseTables(s, p, c);
      ReleaseOwnership(s, p, c);
      BooksIgnoreExposure(AfterRelease(s, p, c), s.exposed + {c.ticket});
      AbortedWorld(s, p, s.tables.gpuUnavailable);
    } else {
      TicketIsNew(s, p);
      AdmitCount(s, p);
      AdmitTables(s, p);
      AdmitOwnership(s, p);
      AdmitRecords(s, p);
      AdmitGrant(s, p);
      AdmitWorld(s, p);
    }
    SoundSame(s, AfterPublish(s, p));
  }

  /** A call that marks an execution cancelled and then returns a refusal. */
  lemma CancelAndRefuseKeeps(s: System, p: nat, ticket: Ticket, code: E.Code, why: Refusal)
    requires CoreInv(s) && p in s.callers && !Builds(s.callers[p]) && ticket in s.exposed && ticket in s.executions
    requires E.Enabled(s.executions[ticket], E.CancelMark(code))
    ensures CoreInv(Goto(Run(s, ticket, E.CancelMark(code)), p, Refused(why)))
  {
    hide CoreInv;
    RunKeeps(s, ticket, E.CancelMark(code));
    GotoKeeps(Run(s, ticket, E.CancelMark(code)), p, Refused(why));
  }

  lemma CancelKeyKeeps(s: System, key: Key)
    requires CoreInv(s)
    ensures CoreInv(AfterCancelKey(s, key))
  {
    hide TablesInv, CountInv, OwnershipInv, RecordInv, GrantInv, ExposureInv, LifeInv, SealInv, SoundInv;
    CancelKeyCount(s, key);
    CancelKeyTables(s, key);
    CancelKeyRecords(s, key);
    CancelKeyGrant(s, key);
    CancelKeyWorld(s, key);
    SoundSame(s, AfterCancelKey(s, key));
  }

  lemma ShutIsStopped(s: System)
    requires ShutInv(s) && !s.shutdown.Running?
    ensures s.tables.stopped
  {
  }

  lemma HaltKeeps(s: System, step: Step)
    requires Inv(s) && Enabled(s, step) && (step.Stop? || step.Seal? || step.BeginShutdown? || step.Clear?)
    ensures CoreInv(Apply(s, step))
  {
    hide TablesInv, CountInv, OwnershipInv, RecordInv, GrantInv, ExposureInv, LifeInv, SealInv, SoundInv;
    SoundSame(s, Apply(s, step));
    if step.Clear? {
      ShutIsStopped(s);
      hide ShutInv;
      ClearBooks(s);
      ClearWorld(s);
    } else {
      StopBooks(s, step);
      StopWorld(s, step);
    }
  }

  lemma CallerFacts(s: System, p: nat)
    requires CoreInv(s) && p in s.callers
    ensures GrantOk(s, s.callers[p])
    ensures s.callers[p].Aborting? || s.callers[p].CancelJoining? ==> s.callers[p].ticket in s.exposed
    ensures s.cleared ==> s.tables.stopped
    ensures s.sealTodo <= s.exposed
  {
    hide E.Inv, CountInv, OwnershipInv, RecordInv, LifeInv, SoundInv;
  }

  lemma CoreIgnoresAsked(s: System, asked: map<nat, Request>)
    requires CoreInv(s)
    ensures CoreInv(s.(asked := asked))
  {
    var s' := s.(asked := asked);
    assert TablesInv(s') && WorldInv(s') by {
      hide CountInv, OwnershipInv, RecordInv, GrantInv, SoundInv;
    }
    hide TablesInv, CountInv, OwnershipInv, RecordInv, GrantInv, ExposureInv, LifeInv, SealInv, SoundInv;
    SameBooks(s, s');
    SoundSame(s, s');
  }

  /** The steps a caller of `prepare` takes on its own. */
  lemma CallerStepInv(s: System, step: Step)
    requires CoreInv(s) && Enabled(s, step)
    requires step.Call? || step.Look? || step.Wake? || step.WaitExpires? || step.Replay?
    ensures CoreInv(Apply(s, step))
  {
    hide CoreInv, E.Inv, E.Apply;
    match step {
      case Call(p, key, fingerprint) =>
        GotoKeeps(s, p, Looking(key, fingerprint));
        CoreIgnoresAsked(Goto(s, p, Looking(key, fingerprint)), Apply(s, step).asked);
      case Look(p, leased) => LookKeeps(s, p, leased);
      case Wake(p) => GotoKeeps(s, p, Looking(s.callers[p].key, s.callers[p].fingerprint));
      case WaitExpires(p) => GotoKeeps(s, p, Refused(IdempotencyInProgress));
      case Replay(p) =>
        var c := s.callers[p];
        CallerFacts(s, p);
        GotoKeeps(s, p, if E.Replayable(s.executions[c.ticket].m) then Granted(c.id, c.ticket)
          else Refused(AlreadyClaimed));
    }
  }

  /** The steps that construct, publish or abandon an execution. */
  lemma BuilderStepInv(s: System, step: Step)
    requires CoreInv(s) && Enabled(s, step)
    requires step.BuildFails? || step.BuildSucceeds? || step.Publish? || step.Abort? || step.CancelJoin?
    ensures CoreInv(Apply(s, step))
  {
    hide CoreInv, E.Inv, E.Apply;
    match step {
      case BuildFails(p) => BuildFailsKeeps(s, p);
      case BuildSucceeds(p, ticket, limit) => BuildSucceedsKeeps(s, p, ticket, limit);
      case Publish(p) =>
        CallerFacts(s, p);
        PublishKeeps(s, p);
      case Abort(p) =>
        var c := s.callers[p];
        CallerFacts(s, p);
        CancelAndRefuseKeeps(s, p, c.ticket, if c.gpu then E.GpuDeviceUnavailable else E.Cancelled,
                             if c.gpu then GpuUnavailable else Stopping);
      case CancelJoin(p) =>
        CallerFacts(s, p);
        CancelAndRefuseKeeps(s, p, s.callers[p].ticket, E.Cancelled, CancelledWhilePreparing);
    }
  }

  lemma SealedIsExposed(s: System)
    requires CoreInv(s)
    ensures s.sealTodo <= s.exposed
  {
    hide E.Inv, TablesInv, CountInv, OwnershipInv, RecordInv, GrantInv, LifeInv, SoundInv;
  }

  // The shutdown thread cancels, then joins, one execution at a time.

  lemma CoreIgnoresShutdown(s: System, shutdown: Shutdown)
    requires CoreInv(s)
    ensures CoreInv(s.(shutdown := shutdown))
  {
    hide TablesInv, CountInv, OwnershipInv, RecordInv, GrantInv, ExposureInv, LifeInv, SealInv, SoundInv;
    BooksIgnoreShutdown(s, shutdown);
    WorldIgnoresShutdown(s, shutdown);
    SoundSame(s, s.(shutdown := shutdown));
  }

  lemma WorldIgnoresShutdown(s: System, shutdown: Shutdown)
    requires WorldInv(s)
    ensures WorldInv(s.(shutdown := shutdown))
  {
  }

  lemma BooksIgnoreShutdown(s: System, shutdown: Shutdown)
    requires BookInv(s)
    ensures BookInv(s.(shutdown := shutdown))
  {
  }

  lemma ShutdownKeeps(s: System, step: Step)
    requires Inv(s) && Enabled(s, step) && (step.ShutdownCancel? || step.BeginJoins? || step.ShutdownJoin?)
    ensures CoreInv(Apply(s, step))
  {
    hide CoreInv, E.Apply, E.Inv;
    match step {
      case ShutdownCancel(ticket) =>
        RunKeeps(s, ticket, E.CancelMark(E.Cancelled));
        CoreIgnoresShutdown(Run(s, ticket, E.CancelMark(E.Cancelled)), Cancelling(s.shutdown.todo - {ticket}));
      case BeginJoins =>
        CoreIgnoresShutdown(s, Joining(s.tables.entries.Keys));
      case ShutdownJoin(ticket) =>
        var u := if s.executions[ticket].m.joinable then Run(s, ticket, E.Join) else s;
        if s.executions[ticket].m.joinable { RunKeeps(s, ticket, E.Join); }
        CoreIgnoresShutdown(u, Joining(s.shutdown.todo - {ticket}));
    }
  }

  /** What a step may do to an execution. */
  predicate Evolves(e: E.State, e': E.State) {
    && (e.m.terminal ==> e'.m.terminal)
    && (AtRest(e) ==> AtRest(e'))
  }

  /** A step that is not the shutdown thread's: it admits nothing once stopped, and executions only move on. */
  predicate Bystander(s: System, s': System) {
    && s'.shutdown == s.shutdown && s'.cleared == s.cleared && s.exposed <= s'.exposed
    && (s.tables.stopped ==> s'.tables.stopped && s'.tables.entries.Keys <= s.tables.entries.Keys)
    && s.executions.Keys <= s'.executions.Keys
    && forall t :: t in s.executions ==> Evolves(s.executions[t], s'.executions[t])
  }

  lemma BystanderKeeps(s: System, s': System)
    requires ExposureInv(s) && ShutInv(s) && Bystander(s, s')
    ensures ShutInv(s')
  {
    hide AtRest;
    forall t | t in s.tables.entries ensures t in s.executions {
      assert t in s.admitted && t in s.exposed;
    }
  }

  lemma RunEvolves(s: System, ticket: Ticket, step: E.Step)
    requires SoundInv(s) && ticket in s.executions && E.Enabled(s.executions[ticket], step)
    ensures forall t :: t in s.executions ==>
              t in Run(s, ticket, step).executions && Evolves(s.executions[t], Run(s, ticket, step).executions[t])
  {
    hide E.Inv, E.Enabled, E.Apply, AtRest;
    ExecutionFacts(s.executions[ticket], step);
  }

  /** The steps of a bystander that move an execution. */
  predicate Runs(step: Step) {
    step.Abort? || step.CancelJoin? || step.SealOne? || step.Entry? || step.FireAndRemove?
  }

  predicate Shuts(step: Step) {
    step.BeginShutdown? || step.ShutdownCancel? || step.BeginJoins? || step.ShutdownJoin? || step.Clear?
  }

  lemma RunIsBystander(s: System, step: Step)
    requires SoundInv(s) && Enabled(s, step) && Runs(step)
    ensures Bystander(s, Apply(s, step))
  {
    hide E.Inv, E.Apply, Evolves, SoundInv;
    match step {
      case Abort(p) => RunEvolves(s, s.callers[p].ticket,
        E.CancelMark(if s.callers[p].gpu then E.GpuDeviceUnavailable else E.Cancelled));
      case CancelJoin(p) => RunEvolves(s, s.callers[p].ticket, E.CancelMark(E.Cancelled));
      case SealOne(ticket) => RunEvolves(s, ticket, E.CancelMark(E.GpuDeviceUnavailable));
      case Entry(ticket, estep) => RunEvolves(s, ticket, estep);
      case FireAndRemove(ticket) => RunEvolves(s, ticket, E.FireTerminal);
    }
  }

  /** A step that moves no execution, though it may construct one. */
  lemma QuietIsBystander(s: System, s': System, ticket: Ticket, e: E.State)
    requires s'.shutdown == s.shutdown && s'.cleared == s.cleared && s.exposed <= s'.exposed
    requires s.tables.stopped ==> s'.tables.stopped && s'.tables.entries.Keys <= s.tables.entries.Keys
    requires s'.executions == s.executions ||
             (ticket !in s.executions && s'.executions == s.executions[ticket := e])
    ensures Bystander(s, s')
  {
    hide AtRest;
  }

  lemma GotoIsBystander(s: System, p: nat, c: Caller)
    ensures Bystander(s, Goto(s, p, c))
  {
    hide Bystander;
    QuietIsBystander(s, Goto(s, p, c), [], E.Init(0));
  }

  lemma ReserveIsBystander(s: System, p: nat)
    requires p in s.callers && s.callers[p].Looking?
    ensures Bystander(s, AfterReserve(s, p))
  {
    hide Bystander;
    QuietIsBystander(s, AfterReserve(s, p), [], E.Init(0));
  }

  lemma LookIsBystander(s: System, p: nat, leased: bool)
    requires Enabled(s, Look(p, leased))
    ensures Bystander(s, AfterLook(s, p, leased))
  {
    hide Bystander, LookUp, Goto, AfterReserve;
    var c := s.callers[p];
    match LookUp(s.tables, s.max, c.key, c.fingerprint, leased) {
      case Refuse(why) => GotoIsBystander(s, p, Refused(why));
      case Reserve => ReserveIsBystander(s, p);
      case AwaitPreparation => GotoIsBystander(s, p, Waiting(c.key, c.fingerprint));
      case Reuse(id, ticket) => GotoIsBystander(s, p, Replaying(id, ticket));
    }
  }

  lemma CallerIsBystander(s: System, step: Step)
    requires Enabled(s, step) && (step.Call? || step.Wake? || step.WaitExpires? || step.Replay?)
    ensures Bystander(s, Apply(s, step))
  {
    hide E.Enabled, Bystander;
    QuietIsBystander(s, Apply(s, step), [], E.Init(0));
  }

  lemma BuilderIsBystander(s: System, step: Step)
    requires Enabled(s, step) && (step.BuildFails? || step.BuildSucceeds? || step.Publish?)
    ensures Bystander(s, Apply(s, step))
  {
    hide E.Init, Bystander;
    QuietIsBystander(s, Apply(s, step), if step.BuildSucceeds? then step.ticket else [],
                     E.Init(if step.BuildSucceeds? then step.limit else 0));
  }

  lemma HaltIsBystander(s: System, step: Step)
    requires Enabled(s, step) && (step.CancelKey? || step.Stop? || step.Seal?)
    ensures Bystander(s, Apply(s, step))
  {
    hide Bystander;
    QuietIsBystander(s, Apply(s, step), [], E.Init(0));
  }

  lemma StepIsBystander(s: System, step: Step)
    requires SoundInv(s) && Enabled(s, step) && !Shuts(step)
    ensures Bystander(s, Apply(s, step))
  {
    hide E.Inv, SoundInv, Bystander, Enabled, AfterLook;
    if step.Look? {
      LookIsBystander(s, step.p, step.leased);
    }
    hide Apply;
    if step.Look? {
    } else if Runs(step) {
      RunIsBystander(s, step);
    } else if step.BuildFails? || step.BuildSucceeds? || step.Publish? {
      BuilderIsBystander(s, step);
    } else if step.CancelKey? || step.Stop? || step.Seal? {
      HaltIsBystander(s, step);
    } else {
      CallerIsBystander(s, step);
    }
  }

  lemma JoinedIsAtRest(e: E.State)
    requires E.Inv(e) && e.m.terminal && (!e.m.joinable || e.worker.Exited?)
    ensures AtRest(e)
    ensures e.m.joinable ==> E.Enabled(e, E.Join) && AtRest(E.Apply(e, E.Join)) && E.Apply(e, E.Join).m.terminal
  {
  }

  lemma CancelShut(s: System, ticket: Ticket)
    requires SoundInv(s) && ShutInv(s) && Enabled(s, ShutdownCancel(ticket))
    ensures ShutInv(Apply(s, ShutdownCancel(ticket)))
  {
    hide E.Inv, E.Apply, AtRest;
    RunEvolves(s, ticket, E.CancelMark(E.Cancelled));
    ExecutionFacts(s.executions[ticket], E.CancelMark(E.Cancelled));
  }

  lemma JoinShut(s: System, ticket: Ticket)
    requires SoundInv(s) && ShutInv(s) && Enabled(s, ShutdownJoin(ticket))
    ensures ShutInv(Apply(s, ShutdownJoin(ticket)))
  {
    hide E.Inv, E.Apply, AtRest;
    if s.executions[ticket].m.terminal { JoinedIsAtRest(s.executions[ticket]); }
    if s.executions[ticket].m.joinable {
      RunEvolves(s, ticket, E.Join);
      hide E.Enabled, Evolves;
    }
  }

  /** What the shutdown thread itself does keeps its own invariant. */
  lemma ShutdownShut(s: System, step: Step)
    requires ExposureInv(s) && SoundInv(s) && ShutInv(s) && Enabled(s, step)
    requires Shuts(step)
    ensures ShutInv(Apply(s, step))
  {
    hide E.Inv, E.Apply, E.Enabled, AtRest, SoundInv, ShutInv, ExposureInv;
    match step {
      case ShutdownCancel(ticket) => CancelShut(s, ticket);
      case ShutdownJoin(ticket) => JoinShut(s, ticket);
      case BeginShutdown => BeginShut(s);
      case BeginJoins => JoinsShut(s);
      case Clear => ClearShut(s);
    }
  }

  lemma BeginShut(s: System)
    requires ExposureInv(s) && ShutInv(s) && Enabled(s, BeginShutdown)
    ensures ShutInv(Apply(s, BeginShutdown))
  {
    hide AtRest;
  }

  lemma JoinsShut(s: System)
    requires ExposureInv(s) && ShutInv(s) && Enabled(s, BeginJoins)
    ensures ShutInv(Apply(s, BeginJoins))
  {
    hide AtRest;
  }

  lemma ClearShut(s: System)
    requires ShutInv(s) && Enabled(s, Clear)
    ensures ShutInv(Apply(s, Clear))
  {
    hide AtRest;
  }

  lemma StepShut(s: System, step: Step)
    requires Inv(s) && Enabled(s, step)
    ensures ShutInv(Apply(s, step))
  {
    hide Apply, Enabled, ShutInv, Bystander, E.Inv, TablesInv, CountInv, OwnershipInv, RecordInv, GrantInv, LifeInv,
      SealInv, SoundInv, ExposureInv;
    if Shuts(step) {
      ShutdownShut(s, step);
    } else {
      StepIsBystander(s, step);
      BystanderKeeps(s, Apply(s, step));
    }
  }

  lemma StepInv(s: System, step: Step)
    requires Inv(s) && Enabled(s, step)
    ensures Inv(Apply(s, step))
  {
    hide CoreInv, ShutInv, E.Inv, E.Apply, E.Enabled;
    StepShut(s, step);
    match step {
      case CancelKey(key) => CancelKeyKeeps(s, key);
      case Stop => HaltKeeps(s, step);
      case Seal => HaltKeeps(s, step);
      case BeginShutdown => HaltKeeps(s, step);
      case Clear => HaltKeeps(s, step);
      case ShutdownCancel(_) => ShutdownKeeps(s, step);
      case BeginJoins => ShutdownKeeps(s, step);
      case ShutdownJoin(_) => ShutdownKeeps(s, step);
      case SealOne(ticket) =>
        SealedIsExposed(s);
        SealOneKeeps(s, ticket);
      case Entry(ticket, estep) => RunKeeps(s, ticket, estep);
      case FireAndRemove(ticket) => FireKeeps(s, ticket);
      case BuildFails(_) => BuilderStepInv(s, step);
      case BuildSucceeds(_, _, _) => BuilderStepInv(s, step);
      case Publish(_) => BuilderStepInv(s, step);
      case Abort(_) => BuilderStepInv(s, step);
      case CancelJoin(_) => BuilderStepInv(s, step);
      case _ => CallerStepInv(s, step);
    }
  }

  lemma {:induction false} RunInv(s: System, steps: seq<Step>, t: System)
    requires Inv(s) && Reaches(s, steps, t)
    ensures Inv(t)
    decreases |steps|
  {
    hide Inv, Enabled, Apply;
    if steps != [] {
      StepInv(s, steps[0]);
      RunInv(Apply(s, steps[0]), steps[1..], t);
    }
  }

  // ---------------------------------------------------------------------------
  // What no later step can undo
  // ---------------------------------------------------------------------------

  /** A caller that holds no ticket and, once the registry is stopped, never will. */
  predicate Denied(c: Caller) {
    c.Looking? || c.Waiting? || c.Building? || c.Built? || c.Aborting? || c.Refused?
  }

  ghost predicate Later(s: System, t: System) {
    && t.max == s.max
    && (s.tables.stopped ==>
          && t.tables.stopped
          && t.admitted == s.admitted
          && t.tables.entries.Keys <= s.tables.entries.Keys
          && forall p :: p in t.callers && (p in s.callers ==> Denied(s.callers[p])) ==> Denied(t.callers[p]))
    && s.callers.Keys <= t.callers.Keys
    && (s.tables.gpuUnavailable ==> t.tables.gpuUnavailable && t.sealed == s.sealed)
    && (forall id :: id in s.ticketOf ==> id in t.ticketOf && t.ticketOf[id] == s.ticketOf[id])
    && s.cancelledPreparing <= t.cancelledPreparing
  }

  lemma BuiltIdIsNew(s: System, p: nat)
    requires OwnershipInv(s) && p in s.callers && Builds(s.callers[p])
    ensures s.callers[p].id !in s.ticketOf
  {
  }

  lemma PublishLater(s: System, p: nat)
    requires Enabled(s, Publish(p)) && s.callers[p].id !in s.ticketOf
    ensures Later(s, AfterPublish(s, p))
  {
  }

  /** A step that takes no ticket back, and moves at most the caller p. */
  lemma FrameLater(s: System, s': System, p: nat)
    requires s'.max == s.max && s'.admitted == s.admitted && s'.sealed == s.sealed && s'.ticketOf == s.ticketOf
    requires s.cancelledPreparing <= s'.cancelledPreparing
    requires s'.callers == s.callers || (p in s'.callers && s'.callers == s.callers[p := s'.callers[p]])
    requires s.tables.stopped && s'.callers != s.callers ==>
               Denied(s'.callers[p]) || (p in s.callers && !Denied(s.callers[p]))
    requires s.tables.stopped ==> s'.tables.stopped && s'.tables.entries.Keys <= s.tables.entries.Keys
    requires s.tables.gpuUnavailable ==> s'.tables.gpuUnavailable
    ensures Later(s, s')
  {
  }

  lemma SealLater(s: System)
    requires Enabled(s, Seal)
    ensures Later(s, Apply(s, Seal))
  {
  }

  /** The caller that a step moves. */
  function Mover(step: Step): nat {
    match step
    case Call(p, _, _) => p
    case Look(p, _) => p
    case Wake(p) => p
    case WaitExpires(p) => p
    case BuildFails(p) => p
    case BuildSucceeds(p, _, _) => p
    case Publish(p) => p
    case Abort(p) => p
    case CancelJoin(p) => p
    case Replay(p) => p
    case _ => 0
  }

  lemma AskingLater(s: System, step: Step)
    requires Enabled(s, step) && (step.Call? || step.Wake? || step.WaitExpires? || step.Replay?)
    ensures Later(s, Apply(s, step))
  {
    hide E.Apply, E.Enabled, Later;
    FrameLater(s, Apply(s, step), Mover(step));
  }

  lemma GotoLater(s: System, p: nat, c: Caller)
    requires s.tables.stopped ==> Denied(c) || (p in s.callers && !Denied(s.callers[p]))
    ensures Later(s, Goto(s, p, c))
  {
    hide Later;
    FrameLater(s, Goto(s, p, c), p);
  }

  lemma ReserveLater(s: System, p: nat)
    requires p in s.callers && s.callers[p].Looking? && !s.tables.stopped
    ensures Later(s, AfterReserve(s, p))
  {
    hide Later;
    FrameLater(s, AfterReserve(s, p), p);
  }

  lemma StoppedRefuses(tables: Tables, max: nat, key: Key, fingerprint: Fingerprint, leased: bool)
    requires tables.stopped
    ensures LookUp(tables, max, key, fingerprint, leased).Refuse?
  {
  }

  lemma LookLater(s: System, p: nat, leased: bool)
    requires Enabled(s, Look(p, leased))
    ensures Later(s, AfterLook(s, p, leased))
  {
    hide Later, LookUp, Goto, AfterReserve;
    var c := s.callers[p];
    if s.tables.stopped { StoppedRefuses(s.tables, s.max, c.key, c.fingerprint, leased); }
    match LookUp(s.tables, s.max, c.key, c.fingerprint, leased) {
      case Refuse(why) => GotoLater(s, p, Refused(why));
      case Reserve => ReserveLater(s, p);
      case AwaitPreparation => GotoLater(s, p, Waiting(c.key, c.fingerprint));
      case Reuse(id, ticket) => GotoLater(s, p, Replaying(id, ticket));
    }
  }

  lemma BuildingLater(s: System, step: Step)
    requires Enabled(s, step) && (step.BuildFails? || step.BuildSucceeds?)
    ensures Later(s, Apply(s, step))
  {
    hide E.Init, Later;
    FrameLater(s, Apply(s, step), Mover(step));
  }

  lemma RunsLater(s: System, step: Step)
    requires Enabled(s, step) && Runs(step)
    ensures Later(s, Apply(s, step))
  {
    hide E.Apply, E.Enabled, Later;
    FrameLater(s, Apply(s, step), Mover(step));
  }

  lemma HaltingLater(s: System, step: Step)
    requires Enabled(s, step) && (step.CancelKey? || step.Stop? || Shuts(step))
    ensures Later(s, Apply(s, step))
  {
    hide E.Apply, E.Enabled, Later;
    FrameLater(s, Apply(s, step), 0);
  }

  lemma StepLater(s: System, step: Step)
    requires Inv(s) && Enabled(s, step)
    ensures Later(s, Apply(s, step))
  {
    hide E.Inv, E.Enabled, TablesInv, CountInv, OwnershipInv, RecordInv, GrantInv, ExposureInv, LifeInv, SealInv,
      SoundInv, ShutInv, Later;
    if step.Publish? {
      BuiltIdIsNew(s, step.p);
      PublishLater(s, step.p);
    } else {
      hide Enabled;
      if step.Seal? {
        SealLater(s);
      } else if step.Look? {
        LookLater(s, step.p, step.leased);
      } else {
        hide Apply;
        if step.BuildFails? || step.BuildSucceeds? {
          BuildingLater(s, step);
        } else if Runs(step) {
          RunsLater(s, step);
        } else if step.CancelKey? || step.Stop? || Shuts(step) {
          HaltingLater(s, step);
        } else {
          AskingLater(s, step);
        }
      }
    }
  }

  lemma LaterTransitive(s: System, t: System, u: System)
    requires Later(s, t) && Later(t, u)
    ensures Later(s, u)
  {
  }

  lemma {:induction false} RunLater(s: System, steps: seq<Step>, t: System)
    requires Inv(s) && Reaches(s, steps, t)
    ensures Later(s, t)
    decreases |steps|
  {
    hide Inv, Enabled, Apply;
    if steps == [] {
    } else {
      var u := Apply(s, steps[0]);
      StepLater(s, steps[0]);
      StepInv(s, steps[0]);
      RunLater(u, steps[1..], t);
      LaterTransitive(s, u, t);
    }
  }

  // ---------------------------------------------------------------------------
  // Theorems over every interleaving
  // ---------------------------------------------------------------------------

  lemma Reachable(max: nat, steps: seq<Step>, t: System)
    requires Registry.Reaches(Init(max), steps, t)
    ensures Inv(t)
  {
    hide Inv;
    InitInv(max);
    RunInv(Init(max), steps, t);
  }

  /**
   Until shutdown's final clear the two maps agree: every entry's key leads to the record that
   holds its ticket, every record that is not preparing leads back to its entry, the reservation
   counter counts the preparing records, and the ticket bound covers both.
   */
  lemma TablesAgree(max: nat, steps: seq<Step>, t: System)
    requires Registry.Reaches(Init(max), steps, t) && !t.cleared
    ensures forall x :: x in t.tables.entries ==>
              && t.tables.entries[x] in t.tables.idempotency
              && !t.tables.idempotency[t.tables.entries[x]].preparing
              && t.tables.idempotency[t.tables.entries[x]].ticket == Some(x)
    ensures forall k :: k in t.tables.idempotency && !t.tables.idempotency[k].preparing ==>
              && t.tables.idempotency[k].ticket.Some?
              && t.tables.idempotency[k].ticket.value in t.tables.entries
              && t.tables.entries[t.tables.idempotency[k].ticket.value] == k
    ensures t.tables.reserved == |PreparingKeys(t.tables.idempotency)|
    ensures |t.tables.entries| + t.tables.reserved <= max
  {
    Reachable(max, steps, t);
    MaxIsConstant(max, steps, t);
    hide OwnershipInv, RecordInv, GrantInv, ExposureInv, LifeInv, SealInv, SoundInv;
  }

  lemma MaxIsConstant(max: nat, steps: seq<Step>, t: System)
    requires Registry.Reaches(Init(max), steps, t)
    ensures t.max == max
  {
    hide Inv;
    InitInv(max);
    RunLater(Init(max), steps, t);
  }

  /**
   The registry's internal-error paths are dead: no lookup ever finds a record whose ticket was lost,
   and a caller that built an execution always finds its reservation and its record when it publishes
   or gives up.
   */
  lemma NoLostTicket(max: nat, steps: seq<Step>, t: System, key: Key, fingerprint: Fingerprint, leased: bool, p: nat)
    requires Registry.Reaches(Init(max), steps, t)
    ensures LookUp(t.tables, max, key, fingerprint, leased) != Refuse(IdempotencyStateInvalid)
    ensures p in t.callers && t.callers[p].Built? ==> Enabled(t, Publish(p))
    ensures p in t.callers && t.callers[p].Building? ==> Enabled(t, BuildFails(p))
    ensures p in t.callers && Builds(t.callers[p]) && t.callers[p].key in t.tables.idempotency ==>
              t.tables.idempotency[t.callers[p].key].preparing
    ensures p in t.callers && t.callers[p].Built? ==> t.callers[p].ticket !in t.tables.entries
  {
    Reachable(max, steps, t);
    hide E.Inv, TablesInv, CountInv, OwnershipInv, RecordInv, GrantInv, ExposureInv, LifeInv, SealInv, SoundInv,
      LookUp, Reaches;
    LookupNeverLosesTicket(t, max, key, fingerprint, leased);
    if p in t.callers && Builds(t.callers[p]) {
      BuilderCanFinish(t, p);
    }
  }

  lemma LookupNeverLosesTicket(t: System, max: nat, key: Key, fingerprint: Fingerprint, leased: bool)
    requires TablesInv(t)
    ensures LookUp(t.tables, max, key, fingerprint, leased) != Refuse(IdempotencyStateInvalid)
  {
  }

  lemma BuilderCanFinish(t: System, p: nat)
    requires TablesInv(t) && CountInv(t) && OwnershipInv(t) && ExposureInv(t)
    requires p in t.callers && Builds(t.callers[p])
    ensures t.callers[p].Built? ==> Enabled(t, Publish(p))
    ensures t.callers[p].Building? ==> Enabled(t, BuildFails(p))
    ensures t.callers[p].key in t.tables.idempotency ==> t.tables.idempotency[t.callers[p].key].preparing
    ensures t.callers[p].Built? ==> t.callers[p].ticket !in t.tables.entries
  {
    assert p in Builders(t.callers);
    assert t.tables.reserved > 0;
  }

  /**
   Cancelling a key while its record is preparing never leaks that record's ticket: in no
   continuation does the preparer, or any caller that waited on it, return the ticket published for it.
   */
  lemma CancelledPreparationIsNeverGranted(
      max: nat, before: seq<Step>, s: System, key: Key, after: seq<Step>, t: System, p: nat)
    requires Registry.Reaches(Init(max), before, s)
    requires !s.tables.stopped && key in s.tables.idempotency && s.tables.idempotency[key].preparing
    requires Registry.Reaches(Apply(s, CancelKey(key)), after, t)
    requires p in t.callers && t.callers[p].Granted?
    ensures var id := s.tables.idempotency[key].id;
            t.callers[p].id != id && (id in t.ticketOf ==> t.callers[p].ticket != t.ticketOf[id])
  {
    hide CoreInv, ShutInv, Reaches;
    var u := Apply(s, CancelKey(key));
    Reachable(max, before, s);
    StepInv(s, CancelKey(key));
    RunInv(u, after, t);
    RunLater(u, after, t);
    CallerFacts(t, p);
    TicketsAreDistinct(t);
  }

  lemma TicketsAreDistinct(t: System)
    requires Inv(t)
    ensures forall i, j :: i in t.ticketOf && j in t.ticketOf && i != j ==> t.ticketOf[i] != t.ticketOf[j]
  {
    hide E.Inv, TablesInv, CountInv, OwnershipInv, RecordInv, GrantInv, LifeInv, SealInv, SoundInv;
  }

  /** All grants of one record, at whatever time they are made, are of one ticket, and two records never share it. */
  lemma OneTicketPerRecord(max: nat, before: seq<Step>, s: System, after: seq<Step>, t: System, p: nat, q: nat)
    requires Registry.Reaches(Init(max), before, s) && Registry.Reaches(s, after, t)
    requires p in s.callers && s.callers[p].Granted? && q in t.callers && t.callers[q].Granted?
    ensures s.callers[p].id == t.callers[q].id <==> s.callers[p].ticket == t.callers[q].ticket
  {
    hide CoreInv, ShutInv, Reaches;
    Reachable(max, before, s);
    RunInv(s, after, t);
    RunLater(s, after, t);
    CallerFacts(s, p);
    CallerFacts(t, q);
    TicketsAreDistinct(t);
  }

  /**
   GPU sealing is fail-stop. After the seal the registry stays sealed and stopped, no execution is
   admitted, `entries` only shrinks, no caller that had not yet been led to a ticket, in particular
   none that arrives later, is ever granted one, the sealer is never stuck, and once the sealer is done every
   execution that was present at the seal is terminal.
   */
  lemma GpuSealIsFailStop(max: nat, before: seq<Step>, s: System, after: seq<Step>, t: System)
    requires Registry.Reaches(Init(max), before, s) && s.tables.gpuUnavailable
    requires Registry.Reaches(s, after, t)
    ensures t.tables.gpuUnavailable && t.tables.stopped
    ensures t.admitted == s.admitted && t.tables.entries.Keys <= s.tables.entries.Keys
    ensures forall p :: p in t.callers && (p in s.callers ==> Denied(s.callers[p])) ==> !t.callers[p].Granted?
    ensures t.sealTodo == {} ==>
              forall x :: x in s.tables.entries ==> x in t.executions && t.executions[x].m.terminal
    ensures forall x :: x in t.sealTodo ==> Enabled(t, SealOne(x))
  {
    hide E.Inv, CountInv, OwnershipInv, RecordInv, GrantInv, LifeInv, SoundInv, TablesInv, ExposureInv,
      Registry.Reaches;
    Reachable(max, before, s);
    RunInv(s, after, t);
    RunLater(s, after, t);
    SealedIsDone(s);
    SealedIsDone(t);
  }

  lemma SealedIsDone(s: System)
    requires Inv(s) && s.tables.gpuUnavailable
    ensures s.tables.stopped && s.tables.entries.Keys <= s.sealed
    ensures forall x :: x in s.sealTodo ==> x in s.executions
    ensures s.sealTodo == {} ==> forall x :: x in s.sealed ==> x in s.executions && s.executions[x].m.terminal
  {
    hide E.Inv, CountInv, OwnershipInv, RecordInv, GrantInv, LifeInv, SoundInv;
  }

  /**
   Removal follows quiescence, and so the ticket bound is a bound on running executions: before the
   final clear every admitted execution that is not quiesced is still in `entries`, hence there are at
   most `max_active_tickets` of them; after it no admitted execution runs at all.
   */
  lemma RunningExecutionsAreBounded(max: nat, steps: seq<Step>, t: System)
    requires Registry.Reaches(Init(max), steps, t)
    ensures t.admitted <= t.executions.Keys
    ensures !t.cleared ==> forall x :: x in t.admitted && x !in t.tables.entries ==> t.executions[x].m.quiesced
    ensures !t.cleared ==> |set x | x in t.admitted && !t.executions[x].m.quiesced| <= max
    ensures t.cleared ==>
              forall x :: x in t.admitted ==>
                t.executions[x].m.terminal && !E.InBatch(t.executions[x].worker)
  {
    Reachable(max, steps, t);
    MaxIsConstant(max, steps, t);
    hide E.Inv, TablesInv, OwnershipInv, RecordInv, GrantInv, SealInv;
    if !t.cleared {
      forall x | x in t.admitted && x !in t.tables.entries
        ensures t.executions[x].m.quiesced
      {
        FiredIsAtRest(t.executions[x]);
      }
      var running := set x | x in t.admitted && !t.executions[x].m.quiesced;
      assert running <= t.tables.entries.Keys;
      SubsetIsSmaller(running, t.tables.entries.Keys);
    }
  }

  /**
   Shutdown is never stuck: it can always begin, cancel whatever it has yet to cancel, go on when a
   snapshot is exhausted, and join an execution as soon as its worker has exited or if it has none.
   */
  lemma ShutdownAdvances(max: nat, steps: seq<Step>, t: System)
    requires Registry.Reaches(Init(max), steps, t)
    ensures t.shutdown.Running? ==> Enabled(t, BeginShutdown)
    ensures t.shutdown == Cancelling({}) ==> Enabled(t, BeginJoins)
    ensures t.shutdown == Joining({}) ==> Enabled(t, Clear)
    ensures t.shutdown.Cancelling? ==> forall x :: x in t.shutdown.todo ==> Enabled(t, ShutdownCancel(x))
    ensures t.shutdown.Joining? ==>
              forall x :: x in t.shutdown.todo ==>
                && x in t.executions
                && (t.executions[x].worker.NotStarted? || t.executions[x].worker.Exited? ==>
                  Enabled(t, ShutdownJoin(x)))
  {
    hide CoreInv, ShutInv, Registry.Reaches, E.Enabled, E.Apply;
    Reachable(max, steps, t);
    if t.shutdown.Cancelling? || t.shutdown.Joining? {
      forall x | x in t.shutdown.todo
        ensures x in t.executions && (t.executions[x].worker.NotStarted? ==> !t.executions[x].m.joinable)
      {
        TodoIsSound(t, x);
      }
    }
  }

  lemma TodoIsSound(t: System, x: Ticket)
    requires Inv(t) && (t.shutdown.Cancelling? || t.shutdown.Joining?) && x in t.shutdown.todo
    ensures x in t.executions && (t.executions[x].worker.NotStarted? ==> !t.executions[x].m.joinable)
  {
    hide CoreInv, E.Inv, AtRest;
    SoundAt(t, x);
    if t.executions[x].worker.NotStarted? { UnstartedIsNotJoinable(t.executions[x]); }
  }

  lemma UnstartedIsNotJoinable(e: E.State)
    requires E.Inv(e) && e.worker.NotStarted?
    ensures !e.m.joinable
  {
  }

  lemma {:induction false} SubsetIsSmaller<T>(a: set<T>, b: set<T>)
    requires a <= b
    ensures |a| <= |b|
    decreases a
  {
    if a != {} {
      var x :| x in a;
      SubsetIsSmaller(a - {x}, b - {x});
    }
  }
}
