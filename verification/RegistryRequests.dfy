/**
 Who gets what from `prepare`: tickets go only to callers that asked for exactly the request the ticket
 was made for, and every answer is the one the state of the registry calls for.
 */
module RegistryRequests {
  import opened Bytes
  import opened Registry
  import R = RegistryInvariants
  import E = Execution

  // ---------------------------------------------------------------------------
  // Requests
  // ---------------------------------------------------------------------------

  predicate For(s: System, id: nat, request: Request) {
    id in s.reservedFor && s.reservedFor[id] == request
  }

  /** What a caller holds belongs to what it asked for. */
  predicate AskOk(s: System, p: nat, c: Caller) {
    && p in s.asked
    && match c {
         case Looking(key, fingerprint) => s.asked[p] == Request(key, fingerprint)
         case Waiting(key, fingerprint) => s.asked[p] == Request(key, fingerprint)
         case Building(key, id) => key == s.asked[p].key && For(s, id, s.asked[p])
         case Built(key, id, _) => key == s.asked[p].key && For(s, id, s.asked[p])
         case CancelJoining(id, _) => For(s, id, s.asked[p])
         case Replaying(id, _) => For(s, id, s.asked[p])
         case Granted(id, _) => For(s, id, s.asked[p])
         case _ => true
       }
  }

  predicate AskInv(s: System) {
    && (forall p :: p in s.callers ==> AskOk(s, p, s.callers[p]))
    && (forall k :: k in s.tables.idempotency ==>
          For(s, s.tables.idempotency[k].id, Request(k, s.tables.idempotency[k].fingerprint)))
    && (forall id :: id in s.reservedFor ==> id < s.nextId)
  }

  lemma GotoAsk(s: System, p: nat, c: Caller)
    requires AskInv(s) && AskOk(s, p, c)
    ensures AskInv(Goto(s, p, c))
  {
  }

  lemma TablesAsk(s: System, tables: Tables)
    requires AskInv(s)
    requires forall k :: k in tables.idempotency ==>
               && k in s.tables.idempotency && tables.idempotency[k].id == s.tables.idempotency[k].id
               && tables.idempotency[k].fingerprint == s.tables.idempotency[k].fingerprint
    ensures AskInv(s.(tables := tables))
  {
  }

  lemma CallAsk(s: System, p: nat, key: Key, fingerprint: Fingerprint)
    requires AskInv(s) && p !in s.callers
    ensures AskInv(Apply(s, Call(p, key, fingerprint)))
  {
  }

  lemma ReserveAsk(s: System, p: nat)
    requires AskInv(s) && p in s.callers && s.callers[p].Looking? && s.callers[p].key !in s.tables.idempotency
    ensures AskInv(AfterReserve(s, p))
  {
    var s' := AfterReserve(s, p);
    forall q | q in s'.callers ensures AskOk(s', q, s'.callers[q]) {
      if q != p { assert AskOk(s, q, s.callers[q]); } else { assert AskOk(s, p, s.callers[p]); }
    }
  }

  lemma LookAsk(s: System, p: nat, leased: bool)
    requires AskInv(s) && Enabled(s, Look(p, leased))
    ensures AskInv(AfterLook(s, p, leased))
  {
    var c := s.callers[p];
    assert AskOk(s, p, c);
    hide AskInv;
    match LookUp(s.tables, s.max, c.key, c.fingerprint, leased) {
      case Refuse(why) => GotoAsk(s, p, Refused(why));
      case Reserve => ReserveAsk(s, p);
      case AwaitPreparation => GotoAsk(s, p, Waiting(c.key, c.fingerprint));
      case Reuse(id, ticket) =>
        RecordAsk(s, c.key);
        GotoAsk(s, p, Replaying(id, ticket));
    }
  }

  lemma RecordAsk(s: System, key: Key)
    requires AskInv(s) && key in s.tables.idempotency
    ensures For(s, s.tables.idempotency[key].id, Request(key, s.tables.idempotency[key].fingerprint))
  {
  }

  lemma CallerAsk(s: System, p: nat)
    requires AskInv(s) && p in s.callers
    ensures AskOk(s, p, s.callers[p])
  {
  }

  /** A step that only runs an execution or moves the sealer or the shutdown thread. */
  lemma SameAsk(s: System, s': System)
    requires AskInv(s) && s'.callers == s.callers && s'.asked == s.asked && s'.reservedFor == s.reservedFor
    requires s'.nextId == s.nextId && s'.tables.idempotency == s.tables.idempotency
    ensures AskInv(s')
  {
  }

  /** A step that moves one caller, and removes or updates records without changing what they are for. */
  lemma MoveAsk(s: System, p: nat, s': System)
    requires AskInv(s) && p in s.callers && p in s'.callers && s'.callers == s.callers[p := s'.callers[p]]
    requires AskOk(s, p, s.callers[p]) ==> AskOk(s, p, s'.callers[p])
    requires s'.asked == s.asked && s'.reservedFor == s.reservedFor && s'.nextId == s.nextId
    requires forall k :: k in s'.tables.idempotency ==>
               && k in s.tables.idempotency && s'.tables.idempotency[k].id == s.tables.idempotency[k].id
               && s'.tables.idempotency[k].fingerprint == s.tables.idempotency[k].fingerprint
    ensures AskInv(s')
  {
    hide AskInv, AskOk;
    CallerAsk(s, p);
    GotoAsk(s, p, s'.callers[p]);
    TablesAsk(Goto(s, p, s'.callers[p]), s'.tables);
    SameAsk(Goto(s, p, s'.callers[p]).(tables := s'.tables), s');
  }

  lemma CallerStepAsk(s: System, step: Step)
    requires AskInv(s) && Enabled(s, step) && (step.Wake? || step.WaitExpires? || step.Replay?)
    ensures AskInv(Apply(s, step))
  {
    hide AskInv, E.Enabled;
    MoveAsk(s, step.p, Apply(s, step));
  }

  lemma BuilderStepAsk(s: System, step: Step)
    requires AskInv(s) && Enabled(s, step) && (step.BuildFails? || step.BuildSucceeds?)
    ensures AskInv(Apply(s, step))
  {
    hide AskInv, E.Init;
    MoveAsk(s, step.p, Apply(s, step));
  }

  lemma PublishAsk(s: System, p: nat)
    requires AskInv(s) && Enabled(s, Publish(p))
    ensures AskInv(AfterPublish(s, p))
  {
    hide AskInv;
    MoveAsk(s, p, AfterPublish(s, p));
  }

  lemma EndingStepAsk(s: System, step: Step)
    requires AskInv(s) && Enabled(s, step) && (step.Abort? || step.CancelJoin?)
    ensures AskInv(Apply(s, step))
  {
    hide AskInv, E.Enabled, E.Apply;
    MoveAsk(s, step.p, Apply(s, step));
  }

  lemma TablesStepAsk(s: System, step: Step)
    requires AskInv(s) && Enabled(s, step)
    requires step.CancelKey? || step.Stop? || step.Seal? || step.FireAndRemove? || step.BeginShutdown? || step.Clear?
    ensures AskInv(Apply(s, step))
  {
    hide AskInv, E.Enabled, E.Apply;
    var s' := Apply(s, step);
    TablesAsk(s, s'.tables);
    SameAsk(s.(tables := s'.tables), s');
  }

  lemma OtherStepAsk(s: System, step: Step)
    requires AskInv(s) && Enabled(s, step)
    requires step.SealOne? || step.Entry? || step.ShutdownCancel? || step.BeginJoins? || step.ShutdownJoin?
    ensures AskInv(Apply(s, step))
  {
    hide AskInv, E.Enabled, E.Apply;
    SameAsk(s, Apply(s, step));
  }

  lemma StepAsk(s: System, step: Step)
    requires AskInv(s) && Enabled(s, step)
    ensures AskInv(Apply(s, step))
  {
    hide AskInv, E.Apply, E.Enabled, E.Init;
    match step {
      case Call(p, key, fingerprint) => CallAsk(s, p, key, fingerprint);
      case Look(p, leased) => LookAsk(s, p, leased);
      case Publish(p) => PublishAsk(s, p);
      case _ =>
        hide Apply, Enabled;
        if step.Wake? || step.WaitExpires? || step.Replay? {
          CallerStepAsk(s, step);
        } else if step.BuildFails? || step.BuildSucceeds? {
          BuilderStepAsk(s, step);
        } else if step.Abort? || step.CancelJoin? {
          EndingStepAsk(s, step);
        } else if step.SealOne? || step.Entry? || step.ShutdownCancel? || step.BeginJoins? || step.ShutdownJoin? {
          OtherStepAsk(s, step);
        } else {
          TablesStepAsk(s, step);
        }
    }
  }

  lemma {:induction false} RunAsk(s: System, steps: seq<Step>, t: System)
    requires AskInv(s) && Reaches(s, steps, t)
    ensures AskInv(t)
    ensures KeepsRequests(s, t)
    decreases |steps|
  {
    hide AskInv, Enabled, Apply;
    if steps != [] {
      StepAsk(s, steps[0]);
      StepKeepsRequests(s, steps[0]);
      RunAsk(Apply(s, steps[0]), steps[1..], t);
    }
  }

  /** What was asked and what was reserved stays. */
  predicate KeepsRequests(s: System, u: System) {
    && (forall p :: p in s.asked && p in s.callers ==> p in u.asked && u.asked[p] == s.asked[p] && p in u.callers)
    && (forall id :: id in s.reservedFor ==> id in u.reservedFor && u.reservedFor[id] == s.reservedFor[id])
  }

  lemma QuietKeepsRequests(s: System, u: System)
    requires u.asked == s.asked && u.reservedFor == s.reservedFor && s.callers.Keys <= u.callers.Keys
    ensures KeepsRequests(s, u)
  {
  }

  lemma CallKeepsRequests(s: System, p: nat, key: Key, fingerprint: Fingerprint)
    requires Enabled(s, Call(p, key, fingerprint))
    ensures KeepsRequests(s, Apply(s, Call(p, key, fingerprint)))
  {
  }

  lemma ReserveKeepsRequests(s: System, p: nat)
    requires AskInv(s) && p in s.callers && s.callers[p].Looking?
    ensures KeepsRequests(s, AfterReserve(s, p))
  {
    hide AskOk;
  }

  lemma LookKeepsRequests(s: System, p: nat, leased: bool)
    requires AskInv(s) && Enabled(s, Look(p, leased))
    ensures KeepsRequests(s, AfterLook(s, p, leased))
  {
    hide AskInv, KeepsRequests, LookUp, AfterReserve;
    var c := s.callers[p];
    match LookUp(s.tables, s.max, c.key, c.fingerprint, leased) {
      case Refuse(why) => QuietKeepsRequests(s, Goto(s, p, Refused(why)));
      case Reserve => ReserveKeepsRequests(s, p);
      case AwaitPreparation => QuietKeepsRequests(s, Goto(s, p, Waiting(c.key, c.fingerprint)));
      case Reuse(id, ticket) => QuietKeepsRequests(s, Goto(s, p, Replaying(id, ticket)));
    }
  }

  lemma MovedKeepsRequests(s: System, step: Step)
    requires Enabled(s, step)
    requires step.Wake? || step.WaitExpires? || step.Replay? || step.BuildFails? || step.BuildSucceeds? || step.Publish?
    ensures KeepsRequests(s, Apply(s, step))
  {
    hide E.Enabled, E.Init, KeepsRequests;
    QuietKeepsRequests(s, Apply(s, step));
  }

  lemma RunKeepsRequests(s: System, step: Step)
    requires Enabled(s, step) && R.Runs(step)
    ensures KeepsRequests(s, Apply(s, step))
  {
    hide E.Apply, E.Enabled, KeepsRequests;
    QuietKeepsRequests(s, Apply(s, step));
  }

  lemma HaltKeepsRequests(s: System, step: Step)
    requires Enabled(s, step) && (step.CancelKey? || step.Stop? || step.Seal? || R.Shuts(step))
    ensures KeepsRequests(s, Apply(s, step))
  {
    hide E.Apply, E.Enabled, KeepsRequests;
    QuietKeepsRequests(s, Apply(s, step));
  }

  lemma StepKeepsRequests(s: System, step: Step)
    requires AskInv(s) && Enabled(s, step)
    ensures KeepsRequests(s, Apply(s, step))
  {
    hide AskInv, KeepsRequests, AfterLook, Enabled;
    if step.Look? { LookKeepsRequests(s, step.p, step.leased); }
    hide Apply;
    if step.Look? {
    } else if step.Call? {
      CallKeepsRequests(s, step.p, step.key, step.fingerprint);
    } else if R.Runs(step) {
      RunKeepsRequests(s, step);
    } else if step.CancelKey? || step.Stop? || step.Seal? || R.Shuts(step) {
      HaltKeepsRequests(s, step);
    } else {
      MovedKeepsRequests(s, step);
    }
  }

  // ---------------------------------------------------------------------------
  // Theorems
  // ---------------------------------------------------------------------------

  /**
   A ticket is granted only for what was asked. In every run in which caller p asks for a key with a
   fingerprint and is later granted a ticket, the ticket is that of a record reserved for exactly that
   key and fingerprint.
   */
  lemma GrantMatchesRequest(
    max: nat, before: seq<Step>, s: System, p: nat, key: Key, fingerprint: Fingerprint, after: seq<Step>, t: System)
    requires Reaches(Init(max), before, s) && Enabled(s, Call(p, key, fingerprint))
    requires Reaches(Apply(s, Call(p, key, fingerprint)), after, t)
    requires p in t.callers && t.callers[p].Granted?
    ensures var id := t.callers[p].id;
            && For(t, id, Request(key, fingerprint))
            && id in t.ticketOf && t.callers[p].ticket == t.ticketOf[id]
  {
    hide AskInv, Reaches, R.Inv;
    var u := Apply(s, Call(p, key, fingerprint));
    RunAsk(Init(max), before, s) by { InitAsk(max); }
    StepAsk(s, Call(p, key, fingerprint));
    RunAsk(u, after, t);
    CallerAsk(t, p);
    R.Reachable(max, before, s);
    R.StepInv(s, Call(p, key, fingerprint));
    R.RunInv(u, after, t);
    TicketOfGrant(t, p);
  }

  lemma InitAsk(max: nat)
    ensures AskInv(Init(max))
  {
  }

  lemma TicketOfGrant(t: System, p: nat)
    requires R.Inv(t) && p in t.callers && t.callers[p].Granted?
    ensures t.callers[p].id in t.ticketOf && t.ticketOf[t.callers[p].id] == t.callers[p].ticket
  {
    hide R.CoreInv, R.ShutInv;
    R.CallerFacts(t, p);
  }

  /** Two callers that are ever granted the same ticket asked for the same key and the same fingerprint. */
  lemma OneRequestPerTicket(max: nat, steps: seq<Step>, t: System, p: nat, q: nat)
    requires Reaches(Init(max), steps, t) && p in t.callers && q in t.callers
    requires t.callers[p].Granted? && t.callers[q].Granted? && t.callers[p].ticket == t.callers[q].ticket
    ensures p in t.asked && q in t.asked && t.asked[p] == t.asked[q]
  {
    hide AskInv, Reaches;
    RunAsk(Init(max), steps, t) by { InitAsk(max); }
    CallerAsk(t, p);
    CallerAsk(t, q);
    Stay(t);
    R.OneTicketPerRecord(max, steps, t, [], t, p, q);
  }

  lemma Stay(t: System)
    ensures Reaches(t, [], t)
  {
  }

  /** The answer to a caller at the head of `prepare`, by what it asked for and what is live. */
  predicate Answer(t: System, p: nat, leased: bool, u: System)
    requires p in t.asked && p in u.callers
  {
    var r, c := t.asked[p], u.callers[p];
    if t.tables.stopped then c == Refused(if t.tables.gpuUnavailable then GpuUnavailable else Stopping)
    else if r.key !in t.tables.idempotency then
      if |t.tables.entries| + t.tables.reserved >= t.max then c == Refused(TicketLimit)
      else if !leased then c == Refused(CapacityExhausted)
      else c == Building(r.key, t.nextId) && For(u, t.nextId, r) && t.nextId !in t.reservedFor
    else
      var record := t.tables.idempotency[r.key];
      if !For(t, record.id, r) then c == Refused(IdempotencyConflict)
      else if record.preparing then c == Waiting(r.key, r.fingerprint)
      else if record.cancelRequested then c == Refused(IdempotencyTerminal)
      else
        && record.id in t.ticketOf && t.ticketOf[record.id] in t.tables.entries
        && c == Replaying(record.id, t.ticketOf[record.id])
  }

  /**
   Every call of `prepare` gets the answer the registry's state calls for: refused once stopped; a new
   record for a new key within the ticket bound and the admission; a conflict if the live record of its
   key is for another request; and otherwise the wait, the refusal or the ticket of that very record.
   */
  lemma LookIsDecided(max: nat, steps: seq<Step>, t: System, p: nat, leased: bool)
    requires Reaches(Init(max), steps, t) && Enabled(t, Look(p, leased))
    ensures p in t.asked && p in Apply(t, Look(p, leased)).callers && t.max == max
    ensures Answer(t, p, leased, Apply(t, Look(p, leased)))
  {
    hide Reaches, AskInv, R.Inv, Answer, Apply;
    RunAsk(Init(max), steps, t) by { InitAsk(max); }
    R.Reachable(max, steps, t);
    R.MaxIsConstant(max, steps, t);
    CallerAsk(t, p);
    NextIdIsNew(t);
    var key := t.callers[p].key;
    if key in t.tables.idempotency {
      RecordAsk(t, key);
      if !t.tables.idempotency[key].preparing { LiveRecord(t, key); }
      KnownIsAnswered(t, p, leased);
    } else {
      NewIsAnswered(t, p, leased);
    }
  }

  lemma NewIsAnswered(t: System, p: nat, leased: bool)
    requires Enabled(t, Look(p, leased)) && AskOk(t, p, t.callers[p]) && t.nextId !in t.reservedFor
    requires t.callers[p].key !in t.tables.idempotency
    ensures p in Apply(t, Look(p, leased)).callers && Answer(t, p, leased, Apply(t, Look(p, leased)))
  {
  }

  lemma KnownIsAnswered(t: System, p: nat, leased: bool)
    requires Enabled(t, Look(p, leased)) && AskOk(t, p, t.callers[p]) && t.callers[p].key in t.tables.idempotency
    requires var key := t.callers[p].key;
             var r := t.tables.idempotency[key];
             && For(t, r.id, Request(key, r.fingerprint))
             && (!r.preparing ==>
                   r.id in t.ticketOf && r.ticket == Some(t.ticketOf[r.id]) && t.ticketOf[r.id] in t.tables.entries)
    ensures p in Apply(t, Look(p, leased)).callers && Answer(t, p, leased, Apply(t, Look(p, leased)))
  {
    hide AfterReserve;
  }

  lemma NextIdIsNew(t: System)
    requires AskInv(t)
    ensures t.nextId !in t.reservedFor
  {
  }

  lemma LiveRecord(t: System, key: Key)
    requires R.Inv(t) && key in t.tables.idempotency && !t.tables.idempotency[key].preparing
    ensures var r := t.tables.idempotency[key];
            r.id in t.ticketOf && r.ticket == Some(t.ticketOf[r.id]) && t.ticketOf[r.id] in t.tables.entries
  {
    hide R.CountInv, R.OwnershipInv, R.GrantInv, R.WorldInv, R.SoundInv, R.ShutInv;
  }

  /** A replayed ticket is granted exactly if nobody claimed it and nothing ended its execution. */
  lemma ReplayIsDecided(max: nat, steps: seq<Step>, t: System, p: nat)
    requires Reaches(Init(max), steps, t) && p in t.callers && t.callers[p].Replaying?
    ensures Enabled(t, Replay(p))
    ensures var c, e := t.callers[p], t.executions[t.callers[p].ticket];
            Apply(t, Replay(p)).callers[p] ==
              if e.claims == 0 && !e.m.terminal then Granted(c.id, c.ticket) else Refused(AlreadyClaimed)
  {
    hide Reaches, R.CoreInv, R.ShutInv;
    R.Reachable(max, steps, t);
    ReplayedExecution(t, p);
  }

  lemma ReplayedExecution(t: System, p: nat)
    requires R.CoreInv(t) && p in t.callers && t.callers[p].Replaying?
    ensures t.callers[p].ticket in t.executions
    ensures var e := t.executions[t.callers[p].ticket]; e.claims == if e.m.claimed then 1 else 0
  {
    hide R.TablesInv, R.CountInv, R.OwnershipInv, R.RecordInv, R.LifeInv, R.SealInv, E.Inv;
    R.CallerFacts(t, p);
    var ticket := t.callers[p].ticket;
    assert ticket in t.admitted && ticket in t.executions;
    ClaimsAreFlagged(t.executions[ticket]);
  }

  lemma ClaimsAreFlagged(e: E.State)
    requires E.Inv(e)
    ensures e.claims == if e.m.claimed then 1 else 0
  {
  }

  // ---------------------------------------------------------------------------
  // Publishing
  // ---------------------------------------------------------------------------

  /** Nobody has touched an execution that only its builder can reach. */
  predicate FreshInv(s: System) {
    forall x :: x in s.executions && x !in s.exposed ==> s.executions[x] == E.Init(s.executions[x].limit)
  }

  /** A step that moves, or constructs, at most one execution, and one that others can reach only if it moves it. */
  lemma OneFresh(s: System, s': System, x: Ticket, e: E.State)
    requires FreshInv(s) && s.exposed <= s'.exposed
    requires s'.executions == s.executions || s'.executions == s.executions[x := e]
    requires x in s'.exposed || e == E.Init(e.limit)
    ensures FreshInv(s')
  {
    hide E.Init;
  }

  /** The tickets that the steps of others move are exposed. */
  lemma MovedIsExposed(s: System, step: Step)
    requires R.Inv(s) && Enabled(s, step)
    ensures step.Abort? || step.CancelJoin? ==> s.callers[step.p].ticket in s.exposed
    ensures step.SealOne? || step.ShutdownCancel? || step.ShutdownJoin? ==> step.ticket in s.exposed
  {
    hide R.CoreInv, E.Enabled;
    match step {
      case Abort(p) => R.CallerFacts(s, p);
      case CancelJoin(p) => R.CallerFacts(s, p);
      case SealOne(_) => R.SealedIsExposed(s);
      case _ =>
    }
  }

  lemma RunsFresh(s: System, step: Step)
    requires R.Inv(s) && FreshInv(s) && Enabled(s, step) && R.Runs(step)
    ensures FreshInv(Apply(s, step))
  {
    hide R.Inv, E.Apply, E.Enabled, E.Init, FreshInv;
    MovedIsExposed(s, step);
    var x := if step.Abort? || step.CancelJoin? then s.callers[step.p].ticket else step.ticket;
    OneFresh(s, Apply(s, step), x, Apply(s, step).executions[x]);
  }

  lemma ShutsFresh(s: System, step: Step)
    requires R.Inv(s) && FreshInv(s) && Enabled(s, step) && R.Shuts(step)
    ensures FreshInv(Apply(s, step))
  {
    hide R.Inv, E.Apply, E.Init, FreshInv;
    MovedIsExposed(s, step);
    if step.ShutdownCancel? || step.ShutdownJoin? {
      OneFresh(s, Apply(s, step), step.ticket, Apply(s, step).executions[step.ticket]);
    } else {
      OneFresh(s, Apply(s, step), [], E.Init(0)) by { InitIsInit(0); }
    }
  }

  lemma InitIsInit(limit: nat)
    ensures E.Init(limit) == E.Init(E.Init(limit).limit)
  {
  }

  lemma BuildFresh(s: System, step: Step)
    requires FreshInv(s) && Enabled(s, step) && (step.BuildFails? || step.BuildSucceeds? || step.Publish?)
    ensures FreshInv(Apply(s, step))
  {
    hide E.Init, FreshInv;
    var limit := if step.BuildSucceeds? then step.limit else 0;
    InitIsInit(limit);
    OneFresh(s, Apply(s, step), if step.BuildSucceeds? then step.ticket else [], E.Init(limit));
  }

  lemma QuietFresh(s: System, step: Step)
    requires FreshInv(s) && Enabled(s, step)
    requires step.Call? || step.Wake? || step.WaitExpires? || step.Replay? || step.CancelKey? || step.Stop? ||
    step.Seal?
    ensures FreshInv(Apply(s, step))
  {
    hide E.Init, E.Enabled, FreshInv;
    InitIsInit(0);
    OneFresh(s, Apply(s, step), [], E.Init(0));
  }

  lemma LookFresh(s: System, p: nat, leased: bool)
    requires FreshInv(s) && Enabled(s, Look(p, leased))
    ensures FreshInv(AfterLook(s, p, leased))
  {
    hide LookUp, E.Init;
  }

  lemma StepFresh(s: System, step: Step)
    requires R.Inv(s) && FreshInv(s) && Enabled(s, step)
    ensures FreshInv(Apply(s, step))
  {
    hide R.Inv, FreshInv, AfterLook, Enabled;
    if step.Look? { LookFresh(s, step.p, step.leased); }
    hide Apply;
    if step.Look? {
    } else if R.Runs(step) {
      RunsFresh(s, step);
    } else if R.Shuts(step) {
      ShutsFresh(s, step);
    } else if step.BuildFails? || step.BuildSucceeds? || step.Publish? {
      BuildFresh(s, step);
    } else {
      QuietFresh(s, step);
    }
  }

  lemma {:induction false} RunFresh(s: System, steps: seq<Step>, t: System)
    requires R.Inv(s) && FreshInv(s) && Reaches(s, steps, t)
    ensures FreshInv(t)
    decreases |steps|
  {
    hide R.Inv, FreshInv, Enabled, Apply;
    if steps != [] {
      R.StepInv(s, steps[0]);
      StepFresh(s, steps[0]);
      RunFresh(Apply(s, steps[0]), steps[1..], t);
    }
  }

  /** The builder's own next steps from a state in which it has built its execution. */
  function Outcome(t: System, p: nat): System
    requires Enabled(t, Publish(p))
  {
    var u := Apply(t, Publish(p));
    if u.callers[p].Aborting? then Apply(u, Abort(p))
    else if u.callers[p].CancelJoining? then Apply(u, CancelJoin(p))
    else u
  }

  /** The execution was ended with this code. */
  predicate EndedWith(u: System, ticket: Ticket, code: E.Code) {
    ticket in u.executions && u.executions[ticket].m.terminal && u.executions[ticket].m.status == E.Error(code)
  }

  lemma CancelEnds(e: E.State, code: E.Code)
    requires !e.m.terminal && !e.m.quiesced && (code.Cancelled? || code.GpuDeviceUnavailable?)
    ensures E.Enabled(e, E.CancelMark(code))
    ensures E.Apply(e, E.CancelMark(code)).m.terminal && E.Apply(e, E.CancelMark(code)).m.status == E.Error(code)
  {
  }

  lemma StoppedOutcome(t: System, p: nat)
    requires Enabled(t, Publish(p)) && t.tables.stopped
    requires var m := t.executions[t.callers[p].ticket].m; !m.terminal && !m.quiesced
    ensures var gpu := t.tables.gpuUnavailable;
            && Outcome(t, p).callers[p] == Refused(if gpu then GpuUnavailable else Stopping)
            && EndedWith(Outcome(t, p), t.callers[p].ticket, if gpu then E.GpuDeviceUnavailable else E.Cancelled)
  {
    hide E.Apply, E.Enabled;
    CancelEnds(t.executions[t.callers[p].ticket], if t.tables.gpuUnavailable then E.GpuDeviceUnavailable
      else E.Cancelled);
  }

  lemma OpenOutcome(t: System, p: nat)
    requires Enabled(t, Publish(p)) && !t.tables.stopped
    requires var m := t.executions[t.callers[p].ticket].m; !m.terminal && !m.quiesced
    ensures var c, u := t.callers[p], Outcome(t, p);
            if t.tables.idempotency[c.key].cancelRequested then
              u.callers[p] == Refused(CancelledWhilePreparing) && EndedWith(u, c.ticket, E.Cancelled)
            else u.callers[p] == Granted(c.id, c.ticket) && c.ticket in u.tables.entries
  {
    hide E.Apply, E.Enabled;
    CancelEnds(t.executions[t.callers[p].ticket], E.Cancelled);
  }

  /**
   What becomes of a preparation that succeeded: granted, if the registry is open and nobody cancelled
   its key; otherwise refused with the reason, and its execution ended with the code of that reason:
   GPU_DEVICE_UNAVAILABLE after a seal, CANCELLED when stopping or cancelled while preparing.
   */
  lemma PublishIsDecided(max: nat, steps: seq<Step>, t: System, p: nat)
    requires Reaches(Init(max), steps, t) && p in t.callers && t.callers[p].Built?
    ensures Enabled(t, Publish(p))
    ensures t.tables.stopped ==>
              var gpu := t.tables.gpuUnavailable;
              && Outcome(t, p).callers[p] == Refused(if gpu then GpuUnavailable else Stopping)
              && EndedWith(Outcome(t, p), t.callers[p].ticket, if gpu then E.GpuDeviceUnavailable else E.Cancelled)
    ensures !t.tables.stopped ==>
              var c, u := t.callers[p], Outcome(t, p);
              && c.key in t.tables.idempotency
              && if t.tables.idempotency[c.key].cancelRequested then
                   u.callers[p] == Refused(CancelledWhilePreparing) && EndedWith(u, c.ticket, E.Cancelled)
                 else u.callers[p] == Granted(c.id, c.ticket) && c.ticket in u.tables.entries
  {
    hide Reaches, R.Inv, FreshInv, E.Init, Outcome, EndedWith;
    R.Reachable(max, steps, t);
    InitFresh(max);
    R.InitInv(max);
    RunFresh(Init(max), steps, t);
    R.NoLostTicket(max, steps, t, t.callers[p].key, [], true, p);
    BuiltIsFresh(t, p);
    if t.tables.stopped { StoppedOutcome(t, p); } else { OpenOutcome(t, p); }
  }

  lemma InitFresh(max: nat)
    ensures FreshInv(Init(max))
  {
  }

  lemma BuiltIsFresh(t: System, p: nat)
    requires R.Inv(t) && FreshInv(t) && p in t.callers && t.callers[p].Built?
    ensures t.callers[p].ticket in t.executions
    ensures var m := t.executions[t.callers[p].ticket].m; !m.terminal && !m.quiesced
  {
    hide R.TablesInv, R.CountInv, R.OwnershipInv, R.RecordInv, R.GrantInv, R.LifeInv, R.SealInv, R.SoundInv,
      R.ShutInv;
  }

  /** Ticket x was ended with the code, unless it had ended before; nothing else changed. */
  predicate EndsOnly(before: map<Ticket, E.State>, after: map<Ticket, E.State>, x: Ticket, code: E.Code) {
    && x in before && x in after && after[x].m.terminal
    && after[x].m.status == (if before[x].m.terminal then before[x].m.status else E.Error(code))
    && forall y :: y in before && y != x ==> y in after && after[y] == before[y]
  }

  lemma CancelEndsOnly(t: System, x: Ticket, code: E.Code)
    requires x in t.executions && E.Inv(t.executions[x]) && E.Enabled(t.executions[x], E.CancelMark(code))
    requires !t.executions[x].m.terminal ==> !t.executions[x].m.quiesced
    ensures EndsOnly(t.executions, t.executions[x := E.Apply(t.executions[x], E.CancelMark(code))], x, code)
  {
    var e := t.executions[x];
    E.StepLater(e, E.CancelMark(code));
    CodeEnds(e, code);
    hide E.Apply, E.Inv, E.Enabled;
  }

  lemma CodeEnds(e: E.State, code: E.Code)
    requires E.Enabled(e, E.CancelMark(code)) && (!e.m.terminal ==> !e.m.quiesced)
    ensures !e.m.terminal ==>
              E.Apply(e, E.CancelMark(code)).m.terminal && E.Apply(e, E.CancelMark(code)).m.status == E.Error(code)
  {
  }

  /**
   The sealer ends a running execution with GPU_DEVICE_UNAVAILABLE, shutdown with CANCELLED, and neither
   changes the status of one that has ended, or touches any other execution.
   */
  lemma HaltsGiveReason(max: nat, steps: seq<Step>, t: System, step: Step)
    requires Reaches(Init(max), steps, t) && Enabled(t, step) && (step.SealOne? || step.ShutdownCancel?)
    ensures EndsOnly(t.executions, Apply(t, step).executions, step.ticket,
                     if step.SealOne? then E.GpuDeviceUnavailable else E.Cancelled)
  {
    hide Reaches, R.Inv, E.Apply, E.Enabled, EndsOnly;
    R.Reachable(max, steps, t);
    MovedIsExposed(t, step);
    ExecutionIsSound(t, step.ticket);
    var code := if step.SealOne? then E.GpuDeviceUnavailable else E.Cancelled;
    CancelIsEnabled(t.executions[step.ticket], code);
    CancelEndsOnly(t, step.ticket, code);
  }

  lemma CancelIsEnabled(e: E.State, code: E.Code)
    requires code.Cancelled? || code.GpuDeviceUnavailable?
    ensures E.Enabled(e, E.CancelMark(code))
  {
  }

  lemma ExecutionIsSound(t: System, x: Ticket)
    requires R.Inv(t) && x in t.exposed
    ensures x in t.executions && E.Inv(t.executions[x])
    ensures !t.executions[x].m.terminal ==> !t.executions[x].m.quiesced
  {
    hide R.CoreInv, R.ShutInv;
    R.SoundAt(t, x);
  }
}
