/**
 The registry object. Every method is one critical section of `ticket_registry`, updates the maps
 and flags in place, and is proved to be the corresponding function of module `Registry`.
 */
module TicketRegistryObject {
  import opened Bytes
  import opened Registry

  lemma ReleasedIsPaired(tables: Tables, key: Key)
    requires Paired(tables) && tables.reserved > 0 && (key in tables.idempotency ==> tables.idempotency[key].preparing)
    ensures Paired(Released(tables, key))
  {
  }

  lemma PublishedIsPaired(tables: Tables, key: Key, ticket: Ticket)
    requires Paired(tables) && tables.reserved > 0 && !tables.stopped
    requires key in tables.idempotency && tables.idempotency[key].preparing && ticket !in tables.entries
    ensures Paired(Published(tables, key, ticket))
    ensures |Published(tables, key, ticket).entries| == |tables.entries| + 1
  {
  }

  class TicketRegistry {
    const maxActiveTickets: nat
    var entries: map<Ticket, Key>
    var idempotency: map<Key, Record>
    var reserved: nat
    var stopped: bool
    var gpuUnavailable: bool

    ghost function View(): Tables
      reads this
    {
      Tables(entries, idempotency, reserved, stopped, gpuUnavailable)
    }

    ghost predicate Valid()
      reads this
    {
      Paired(View()) && |entries| + reserved <= maxActiveTickets
    }

    constructor (maxActiveTickets: nat)
      ensures Valid() && View() == Tables(map[], map[], 0, false, false)
      ensures this.maxActiveTickets == maxActiveTickets
    {
      this.maxActiveTickets := maxActiveTickets;
      entries, idempotency, reserved, stopped, gpuUnavailable := map[], map[], 0, false, false;
    }

    /** One turn of the loop of `prepare`, up to where it waits, returns, or has a reservation. */
    method PrepareTurn(key: Key, fingerprint: Fingerprint, id: nat, leased: bool) returns (verdict: Verdict)
      requires Valid()
      modifies this`reserved, this`idempotency
      ensures Valid()
      ensures verdict == LookUp(old(View()), maxActiveTickets, key, fingerprint, leased)
      ensures View() == if verdict.Reserve? then Reserved(old(View()), key, fingerprint, id) else old(View())
    {
      if stopped {
        return Refuse(if gpuUnavailable then GpuUnavailable else Stopping);
      }
      if key !in idempotency {
        if |entries| + reserved >= maxActiveTickets {
          return Refuse(TicketLimit);
        }
        if !leased {
          return Refuse(CapacityExhausted);
        }
        reserved := reserved + 1;
        idempotency := idempotency[key := Record(id, fingerprint, None, true, false)];
        return Reserve;
      }
      var record := idempotency[key];
      if record.fingerprint != fingerprint {
        return Refuse(IdempotencyConflict);
      }
      if record.preparing {
        return AwaitPreparation;
      }
      if record.cancelRequested {
        return Refuse(IdempotencyTerminal);
      }
      if record.ticket.None? || record.ticket.value !in entries {
        return Refuse(IdempotencyStateInvalid);
      }
      return Reuse(record.id, record.ticket.value);
    }

    /** The publishing critical section; `NoLostTicket` shows that its preconditions hold in every run. */
    method PublishEntry(key: Key, ticket: Ticket) returns (stopping: bool, cancelRequested: bool)
      requires Valid() && reserved > 0
      requires key in idempotency ==> idempotency[key].preparing
      requires !stopped ==> key in idempotency && ticket !in entries
      modifies this`reserved, this`idempotency, this`entries
      ensures Valid()
      ensures stopping == stopped
      ensures stopping ==> View() == Released(old(View()), key) && !cancelRequested
      ensures !stopping ==>
                && View() == Published(old(View()), key, ticket)
                && cancelRequested == old(idempotency)[key].cancelRequested
    {
      hide Paired;
      if stopped {
        ReleasedIsPaired(View(), key);
        reserved, idempotency := reserved - 1, idempotency - {key};
        return true, false;
      }
      PublishedIsPaired(View(), key, ticket);
      var record := idempotency[key];
      reserved, entries := reserved - 1, entries[ticket := key];
      idempotency := idempotency[key := record.(ticket := Some(ticket), preparing := false)];
      return false, record.cancelRequested;
    }

    method ReleaseReservation(key: Key)
      requires Valid() && reserved > 0
      requires key in idempotency ==> idempotency[key].preparing
      modifies this`reserved, this`idempotency
      ensures Valid()
      ensures View() == Released(old(View()), key)
    {
      reserved := reserved - 1;
      idempotency := idempotency - {key};
    }

    method RemoveEntry(ticket: Ticket)
      requires Valid()
      modifies this`idempotency, this`entries
      ensures Valid()
      ensures View() == Removed(old(View()), ticket)
    {
      if ticket in entries {
        idempotency := idempotency - {entries[ticket]};
        entries := entries - {ticket};
      }
    }

    /** One turn of the loop of `cancel_and_join_idempotency`: `found` is the entry to cancel, if it is ready. */
    method RequestCancel(key: Key) returns (waits: bool, found: Option<Ticket>)
      requires Valid()
      modifies this`idempotency
      ensures Valid()
      ensures View() == CancelledKey(old(View()), key)
      ensures waits <==> !stopped && key in old(idempotency) && old(idempotency)[key].preparing
      ensures found.Some? <==> !stopped && key in old(idempotency) && !waits
                               && old(idempotency)[key].ticket.Some? && old(idempotency)[key].ticket.value in entries
      ensures found.Some? ==> found == old(idempotency)[key].ticket
    {
      waits, found := false, None;
      if stopped || key !in idempotency {
        return;
      }
      var record := idempotency[key];
      idempotency := idempotency[key := record.(cancelRequested := true)];
      if record.preparing {
        waits := true;
      } else if record.ticket.Some? && record.ticket.value in entries {
        found := record.ticket;
      }
    }

    method SealGpu() returns (first: bool, snapshot: set<Ticket>)
      requires Valid()
      modifies this`gpuUnavailable, this`stopped
      ensures Valid()
      ensures first == !old(gpuUnavailable)
      ensures first ==> View() == Sealed(old(View())) && snapshot == entries.Keys
      ensures !first ==> View() == old(View()) && snapshot == {}
    {
      if gpuUnavailable {
        return false, {};
      }
      gpuUnavailable, stopped := true, true;
      return true, entries.Keys;
    }

    method FinalClear()
      requires Valid()
      modifies this`entries, this`idempotency
      ensures Valid()
      ensures View() == Cleared(old(View()))
    {
      entries, idempotency := map[], map[];
    }
  }
}
