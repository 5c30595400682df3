/**
 Move-only byte leases on a shared capacity. The controller's ghost `held` lists the live leases; that
 the counted bytes are exactly their sum is kept by every operation, so the saturating branch of a
 release and the error of a controller shrink are never taken.
 */
module Leases {
  import opened Bytes

  ghost function Pick(m: map<Lease, nat>): Lease
    requires |m| != 0
  {
    var l :| l in m; l
  }

  /** The bytes of all live leases. */
  ghost function Sum(m: map<Lease, nat>): nat {
    if |m| == 0 then 0 else m[Pick(m)] + Sum(m - {Pick(m)})
  }

  lemma {:induction false} SumWithout(m: map<Lease, nat>, l: Lease)
    requires l in m
    ensures Sum(m) == m[l] + Sum(m - {l})
    decreases |m|
  {
    var x := Pick(m);
    if x != l {
      SumWithout(m - {x}, l);
      SumWithout(m - {l}, x);
      assert m - {x} - {l} == m - {l} - {x};
    }
  }

  lemma SumWith(m: map<Lease, nat>, l: Lease, bytes: nat)
    requires l !in m
    ensures Sum(m[l := bytes]) == Sum(m) + bytes
  {
    SumWithout(m[l := bytes], l);
    assert m[l := bytes] - {l} == m;
  }

  class Controller {
    const capacityBytes: nat
    var currentBytes: nat
    var peakBytes: nat
    var rejectedRequests: nat
    ghost var held: map<Lease, nat>

    ghost predicate Valid()
      reads this, held.Keys
    {
      && currentBytes == Sum(held) && currentBytes <= peakBytes <= capacityBytes
      && forall l :: l in held ==> l.owner == this && l.bytes == held[l]
    }

    constructor (capacityBytes: nat)
      ensures Valid() && held == map[] && peakBytes == 0 && rejectedRequests == 0 && this.capacityBytes == capacityBytes
    {
      this.capacityBytes := capacityBytes;
      currentBytes, peakBytes, rejectedRequests, held := 0, 0, 0, map[];
    }

    /** `try_acquire`: a lease exactly if the bytes fit beside the live leases. */
    method TryAcquire(bytes: nat) returns (l: Lease?)
      requires Valid()
      modifies this
      ensures Valid()
      ensures l != null <==> Sum(old(held)) + bytes <= capacityBytes
      ensures l == null ==>
                && held == old(held) && peakBytes == old(peakBytes)
                && rejectedRequests == (old(rejectedRequests) + 1) % U64
      ensures l != null ==>
                && fresh(l) && l.owner == this && l.bytes == bytes && held == old(held)[l := bytes]
                && peakBytes == (if old(peakBytes) < currentBytes then currentBytes else old(peakBytes))
                && rejectedRequests == old(rejectedRequests)
    {
      hide Sum;
      if bytes > capacityBytes - (if capacityBytes < currentBytes then capacityBytes else currentBytes) {
        rejectedRequests := (rejectedRequests + 1) % U64;
        return null;
      }
      currentBytes := currentBytes + bytes;
      peakBytes := if peakBytes < currentBytes then currentBytes else peakBytes;
      var lease := new Lease(this, bytes);
      SumWith(held, lease, bytes);
      held := held[lease := bytes];
      return lease;
    }

    /** `release`, with its saturating branch. */
    method Release(bytes: nat)
      modifies this`currentBytes
      ensures currentBytes == if bytes > old(currentBytes) then 0 else old(currentBytes) - bytes
    {
      currentBytes := if bytes > currentBytes then 0 else currentBytes - bytes;
    }

    /** The controller's `shrink`; false is its thrown error. */
    method ShrinkBy(from: nat, to: nat) returns (ok: bool)
      modifies this`currentBytes
      ensures ok <==> from >= to && from - to <= old(currentBytes)
      ensures currentBytes == if ok then old(currentBytes) - (from - to) else old(currentBytes)
    {
      if from < to || from - to > currentBytes { return false; }
      currentBytes := currentBytes - (from - to);
      return true;
    }
  }

  class Lease {
    var owner: Controller?
    var bytes: nat

    constructor (owner: Controller?, bytes: nat)
      ensures this.owner == owner && this.bytes == bytes
    {
      this.owner, this.bytes := owner, bytes;
    }

    /** An empty lease, or one its controller counts. */
    ghost predicate Valid()
      reads this, owner, if owner == null then {} else owner.held.Keys
    {
      if owner == null then bytes == 0 else owner.Valid() && this in owner.held
    }

    /** `reset`, also the destructor: the bytes return to the controller, exactly. */
    method Reset()
      requires Valid()
      modifies this, owner
      ensures owner == null && bytes == 0
      ensures old(owner) != null ==>
                && old(owner).Valid() && old(owner).held == old(owner.held) - {this}
                && old(owner).currentBytes == old(owner.currentBytes) - old(bytes)
                && old(owner).peakBytes == old(owner.peakBytes)
                && old(owner).rejectedRequests == old(owner.rejectedRequests)
    {
      hide Sum;
      if owner != null {
        SumWithout(owner.held, this);
        owner.Release(bytes);
        owner.held := owner.held - {this};
        owner := null;
        bytes := 0;
      }
    }

    /** `shrink`; false is the thrown error, which is never the controller's. */
    method Shrink(to: nat) returns (ok: bool)
      requires Valid()
      modifies this, owner
      ensures Valid() && owner == old(owner)
      ensures ok <==> owner != null && to <= old(bytes)
      ensures ok ==>
                && bytes == to && owner.held == old(owner.held)[this := to]
                && owner.currentBytes == old(owner.currentBytes) - (old(bytes) - to)
                && owner.peakBytes == old(owner.peakBytes)
      ensures !ok ==> bytes == old(bytes) && (owner != null ==> owner.held == old(owner.held))
    {
      hide Sum;
      if owner == null || to > bytes { return false; }
      SumWithout(owner.held, this);
      ghost var rest := owner.held - {this};
      ok := owner.ShrinkBy(bytes, to);
      assert ok;
      SumWith(rest, this, to);
      assert rest[this := to] == owner.held[this := to];
      owner.held := owner.held[this := to];
      bytes := to;
    }

    /** The move constructor: the new lease takes over, the old one is empty, the counts stay. */
    static method Move(other: Lease) returns (l: Lease)
      requires other.Valid()
      modifies other, other.owner
      ensures fresh(l) && l.owner == old(other.owner) && l.bytes == old(other.bytes) && l.Valid()
      ensures other.owner == null && other.bytes == 0
      ensures l.owner != null ==>
                && l.owner.held == (old(other.owner.held) - {other})[l := l.bytes]
                && l.owner.currentBytes == old(other.owner.currentBytes)
                && l.owner.peakBytes == old(other.owner.peakBytes)
    {
      l := new Lease(null, 0);
      l.TakeFrom(other);
    }

    /** An empty lease takes over another one. */
    method TakeFrom(other: Lease)
      requires this != other && owner == null && other.Valid()
      modifies this, other, other.owner
      ensures Valid() && owner == old(other.owner) && bytes == old(other.bytes)
      ensures other.owner == null && other.bytes == 0
      ensures owner != null ==>
                && owner.held == (old(other.owner.held) - {other})[this := bytes]
                && owner.currentBytes == old(other.owner.currentBytes) && owner.peakBytes == old(other.owner.peakBytes)
    {
      hide Sum;
      owner, bytes := other.owner, other.bytes;
      if owner != null {
        ghost var held := owner.held;
        SumWithout(held, other);
        SumWith(held - {other}, this, bytes);
        owner.held := (held - {other})[this := bytes];
      }
      other.owner, other.bytes := null, 0;
    }

    /** Move assignment: what this lease held is released first; a self-move changes nothing. */
    method MoveAssign(other: Lease)
      requires Valid() && other.Valid()
      modifies this, owner, other, other.owner
      ensures Valid() && other.Valid()
      ensures owner == old(other.owner) && bytes == old(other.bytes)
      ensures this != other ==> other.owner == null && other.bytes == 0
      ensures this == other && owner != null ==> owner.held == old(owner.held)
      ensures this != other && owner != null ==> owner.held == (old(other.owner.held) - {this, other})[this := bytes]
      ensures this != other && old(owner) != null && old(owner) != owner ==>
                old(owner).Valid() && old(owner).held == old(owner.held) - {this}
    {
      hide Sum;
      if this != other {
        ghost var mine, held := owner, if other.owner == null then map[] else other.owner.held;
        Reset();
        assert other.Valid();
        assert held - {this} - {other} == held - {this, other};
        TakeFrom(other);
        if mine != null && mine != owner {
          assert this !in mine.held && other !in mine.held;
        }
      }
    }
  }
}
