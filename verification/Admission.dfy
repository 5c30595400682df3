/** What an execution is charged for streamed input: checked 64-bit arithmetic over aligned buffers. */
module Admission {
  import opened Bytes
  import opened ExecuteRequest

  const ALIGNMENT: nat := 64 * 1024
  const TRANSPORT_OVERHEAD: nat := 64 * 1024
  const EXPANDED_INPUT_BYTES: nat := 64 * 1024 * 1024
  const MAX_STREAM_INPUTS: nat := 16
  /** The largest `max_batch_bytes` the configuration admits. */
  const MAX_CONFIGURED_BATCH_BYTES: nat := 1024 * 1024 * 1024

  function CheckedAdd(left: nat, right: nat): Result<nat> {
    if right > MAX_U64 - left then Failure else Success(left + right)
  }

  function CheckedMultiply(left: nat, right: nat): Result<nat> {
    if left != 0 && right > MAX_U64 / left then Failure else Success(left * right)
  }

  function Align(bytes: nat): Result<nat> {
    var padded :- CheckedAdd(bytes, ALIGNMENT - 1);
    CheckedMultiply(padded / ALIGNMENT, ALIGNMENT)
  }

  function TwoAligned(bytes: nat): Result<nat> {
    var aligned :- Align(bytes);
    CheckedMultiply(2, aligned)
  }

  /** A request whose numbers and sizes are 64-bit values. */
  predicate Is64Bit(r: Request) {
    r.maxInputBatchBytes <= MAX_U64 && r.maxBatchBytes <= MAX_U64 && |r.plan| <= MAX_U64 && |r.resultSchema| <= MAX_U64
  }

  /** The two frames and the expanded rows of one streamed read. */
  function ReadCharge(r: Request): Result<nat> {
    var header :- CheckedAdd(r.maxInputBatchBytes, FRAME_HEADER_BYTES);
    var frame :- CheckedAdd(header, TRANSPORT_OVERHEAD);
    var slots :- TwoAligned(frame);
    CheckedAdd(slots, EXPANDED_INPUT_BYTES)
  }

  /** `stream_execution_charge`, in the order of its checked operations. */
  function Charge(r: Request, inputs: nat): Result<nat>
    requires Is64Bit(r)
  {
    if inputs > MAX_STREAM_INPUTS then Failure
    else
      var perRead :- ReadCharge(r);
      var batch :- CheckedAdd(r.maxBatchBytes, TRANSPORT_OVERHEAD);
      var result :- TwoAligned(batch);
      var requestBytes :- CheckedAdd(|r.plan|, |r.resultSchema|);
      var requestFrame :- CheckedAdd(requestBytes, TRANSPORT_OVERHEAD);
      var overlap :- TwoAligned(requestFrame);
      var allReads :- CheckedMultiply(inputs, perRead);
      var partial :- CheckedAdd(allReads, result);
      CheckedAdd(partial, overlap)
  }

  // ---------------------------------------------------------------------------
  // The unbounded charge
  // ---------------------------------------------------------------------------

  /** The next multiple of the alignment. */
  function RoundUp(bytes: nat): (r: nat)
    ensures bytes <= r < bytes + ALIGNMENT && r % ALIGNMENT == 0
  {
    (bytes + ALIGNMENT - 1) / ALIGNMENT * ALIGNMENT
  }

  function PerRead(r: Request): nat {
    2 * RoundUp(r.maxInputBatchBytes + FRAME_HEADER_BYTES + TRANSPORT_OVERHEAD) + EXPANDED_INPUT_BYTES
  }

  function Fixed(r: Request): nat {
    2 * RoundUp(r.maxBatchBytes + TRANSPORT_OVERHEAD) + 2 * RoundUp(|r.plan| + |r.resultSchema| + TRANSPORT_OVERHEAD)
  }

  function IdealCharge(r: Request, inputs: nat): nat {
    inputs * PerRead(r) + Fixed(r)
  }

  lemma ProductIsChecked(left: nat, right: nat)
    ensures CheckedMultiply(left, right) == if left * right <= MAX_U64 then Success(left * right) else Failure
  {
    if left != 0 {
      var most := MAX_U64 / left;
      if right <= most {
        Multiples(most - right, left);
        assert (most - right) * left == most * left - right * left;
      } else {
        Multiples(right - most - 1, left);
        assert (right - most - 1) * left == right * left - most * left - left;
      }
    }
  }

  /** Padding overflows only if the rounded size does not fit either. */
  lemma AlignIsChecked(bytes: nat)
    ensures Align(bytes) == if RoundUp(bytes) <= MAX_U64 then Success(RoundUp(bytes)) else Failure
  {
    var padded := bytes + (ALIGNMENT - 1);
    ProductIsChecked(padded / ALIGNMENT, ALIGNMENT);
  }

  lemma PairIsChecked(bytes: nat)
    ensures TwoAligned(bytes) == if 2 * RoundUp(bytes) <= MAX_U64 then Success(2 * RoundUp(bytes)) else Failure
  {
    hide Align, CheckedMultiply, RoundUp;
    AlignIsChecked(bytes);
    ProductIsChecked(2, RoundUp(bytes));
  }

  /**
   The checked charge is the unbounded one whenever that, and the cost of one read, fit in 64 bits,
   and fails otherwise: no intermediate overflow refuses a charge that fits.
   */
  lemma ChargeIsIdeal(r: Request, inputs: nat)
    requires Is64Bit(r)
    ensures Charge(r, inputs) ==
            if inputs <= MAX_STREAM_INPUTS && PerRead(r) <= MAX_U64 && IdealCharge(r, inputs) <= MAX_U64
            then Success(IdealCharge(r, inputs)) else Failure
  {
    hide CheckedMultiply, TwoAligned, RoundUp, ReadCharge, PerRead;
    ReadIsChecked(r);
    PairIsChecked(r.maxBatchBytes + TRANSPORT_OVERHEAD);
    PairIsChecked(|r.plan| + |r.resultSchema| + TRANSPORT_OVERHEAD);
    ProductIsChecked(inputs, PerRead(r));
  }

  lemma ReadIsChecked(r: Request)
    ensures ReadCharge(r) == if PerRead(r) <= MAX_U64 then Success(PerRead(r)) else Failure
  {
    hide TwoAligned, RoundUp;
    PairIsChecked(r.maxInputBatchBytes + FRAME_HEADER_BYTES + TRANSPORT_OVERHEAD);
  }

  // ---------------------------------------------------------------------------
  // Theorems
  // ---------------------------------------------------------------------------

  /** What GetFlightInfo has checked before a request reaches admission. */
  predicate Admissible(r: Request, maxBatchBytes: nat) {
    && Sendable(r)
    && 1 <= r.maxBatchBytes <= maxBatchBytes
    && 1 <= r.maxInputBatchBytes <= MAX_STREAM_INPUT_BATCH_BYTES && r.maxInputBatchBytes <= maxBatchBytes
  }

  lemma AdmissibleSizes(r: Request, maxBatchBytes: nat)
    requires Admissible(r, maxBatchBytes) && maxBatchBytes <= MAX_CONFIGURED_BATCH_BYTES
    ensures Is64Bit(r) && |r.plan| <= MAX_PLAN_BYTES && |r.resultSchema| <= MAX_SCHEMA_BYTES
  {
    assert InLimits(6, Get(r, 6)) && InLimits(11, Get(r, 11));
  }

  lemma MoreInputsCostMore(r: Request, fewer: nat, more: nat)
    requires fewer <= more
    ensures IdealCharge(r, fewer) <= IdealCharge(r, more)
    ensures fewer < more ==> IdealCharge(r, fewer) < IdealCharge(r, more)
  {
    hide RoundUp;
    Multiples(more - fewer, PerRead(r));
    assert (more - fewer) * PerRead(r) == more * PerRead(r) - fewer * PerRead(r);
  }

  /** The charge is strictly monotone in the number of inputs. */
  lemma ChargeIsMonotone(r: Request, fewer: nat, more: nat)
    requires Is64Bit(r) && fewer < more && Charge(r, more).Success?
    ensures Charge(r, fewer).Success? && Charge(r, fewer).value < Charge(r, more).value
  {
    hide Charge, IdealCharge, PerRead;
    ChargeIsIdeal(r, fewer);
    ChargeIsIdeal(r, more);
    MoreInputsCostMore(r, fewer, more);
  }

  /** The bytes actually provisioned: two frames and the expanded rows per input, two results, two requests. */
  function Unaligned(r: Request, inputs: nat): nat {
    inputs * (2 * (r.maxInputBatchBytes + FRAME_HEADER_BYTES + TRANSPORT_OVERHEAD) + EXPANDED_INPUT_BYTES)
    + 2 * (r.maxBatchBytes + TRANSPORT_OVERHEAD) + 2 * (|r.plan| + |r.resultSchema| + TRANSPORT_OVERHEAD)
  }

  /** The charge covers the unaligned total, and wastes less than an alignment unit per rounded buffer. */
  lemma ChargeCovers(r: Request, inputs: nat)
    requires Is64Bit(r) && Charge(r, inputs).Success?
    ensures Unaligned(r, inputs) <= Charge(r, inputs).value < Unaligned(r, inputs) + (2 * inputs + 4) * ALIGNMENT
  {
    hide Charge, RoundUp;
    ChargeIsIdeal(r, inputs);
    var raw := 2 * (r.maxInputBatchBytes + FRAME_HEADER_BYTES + TRANSPORT_OVERHEAD) + EXPANDED_INPUT_BYTES;
    SlackScales(inputs, raw, PerRead(r), 2 * ALIGNMENT);
  }

  lemma SlackScales(n: nat, raw: nat, rounded: nat, most: nat)
    requires raw <= rounded <= raw + most
    ensures n * raw <= n * rounded <= n * raw + n * most
  {
    Multiples(n, rounded - raw);
    Multiples(n, raw + most - rounded);
    assert n * (rounded - raw) == n * rounded - n * raw;
    assert n * (raw + most - rounded) == n * raw + n * most - n * rounded;
  }

  /**
   For every request that GetFlightInfo lets through, no charge overflows, and shrinking from the
   maximal charge of the reservation to the charge of the actual inputs, of which the input registry
   admits at most sixteen, never asks for more than is held.
   */
  lemma AdmissionNeverThrows(r: Request, maxBatchBytes: nat, inputs: nat)
    requires Admissible(r, maxBatchBytes) && maxBatchBytes <= MAX_CONFIGURED_BATCH_BYTES && inputs <= MAX_STREAM_INPUTS
    ensures Is64Bit(r) && Charge(r, inputs).Success? && Charge(r, MAX_STREAM_INPUTS).Success?
    ensures Charge(r, inputs).value <= Charge(r, MAX_STREAM_INPUTS).value < 0x2_0000_0000
  {
    hide Charge, RoundUp, Sendable;
    AdmissibleSizes(r, maxBatchBytes);
    ChargeIsIdeal(r, inputs);
    ChargeIsIdeal(r, MAX_STREAM_INPUTS);
    MoreInputsCostMore(r, inputs, MAX_STREAM_INPUTS);
  }
}
