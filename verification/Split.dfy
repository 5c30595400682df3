/**
 `consume_batch`: cutting a result batch into row ranges whose payloads respect the negotiated limit,
 by halving the remaining range until its predicted size fits.
 */
module Split {
  import opened Bytes
  import opened HostTable
  import opened HostEncoder

  datatype Range = Range(offset: nat, count: nat)

  /** How one batch ends. */
  datatype Outcome =
    | Continue                 // every range was published
    | Cancel                   // the deadline had passed, or a publish was cancelled
    | RowTooLarge(row: nat)    // "one MO native result row exceeds negotiated max_batch_bytes"
    | PayloadTooLarge          // publish's own size error
    | Invalid(range: Range)    // measuring or encoding the range throws

  /** The ranges tile [0, end): non-empty, contiguous, in order. */
  predicate Tiles(ranges: seq<Range>, end: nat) {
    if ranges == [] then end == 0
    else
      var last := ranges[|ranges| - 1];
      && last.count > 0 && last.offset + last.count == end
      && Tiles(ranges[..|ranges| - 1], last.offset)
  }

  /** The payload published for a range is its encoding and respects the limit. */
  predicate Published(t: Table, limit: nat, r: Range, payload: Bytes)
    requires Accepted(t)
  {
    EncodeTable(t, r.offset, r.count) == Success(payload) && |payload| <= limit
  }

  predicate AllPublished(t: Table, limit: nat, ranges: seq<Range>, payloads: seq<Bytes>)
    requires Accepted(t)
  {
    && |payloads| == |ranges|
    && forall i :: 0 <= i < |ranges| ==> Published(t, limit, ranges[i], payloads[i])
  }

  predicate Measured(t: Table, limit: nat, r: Range)
    requires Accepted(t)
  {
    EncodedSize(t, r.offset, r.count).Success? && EncodedSize(t, r.offset, r.count).value <= limit
  }

  predicate AllMeasured(t: Table, limit: nat, ranges: seq<Range>)
    requires Accepted(t)
  {
    forall i :: 0 <= i < |ranges| ==> Measured(t, limit, ranges[i])
  }

  /** A row whose payload alone is predicted over the limit. */
  predicate TooLarge(t: Table, limit: nat, row: nat)
    requires Accepted(t)
  {
    EncodedSize(t, row, 1).Success? && EncodedSize(t, row, 1).value > limit
  }

  /** Every range can be measured, and every range that fits the limit can be encoded. */
  ghost predicate WellFormed(t: Table, limit: nat)
    requires Accepted(t)
  {
    forall offset: nat, count: nat {:trigger GoodRange(t, offset, count)} :: GoodRange(t, offset, count) ==>
      && EncodedSize(t, offset, count).Success?
      && (EncodedSize(t, offset, count).value <= limit ==> EncodeTable(t, offset, count).Success?)
  }

  // ---------------------------------------------------------------------------
  // Tilings
  // ---------------------------------------------------------------------------

  lemma {:induction false} TileOf(ranges: seq<Range>, end: nat, row: nat) returns (i: nat)
    requires Tiles(ranges, end) && row < end
    ensures i < |ranges| && ranges[i].offset <= row < ranges[i].offset + ranges[i].count
  {
    var n := |ranges| - 1;
    if row >= ranges[n].offset {
      i := n;
    } else {
      i := TileOf(ranges[..n], ranges[n].offset, row);
    }
  }

  /** Tiles cover each row exactly once: earlier tiles end before later ones begin. */
  lemma {:induction false} TilesAreDisjoint(ranges: seq<Range>, end: nat, i: nat, j: nat)
    requires Tiles(ranges, end) && i < j < |ranges|
    ensures ranges[i].offset + ranges[i].count <= ranges[j].offset
  {
    var n := |ranges| - 1;
    if j < n {
      TilesAreDisjoint(ranges[..n], ranges[n].offset, i, j);
    } else {
      TileEnds(ranges[..n], ranges[n].offset, i);
    }
  }

  lemma {:induction false} TileEnds(ranges: seq<Range>, end: nat, i: nat)
    requires Tiles(ranges, end) && i < |ranges|
    ensures ranges[i].count > 0 && ranges[i].offset + ranges[i].count <= end
  {
    var n := |ranges| - 1;
    if i < n { TileEnds(ranges[..n], ranges[n].offset, i); }
  }

  lemma TileMore(ranges: seq<Range>, end: nat, count: nat)
    requires Tiles(ranges, end) && count > 0
    ensures Tiles(ranges + [Range(end, count)], end + count)
  {
    assert (ranges + [Range(end, count)])[..|ranges|] == ranges;
  }

  /** No row covered by measured tiles is too large: the prediction grows with the range. */
  lemma MeasuredRowsFit(t: Table, limit: nat, ranges: seq<Range>, end: nat, row: nat)
    requires Accepted(t) && Tiles(ranges, end) && row < end && AllMeasured(t, limit, ranges)
    ensures !TooLarge(t, limit, row)
  {
    hide Accepted, EncodedSize;
    var i := TileOf(ranges, end, row);
    assert Measured(t, limit, ranges[i]);
    if TooLarge(t, limit, row) {
      SizeGrows(t, ranges[i].offset, ranges[i].count, row, 1);
    }
  }

  // ---------------------------------------------------------------------------
  // The loops
  // ---------------------------------------------------------------------------

  /** The inner loop: halve the rest of the batch until its predicted size fits. */
  method Fitting(t: Table, limit: nat, offset: nat) returns (count: nat, r: Result<bool>)
    requires Accepted(t) && offset < t.rows
    ensures 1 <= count <= t.rows - offset
    ensures r == Success(true) ==> Measured(t, limit, Range(offset, count))
    ensures r == Success(false) ==> count == 1 && TooLarge(t, limit, offset)
    ensures r.Failure? ==> EncodedSize(t, offset, count).Failure?
    ensures r == Success(true) && count < t.rows - offset ==>
              exists wider :: wider / 2 == count && wider <= t.rows - offset
                && !Measured(t, limit, Range(offset, wider))
  {
    hide Accepted, EncodedSize;
    count := t.rows - offset;
    ghost var wider := count;
    while true
      invariant 1 <= count <= t.rows - offset
      invariant count < t.rows - offset ==>
                  wider / 2 == count && wider <= t.rows - offset && !Measured(t, limit, Range(offset, wider))
      decreases count
    {
      var size := MeasureTable(t, offset, count);
      if size.Failure? { return count, Failure; }
      if size.value <= limit { return count, Success(true); }
      if count == 1 { return count, Success(false); }
      wider := count;
      count := count / 2;
    }
  }

  /** What a batch has done when it ends, having published the rows before `end`. */
  predicate Ends(t: Table, limit: nat, outcome: Outcome, ranges: seq<Range>, end: nat)
    requires Accepted(t)
  {
    && end <= t.rows && Tiles(ranges, end) && AllMeasured(t, limit, ranges)
    && match outcome {
      case Continue => end == t.rows
      case Cancel => true
      case RowTooLarge(row) => end == row < t.rows && TooLarge(t, limit, row)
      case PayloadTooLarge => false
      case Invalid(r) =>
        && r.offset == end && GoodRange(t, r.offset, r.count)
        && (EncodedSize(t, r.offset, r.count).Failure?
          || (Measured(t, limit, r) && EncodeTable(t, r.offset, r.count).Failure?))
    }
  }

  /**
   The whole of `consume_batch`. `expired` is the deadline test and `continues` the number of
   publishes that return CONTINUE before one is cancelled.
   */
  method ConsumeBatch(t: Table, limit: nat, expired: bool, continues: nat)
    returns (outcome: Outcome, ranges: seq<Range>, payloads: seq<Bytes>, end: nat)
    requires Accepted(t)
    ensures Ends(t, limit, outcome, ranges, end)
    ensures AllPublished(t, limit, ranges, payloads)
    ensures outcome.Cancel? <==> expired || |ranges| > continues
    ensures expired ==> ranges == []
  {
    hide Accepted, EncodedSize, EncodeTable, Tiles;
    ranges, payloads, end := [], [], 0;
    TilesEmpty();
    if expired { return Cancel, ranges, payloads, end; }
    while end < t.rows
      invariant end <= t.rows && Tiles(ranges, end) && |ranges| <= continues
      invariant AllPublished(t, limit, ranges, payloads) && AllMeasured(t, limit, ranges)
    {
      var count, fits := Fitting(t, limit, end);
      if fits.Failure? { return Invalid(Range(end, count)), ranges, payloads, end; }
      if !fits.value { return RowTooLarge(end), ranges, payloads, end; }
      var payload := EncodeRange(t, end, count);
      if payload.Failure? { return Invalid(Range(end, count)), ranges, payloads, end; }
      SizeBoundsPayload(t, end, count);
      if |payload.value| > limit { return PayloadTooLarge, ranges, payloads, end; }
      TileMore(ranges, end, count);
      ranges, payloads, end := ranges + [Range(end, count)], payloads + [payload.value], end + count;
      if |ranges| > continues { return Cancel, ranges, payloads, end; }
    }
    return Continue, ranges, payloads, end;
  }

  lemma TilesEmpty()
    ensures Tiles([], 0)
  {
  }

  /**
   Splitting fails for size exactly when a single row alone exceeds the limit: on a table whose
   ranges can all be measured, and encoded where they fit, a run that is not cancelled publishes everything if and
   only if no row is too large, and otherwise stops at the first row that is, having published
   exactly the rows before it.
   */
  lemma SplitIsExact(t: Table, limit: nat, outcome: Outcome, ranges: seq<Range>, end: nat)
    requires Accepted(t) && WellFormed(t, limit) && Ends(t, limit, outcome, ranges, end) && !outcome.Cancel?
    ensures outcome.Continue? <==> forall row :: 0 <= row < t.rows ==> !TooLarge(t, limit, row)
    ensures outcome.RowTooLarge? <==> exists row :: 0 <= row < t.rows && TooLarge(t, limit, row)
    ensures outcome.RowTooLarge? ==> forall row :: 0 <= row < outcome.row ==> !TooLarge(t, limit, row)
  {
    hide Accepted, EncodedSize, EncodeTable, Tiles, TooLarge;
    forall row | 0 <= row < end ensures !TooLarge(t, limit, row) {
      MeasuredRowsFit(t, limit, ranges, end, row);
    }
  }
}
