/**
 A one-row result that goes all the way through, as evidence that the assumptions of the end-to-end
 theorem can be met together.
 */
module Sample {
  import opened Bytes
  import opened NullBitmap
  import opened Varlena
  import NativeBatch
  import HostColumn
  import opened HostTable
  import opened Split
  import opened ResultStream
  import E = Execution

  const TINYINT := NativeBatch.ColumnType(NativeBatch.T_INT8, 0, 0, 0, false)
  const COLUMN := HostColumn.Column(HostColumn.INT8, 0, 1, false, 0, 0, true, 0, 1, [], map[])
  const TABLE := Table([COLUMN], [TINYINT], [7], 1)
  const SCHEMA := [NativeBatch.I8]
  const LIMIT: nat := 67

  lemma TableIsAccepted()
    ensures Accepted(TABLE) && Compatible(TABLE, SCHEMA)
  {
  }

  lemma RowIsRead()
    ensures HostColumn.HostCells(COLUMN, [7], TINYINT, 0, 1) == Success([Value([7])])
  {
    var nulls := seq(1, _ => false);
    assert nulls == [false] && nulls[..0] == [];
    assert HostColumn.ReadNulls(COLUMN, [7], 0, 1) == Success([false]);
    assert HostColumn.CellsOf(COLUMN, [7], TINYINT, 0, nulls[..0]) == Success([]);
    assert [7][0..1] == [7] && [] + [Value([7])] == [Value([7])];
    assert HostColumn.CellOf(COLUMN, [7], TINYINT, 0, false) == Success(Value([7]));
  }

  lemma RowIsEncoded()
    ensures HostColumn.EncodeHost(COLUMN, [7], TINYINT, 0, 1) == Success(NativeBatch.Encoded([7], [], []))
  {
    hide HostColumn.HostCells;
    RowIsRead();
    HostColumn.HostCellsShape(COLUMN, [7], TINYINT, 0, 1);
    var cells := [Value([7])];
    assert cells[..0] == [];
    assert NativeBatch.FixedData(cells[..0], NativeBatch.T_INT8, NativeBatch.Copy) == Success([]);
    assert NativeBatch.FixedElement(NativeBatch.T_INT8, NativeBatch.Copy, cells[0]) == Success([7]);
    assert [] + [7] == [7];
    assert NativeBatch.FixedData(cells, NativeBatch.T_INT8, NativeBatch.Copy) == Success([7]);
    assert NativeBatch.NullsOf(cells) == [false];
    assert CountTrue([false]) == 0;
  }

  lemma TableIsEncoded()
    ensures Accepted(TABLE) && EncodeTable(TABLE, 0, 1).Success? && EncodedSize(TABLE, 0, 1) == Success(LIMIT)
    ensures 1 <= |EncodeTable(TABLE, 0, 1).value| <= LIMIT
  {
    TableIsAccepted();
    RowIsEncoded();
    hide HostColumn.EncodeHost, NativeBatch.TypeBytes, LE;
    var encoded := [NativeBatch.Encoded([7], [], [])];
    assert EncodeOf(TABLE, 0, 0, 1) == Success(encoded[0]);
    assert EncodedUpTo(TABLE, 0, 0, 1) == Success([]);
    assert [] + encoded == encoded;
    assert EncodedUpTo(TABLE, 1, 0, 1) == Success(encoded);
    NativeBatch.VectorSize(NativeBatch.FlatVector(1, TINYINT, encoded[0]));
    BatchSize(1, TABLE.types, encoded);
    assert SizeUpTo(TABLE, 0, 0, 1) == Success(28);
    assert SizeOfColumn(TABLE, 0, 0, 1) == Success(39);
    assert SizeUpTo(TABLE, 1, 0, 1) == Success(67);
    SizeBoundsPayload(TABLE, 0, 1);
  }

  function SamplePart(): Part
    requires Accepted(TABLE) && EncodeTable(TABLE, 0, 1).Success?
  {
    Part(TABLE, Continue, [Range(0, 1)], [EncodeTable(TABLE, 0, 1).value], 1)
  }

  lemma PartIsWhole()
    ensures Accepted(TABLE) && WellFormed(TABLE, LIMIT) && EncodeTable(TABLE, 0, 1).Success?
    ensures IsSplit(SamplePart(), SCHEMA, LIMIT)
  {
    TableIsAccepted();
    TableIsEncoded();
    hide EncodeTable, EncodedSize, Accepted, Compatible;
    assert [Range(0, 1)][..0] == [];
    assert Tiles([Range(0, 1)], 1);
    forall offset: nat, count: nat {:trigger GoodRange(TABLE, offset, count)} | GoodRange(TABLE, offset, count)
      ensures EncodedSize(TABLE, offset, count).Success? && EncodeTable(TABLE, offset, count).Success?
    {
      assert offset == 0 && count == 1;
    }
  }

  lemma Prepend(s: E.State, step: E.Step, rest: seq<E.Step>, t: E.State)
    requires E.Enabled(s, step) && E.Reaches(E.Apply(s, step), rest, t)
    ensures E.Reaches(s, [step] + rest, t)
  {
    assert ([step] + rest)[1..] == rest;
  }

  function Whole(payload: Bytes): E.Offer {
    E.Offer([payload], true)
  }

  /** The state in which the worker is idle and everything offered was delivered. */
  function Drained(limit: nat, payload: Bytes): E.State {
    E.State(E.Shared(true, false, false, false, E.OK, None, true), limit, 1, E.Idle, 0, 0, 0, 0, 0, 1,
            [Whole(payload)], [payload], [payload], [E.Frame(1, payload)], None)
  }

  /** The state in which the payload is in the slot. */
  function InSlot(limit: nat, payload: Bytes): E.State {
    E.State(E.Shared(true, false, false, false, E.OK, Some(E.Frame(1, payload)), true), limit, 1,
      E.Posted(E.Offer([], true)), 0, 0, 0, 0, 0, 1,
            [Whole(payload)], [payload], [payload], [], None)
  }

  lemma ThenEnds(limit: nat, payload: Bytes) returns (steps: seq<E.Step>, t: E.State)
    ensures E.Reaches(Drained(limit, payload), steps, t) && t.ended == Some(E.OK) && t.offered == [payload]
            && t.begun == [Whole(payload)]
  {
    hide E.Reaches;
    var s0 := Drained(limit, payload);
    var s1 := E.Apply(s0, E.RunReturns);
    var s2 := E.Apply(s1, E.Finish);
    t := E.Apply(s2, E.TakeEnd);
    Stay(t);
    Prepend(s2, E.TakeEnd, [], t);
    Prepend(s1, E.Finish, [E.TakeEnd] + [], t);
    Prepend(s0, E.RunReturns, [E.Finish] + ([E.TakeEnd] + []), t);
    steps := [E.RunReturns] + ([E.Finish] + ([E.TakeEnd] + []));
  }

  lemma ThenDrains(limit: nat, payload: Bytes) returns (steps: seq<E.Step>, t: E.State)
    ensures E.Reaches(InSlot(limit, payload), steps, t) && t.ended == Some(E.OK) && t.offered == [payload]
            && t.begun == [Whole(payload)]
  {
    steps, t := ThenEnds(limit, payload);
    hide E.Reaches;
    var s0 := InSlot(limit, payload);
    var s1 := E.Apply(s0, E.TakeFrame);
    var s2 := E.Apply(s1, E.AwaitRelease);
    assert [] + [E.Frame(1, payload)] == [E.Frame(1, payload)];
    assert E.Apply(s2, E.EndBatch) == Drained(limit, payload);
    Prepend(s2, E.EndBatch, steps, t);
    Prepend(s1, E.AwaitRelease, [E.EndBatch] + steps, t);
    Prepend(s0, E.TakeFrame, [E.AwaitRelease] + ([E.EndBatch] + steps), t);
    steps := [E.TakeFrame] + ([E.AwaitRelease] + ([E.EndBatch] + steps));
  }

  /** The state in which a batch of one payload was handed to the worker. */
  function Offered(limit: nat, payload: Bytes): E.State {
    E.State(E.Shared(true, false, false, false, E.OK, None, true), limit, 0, E.Entered(Whole(payload)),
            0, 0, 0, 0, 0, 1,
            [Whole(payload)], [payload], [], [], None)
  }

  lemma FrameIsBuilt(s: E.State, payload: Bytes)
    requires s.worker == E.Batch(Whole(payload)) && s.sequence == 0 && 1 <= |payload| <= s.limit
    ensures E.Framed(s) == s.(sequence := 1, worker := E.Ready(E.Frame(1, payload), E.Offer([], true)))
  {
    assert [payload][1..] == [];
  }

  lemma ThenPosts(limit: nat, payload: Bytes) returns (steps: seq<E.Step>, t: E.State)
    requires 1 <= |payload| <= limit
    ensures E.Reaches(Offered(limit, payload), steps, t) && t.ended == Some(E.OK) && t.offered == [payload]
            && t.begun == [Whole(payload)]
  {
    steps, t := ThenDrains(limit, payload);
    hide E.Reaches, E.Framed;
    var s0 := Offered(limit, payload);
    var s1 := E.Apply(s0, E.CheckDeadline(false));
    FrameIsBuilt(s1, payload);
    var s2 := E.Apply(s1, E.BuildFrame);
    assert [] + [payload] == [payload];
    assert E.Apply(s2, E.PostFrame) == InSlot(limit, payload);
    Prepend(s2, E.PostFrame, steps, t);
    Prepend(s1, E.BuildFrame, [E.PostFrame] + steps, t);
    Prepend(s0, E.CheckDeadline(false), [E.BuildFrame] + ([E.PostFrame] + steps), t);
    steps := [E.CheckDeadline(false)] + ([E.BuildFrame] + ([E.PostFrame] + steps));
  }

  /** Claim, start, publish one payload, take it, finish, and end the stream with OK. */
  lemma OnePayloadIsDelivered(limit: nat, payload: Bytes) returns (steps: seq<E.Step>, t: E.State)
    requires 1 <= |payload| <= limit
    ensures E.Reaches(E.Init(limit), steps, t) && t.ended == Some(E.OK) && t.offered == [payload]
            && t.begun == [Whole(payload)]
  {
    steps, t := ThenPosts(limit, payload);
    hide E.Reaches;
    var s0 := E.Init(limit);
    var s1 := E.Apply(s0, E.Claim);
    var s2 := E.Apply(s1, E.Start);
    assert [] + [payload] == [payload];
    assert E.Apply(s2, E.BeginBatch(Whole(payload))) == Offered(limit, payload);
    Prepend(s2, E.BeginBatch(Whole(payload)), steps, t);
    Prepend(s1, E.Start, [E.BeginBatch(Whole(payload))] + steps, t);
    Prepend(s0, E.Claim, [E.Start] + ([E.BeginBatch(Whole(payload))] + steps), t);
    steps := [E.Claim] + ([E.Start] + ([E.BeginBatch(Whole(payload))] + steps));
  }

  lemma Stay(t: E.State)
    ensures E.Reaches(t, [], t)
  {
  }

  /** The assumptions of `ResultStream.CleanStreamIsTheResult` and `Split.SplitIsExact`, met by a one-row result. */
  lemma AssumptionsCanBeMet() returns (steps: seq<E.Step>, t: E.State, parts: seq<Part>)
    ensures E.Reaches(E.Init(LIMIT), steps, t) && t.ended == Some(E.OK)
    ensures AreSplits(parts, SCHEMA, LIMIT) && t.begun == Offers(parts) && t.offered != []
    ensures parts != [] && WellFormed(parts[0].table, LIMIT)
  {
    TableIsEncoded();
    PartIsWhole();
    hide EncodeTable, EncodedSize, Accepted, E.Reaches, IsSplit, WellFormed;
    parts := [SamplePart()];
    assert Offers(parts) == [E.Offer(SamplePart().payloads, true)];
    steps, t := OnePayloadIsDelivered(LIMIT, EncodeTable(TABLE, 0, 1).value);
  }
}
