/**
 From batches to the client: splitting loses no cell, and a client told OK holds frames that decode,
 in order, to exactly the rows of the batches the query produced.
 */
module ResultStream {
  import opened Bytes
  import opened Varlena
  import NativeBatch
  import opened CodecRoundTrip
  import HostColumn
  import opened HostTable
  import opened Split
  import Execution
  import HostLayout

  // ---------------------------------------------------------------------------
  // A range is the concatenation of its parts
  // ---------------------------------------------------------------------------

  lemma Associate<T>(a: seq<T>, b: seq<T>, c: seq<T>)
    ensures a + (b + c) == a + b + c
  {
  }

  lemma {:induction false} NullsJoin(c: HostColumn.Column, memory: Bytes, offset: nat, a: nat, b: nat)
    requires HostColumn.NullRows(c, memory, offset, a).Success?
             && HostColumn.NullRows(c, memory, offset + a, b).Success?
    ensures HostColumn.NullRows(c, memory, offset, a + b) ==
            Success(HostColumn.NullRows(c, memory, offset, a).value
              + HostColumn.NullRows(c, memory, offset + a, b).value)
    decreases b
  {
    hide HostColumn.RowIsNull;
    var x := HostColumn.NullRows(c, memory, offset, a).value;
    if b == 0 {
      assert x + [] == x;
    } else {
      NullsJoin(c, memory, offset, a, b - 1);
      var last := HostColumn.RowIsNull(c, memory, offset + (a + b) - 1);
      assert offset + a + b - 1 == offset + (a + b) - 1;
      Associate(x, HostColumn.NullRows(c, memory, offset + a, b - 1).value, [last.value]);
    }
  }

  lemma {:induction false} CellsJoin(c: HostColumn.Column, memory: Bytes, t: ColumnType, offset: nat, a: seq<bool>,
      b: seq<bool>)
    requires HostColumn.GoodBuffers(c, t)
    requires HostColumn.CellsOf(c, memory, t, offset, a).Success?
             && HostColumn.CellsOf(c, memory, t, offset + |a|, b).Success?
    ensures HostColumn.CellsOf(c, memory, t, offset, a + b) ==
            Success(HostColumn.CellsOf(c, memory, t, offset, a).value
              + HostColumn.CellsOf(c, memory, t, offset + |a|, b).value)
    decreases |b|
  {
    hide HostColumn.CellOf, HostColumn.GoodBuffers;
    var x := HostColumn.CellsOf(c, memory, t, offset, a).value;
    if b == [] {
      assert a + b == a && x + [] == x;
    } else {
      var n := |b| - 1;
      CellsJoin(c, memory, t, offset, a, b[..n]);
      assert (a + b)[..|a + b| - 1] == a + b[..n] && (a + b)[|a + b| - 1] == b[n];
      assert offset + (|a + b| - 1) == offset + |a| + n;
      var last := HostColumn.CellOf(c, memory, t, offset + |a| + n, b[n]);
      Associate(x, HostColumn.CellsOf(c, memory, t, offset + |a|, b[..n]).value, [last.value]);
    }
  }

  /** Two adjacent ranges of a column make up the range over both. */
  lemma HostCellsJoin(c: HostColumn.Column, memory: Bytes, t: ColumnType, offset: nat, a: nat, b: nat)
    requires HostColumn.HostCells(c, memory, t, offset, a).Success?
             && HostColumn.HostCells(c, memory, t, offset + a, b).Success?
    ensures HostColumn.HostCells(c, memory, t, offset, a + b) ==
            Success(HostColumn.HostCells(c, memory, t, offset, a).value
              + HostColumn.HostCells(c, memory, t, offset + a, b).value)
  {
    hide HostColumn.CellsOf, HostColumn.GoodBuffers, HostColumn.NullRows, HostColumn.SourceMatches,
      HostColumn.MaskCovers;
    var x := HostColumn.ReadNulls(c, memory, offset, a).value;
    var y := HostColumn.ReadNulls(c, memory, offset + a, b).value;
    if c.hasNullMask {
      HostColumn.NullRowsCount(c, memory, offset, a);
      NullsJoin(c, memory, offset, a, b);
    } else {
      assert x + y == seq(a + b, _ => false);
    }
    assert HostColumn.ReadNulls(c, memory, offset, a + b) == Success(x + y);
    CellsJoin(c, memory, t, offset, x, y);
  }

  // ---------------------------------------------------------------------------
  // Splitting loses no cell
  // ---------------------------------------------------------------------------

  /** Column i of a range as the client sees it. */
  function LogicalColumn(t: Table, i: nat, offset: nat, count: nat): Result<seq<Cell>>
    requires Accepted(t) && i < |t.columns|
  {
    var cells :- CellsIn(t, i, offset, count);
    Success(AllLogical(HowOf(t, i), cells))
  }

  function AllLogical(how: NativeBatch.Conversion, cells: seq<Cell>): (r: seq<Cell>)
    ensures |r| == |cells|
  {
    seq(|cells|, k requires 0 <= k < |cells| => Logical(how, cells[k]))
  }

  lemma LogicalJoin(t: Table, i: nat, offset: nat, a: nat, b: nat)
    requires Accepted(t) && i < |t.columns|
    requires LogicalColumn(t, i, offset, a).Success? && LogicalColumn(t, i, offset + a, b).Success?
    ensures LogicalColumn(t, i, offset, a + b) ==
            Success(LogicalColumn(t, i, offset, a).value + LogicalColumn(t, i, offset + a, b).value)
  {
    hide HostColumn.HostCells, Logical, HowOf, HostColumn.SourceMatches, NativeBatch.WellTyped;
    HostCellsJoin(t.columns[i], t.memory, t.types[i], offset, a, b);
    var x, y := CellsIn(t, i, offset, a).value, CellsIn(t, i, offset + a, b).value;
    assert AllLogical(HowOf(t, i), x + y) == AllLogical(HowOf(t, i), x) + AllLogical(HowOf(t, i), y);
  }

  /** What a client reads from column i of one payload. */
  ghost function DecodedColumn(payload: Bytes, schema: seq<NativeBatch.Substrait>, i: nat): Result<seq<Cell>> {
    var view :- NativeBatch.ParseBatch(payload, schema);
    if i >= |view.columns| || !NativeBatch.ValidColumn(view.columns[i]) then Failure
    else CellsRead(view.columns[i], view.columns[i].rows)
  }

  function CellsRead(c: NativeBatch.Column, n: nat): (r: Result<seq<Cell>>)
    requires NativeBatch.ValidColumn(c) && n <= c.rows
    ensures r.Success? ==> |r.value| == n
  {
    if n == 0 then Success([])
    else
      var cells :- CellsRead(c, n - 1);
      var last :- NativeBatch.CellAt(c, n - 1);
      Success(cells + [last])
  }

  lemma {:induction false} ReadsAll(c: NativeBatch.Column, cells: seq<Cell>, how: NativeBatch.Conversion, n: nat)
    requires ReadsBack(c, cells, how) && n <= |cells|
    ensures CellsRead(c, n) == Success(AllLogical(how, cells)[..n])
  {
    hide NativeBatch.CellAt, NativeBatch.ValidColumn, Logical, NativeBatch.DatesInRange;
    if n != 0 {
      ReadsAll(c, cells, how, n - 1);
      assert NativeBatch.CellAt(c, n - 1) == Success(Logical(how, cells[n - 1]));
      assert AllLogical(how, cells)[..n] == AllLogical(how, cells)[..n - 1] + [AllLogical(how, cells)[n - 1]];
    }
  }

  /** A published payload decodes to the logical cells of its range, column by column. */
  lemma PayloadDecodes(t: Table, schema: seq<NativeBatch.Substrait>, limit: nat, r: Range, payload: Bytes, i: nat)
    requires Accepted(t) && Compatible(t, schema) && Published(t, limit, r, payload) && i < |t.columns|
    ensures LogicalColumn(t, i, r.offset, r.count).Success?
    ensures DecodedColumn(payload, schema, i) == LogicalColumn(t, i, r.offset, r.count)
  {
    hide EncodeTable, NativeBatch.ParseBatch, Compatible, NativeBatch.ValidColumn, HostColumn.HostCells, HowOf,
      CellsRead, Logical;
    TableRoundTrip(t, schema, r.offset, r.count);
    var view := NativeBatch.ParseBatch(payload, schema).value;
    var cells := CellsIn(t, i, r.offset, r.count).value;
    assert ReadsBack(view.columns[i], cells, HowOf(t, i));
    ReadsAll(view.columns[i], cells, HowOf(t, i), |cells|);
    assert AllLogical(HowOf(t, i), cells)[..|cells|] == AllLogical(HowOf(t, i), cells);
  }

  /** What a client reads from column i of all payloads, in order. */
  ghost function DecodedAll(payloads: seq<Bytes>, schema: seq<NativeBatch.Substrait>, i: nat): Result<seq<Cell>> {
    if payloads == [] then Success([])
    else
      var cells :- DecodedAll(payloads[..|payloads| - 1], schema, i);
      var last :- DecodedColumn(payloads[|payloads| - 1], schema, i);
      Success(cells + last)
  }

  /** The payloads of any tiling decode to exactly the rows up to its end. */
  lemma {:induction false} TilingDecodes(
    t: Table, schema: seq<NativeBatch.Substrait>, limit: nat, ranges: seq<Range>, payloads: seq<Bytes>, end: nat,
      i: nat)
    requires Accepted(t) && Compatible(t, schema) && i < |t.columns|
    requires Tiles(ranges, end) && ranges != [] && AllPublished(t, limit, ranges, payloads)
    ensures LogicalColumn(t, i, 0, end).Success?
    ensures DecodedAll(payloads, schema, i) == LogicalColumn(t, i, 0, end)
    decreases |ranges|
  {
    hide LogicalColumn, DecodedColumn, Compatible, Accepted, Published;
    var n := |ranges| - 1;
    var last := ranges[n];
    assert Published(t, limit, last, payloads[n]);
    PayloadDecodes(t, schema, limit, last, payloads[n], i);
    if n == 0 {
      assert last.offset == 0 && payloads[..n] == [];
      var cells := LogicalColumn(t, i, 0, end).value;
      assert [] + cells == cells;
    } else {
      TilingDecodes(t, schema, limit, ranges[..n], payloads[..n], last.offset, i);
      LogicalJoin(t, i, 0, last.offset, last.count);
    }
  }

  // ---------------------------------------------------------------------------
  // The whole stream
  // ---------------------------------------------------------------------------

  /** One batch as `consume_batch` cut it up: `Split.ConsumeBatch` with any outcome. */
  datatype Part = Part(table: Table, outcome: Outcome, ranges: seq<Range>, payloads: seq<Bytes>, end: nat)

  predicate IsSplit(p: Part, schema: seq<NativeBatch.Substrait>, limit: nat) {
    && Accepted(p.table) && Compatible(p.table, schema)
    && Ends(p.table, limit, p.outcome, p.ranges, p.end) && AllPublished(p.table, limit, p.ranges, p.payloads)
  }

  predicate AreSplits(parts: seq<Part>, schema: seq<NativeBatch.Substrait>, limit: nat) {
    forall k :: 0 <= k < |parts| ==> IsSplit(parts[k], schema, limit)
  }

  /** What the worker makes of the batches: their payloads, and whether each split reaches its end. */
  function Offers(parts: seq<Part>): (offers: seq<Execution.Offer>)
    ensures |offers| == |parts|
  {
    seq(|parts|, k requires 0 <= k < |parts| => Execution.Offer(parts[k].payloads, parts[k].outcome.Continue?))
  }

  predicate AllContinue(parts: seq<Part>) {
    forall k :: 0 <= k < |parts| ==> parts[k].outcome.Continue?
  }

  /** Column i of one batch; an empty batch has no cells. */
  function BatchColumn(t: Table, i: nat): Result<seq<Cell>>
    requires Accepted(t) && i < |t.columns|
  {
    if t.rows == 0 then Success([]) else LogicalColumn(t, i, 0, t.rows)
  }

  /** For a table whose memory holds these cells as column i, that column of the batch is these cells. */
  lemma LaidOutColumn(t: Table, i: nat, cells: seq<Cell>, texts: seq<Bytes>)
    requires Accepted(t) && i < |t.columns| && HostLayout.LaysOut(t.columns[i], t.memory, cells, texts)
    ensures BatchColumn(t, i) == Success(AllLogical(HowOf(t, i), cells))
  {
    hide HostColumn.HostCells, HostLayout.LaysOut, HowOf, Logical;
    assert t.rows == |cells| by { RowsAreCells(t.columns[i], t.memory, cells, texts); }
    HostLayout.LayoutIsRead(t.columns[i], t.memory, t.types[i], cells, texts, 0, |cells|);
    assert cells[0 .. 0 + |cells|] == cells;
    if t.rows == 0 { assert AllLogical(HowOf(t, i), cells) == []; }
  }

  lemma RowsAreCells(c: HostColumn.Column, memory: Bytes, cells: seq<Cell>, texts: seq<Bytes>)
    requires HostLayout.LaysOut(c, memory, cells, texts)
    ensures c.numRows == |cells|
  {
  }

  /** Column i of the query's result. */
  function ResultColumn(parts: seq<Part>, schema: seq<NativeBatch.Substrait>, limit: nat, i: nat): Result<seq<Cell>>
    requires AreSplits(parts, schema, limit) && i < |schema|
  {
    if parts == [] then Success([])
    else
      var cells :- ResultColumn(parts[..|parts| - 1], schema, limit, i);
      assert IsSplit(parts[|parts| - 1], schema, limit);
      var last :- BatchColumn(parts[|parts| - 1].table, i);
      Success(cells + last)
  }

  lemma {:induction false} DecodedJoin(a: seq<Bytes>, b: seq<Bytes>, schema: seq<NativeBatch.Substrait>, i: nat)
    requires DecodedAll(a, schema, i).Success? && DecodedAll(b, schema, i).Success?
    ensures DecodedAll(a + b, schema, i) == Success(DecodedAll(a, schema, i).value + DecodedAll(b, schema, i).value)
  {
    hide DecodedColumn;
    var x := DecodedAll(a, schema, i).value;
    if b == [] {
      assert a + b == a && x + [] == x;
    } else {
      var n := |b| - 1;
      DecodedJoin(a, b[..n], schema, i);
      assert (a + b)[..|a + b| - 1] == a + b[..n] && (a + b)[|a + b| - 1] == b[n];
      Associate(x, DecodedAll(b[..n], schema, i).value, DecodedColumn(b[n], schema, i).value);
    }
  }

  lemma BatchDecodes(p: Part, schema: seq<NativeBatch.Substrait>, limit: nat, i: nat)
    requires IsSplit(p, schema, limit) && p.outcome.Continue? && i < |schema|
    ensures BatchColumn(p.table, i).Success? && DecodedAll(p.payloads, schema, i) == BatchColumn(p.table, i)
  {
    hide LogicalColumn, DecodedColumn, AllMeasured, Tiles;
    if p.ranges == [] {
      NoTiles(p.table.rows);
    } else {
      TilingDecodes(p.table, schema, limit, p.ranges, p.payloads, p.table.rows, i);
      SomeTiles(p.ranges, p.table.rows);
    }
  }

  lemma NoTiles(end: nat)
    ensures Tiles([], end) ==> end == 0
  {
  }

  lemma SomeTiles(ranges: seq<Range>, end: nat)
    requires Tiles(ranges, end) && ranges != []
    ensures end != 0
  {
  }

  /** All payloads decode to the result. */
  lemma {:induction false} PayloadsDecode(parts: seq<Part>, schema: seq<NativeBatch.Substrait>, limit: nat, i: nat)
    requires AreSplits(parts, schema, limit) && AllContinue(parts) && i < |schema|
    ensures ResultColumn(parts, schema, limit, i).Success?
    ensures DecodedAll(Execution.AllPayloads(Offers(parts)), schema, i) == ResultColumn(parts, schema, limit, i)
  {
    hide DecodedColumn, IsSplit, BatchColumn;
    if parts != [] {
      var n := |parts| - 1;
      PayloadsDecode(parts[..n], schema, limit, i);
      BatchDecodes(parts[n], schema, limit, i);
      assert Offers(parts)[..n] == Offers(parts[..n]);
      DecodedJoin(Execution.AllPayloads(Offers(parts[..n])), parts[n].payloads, schema, i);
    }
  }

  function PayloadsOf(frames: seq<Execution.Frame>): (r: seq<Bytes>)
    ensures |r| == |frames|
  {
    seq(|frames|, k requires 0 <= k < |frames| => frames[k].payload)
  }

  /**
   End to end. In every interleaving of worker, reader, cancellers and handlers: if the worker was
   handed these batches, however the split of each goes, and the reader was told OK, then every split
   reached the end of its batch, and the frames the reader holds are numbered 1, 2, 3, ... and decode,
   column by column and in order, to exactly the rows of all batches.
   */
  lemma CleanStreamIsTheResult(
    limit: nat, steps: seq<Execution.Step>, t: Execution.State,
    parts: seq<Part>, schema: seq<NativeBatch.Substrait>, i: nat)
    requires Execution.Reaches(Execution.Init(limit), steps, t) && t.ended == Some(Execution.OK)
    requires AreSplits(parts, schema, limit) && t.begun == Offers(parts) && i < |schema|
    ensures AllContinue(parts)
    ensures forall k :: 0 <= k < |t.delivered| ==> t.delivered[k].sequence == k + 1
    ensures ResultColumn(parts, schema, limit, i).Success?
    ensures DecodedAll(PayloadsOf(t.delivered), schema, i) == ResultColumn(parts, schema, limit, i)
  {
    hide DecodedAll, ResultColumn, AreSplits, Execution.Reaches;
    Execution.CleanEndIsComplete(limit, steps, t);
    forall k | 0 <= k < |parts| ensures parts[k].outcome.Continue? {
      assert t.begun[k].whole;
    }
    PayloadsDecode(parts, schema, limit, i);
    assert PayloadsOf(t.delivered) == t.offered;
  }
}
