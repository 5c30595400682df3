/**
 The 24-byte varlena descriptor: up to 23 bytes inline behind a length byte, or the marker
 0xFFFFFFFF followed by an offset and a length into the vector's area.
 */
module Varlena {
  import opened Bytes

  const SIZE: nat := 24
  const INLINE_MAX: nat := 23
  const BIG_MARKER: nat := 0xFFFF_FFFF

  datatype Cell = Null | Value(bytes: Bytes)

  predicate IsBig(c: Cell) {
    c.Value? && |c.bytes| > INLINE_MAX
  }

  // ---------------------------------------------------------------------------
  // Encoding
  // ---------------------------------------------------------------------------

  function Descriptor(c: Cell, areaOffset: nat): (d: Bytes)
    ensures |d| == SIZE
  {
    if c.Null? then Zeros(SIZE)
    else if |c.bytes| <= INLINE_MAX then [|c.bytes|] + c.bytes + Zeros(INLINE_MAX - |c.bytes|)
    else LE(4, BIG_MARKER) + LE(4, areaOffset) + LE(4, |c.bytes|) + Zeros(12)
  }

  /** The area built by visiting the cells in order. */
  function Area(cells: seq<Cell>): Bytes {
    if cells == [] then []
    else
      var last := cells[|cells| - 1];
      Area(cells[..|cells| - 1]) + if IsBig(last) then last.bytes else []
  }

  function Descriptors(cells: seq<Cell>): (s: Bytes)
    ensures |s| == SIZE * |cells|
  {
    if cells == [] then []
    else Descriptors(cells[..|cells| - 1]) + Descriptor(cells[|cells| - 1], |Area(cells[..|cells| - 1])|)
  }

  lemma {:induction false} AreaPrefix(cells: seq<Cell>, i: nat)
    requires i < |cells|
    ensures Area(cells[..i]) + (if IsBig(cells[i]) then cells[i].bytes else []) <= Area(cells)
    ensures |Area(cells[..i])| <= |Area(cells)|
  {
    var n := |cells| - 1;
    if i == n {
      assert cells[..n] == cells[..i];
    } else {
      AreaPrefix(cells[..n], i);
      assert cells[..n][..i] == cells[..i];
    }
  }

  lemma DescriptorsLast(cells: seq<Cell>)
    requires cells != []
    ensures var n := |cells| - 1;
            Descriptors(cells) == Descriptors(cells[..n]) + Descriptor(cells[n], |Area(cells[..n])|)
  {
  }

  lemma {:induction false} DescriptorAt(cells: seq<Cell>, i: nat)
    requires i < |cells|
    ensures Descriptors(cells)[SIZE * i .. SIZE * i + SIZE] == Descriptor(cells[i], |Area(cells[..i])|)
  {
    hide Descriptor, Descriptors, Area;
    var n := |cells| - 1;
    var prefix, last := Descriptors(cells[..n]), Descriptor(cells[n], |Area(cells[..n])|);
    DescriptorsLast(cells);
    LastElement(prefix, last, n, i);
    if i < n {
      DescriptorAt(cells[..n], i);
      assert cells[..n][..i] == cells[..i];
    }
  }

  lemma LastElement(prefix: Bytes, last: Bytes, n: nat, i: nat)
    requires |prefix| == SIZE * n && |last| == SIZE && i <= n
    ensures (prefix + last)[SIZE * i .. SIZE * i + SIZE] == if i == n then last else prefix[SIZE * i .. SIZE * i + SIZE]
  {
    var at := SIZE * i;
    if i == n {
      SliceOfSuffix(prefix, last, at, at + SIZE);
    } else {
      SliceOfPrefix(prefix, last, at, at + SIZE);
    }
  }

  // ---------------------------------------------------------------------------
  // Decoding
  // ---------------------------------------------------------------------------

  predicate IsInline(d: Bytes)
    requires |d| == SIZE
  {
    d[0] <= INLINE_MAX
  }

  function BigOffset(d: Bytes): nat
    requires |d| == SIZE
  {
    FromLE(d[4..8])
  }

  function BigLength(d: Bytes): nat
    requires |d| == SIZE
  {
    FromLE(d[8..12])
  }

  /** The descriptor test of `parse_column`. */
  predicate InArea(d: Bytes, area: Bytes)
    requires |d| == SIZE
  {
    IsInline(d) || (FromLE(d[0..4]) == BIG_MARKER && BigOffset(d) <= |area| && BigLength(d) <= |area| - BigOffset(d))
  }

  /** The string that `fill_column` adds for a descriptor. */
  function Text(d: Bytes, area: Bytes): Bytes
    requires |d| == SIZE && InArea(d, area)
  {
    if IsInline(d) then d[1 .. 1 + d[0]] else area[BigOffset(d) .. BigOffset(d) + BigLength(d)]
  }

  /** Every descriptor the encoder writes is accepted, and a value's descriptor reads back as the value. */
  lemma DescriptorRoundTrip(cells: seq<Cell>, i: nat)
    requires i < |cells| && |Area(cells)| <= MAX_U32
    ensures var d := Descriptor(cells[i], |Area(cells[..i])|);
            && InArea(d, Area(cells))
            && (cells[i].Value? ==> Text(d, Area(cells)) == cells[i].bytes)
  {
    hide LE, FromLE, Area;
    var c, area := cells[i], Area(cells);
    var offset := |Area(cells[..i])|;
    var d := Descriptor(c, offset);
    AreaPrefix(cells, i);
    if IsBig(c) {
      BigDescriptor(c, offset);
      assert area[..offset + |c.bytes|] == Area(cells[..i]) + c.bytes;
      assert area[offset .. offset + |c.bytes|] == c.bytes;
    }
  }

  lemma BigDescriptor(c: Cell, offset: nat)
    requires IsBig(c) && offset <= MAX_U32 && |c.bytes| <= MAX_U32
    ensures var d := Descriptor(c, offset);
            && !IsInline(d) && FromLE(d[0..4]) == BIG_MARKER
            && BigOffset(d) == offset && BigLength(d) == |c.bytes|
  {
    var d := Descriptor(c, offset);
    assert d[0] == BIG_MARKER % 256;
    hide LE, FromLE;
    assert d[0..4] == LE(4, BIG_MARKER) && d[4..8] == LE(4, offset) && d[8..12] == LE(4, |c.bytes|);
    LE4(BIG_MARKER);
    LE4(offset);
    LE4(|c.bytes|);
  }

  // ---------------------------------------------------------------------------
  // The text of a column
  // ---------------------------------------------------------------------------

  /** What the text loop of both encoders computes, unless the area outgrows 32 bits. */
  function EncodeText(cells: seq<Cell>): Result<(Bytes, Bytes)> {
    if |Area(cells)| > MAX_U32 then Failure else Success((Descriptors(cells), Area(cells)))
  }
}
