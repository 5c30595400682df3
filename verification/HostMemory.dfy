/**
 A host allocation is a list of equally sized blocks. `copy_host_bytes` gathers a byte range across
 block boundaries; it is the same as slicing the concatenation of the blocks.
 */
module HostMemory {
  import opened Bytes

  datatype Allocation = Allocation(blocks: seq<Bytes>, blockSize: nat, sizeBytes: nat)

  predicate Valid(a: Allocation) {
    && a.blockSize > 0
    && (forall i :: 0 <= i < |a.blocks| ==> |a.blocks[i]| == a.blockSize)
    && a.sizeBytes <= |a.blocks| * a.blockSize
  }

  function Concat(blocks: seq<Bytes>): Bytes {
    if blocks == [] then [] else Concat(blocks[..|blocks| - 1]) + blocks[|blocks| - 1]
  }

  lemma {:induction false} ConcatSize(blocks: seq<Bytes>, size: nat)
    requires forall i :: 0 <= i < |blocks| ==> |blocks[i]| == size
    ensures |Concat(blocks)| == |blocks| * size
  {
    if blocks != [] {
      var n := |blocks| - 1;
      ConcatSize(blocks[..n], size);
      assert n * size + size == |blocks| * size;
    }
  }

  function Flat(a: Allocation): (s: Bytes)
    requires Valid(a)
    ensures |s| == a.sizeBytes
  {
    ConcatSize(a.blocks, a.blockSize);
    Concat(a.blocks)[..a.sizeBytes]
  }

  /** A range inside one block is a range of the concatenation. */
  lemma {:induction false} BlockRange(blocks: seq<Bytes>, size: nat, block: nat, from: nat, count: nat)
    requires forall i :: 0 <= i < |blocks| ==> |blocks[i]| == size
    requires block < |blocks| && from + count <= size
    ensures block * size + from + count <= |Concat(blocks)|
    ensures Concat(blocks)[block * size + from .. block * size + from + count] == blocks[block][from .. from + count]
  {
    hide Concat;
    var n := |blocks| - 1;
    var at := block * size + from;
    ConcatSize(blocks, size);
    ConcatSize(blocks[..n], size);
    Fits(block, |blocks|, size);
    ConcatLast(blocks);
    var prefix := Concat(blocks[..n]);
    if block == n {
      SliceOfSuffix(prefix, blocks[n], at, at + count);
    } else {
      Fits(block, n, size);
      BlockRange(blocks[..n], size, block, from, count);
      SliceOfPrefix(prefix, blocks[n], at, at + count);
    }
  }

  lemma ConcatLast(blocks: seq<Bytes>)
    requires blocks != []
    ensures Concat(blocks) == Concat(blocks[..|blocks| - 1]) + blocks[|blocks| - 1]
  {
  }

  function Block(a: Allocation, offset: nat): nat
    requires Valid(a)
  {
    offset / a.blockSize
  }

  function InBlock(a: Allocation, offset: nat): (r: nat)
    requires Valid(a)
    ensures r < a.blockSize
  {
    offset % a.blockSize
  }

  lemma Locate(a: Allocation, offset: nat)
    requires Valid(a)
    ensures offset == Block(a, offset) * a.blockSize + InBlock(a, offset)
  {
  }

  lemma PieceIn(a: Allocation, block: nat, inBlock: nat, count: nat)
    requires Valid(a) && count > 0 && inBlock + count <= a.blockSize
             && block * a.blockSize + inBlock + count <= a.sizeBytes
    ensures block < |a.blocks|
    ensures var from := block * a.blockSize + inBlock;
            a.blocks[block][inBlock .. inBlock + count] == Flat(a)[from .. from + count]
  {
    hide Concat;
    BlockExists(|a.blocks|, a.blockSize, block);
    BlockRange(a.blocks, a.blockSize, block, inBlock, count);
    var from := block * a.blockSize + inBlock;
    ConcatSize(a.blocks, a.blockSize);
    SliceOfTake(Concat(a.blocks), a.sizeBytes, from, from + count);
  }

  lemma BlockExists(blocks: nat, size: nat, block: nat)
    requires block * size < blocks * size
    ensures block < blocks
  {
    assert (block - blocks) * size == block * size - blocks * size;
    Multiples(block - blocks, size);
  }

  /** The next piece of a copy lies in one block and is a slice of the flat bytes. */
  lemma PieceAt(a: Allocation, from: nat, count: nat)
    requires Valid(a) && count > 0 && InBlock(a, from) + count <= a.blockSize && from + count <= a.sizeBytes
    ensures Block(a, from) < |a.blocks| && |a.blocks[Block(a, from)]| == a.blockSize
    ensures a.blocks[Block(a, from)][InBlock(a, from) .. InBlock(a, from) + count] == Flat(a)[from .. from + count]
  {
    hide Block, InBlock, Flat;
    Locate(a, from);
    PieceIn(a, Block(a, from), InBlock(a, from), count);
  }

  /** The range check and the bytes of a flat memory. */
  function Fetch(memory: Bytes, offset: nat, size: nat): (r: Result<Bytes>)
    ensures r.Success? <==> offset + size <= |memory|
    ensures r.Success? ==> |r.value| == size
  {
    if offset > |memory| || size > |memory| - offset then Failure else Success(memory[offset .. offset + size])
  }

  /** `copy_host_bytes` into the front of a target buffer. */
  method CopyHostBytes(a: Allocation, offset: nat, size: nat, target: array<byte>) returns (ok: bool)
    requires Valid(a) && size <= target.Length
    modifies target
    ensures ok == Fetch(Flat(a), offset, size).Success?
    ensures target[..] == if ok then Fetch(Flat(a), offset, size).value + old(target[..])[size..] else old(target[..])
  {
    hide Flat, Block, InBlock, Valid, Copied;
    if offset > a.sizeBytes || size > a.sizeBytes - offset {
      return false;
    }
    ghost var flat, before := Flat(a), target[..];
    CopiedEnds(flat, before, offset, size);
    var from, output, left := offset, 0, size;
    while left != 0
      invariant 0 <= left <= size && output + left == size && from == offset + output
      invariant target[..] == Copied(flat, before, offset, output)
      decreases left
    {
      var block, inBlock := Block(a, from), InBlock(a, from);
      var count := if left < a.blockSize - inBlock then left else a.blockSize - inBlock;
      PieceAt(a, from, count);
      var piece := a.blocks[block][inBlock .. inBlock + count];
      Extend(flat, before, offset, output, piece);
      CopyInto(piece, target, output);
      from, output, left := from + count, output + count, left - count;
    }
    ok := true;
  }

  /** The target once `output` bytes have been copied. */
  ghost function Copied(flat: Bytes, before: Bytes, offset: nat, output: nat): (r: Bytes)
    requires offset + output <= |flat| && output <= |before|
    ensures |r| == |before|
  {
    flat[offset .. offset + output] + before[output..]
  }

  lemma CopiedEnds(flat: Bytes, before: Bytes, offset: nat, size: nat)
    requires offset + size <= |flat| && size <= |before|
    ensures Copied(flat, before, offset, 0) == before
    ensures Copied(flat, before, offset, size) == flat[offset .. offset + size] + before[size..]
  {
  }

  lemma Extend(flat: Bytes, before: Bytes, offset: nat, output: nat, piece: Bytes)
    requires offset + output + |piece| <= |flat| && output + |piece| <= |before|
    requires piece == flat[offset + output .. offset + output + |piece|]
    ensures var now := Copied(flat, before, offset, output);
            now[..output] + piece + now[output + |piece|..] == Copied(flat, before, offset, output + |piece|)
  {
  }

  ghost function Overwritten(before: Bytes, piece: Bytes, at: nat, i: nat): (r: Bytes)
    requires i <= |piece| && at + |piece| <= |before|
    ensures |r| == |before|
  {
    before[..at] + piece[..i] + before[at + i..]
  }

  lemma OverwriteOne(before: Bytes, piece: Bytes, at: nat, i: nat)
    requires i < |piece| && at + |piece| <= |before|
    ensures Overwritten(before, piece, at, i)[at + i := piece[i]] == Overwritten(before, piece, at, i + 1)
  {
  }

  /** `memcpy`. */
  method CopyInto(piece: Bytes, target: array<byte>, at: nat)
    requires at + |piece| <= target.Length
    modifies target
    ensures target[..] == old(target[..])[..at] + piece + old(target[..])[at + |piece|..]
  {
    ghost var before := target[..];
    for i := 0 to |piece|
      invariant target[..] == Overwritten(before, piece, at, i)
    {
      hide Overwritten;
      OverwriteOne(before, piece, at, i);
      target[at + i] := piece[i];
    }
  }
}
