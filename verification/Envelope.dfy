/** The MOB1 envelope: magic, version, flags, sequence number and payload length before the payload. */
module Envelope {
  import opened Bytes

  const CODEC_VERSION: nat := 1
  const MAGIC: Bytes := ['M' as int, 'O' as int, 'B' as int, '1' as int]

  datatype Frame = Frame(sequence: nat, payload: Bytes)

  /** What `serialize_native_batch_frame` accepts; it has no upper bound on the payload. */
  predicate Serializable(f: Frame) {
    1 <= f.sequence <= MAX_U64 && 1 <= |f.payload| <= MAX_U64
  }

  function Header(f: Frame): (h: Bytes)
    ensures |h| == FRAME_HEADER_BYTES
  {
    MAGIC + LE(2, CODEC_VERSION) + LE(2, 0) + LE(8, f.sequence) + LE(8, |f.payload|)
  }

  function SerializeFrame(f: Frame): Result<Bytes>
    requires f.sequence <= MAX_U64 && |f.payload| <= MAX_U64
  {
    if f.sequence == 0 || f.payload == [] then Failure else Success(Header(f) + f.payload)
  }

  function ParseFrame(s: Bytes): Result<Frame> {
    if |s| < FRAME_HEADER_BYTES || s[..4] != MAGIC then Failure
    else if FromLE(s[4..6]) != CODEC_VERSION || FromLE(s[6..8]) != 0 then Failure
    else
      var sequence, size := FromLE(s[8..16]), FromLE(s[16..24]);
      if sequence == 0 || size == 0 || size > MAX_STREAM_INPUT_BATCH_BYTES || size != |s| - FRAME_HEADER_BYTES
        then Failure
      else Success(Frame(sequence, s[24..]))
  }

  lemma HeaderParts(f: Frame)
    requires Serializable(f)
    ensures var s := Header(f) + f.payload;
            && s[..4] == MAGIC && s[4..6] == LE(2, CODEC_VERSION) && s[6..8] == LE(2, 0)
            && s[8..16] == LE(8, f.sequence) && s[16..24] == LE(8, |f.payload|) && s[24..] == f.payload
  {
    hide LE;
  }

  lemma SmallLE()
    ensures FromLE(LE(2, CODEC_VERSION)) == CODEC_VERSION && FromLE(LE(2, 0)) == 0
  {
    LERoundTrip(2, CODEC_VERSION);
    LERoundTrip(2, 0);
  }

  /** Parsing a serialized frame returns it exactly if its payload is within 4 MiB, and refuses it otherwise. */
  lemma FrameRoundTrip(f: Frame)
    requires Serializable(f)
    ensures SerializeFrame(f).Success?
    ensures ParseFrame(SerializeFrame(f).value) ==
            if |f.payload| <= MAX_STREAM_INPUT_BATCH_BYTES then Success(f) else Failure
  {
    hide LE, FromLE, Header;
    HeaderParts(f);
    SmallLE();
    LE8(f.sequence);
    LE8(|f.payload|);
  }

  /** Every accepted byte string is the serialization of what it parses to. */
  lemma ParseIsCanonical(s: Bytes)
    requires ParseFrame(s).Success?
    ensures Serializable(ParseFrame(s).value) && |ParseFrame(s).value.payload| <= MAX_STREAM_INPUT_BATCH_BYTES
    ensures SerializeFrame(ParseFrame(s).value) == Success(s)
  {
    hide LE, FromLE;
    var f := ParseFrame(s).value;
    SmallLE();
    Bounds(s[8..16]);
    Bounds(s[16..24]);
    FromLERoundTrip(s[4..6]);
    FromLERoundTrip(s[6..8]);
    FromLERoundTrip(s[8..16]);
    FromLERoundTrip(s[16..24]);
    assert s == s[..4] + s[4..6] + s[6..8] + s[8..16] + s[16..24] + s[24..];
  }

  lemma Bounds(s: Bytes)
    requires |s| == 8
    ensures FromLE(s) <= MAX_U64
  {
    FromLEBound(s);
    Pow256Values();
  }

  /** `write_u64`: eight bytes into a buffer. */
  method WriteU64(buffer: array<byte>, offset: nat, value: nat)
    requires offset + 8 <= buffer.Length && value <= MAX_U64
    modifies buffer
    ensures buffer[..] == old(buffer[..])[..offset] + LE(8, value) + old(buffer[..])[offset + 8..]
  {
    ghost var before := buffer[..];
    var v := value;
    for i := 0 to 8
      invariant buffer[..] == before[..offset] + LE(8, value)[..i] + before[offset + i..]
      invariant LE(8, value)[i..] == LE(8 - i, v)
    {
      assert LE(8, value)[i] == v % 256;
      buffer[offset + i] := v % 256;
      v := v / 256;
    }
  }

  /** `serialize_native_batch_frame`: fill the header in place and append the payload. */
  method BuildFrame(sequence: nat, payload: Bytes) returns (r: Result<Bytes>)
    requires sequence <= MAX_U64 && |payload| <= MAX_U64
    ensures r == SerializeFrame(Frame(sequence, payload))
  {
    hide LE;
    if sequence == 0 || payload == [] { return Failure; }
    var header := new byte[FRAME_HEADER_BYTES](_ => 0);
    header[0], header[1], header[2], header[3] := MAGIC[0], MAGIC[1], MAGIC[2], MAGIC[3];
    header[4], header[5] := CODEC_VERSION % 256, CODEC_VERSION / 256 % 256;
    assert header[..8] == MAGIC + LE(2, CODEC_VERSION) + LE(2, 0) by { VersionBytes(); }
    ghost var start := header[..8];
    WriteU64(header, 8, sequence);
    assert header[..16] == start + LE(8, sequence);
    WriteU64(header, 16, |payload|);
    assert header[..] == start + LE(8, sequence) + LE(8, |payload|);
    return Success(header[..] + payload);
  }

  lemma VersionBytes()
    ensures LE(2, CODEC_VERSION) == [1, 0] && LE(2, 0) == [0, 0]
  {
    assert LE(1, 0) == [0] + LE(0, 0);
  }
}
