/**
 The protobuf wire layer: base-128 varints, length-delimited bytes, and the sign extension of int32
 fields, as specified by the Protocol Buffers encoding.
 */
module Wire {
  import opened Bytes

  const MAX_VARINT_BYTES: nat := 10

  // ---------------------------------------------------------------------------
  // Writing
  // ---------------------------------------------------------------------------

  /** The base-128 form: seven bits a byte, least significant first, the high bit set on all but the last. */
  function Varint(v: nat): Bytes {
    if v < 128 then [v] else [v % 128 + 128] + Varint(v / 128)
  }

  /** `append_varint`. */
  method AppendVarint(output: Bytes, value: nat) returns (r: Bytes)
    ensures r == output + Varint(value)
  {
    r := output;
    var v := value;
    while v >= 128
      invariant r + Varint(v) == output + Varint(value)
    {
      r := r + [v % 128 + 128];
      v := v / 128;
    }
    r := r + [v];
  }

  // ---------------------------------------------------------------------------
  // Reading
  // ---------------------------------------------------------------------------

  /** What is left of 64 bits after k bytes. */
  function Room(k: nat): nat {
    if k == 0 then U64 else Room(k - 1) / 128
  }

  lemma Rooms()
    ensures Room(1) == 0x200_0000_0000_0000 && Room(2) == 0x4_0000_0000_0000 && Room(3) == 0x800_0000_0000
    ensures Room(4) == 0x10_0000_0000 && Room(5) == 0x2000_0000 && Room(6) == 0x40_0000 && Room(7) == 0x8000
    ensures Room(8) == 0x100 && Room(9) == 2 && Room(10) == 0
  {
    assert Room(3) == 0x800_0000_0000;
    assert Room(6) == 0x40_0000;
    assert Room(9) == 2;
  }

  /** The digits of a varint from byte k on, and what follows it. */
  function VarintFrom(s: Bytes, k: nat): (r: Result<(nat, Bytes)>)
    ensures r.Success? ==> |r.value.1| < |s|
  {
    if k >= MAX_VARINT_BYTES || s == [] || (k == 9 && s[0] > 1) then Failure
    else if s[0] < 128 then Success((s[0], s[1..]))
    else
      var (high, rest) :- VarintFrom(s[1..], k + 1);
      Success((s[0] - 128 + 128 * high, rest))
  }

  function ReadVarint(s: Bytes): (r: Result<(nat, Bytes)>)
    ensures r.Success? ==> |r.value.1| < |s|
  {
    VarintFrom(s, 0)
  }

  lemma {:induction false} VarintFits(s: Bytes, k: nat)
    requires k <= MAX_VARINT_BYTES && VarintFrom(s, k).Success?
    ensures VarintFrom(s, k).value.0 < Room(k)
    decreases MAX_VARINT_BYTES - k
  {
    Rooms();
    if s[0] >= 128 {
      VarintFits(s[1..], k + 1);
      RoomStep(k, VarintFrom(s[1..], k + 1).value.0, s[0] - 128);
    } else if k < 9 {
      RoomIsWide(k);
    }
  }

  lemma RoomIsWide(k: nat)
    requires k < 9
    ensures Room(k) >= 128
  {
    Rooms();
    if k == 0 {} else if k == 1 {} else if k == 2 {} else if k == 3 {} else if k == 4 {}
    else if k == 5 {} else if k == 6 {} else if k == 7 {} else {}
  }

  lemma RoomStep(k: nat, high: nat, low: nat)
    requires high < Room(k + 1) && low < 128
    ensures low + 128 * high < Room(k)
  {
    var room := Room(k);
    assert Room(k + 1) == room / 128;
    assert 128 * (room / 128) <= room;
  }

  /** What is read fits in 64 bits. */
  lemma ReadsUint64(s: Bytes)
    requires ReadVarint(s).Success?
    ensures ReadVarint(s).value.0 < U64
  {
    VarintFits(s, 0);
  }

  lemma {:induction false} VarintRoundTripFrom(v: nat, rest: Bytes, k: nat)
    requires k < MAX_VARINT_BYTES && v < Room(k)
    ensures VarintFrom(Varint(v) + rest, k) == Success((v, rest))
    decreases v
  {
    Rooms();
    var s := Varint(v) + rest;
    if v < 128 {
      assert s[1..] == rest;
    } else {
      assert v / 128 < Room(k + 1);
      assert k + 1 < MAX_VARINT_BYTES;
      VarintRoundTripFrom(v / 128, rest, k + 1);
      assert s[1..] == Varint(v / 128) + rest;
    }
  }

  /** Reading an appended 64-bit value returns it and consumes exactly its bytes. */
  lemma VarintRoundTrip(v: nat, rest: Bytes)
    requires v < U64
    ensures ReadVarint(Varint(v) + rest) == Success((v, rest))
  {
    VarintRoundTripFrom(v, rest, 0);
  }

  lemma {:induction false} VarintSize(v: nat, k: nat)
    requires k < MAX_VARINT_BYTES && v < Room(k)
    ensures 1 <= |Varint(v)| <= MAX_VARINT_BYTES - k
    decreases v
  {
    Rooms();
    if v >= 128 {
      assert k + 1 < MAX_VARINT_BYTES;
      VarintSize(v / 128, k + 1);
    }
  }

  /** A length-delimited field of at most `maximum` bytes. */
  function ReadBytes(s: Bytes, maximum: nat): (r: Result<(Bytes, Bytes)>)
    ensures r.Success? ==> |r.value.1| < |s| && |r.value.0| <= maximum
  {
    var (length, rest) :- ReadVarint(s);
    if length > maximum || length > |rest| then Failure else Success((rest[..length], rest[length..]))
  }

  function Delimited(b: Bytes): Bytes {
    Varint(|b|) + b
  }

  lemma BytesRoundTrip(b: Bytes, rest: Bytes, maximum: nat)
    requires |b| < U64
    ensures ReadBytes(Delimited(b) + rest, maximum) == if |b| <= maximum then Success((b, rest)) else Failure
  {
    hide Varint, ReadVarint;
    assert Delimited(b) + rest == Varint(|b|) + (b + rest);
    VarintRoundTrip(|b|, b + rest);
    assert (b + rest)[..|b|] == b && (b + rest)[|b|..] == rest;
  }

  // ---------------------------------------------------------------------------
  // Looking a field up
  // ---------------------------------------------------------------------------

  datatype Value = Number(n: nat) | Text(b: Bytes)

  /** The field number of a tag, which a reader holds in 32 bits. */
  function FieldOf(tag: nat): nat {
    tag / 8 % U32
  }

  /** One field of a message: its tag, its value by the tag's wire type, and what follows. */
  function ReadField(s: Bytes): (r: Result<(nat, Value, Bytes)>)
    ensures r.Success? ==> |r.value.2| < |s|
  {
    var (tag, rest) :- ReadVarint(s);
    if tag % 8 == 0 then
      var (n, rest') :- ReadVarint(rest);
      Success((tag, Number(n), rest'))
    else if tag % 8 == 2 then
      var (b, rest') :- ReadBytes(rest, MAX_U64);
      Success((tag, Text(b), rest'))
    else Failure
  }

  /** What a message says under a field number, to a reader that knows nothing else of it. */
  function Find(s: Bytes, field: nat): Result<Option<Value>>
    decreases |s|
  {
    if s == [] then Success(None)
    else
      var (tag, value, rest) :- ReadField(s);
      if FieldOf(tag) == field then Success(Some(value)) else Find(rest, field)
  }

  /** A numeric field, zero when absent. */
  predicate SaysNumber(s: Bytes, field: nat, n: nat) {
    Find(s, field) == Success(Some(Number(n))) || (n == 0 && Find(s, field) == Success(None))
  }

  /** A bytes field, empty when absent. */
  predicate SaysText(s: Bytes, field: nat, b: Bytes) {
    Find(s, field) == Success(Some(Text(b))) || (b == [] && Find(s, field) == Success(None))
  }

  // ---------------------------------------------------------------------------
  // Signed 32-bit fields
  // ---------------------------------------------------------------------------

  const FIRST_SIGN_EXTENDED: nat := MAX_U64 - MAX_I32

  /** The width and scale fields of a native result column. */
  function Int32Field(v: nat): Result<int> {
    if MAX_I32 < v < FIRST_SIGN_EXTENDED then Failure else Success(AsSigned(v % U32, U32))
  }

  /** A 64-bit value is accepted exactly if it is the sign extension of an int32, and is read as that int32. */
  lemma Int32Accepted(v: nat, i: int)
    requires v < U64
    ensures Int32Field(v) == Success(i) <==> IsInt32(i) && v == AsUnsigned(i, U64)
  {
    if v >= FIRST_SIGN_EXTENDED {
      DivUnique(v, U32, U32 - 1, v - (U32 - 1) * U32);
    } else if v <= MAX_I32 {
      DivUnique(v, U32, 0, v);
    }
  }

  // ---------------------------------------------------------------------------
  // The reader object
  // ---------------------------------------------------------------------------

  /** `wire_reader`: a position in an input. */
  class WireReader {
    const input: Bytes
    var position: nat

    ghost predicate Valid()
      reads this
    {
      position <= |input|
    }

    ghost function Rest(): Bytes
      reads this
      requires Valid()
    {
      input[position..]
    }

    constructor (input: Bytes)
      ensures Valid() && Rest() == input && this.input == input
    {
      this.input := input;
      position := 0;
    }

    method Done() returns (done: bool)
      requires Valid()
      ensures done <==> Rest() == []
    {
      done := position == |input|;
    }

    /** `varint`, whose bits never overlap, so adding them is or-ing them. */
    method ReadNumber() returns (r: Result<nat>)
      requires Valid()
      modifies this`position
      ensures Valid()
      ensures r.Success? <==> ReadVarint(old(Rest())).Success?
      ensures r.Success? ==> ReadVarint(old(Rest())) == Success((r.value, Rest()))
    {
      var value: nat, weight: nat, k := 0, 1, 0;
      ghost var start := Rest();
      while k < MAX_VARINT_BYTES
        invariant 0 <= k <= MAX_VARINT_BYTES && Valid() && weight > 0
        invariant ReadVarint(start) == Weighted(value, weight, VarintFrom(Rest(), k))
      {
        if position == |input| { return Failure; }
        var b: nat := input[position];
        ghost var here := Rest();
        position := position + 1;
        assert here[0] == b && here[1..] == Rest();
        if k == 9 && b > 1 { return Failure; }
        if b < 128 {
          assert weight * b == b * weight;
          return Success(value + b * weight);
        }
        WeightedStep(value, weight, b - 128, VarintFrom(Rest(), k + 1));
        value := value + (b - 128) * weight;
        weight, k := weight * 128, k + 1;
      }
      return Failure;
    }

    /** `bytes`. */
    method ReadText(maximum: nat) returns (r: Result<Bytes>)
      requires Valid()
      modifies this`position
      ensures Valid()
      ensures r.Success? <==> ReadBytes(old(Rest()), maximum).Success?
      ensures r.Success? ==> ReadBytes(old(Rest()), maximum) == Success((r.value, Rest()))
    {
      hide ReadVarint;
      var length := ReadNumber();
      if length.Failure? || length.value > maximum || length.value > |input| - position { return Failure; }
      ghost var rest := Rest();
      r := Success(input[position .. position + length.value]);
      position := position + length.value;
      assert rest[..length.value] == r.value && rest[length.value..] == Rest();
    }
  }

  /** The value so far plus the digits still to come. */
  ghost function Weighted(value: nat, weight: nat, r: Result<(nat, Bytes)>): Result<(nat, Bytes)> {
    if r.Failure? then Failure else Success((value + weight * r.value.0, r.value.1))
  }

  lemma WeightedStep(value: nat, weight: nat, digit: nat, r: Result<(nat, Bytes)>)
    ensures Weighted(value + digit * weight, weight * 128, r) ==
            Weighted(value, weight, if r.Failure? then Failure else Success((digit + 128 * r.value.0, r.value.1)))
  {
    if r.Success? {
      assert weight * (digit + 128 * r.value.0) == digit * weight + (weight * 128) * r.value.0;
    }
  }
}
