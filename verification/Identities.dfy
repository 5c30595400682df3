/**
 The strict parsers of UploadInput and CancelExecution requests: two length-delimited fields of at
 most 32 bytes. Their field test truncates the tag to 32 bits, their switch does not.
 */
module Identities {
  import opened Bytes
  import opened Wire
  import ExecuteRequest

  /** The two fields: a ticket and a stream reference, or a ticket and an idempotency key. */
  datatype Ids = Ids(first: Bytes, second: Bytes)

  /** One turn of the parsing loops: the field, its bytes and the rest. */
  function ReadId(s: Bytes, seen: set<nat>): (r: Result<(nat, Bytes, Bytes)>)
    ensures r.Success? ==> |r.value.2| < |s|
  {
    var (tag, rest) :- ReadVarint(s);
    if !(1 <= FieldOf(tag) <= 2) || FieldOf(tag) in seen || tag % 8 != 2 then Failure
    else if tag / 8 == 1 || tag / 8 == 2 then
      var (b, rest') :- ReadBytes(rest, SHA256_BYTES);
      Success((tag / 8, b, rest'))
    else Failure
  }

  function WithId(ids: Ids, field: nat, b: Bytes): Ids {
    if field == 1 then ids.(first := b) else ids.(second := b)
  }

  function ReadIds(s: Bytes, seen: set<nat>, ids: Ids): Result<(set<nat>, Ids)>
    decreases |s|
  {
    if s == [] then Success((seen, ids))
    else
      var (field, b, rest) :- ReadId(s, seen);
      ReadIds(rest, seen + {field}, WithId(ids, field, b))
  }

  /** `parse_upload_input_request`. */
  function ParseUpload(s: Bytes): Result<Ids> {
    if s == [] || |s| > 2 * (SHA256_BYTES + 2) then Failure
    else
      var (seen, ids) :- ReadIds(s, {}, Ids([], []));
      if seen != {1, 2} || |ids.first| != SHA256_BYTES || |ids.second| != SHA256_BYTES then Failure else Success(ids)
  }

  /** `parse_cancel_request`: an empty identity passes the length tests. */
  function ParseCancel(s: Bytes): Result<Ids> {
    if s == [] || |s| > SHA256_BYTES + 2 then Failure
    else
      var (seen, ids) :- ReadIds(s, {}, Ids([], []));
      if (seen != {1} && seen != {2}) || (ids.first != [] && |ids.first| != SHA256_BYTES) ||
         (ids.second != [] && |ids.second| != SHA256_BYTES) then Failure else Success(ids)
  }

  method ReadOneId(reader: WireReader, seen: set<nat>) returns (r: Result<(nat, Bytes)>)
    requires reader.Valid()
    modifies reader`position
    ensures reader.Valid()
    ensures r.Success? <==> ReadId(old(reader.Rest()), seen).Success?
    ensures r.Success? ==> ReadId(old(reader.Rest()), seen) == Success((r.value.0, r.value.1, reader.Rest()))
  {
    hide ReadVarint, ReadBytes;
    var tag := reader.ReadNumber();
    if tag.Failure? { return Failure; }
    var field := FieldOf(tag.value);
    if field == 0 || field > 2 || field in seen || tag.value % 8 != 2 { return Failure; }
    if tag.value / 8 != 1 && tag.value / 8 != 2 { return Failure; }
    var b := reader.ReadText(SHA256_BYTES);
    r := if b.Failure? then Failure else Success((tag.value / 8, b.value));
  }

  /** The loop of both parsers. */
  method ReadAllIds(bytes: Bytes) returns (r: Result<(set<nat>, Ids)>)
    ensures r == ReadIds(bytes, {}, Ids([], []))
  {
    hide ReadId, WithId;
    var reader := new WireReader(bytes);
    var seen: set<nat>, ids := {}, Ids([], []);
    while true
      invariant reader.Valid() && fresh(reader) && reader.input == bytes
      invariant ReadIds(reader.Rest(), seen, ids) == ReadIds(bytes, {}, Ids([], []))
      decreases |bytes| - reader.position
    {
      var done := reader.Done();
      if done { return Success((seen, ids)); }
      var id := ReadOneId(reader, seen);
      if id.Failure? { return Failure; }
      seen, ids := seen + {id.value.0}, WithId(ids, id.value.0, id.value.1);
    }
  }

  // ---------------------------------------------------------------------------
  // The bytes of one field
  // ---------------------------------------------------------------------------

  lemma {:induction false} VarintLength(s: Bytes, k: nat)
    requires VarintFrom(s, k).Success?
    ensures var (v, rest) := VarintFrom(s, k).value;
            && 1 <= |s| - |rest| <= MAX_VARINT_BYTES - k && rest == s[|s| - |rest|..]
            && (|s| - |rest| == 1 ==> v == s[0])
    decreases |s|
  {
    if s[0] >= 128 { VarintLength(s[1..], k + 1); }
  }

  /** A field as clients write it. */
  function IdBytes(field: nat, b: Bytes): Bytes
    requires 1 <= field <= 2 && |b| <= SHA256_BYTES
  {
    [8 * field + 2, |b|] + b
  }

  lemma ReadIdShape(s: Bytes, seen: set<nat>)
    requires ReadId(s, seen).Success?
    ensures var (field, b, rest) := ReadId(s, seen).value;
            && 1 <= field <= 2 && field !in seen && |b| <= SHA256_BYTES
            && 2 + |b| <= |s| - |rest| <= 2 * MAX_VARINT_BYTES + |b|
            && (|s| - |rest| == 2 + |b| ==> s == IdBytes(field, b) + rest)
  {
    hide VarintFrom;
    var (tag, rest1) := ReadVarint(s).value;
    VarintLength(s, 0);
    var (length, rest2) := ReadVarint(rest1).value;
    VarintLength(rest1, 0);
    var (field, b, rest) := ReadId(s, seen).value;
    assert ReadBytes(rest1, SHA256_BYTES) == Success((b, rest)) && |b| == length;
    DivUnique(tag / 8, U32, 0, tag / 8);
    if |s| - |rest| == 2 + |b| {
      assert s == [s[0]] + rest1 && rest1 == [rest1[0]] + rest2 && rest2 == b + rest;
      assert s == IdBytes(field, b) + rest;
    }
  }

  lemma ReadIdBytes(field: nat, b: Bytes, rest: Bytes, seen: set<nat>)
    requires 1 <= field <= 2 && |b| <= SHA256_BYTES && field !in seen
    ensures ReadId(IdBytes(field, b) + rest, seen) == Success((field, b, rest))
  {
    hide VarintFrom;
    var tail := [|b|] + b + rest;
    assert IdBytes(field, b) + rest == Varint(8 * field + 2) + tail;
    VarintRoundTrip(8 * field + 2, tail);
    assert tail == Delimited(b) + rest;
    BytesRoundTrip(b, rest, SHA256_BYTES);
  }

  // ---------------------------------------------------------------------------
  // Theorems
  // ---------------------------------------------------------------------------

  /**
   An upload request is accepted exactly if it is one of the two orders of its 32-byte ticket and
   stream reference, each written with one-byte tag and length: the size cap leaves no other form.
   */
  lemma UploadIsExact(s: Bytes, ids: Ids)
    ensures ParseUpload(s) == Success(ids) <==>
            && |ids.first| == SHA256_BYTES && |ids.second| == SHA256_BYTES
            && (s == IdBytes(1, ids.first) + IdBytes(2, ids.second) ||
                s == IdBytes(2, ids.second) + IdBytes(1, ids.first))
  {
    hide ReadId;
    if ParseUpload(s) == Success(ids) { UploadForm(s, ids); }
    if |ids.first| == SHA256_BYTES && |ids.second| == SHA256_BYTES {
      if s == IdBytes(1, ids.first) + IdBytes(2, ids.second) { UploadParses(1, ids); }
      if s == IdBytes(2, ids.second) + IdBytes(1, ids.first) { UploadParses(2, ids); }
    }
  }

  const NONE := Ids([], [])

  /** What the loop makes of two fields. */
  lemma TwoIds(s: Bytes, f: nat, b: Bytes, rest: Bytes, g: nat, c: Bytes)
    requires s != [] && rest != [] && ReadId(s, {}) == Success((f, b, rest)) && ReadId(rest, {f}) == Success((g, c, []))
    ensures ReadIds(s, {}, NONE) == Success(({f, g}, WithId(WithId(NONE, f, b), g, c)))
  {
    hide ReadId, WithId;
    var once := WithId(NONE, f, b);
    assert {} + {f} == {f} && {f} + {g} == {f, g};
    assert ReadIds(s, {}, NONE) == ReadIds(rest, {f}, once);
    assert ReadIds(rest, {f}, once) == ReadIds([], {f, g}, WithId(once, g, c));
  }

  function IdOf(ids: Ids, field: nat): Bytes {
    if field == 1 then ids.first else ids.second
  }

  lemma UploadParses(field: nat, ids: Ids)
    requires 1 <= field <= 2 && |ids.first| == SHA256_BYTES && |ids.second| == SHA256_BYTES
    ensures ParseUpload(IdBytes(field, IdOf(ids, field)) + IdBytes(3 - field, IdOf(ids, 3 - field))) == Success(ids)
  {
    hide ReadId, ReadIds;
    var x, y := IdOf(ids, field), IdOf(ids, 3 - field);
    var rest := IdBytes(3 - field, y);
    assert rest + [] == rest;
    ReadIdBytes(field, x, rest, {});
    ReadIdBytes(3 - field, y, [], {field});
    TwoIds(IdBytes(field, x) + rest, field, x, rest, 3 - field, y);
    assert {field, 3 - field} == {1, 2};
  }

  /** An accepted byte string has one field or two. */
  lemma IdsForm(s: Bytes)
    requires s != [] && ReadIds(s, {}, NONE).Success?
    ensures ReadId(s, {}).Success?
    ensures var (f, b, rest) := ReadId(s, {}).value;
            if rest == [] then ReadIds(s, {}, NONE) == Success(({f}, WithId(NONE, f, b)))
            else
              && ReadId(rest, {f}).Success? && ReadId(rest, {f}).value.2 == []
              && var (g, c, _) := ReadId(rest, {f}).value;
                 ReadIds(s, {}, NONE) == Success(({f, g}, WithId(WithId(NONE, f, b), g, c)))
  {
    hide ReadId, WithId;
    var (f, b, rest) := ReadId(s, {}).value;
    assert {} + {f} == {f};
    assert ReadIds(s, {}, NONE) == ReadIds(rest, {f}, WithId(NONE, f, b));
    if rest != [] {
      var (g, c, rest') := ReadId(rest, {f}).value;
      assert {f} + {g} == {f, g};
      assert ReadIds(rest, {f}, WithId(NONE, f, b)) == ReadIds(rest', {f, g}, WithId(WithId(NONE, f, b), g, c));
      if rest' != [] {
        ReadIdShape(s, {});
        ReadIdShape(rest, {f});
        NoThird(rest', f, g);
      }
    }
  }

  /** With both fields seen nothing more is accepted. */
  lemma NoThird(s: Bytes, f: nat, g: nat)
    requires 1 <= f <= 2 && 1 <= g <= 2 && f != g
    ensures ReadId(s, {f, g}).Failure?
  {
    hide ReadId;
    if ReadId(s, {f, g}).Success? { ReadIdShape(s, {f, g}); }
  }

  lemma UploadForm(s: Bytes, ids: Ids)
    requires ParseUpload(s) == Success(ids)
    ensures |ids.first| == SHA256_BYTES && |ids.second| == SHA256_BYTES
    ensures s == IdBytes(1, ids.first) + IdBytes(2, ids.second) || s == IdBytes(2, ids.second) + IdBytes(1, ids.first)
  {
    hide ReadId, ReadIds;
    IdsForm(s);
    var (f, b, rest) := ReadId(s, {}).value;
    ReadIdShape(s, {});
    assert 1 in {1, 2} && 2 in {1, 2};
    if rest != [] {
      ReadIdShape(rest, {f});
      var (g, c, end) := ReadId(rest, {f}).value;
      assert rest == IdBytes(g, c) + end == IdBytes(g, c);
    }
  }

  /**
   A cancel request carries exactly one identity, which is 32 bytes long if and only if the request
   is 34 bytes long; otherwise it is empty.
   */
  lemma CancelCarriesIdentity(s: Bytes)
    requires ParseCancel(s).Success?
    ensures var ids := ParseCancel(s).value;
            && (ids.first == [] || ids.second == [])
            && (|s| == SHA256_BYTES + 2 ==> |ids.first| + |ids.second| == SHA256_BYTES)
            && (|s| != SHA256_BYTES + 2 ==> ids == NONE)
  {
    hide ReadId, ReadIds;
    IdsForm(s);
    var (f, b, rest) := ReadId(s, {}).value;
    ReadIdShape(s, {});
    if rest != [] {
      ReadIdShape(rest, {f});
    }
  }

  /** The empty identity is accepted, although the error text asks for exactly one of 32 bytes. */
  lemma EmptyCancelIsAccepted()
    ensures ParseCancel([10, 0]) == Success(NONE)
  {
    hide ReadId;
    assert IdBytes(1, []) + [] == [10, 0];
    ReadIdBytes(1, [], [], {});
    assert {} + {1} == {1} && WithId(NONE, 1, []) == NONE;
    assert ReadIds([10, 0], {}, NONE) == ReadIds([], {1}, NONE);
  }

  /**
   A tag with bits above the 32-bit field number is an alias in the execute parser, which continues as
   if the high bits were absent, and an error in the upload and cancel parsers.
   */
  lemma OversizedTags(tag: nat, high: nat, rest: Bytes, seen: set<nat>, r: ExecuteRequest.Request)
    requires tag < 8 * U32 && high > 0 && tag + high * (8 * U32) < U64
    ensures ExecuteRequest.ParseFields(Varint(tag + high * (8 * U32)) + rest, seen, r) ==
            ExecuteRequest.ParseFields(Varint(tag) + rest, seen, r)
    ensures ReadId(Varint(tag + high * (8 * U32)) + rest, seen).Failure?
  {
    hide Varint, ReadVarint, ExecuteRequest.ReadValue, ExecuteRequest.Set, ExecuteRequest.IsField,
      ExecuteRequest.IsNumeric;
    var big := tag + high * (8 * U32);
    VarintRoundTrip(big, rest);
    VarintRoundTrip(tag, rest);
    assert big / 8 == tag / 8 + high * U32;
    DivUnique(big / 8, U32, high, tag / 8);
    DivUnique(tag / 8, U32, 0, tag / 8);
    assert big % 8 == tag % 8;
    assert big / 8 >= U32;
    assert Varint(big) + rest != [] && Varint(tag) + rest != [] by {
      ExecuteRequest.ReadNonEmpty(big);
      ExecuteRequest.ReadNonEmpty(tag);
    }
  }
}
