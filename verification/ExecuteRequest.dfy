/**
 The strict parser of ExecuteSubstrait requests: eleven fields, each exactly once, in any order, each
 with its wire type and limit. The field number is the tag shifted and truncated to 32 bits.
 */
module ExecuteRequest {
  import opened Bytes
  import opened Wire

  const FIELDS: nat := 11
  const QUERY_ID_BYTES: nat := 16
  const MAX_PLAN_BYTES: nat := 16 * 1024 * 1024
  const MAX_SCHEMA_BYTES: nat := 1024 * 1024
  const MAX_REQUEST_BYTES: nat := MAX_PLAN_BYTES + MAX_SCHEMA_BYTES + 4096

  datatype Request = Request(
    protocolVersion: nat, substraitVersion: Bytes, capabilityHash: Bytes, maxBatchBytes: nat, deadlineUnixMs: nat,
    plan: Bytes, queryId: Bytes, idempotencyKey: Bytes, accountId: nat, maxInputBatchBytes: nat, resultSchema: Bytes)

  const EMPTY := Request(0, [], [], 0, 0, [], [], [], 0, 0, [])

  predicate IsField(f: nat) {
    1 <= f <= FIELDS
  }

  predicate IsNumeric(f: nat) {
    f == 1 || f == 4 || f == 5 || f == 9 || f == 10
  }

  /** The largest length of a text field, the largest value of a numeric one. */
  function Limit(f: nat): nat {
    match f
    case 1 => MAX_U32
    case 2 => 64
    case 3 => SHA256_BYTES
    case 6 => MAX_PLAN_BYTES
    case 7 => QUERY_ID_BYTES
    case 8 => SHA256_BYTES
    case 11 => MAX_SCHEMA_BYTES
    case _ => MAX_U64
  }

  function Get(r: Request, f: nat): Value
    requires IsField(f)
  {
    match f
    case 1 => Number(r.protocolVersion)
    case 2 => Text(r.substraitVersion)
    case 3 => Text(r.capabilityHash)
    case 4 => Number(r.maxBatchBytes)
    case 5 => Number(r.deadlineUnixMs)
    case 6 => Text(r.plan)
    case 7 => Text(r.queryId)
    case 8 => Text(r.idempotencyKey)
    case 9 => Number(r.accountId)
    case 10 => Number(r.maxInputBatchBytes)
    case 11 => Text(r.resultSchema)
  }

  function Set(r: Request, f: nat, v: Value): Request
    requires IsField(f) && v.Number? == IsNumeric(f)
  {
    match f
    case 1 => r.(protocolVersion := v.n)
    case 2 => r.(substraitVersion := v.b)
    case 3 => r.(capabilityHash := v.b)
    case 4 => r.(maxBatchBytes := v.n)
    case 5 => r.(deadlineUnixMs := v.n)
    case 6 => r.(plan := v.b)
    case 7 => r.(queryId := v.b)
    case 8 => r.(idempotencyKey := v.b)
    case 9 => r.(accountId := v.n)
    case 10 => r.(maxInputBatchBytes := v.n)
    case 11 => r.(resultSchema := v.b)
  }

  lemma GetSet(r: Request, f: nat, v: Value, g: nat)
    requires IsField(f) && IsField(g) && v.Number? == IsNumeric(f)
    ensures Get(Set(r, f, v), g) == if g == f then v else Get(r, g)
  {
  }

  lemma GetAll(r: Request, q: Request)
    requires forall f :: 1 <= f <= FIELDS ==> Get(r, f) == Get(q, f)
    ensures r == q
  {
    assert Get(r, 1) == Get(q, 1) && Get(r, 2) == Get(q, 2) && Get(r, 3) == Get(q, 3) && Get(r, 4) == Get(q, 4);
    assert Get(r, 5) == Get(q, 5) && Get(r, 6) == Get(q, 6) && Get(r, 7) == Get(q, 7) && Get(r, 8) == Get(q, 8);
    assert Get(r, 9) == Get(q, 9) && Get(r, 10) == Get(q, 10) && Get(r, 11) == Get(q, 11);
  }

  // ---------------------------------------------------------------------------
  // The parser
  // ---------------------------------------------------------------------------

  /** `expect_field` and the wire-type test. */
  predicate ExpectedTag(tag: nat, seen: set<nat>) {
    && IsField(FieldOf(tag)) && FieldOf(tag) !in seen
    && tag % 8 == if IsNumeric(FieldOf(tag)) then 0 else 2
  }

  function ReadValue(s: Bytes, f: nat): (r: Result<(Value, Bytes)>)
    requires IsField(f)
    ensures r.Success? ==> |r.value.1| < |s| && r.value.0.Number? == IsNumeric(f)
  {
    if IsNumeric(f) then
      var (n, rest) :- ReadVarint(s);
      if f == 1 && n > MAX_U32 then Failure else Success((Number(n), rest))
    else
      var (b, rest) :- ReadBytes(s, Limit(f));
      Success((Text(b), rest))
  }

  predicate Complete(seen: set<nat>, r: Request) {
    && (forall f :: 1 <= f <= FIELDS ==> f in seen)
    && |r.queryId| == QUERY_ID_BYTES && |r.idempotencyKey| == SHA256_BYTES
  }

  function ParseFields(s: Bytes, seen: set<nat>, r: Request): Result<Request>
    decreases |s|
  {
    if s == [] then (if Complete(seen, r) then Success(r) else Failure)
    else
      var (tag, rest) :- ReadVarint(s);
      if !ExpectedTag(tag, seen) then Failure
      else
        var (value, rest') :- ReadValue(rest, FieldOf(tag));
        ParseFields(rest', seen + {FieldOf(tag)}, Set(r, FieldOf(tag), value))
  }

  function ParseExecuteRequest(s: Bytes): Result<Request> {
    if s == [] || |s| > MAX_REQUEST_BYTES then Failure else ParseFields(s, {}, EMPTY)
  }

  method ReadFieldValue(reader: WireReader, f: nat) returns (r: Result<Value>)
    requires reader.Valid() && IsField(f)
    modifies reader`position
    ensures reader.Valid()
    ensures r.Success? <==> ReadValue(old(reader.Rest()), f).Success?
    ensures r.Success? ==> ReadValue(old(reader.Rest()), f) == Success((r.value, reader.Rest()))
  {
    hide ReadVarint, ReadBytes, Limit;
    if IsNumeric(f) {
      var n := reader.ReadNumber();
      if n.Failure? || (f == 1 && n.value > MAX_U32) { return Failure; }
      return Success(Number(n.value));
    }
    var b := reader.ReadText(Limit(f));
    r := if b.Failure? then Failure else Success(Text(b.value));
  }

  /** `parse_execute_request`, with `seen` as a set. */
  method ParseExecute(bytes: Bytes) returns (r: Result<Request>)
    ensures r == ParseExecuteRequest(bytes)
  {
    if bytes == [] || |bytes| > MAX_REQUEST_BYTES { return Failure; }
    hide ReadVarint, ReadValue, ExpectedTag, Set, Complete;
    var reader := new WireReader(bytes);
    var seen: set<nat>, result := {}, EMPTY;
    while true
      invariant reader.Valid() && fresh(reader) && reader.input == bytes
      invariant ParseFields(reader.Rest(), seen, result) == ParseFields(bytes, {}, EMPTY)
      decreases |bytes| - reader.position
    {
      var done := reader.Done();
      if done { break; }
      var tag := reader.ReadNumber();
      if tag.Failure? || !ExpectedTag(tag.value, seen) { return Failure; }
      var f := FieldOf(tag.value);
      assert IsField(f) by { ExpectedIsField(tag.value, seen); }
      var value := ReadFieldValue(reader, f);
      if value.Failure? { return Failure; }
      seen, result := seen + {f}, Set(result, f, value.value);
    }
    r := if Complete(seen, result) then Success(result) else Failure;
  }

  lemma ExpectedIsField(tag: nat, seen: set<nat>)
    requires ExpectedTag(tag, seen)
    ensures IsField(FieldOf(tag))
  {
  }

  // ---------------------------------------------------------------------------
  // Requests as clients write them
  // ---------------------------------------------------------------------------

  predicate InLimits(f: nat, v: Value) {
    v.Number? == IsNumeric(f) && (if v.Number? then v.n else |v.b|) <= Limit(f)
  }

  predicate Sendable(r: Request) {
    forall f :: 1 <= f <= FIELDS ==> InLimits(f, Get(r, f))
  }

  function Tag(f: nat): nat {
    8 * f + if IsNumeric(f) then 0 else 2
  }

  function FieldBytes(r: Request, f: nat): Bytes
    requires IsField(f)
  {
    Varint(Tag(f)) + match Get(r, f) { case Number(n) => Varint(n) case Text(b) => Delimited(b) }
  }

  predicate AreFields(order: seq<nat>) {
    forall i :: 0 <= i < |order| ==> IsField(order[i])
  }

  /** The fields of a request written in a given order. */
  function EncodeFields(r: Request, order: seq<nat>): Bytes
    requires AreFields(order)
  {
    if order == [] then [] else FieldBytes(r, order[0]) + EncodeFields(r, order[1..])
  }

  predicate Distinct(order: seq<nat>) {
    forall i, j :: 0 <= i < j < |order| ==> order[i] != order[j]
  }

  /** An order of the eleven fields without omission or repetition. */
  predicate Permutation(order: seq<nat>) {
    Distinct(order) && forall f :: 1 <= f <= FIELDS ==> f in order
  }

  lemma ReadTag(f: nat, rest: Bytes)
    requires IsField(f)
    ensures ReadVarint(Varint(Tag(f)) + rest) == Success((Tag(f), rest)) && FieldOf(Tag(f)) == f
    ensures forall seen: set<nat> :: ExpectedTag(Tag(f), seen) <==> f !in seen
  {
    hide Varint, ReadVarint;
    VarintRoundTrip(Tag(f), rest);
  }

  lemma ReadFieldBytes(r: Request, f: nat, rest: Bytes)
    requires IsField(f) && InLimits(f, Get(r, f))
    ensures FieldBytes(r, f) != []
    ensures exists tail ::
              && ReadVarint(FieldBytes(r, f) + rest) == Success((Tag(f), tail))
              && ReadValue(tail, f) == Success((Get(r, f), rest))
  {
    hide Varint, ReadVarint, ReadBytes, Get, Tag, IsNumeric;
    var v := Get(r, f);
    var body := match v { case Number(n) => Varint(n) case Text(b) => Delimited(b) };
    var tail := body + rest;
    assert FieldBytes(r, f) + rest == Varint(Tag(f)) + tail;
    ReadTag(f, tail);
    if v.Number? {
      VarintRoundTrip(v.n, rest);
    } else {
      BytesRoundTrip(v.b, rest, Limit(f));
    }
    assert FieldBytes(r, f) != [] by { ReadNonEmpty(Tag(f)); }
  }

  lemma ReadNonEmpty(v: nat)
    ensures Varint(v) != []
  {
  }

  /** Parsing from a state in which the seen fields already agree with the request. */
  lemma {:induction false} ParseInOrder(r: Request, order: seq<nat>, seen: set<nat>, partial: Request)
    requires Sendable(r) && AreFields(order)
    requires forall f :: f in seen && IsField(f) ==> Get(partial, f) == Get(r, f)
    ensures ParseFields(EncodeFields(r, order), seen, partial) ==
            if Fresh(order, seen) && Complete(seen + Range(order), r) then Success(r) else Failure
    decreases |order|
  {
    hide FieldBytes, Get, Set, ReadVarint, ReadValue, InLimits;
    if order == [] {
      if forall f :: 1 <= f <= FIELDS ==> f in seen {
        forall f | 1 <= f <= FIELDS ensures Get(partial, f) == Get(r, f) {
          assert f in seen;
        }
        GetAll(partial, r);
        assert Complete(seen + Range(order), r) <==> Complete(seen, partial);
      } else {
        assert !Complete(seen + Range(order), r) && !Complete(seen, partial);
      }
    } else {
      var f := order[0];
      var rest := EncodeFields(r, order[1..]);
      assert IsField(f) && InLimits(f, Get(r, f));
      ReadFieldBytes(r, f, rest);
      ReadTag(f, []);
      FreshStep(order, seen);
      if f !in seen {
        var partial' := Set(partial, f, Get(r, f));
        forall g | g in seen + {f} && IsField(g) ensures Get(partial', g) == Get(r, g) {
          GetSet(partial, f, Get(r, f), g);
        }
        ParseInOrder(r, order[1..], seen + {f}, partial');
        assert seen + {f} + Range(order[1..]) == seen + Range(order);
      }
    }
  }

  function Range(order: seq<nat>): set<nat> {
    set f | f in order
  }

  predicate Fresh(order: seq<nat>, seen: set<nat>) {
    Distinct(order) && forall i :: 0 <= i < |order| ==> order[i] !in seen
  }

  lemma FreshStep(order: seq<nat>, seen: set<nat>)
    requires order != []
    ensures Fresh(order, seen) <==> order[0] !in seen && Fresh(order[1..], seen + {order[0]})
  {
    var f, rest := order[0], order[1..];
    if f !in seen && Fresh(rest, seen + {f}) {
      forall i, j | 0 <= i < j < |order| ensures order[i] != order[j] {
        assert order[j] == rest[j - 1];
        if i > 0 { assert order[i] == rest[i - 1]; }
      }
      forall i | 0 <= i < |order| ensures order[i] !in seen {
        if i > 0 { assert order[i] == rest[i - 1]; }
      }
    }
  }

  // ---------------------------------------------------------------------------
  // The size cap never refuses a well-formed request
  // ---------------------------------------------------------------------------

  /** No field takes more than its tag, a varint and its limit. */
  function Most(f: nat): nat {
    2 * MAX_VARINT_BYTES + if IsNumeric(f) then 0 else Limit(f)
  }

  function MostOf(seen: set<nat>, k: nat): nat {
    if k == 0 then 0 else MostOf(seen, k - 1) + if k in seen then Most(k) else 0
  }

  lemma {:induction false} MostGrows(seen: set<nat>, f: nat, k: nat)
    requires f !in seen && f >= 1
    ensures MostOf(seen + {f}, k) == MostOf(seen, k) + if f <= k then Most(f) else 0
  {
    hide Most;
    if k != 0 { MostGrows(seen, f, k - 1); }
  }

  lemma FieldSize(r: Request, f: nat)
    requires IsField(f) && InLimits(f, Get(r, f))
    ensures |FieldBytes(r, f)| <= Most(f)
  {
    hide Varint, Get;
    VarintSize(Tag(f), 0);
    match Get(r, f)
    case Number(n) => VarintSize(n, 0);
    case Text(b) => VarintSize(|b|, 0);
  }

  lemma {:induction false} FieldsSize(r: Request, order: seq<nat>, seen: set<nat>)
    requires Sendable(r) && AreFields(order) && Fresh(order, seen)
    ensures MostOf(seen, FIELDS) + |EncodeFields(r, order)| <= MostOf(seen + Range(order), FIELDS)
    decreases |order|
  {
    hide FieldBytes, Get, InLimits, Most, MostOf;
    if order == [] {
      assert seen + Range(order) == seen;
    } else {
      var f := order[0];
      assert IsField(f) && InLimits(f, Get(r, f));
      FieldSize(r, f);
      FreshStep(order, seen);
      MostGrows(seen, f, FIELDS);
      FieldsSize(r, order[1..], seen + {f});
      assert seen + {f} + Range(order[1..]) == seen + Range(order);
    }
  }

  function MostOfAll(k: nat): nat {
    if k == 0 then 0 else MostOfAll(k - 1) + Most(k)
  }

  lemma {:induction false} MostIsBounded(seen: set<nat>, k: nat)
    ensures MostOf(seen, k) <= MostOfAll(k)
  {
    hide Most;
    if k != 0 { MostIsBounded(seen, k - 1); }
  }

  lemma AllFieldsFit()
    ensures MostOfAll(FIELDS) + 1024 <= MAX_REQUEST_BYTES
  {
    assert MostOfAll(3) == 60 + 64 + 32;
    assert MostOfAll(6) == 120 + 64 + 32 + MAX_PLAN_BYTES;
    assert MostOfAll(9) == 180 + 64 + 32 + MAX_PLAN_BYTES + 16 + 32;
  }

  // ---------------------------------------------------------------------------
  // Theorems
  // ---------------------------------------------------------------------------

  /**
   A request written field by field parses back to itself exactly if its fields come in some order of
   all eleven, none missing and none repeated, with a 16-byte query id and a 32-byte key.
   */
  lemma AnyOrderParses(r: Request, order: seq<nat>)
    requires Sendable(r) && AreFields(order)
    ensures ParseExecuteRequest(EncodeFields(r, order)) ==
            if Permutation(order) && |r.queryId| == QUERY_ID_BYTES && |r.idempotencyKey| == SHA256_BYTES
            then Success(r) else Failure
  {
    hide EncodeFields, ParseFields, Sendable, MostOf;
    ParseInOrder(r, order, {}, EMPTY);
    assert {} + Range(order) == Range(order);
    assert Fresh(order, {}) <==> Distinct(order);
    assert forall f :: f in Range(order) <==> f in order;
    if Permutation(order) {
      FieldsSize(r, order, {});
      MostIsBounded(Range(order), FIELDS);
      AllFieldsFit();
      EncodesSomething(r, order);
    }
  }

  lemma EncodesSomething(r: Request, order: seq<nat>)
    requires AreFields(order) && Permutation(order)
    ensures EncodeFields(r, order) != []
  {
    assert 1 in order;
    ReadNonEmpty(Tag(order[0]));
  }

  lemma ReadInLimits(s: Bytes, f: nat)
    requires IsField(f) && ReadValue(s, f).Success?
    ensures InLimits(f, ReadValue(s, f).value.0)
  {
    hide ReadVarint, ReadBytes;
    if IsNumeric(f) { ReadsUint64(s); }
  }

  lemma {:induction false} ParsedInLimits(s: Bytes, seen: set<nat>, partial: Request)
    requires forall f :: f in seen && IsField(f) ==> InLimits(f, Get(partial, f))
    requires ParseFields(s, seen, partial).Success?
    ensures var r := ParseFields(s, seen, partial).value;
            Sendable(r) && |r.queryId| == QUERY_ID_BYTES && |r.idempotencyKey| == SHA256_BYTES
    decreases |s|
  {
    hide Get, Set, ReadVarint, ReadValue, InLimits;
    if s != [] {
      var (tag, rest) := ReadVarint(s).value;
      var f := FieldOf(tag);
      var value := ReadValue(rest, f).value;
      ReadInLimits(rest, f);
      forall g | g in seen + {f} && IsField(g) ensures InLimits(g, Get(Set(partial, f, value.0), g)) {
        GetSet(partial, f, value.0, g);
      }
      ParsedInLimits(value.1, seen + {f}, Set(partial, f, value.0));
    }
  }

  /** Every accepted request respects every limit, so writing it out in any order parses to the same request. */
  lemma AcceptedIsSendable(s: Bytes, order: seq<nat>)
    requires ParseExecuteRequest(s).Success? && AreFields(order) && Permutation(order)
    ensures var r := ParseExecuteRequest(s).value;
            Sendable(r) && ParseExecuteRequest(EncodeFields(r, order)) == Success(r)
  {
    hide ParseFields, Sendable, EncodeFields, Permutation;
    ParsedInLimits(s, {}, EMPTY);
    AnyOrderParses(ParseExecuteRequest(s).value, order);
  }

  // ---------------------------------------------------------------------------
  // What the request says
  // ---------------------------------------------------------------------------

  lemma ValueIsField(s: Bytes, f: nat)
    requires IsField(f) && ReadValue(s, f).Success?
    ensures IsNumeric(f) ==> ReadVarint(s) == Success((ReadValue(s, f).value.0.n, ReadValue(s, f).value.1))
    ensures !IsNumeric(f) ==> ReadBytes(s, MAX_U64) == Success((ReadValue(s, f).value.0.b, ReadValue(s, f).value.1))
  {
    hide ReadVarint;
  }

  lemma FieldIsFound(s: Bytes, seen: set<nat>)
    requires s != [] && ReadVarint(s).Success? && ExpectedTag(ReadVarint(s).value.0, seen)
    requires ReadValue(ReadVarint(s).value.1, FieldOf(ReadVarint(s).value.0)).Success?
    ensures var (tag, rest) := ReadVarint(s).value;
            var (value, rest') := ReadValue(rest, FieldOf(tag)).value;
            ReadField(s) == Success((tag, value, rest'))
  {
    hide ReadVarint, ReadBytes, IsNumeric;
    var (tag, rest) := ReadVarint(s).value;
    ValueIsField(rest, FieldOf(tag));
  }

  /** Fields already seen stay as they were; every other one is what the bytes say. */
  lemma {:induction false} ParsedAsFound(s: Bytes, seen: set<nat>, partial: Request, f: nat)
    requires ParseFields(s, seen, partial).Success? && IsField(f)
    ensures var r := ParseFields(s, seen, partial).value;
            if f in seen then Get(r, f) == Get(partial, f) else Find(s, f) == Success(Some(Get(r, f)))
    decreases |s|
  {
    hide Get, Set, ReadVarint, ReadValue, ReadField, ExpectedTag, FieldOf;
    if s != [] {
      var (tag, rest) := ReadVarint(s).value;
      FieldIsFound(s, seen);
      ExpectedIsField(tag, seen);
      var (value, rest') := ReadValue(rest, FieldOf(tag)).value;
      ParsedAsFound(rest', seen + {FieldOf(tag)}, Set(partial, FieldOf(tag), value), f);
      GetSet(partial, FieldOf(tag), value, f);
      assert FieldOf(tag) !in seen by { ExpectedIsNew(tag, seen); }
    }
  }

  lemma ExpectedIsNew(tag: nat, seen: set<nat>)
    requires ExpectedTag(tag, seen)
    ensures FieldOf(tag) !in seen
  {
  }

  /** An accepted request holds under each name what its bytes say under the number of that name. */
  lemma AcceptedSaysEachField(s: Bytes)
    requires ParseExecuteRequest(s).Success?
    ensures var r := ParseExecuteRequest(s).value;
            && Find(s, 1) == Success(Some(Number(r.protocolVersion)))
            && Find(s, 2) == Success(Some(Text(r.substraitVersion)))
            && Find(s, 3) == Success(Some(Text(r.capabilityHash)))
            && Find(s, 4) == Success(Some(Number(r.maxBatchBytes)))
            && Find(s, 5) == Success(Some(Number(r.deadlineUnixMs)))
            && Find(s, 6) == Success(Some(Text(r.plan)))
            && Find(s, 7) == Success(Some(Text(r.queryId)))
            && Find(s, 8) == Success(Some(Text(r.idempotencyKey)))
            && Find(s, 9) == Success(Some(Number(r.accountId)))
            && Find(s, 10) == Success(Some(Number(r.maxInputBatchBytes)))
            && Find(s, 11) == Success(Some(Text(r.resultSchema)))
  {
    hide Find, ParseFields;
    forall f | 1 <= f <= FIELDS
      ensures Find(s, f) == Success(Some(Get(ParseExecuteRequest(s).value, f)))
    {
      ParsedAsFound(s, {}, EMPTY, f);
    }
  }
}
