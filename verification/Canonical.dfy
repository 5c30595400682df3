/**
 Canonical serialization: fields in increasing order, zero numbers and empty strings omitted. Two
 messages with the same bytes agree in every field, although fields may be absent from the bytes.
 */
module Canonical {
  import opened Bytes
  import opened Wire

  /** One field of a message with its value. */
  datatype Item =
    | Uint(field: nat, n: nat)          // omitted when zero
    | RequiredUint(field: nat, n: nat)
    | Blob(field: nat, b: Bytes)        // omitted when empty

  function TagOf(i: Item): nat {
    8 * i.field + if i.Blob? then 2 else 0
  }

  predicate Omitted(i: Item) {
    (i.Uint? && i.n == 0) || (i.Blob? && i.b == [])
  }

  /** A 64-bit value or a string, in a field whose tag takes one byte. */
  predicate Wellformed(i: Item) {
    1 <= i.field <= 15 && (if i.Blob? then |i.b| else i.n) < U64
  }

  /** `append_uint`, `append_required_uint`, `append_bytes`. */
  function Emit(i: Item): Bytes {
    if Omitted(i) then []
    else [TagOf(i) % 256] + if i.Blob? then Delimited(i.b) else Varint(i.n)
  }

  function Serialize(items: seq<Item>): Bytes {
    if items == [] then [] else Emit(items[0]) + Serialize(items[1..])
  }

  predicate SameField(a: Item, b: Item) {
    a.field == b.field && a.Uint? == b.Uint? && a.RequiredUint? == b.RequiredUint?
  }

  /** Fields of the same kinds and numbers, in increasing order. */
  predicate SameShape(a: seq<Item>, b: seq<Item>) {
    && |a| == |b|
    && (forall i :: 0 <= i < |a| ==> Wellformed(a[i]) && Wellformed(b[i]) && SameField(a[i], b[i]))
    && (forall i, j :: 0 <= i < j < |a| ==> a[i].field < a[j].field)
  }

  predicate AllAfter(items: seq<Item>, field: nat) {
    forall i :: 0 <= i < |items| ==> Wellformed(items[i]) && items[i].field > field
  }

  /** What follows a field starts with a larger tag, or is empty. */
  lemma {:induction false} FirstTag(items: seq<Item>, field: nat)
    requires AllAfter(items, field)
    ensures Serialize(items) == [] || Serialize(items)[0] >= 8 * (field + 1)
  {
    hide Delimited, Varint;
    if items != [] && Omitted(items[0]) { FirstTag(items[1..], field); }
  }

  lemma BodyReads(i: Item, rest: Bytes)
    requires Wellformed(i) && !Omitted(i)
    ensures i.Blob? ==> ReadBytes((Emit(i) + rest)[1..], MAX_U64) == Success((i.b, rest))
    ensures !i.Blob? ==> ReadVarint((Emit(i) + rest)[1..]) == Success((i.n, rest))
  {
    hide ReadVarint, Varint, ReadBytes;
    var body := if i.Blob? then Delimited(i.b) else Varint(i.n);
    assert (Emit(i) + rest)[1..] == body + rest;
    if i.Blob? { BytesRoundTrip(i.b, rest, MAX_U64); } else { VarintRoundTrip(i.n, rest); }
  }

  /** An omitted field is followed by a larger tag, so equal bytes omit the same fields. */
  lemma OmittedTogether(a: Item, b: Item, restA: Bytes, restB: Bytes)
    requires Wellformed(b) && SameField(a, b) && (restA == [] || restA[0] >= 8 * (a.field + 1))
    requires Emit(a) + restA == Emit(b) + restB && Omitted(a)
    ensures Omitted(b)
  {
    hide Varint, Delimited;
    assert Emit(a) + restA == restA;
  }

  /** Equal bytes start with equal fields. */
  lemma HeadIsInjective(a: Item, b: Item, restA: Bytes, restB: Bytes)
    requires Wellformed(a) && Wellformed(b) && SameField(a, b)
    requires restA == [] || restA[0] >= 8 * (a.field + 1)
    requires restB == [] || restB[0] >= 8 * (a.field + 1)
    requires Emit(a) + restA == Emit(b) + restB
    ensures a == b && restA == restB
  {
    hide Varint, Delimited, ReadVarint, ReadBytes;
    if Omitted(a) { OmittedTogether(a, b, restA, restB); }
    if Omitted(b) { OmittedTogether(b, a, restB, restA); }
    if Omitted(a) {
      assert restA == Emit(a) + restA && restB == Emit(b) + restB;
    } else {
      BodyReads(a, restA);
      BodyReads(b, restB);
    }
  }

  /** Canonical serialization is injective on messages of one shape. */
  lemma {:induction false} SerializeIsInjective(a: seq<Item>, b: seq<Item>)
    requires SameShape(a, b) && Serialize(a) == Serialize(b)
    ensures a == b
  {
    hide Emit, Wellformed;
    if a != [] {
      FirstTag(a[1..], a[0].field);
      FirstTag(b[1..], a[0].field);
      HeadIsInjective(a[0], b[0], Serialize(a[1..]), Serialize(b[1..]));
      SerializeIsInjective(a[1..], b[1..]);
      assert a == [a[0]] + a[1..] && b == [b[0]] + b[1..];
    }
  }

  lemma {:induction false} SerializeAppend(items: seq<Item>, i: Item)
    ensures Serialize(items + [i]) == Serialize(items) + Emit(i)
  {
    hide Emit;
    if items == [] {
      assert (items + [i])[1..] == [];
    } else {
      SerializeAppend(items[1..], i);
      assert (items + [i])[1..] == items[1..] + [i];
    }
  }

  lemma OneByteTag(i: Item)
    requires Wellformed(i)
    ensures Varint(TagOf(i)) == [TagOf(i) % 256]
  {
  }

  /** One append onto the output; a field number below 16 has a one-byte tag. */
  method Append(output: Bytes, i: Item) returns (r: Bytes)
    requires Wellformed(i)
    ensures r == output + Emit(i)
  {
    hide Varint;
    OneByteTag(i);
    if Omitted(i) { return output; }
    r := AppendVarint(output, TagOf(i));
    if i.Blob? {
      r := AppendVarint(r, |i.b|);
      r := r + i.b;
    } else {
      r := AppendVarint(r, i.n);
    }
  }

  method AppendAll(items: seq<Item>) returns (r: Bytes)
    requires forall i :: 0 <= i < |items| ==> Wellformed(items[i])
    ensures r == Serialize(items)
  {
    hide Emit;
    r := [];
    assert items[..0] == [];
    for i := 0 to |items|
      invariant r == Serialize(items[..i])
    {
      SerializeAppend(items[..i], items[i]);
      assert items[..i] + [items[i]] == items[..i + 1];
      r := Append(r, items[i]);
    }
    assert items[..|items|] == items;
  }

  // ---------------------------------------------------------------------------
  // The messages
  // ---------------------------------------------------------------------------

  datatype TaeRead = TaeRead(
    protocolVersion: nat, featureBits: nat, readRef: Bytes, queryId: Bytes, accountId: nat, tableId: nat,
    snapshotTs: Bytes,
    schemaDigest: Bytes, manifestSha256: Bytes, capabilityHash: Bytes, expiresAtUnixMs: nat, databaseId: nat)

  function TaeItems(r: TaeRead): (items: seq<Item>) {
    [Uint(1, r.protocolVersion), Uint(2, r.featureBits), Blob(3, r.readRef), Blob(4, r.queryId),
     RequiredUint(5, r.accountId), Uint(6, r.tableId), Blob(7, r.snapshotTs), Blob(8, r.schemaDigest),
     Blob(9, r.manifestSha256), Blob(10, r.capabilityHash), Uint(11, r.expiresAtUnixMs), Uint(12, r.databaseId)]
  }

  predicate AllWellformed(items: seq<Item>) {
    forall i :: 0 <= i < |items| ==> Wellformed(items[i])
  }

  function SerializeTaeRead(r: TaeRead): Bytes {
    Serialize(TaeItems(r))
  }

  method WriteTaeRead(r: TaeRead) returns (output: Bytes)
    requires AllWellformed(TaeItems(r))
    ensures output == SerializeTaeRead(r)
  {
    output := AppendAll(TaeItems(r));
  }

  /** The echoed read has the bytes of the requested one exactly if it is the requested one. */
  lemma EchoMeansSameRead(a: TaeRead, b: TaeRead)
    requires AllWellformed(TaeItems(a)) && AllWellformed(TaeItems(b))
    ensures SerializeTaeRead(a) == SerializeTaeRead(b) <==> a == b
  {
    hide Serialize;
    if SerializeTaeRead(a) == SerializeTaeRead(b) {
      var x, y := TaeItems(a), TaeItems(b);
      assert SameShape(x, y);
      SerializeIsInjective(x, y);
      assert x[0] == y[0] && x[1] == y[1] && x[2] == y[2] && x[3] == y[3] && x[4] == y[4] && x[5] == y[5];
      assert x[6] == y[6] && x[7] == y[7] && x[8] == y[8] && x[9] == y[9] && x[10] == y[10] && x[11] == y[11];
    }
  }

  datatype StreamRead = StreamRead(
    protocolVersion: nat, featureBits: nat, streamRef: Bytes, queryId: Bytes, accountId: nat, snapshotTs: Bytes,
    schemaDigest: Bytes, capabilityHash: Bytes, expiresAtUnixMs: nat)

  function StreamItems(r: StreamRead): (items: seq<Item>) {
    [Uint(1, r.protocolVersion), Uint(2, r.featureBits), Blob(3, r.streamRef), Blob(4, r.queryId),
      RequiredUint(5, r.accountId),
     Blob(6, r.snapshotTs), Blob(7, r.schemaDigest), Blob(8, r.capabilityHash), Uint(9, r.expiresAtUnixMs)]
  }

  lemma StreamReadIsInjective(a: StreamRead, b: StreamRead)
    requires AllWellformed(StreamItems(a)) && AllWellformed(StreamItems(b))
    ensures Serialize(StreamItems(a)) == Serialize(StreamItems(b)) <==> a == b
  {
    hide Serialize;
    if Serialize(StreamItems(a)) == Serialize(StreamItems(b)) {
      var x, y := StreamItems(a), StreamItems(b);
      assert SameShape(x, y);
      SerializeIsInjective(x, y);
      assert x[0] == y[0] && x[1] == y[1] && x[2] == y[2] && x[3] == y[3] && x[4] == y[4];
      assert x[5] == y[5] && x[6] == y[6] && x[7] == y[7] && x[8] == y[8];
    }
  }

  datatype UploadAck = UploadAck(batches: nat, rows: nat, bytes: nat, complete: bool, notNeeded: bool, ready: bool)

  function Flag(b: bool): nat {
    if b then 1 else 0
  }

  function AckItems(a: UploadAck): (items: seq<Item>) {
    [Uint(1, a.batches), Uint(2, a.rows), Uint(3, a.bytes),
     Uint(4, Flag(a.complete)), Uint(5, Flag(a.notNeeded)), Uint(6, Flag(a.ready))]
  }

  /** A client that decodes an acknowledgement learns every counter and flag of it. */
  lemma AckIsInjective(a: UploadAck, b: UploadAck)
    requires AllWellformed(AckItems(a)) && AllWellformed(AckItems(b))
    ensures Serialize(AckItems(a)) == Serialize(AckItems(b)) <==> a == b
  {
    hide Serialize;
    if Serialize(AckItems(a)) == Serialize(AckItems(b)) {
      var x, y := AckItems(a), AckItems(b);
      assert SameShape(x, y);
      SerializeIsInjective(x, y);
      assert x[0] == y[0] && x[1] == y[1] && x[2] == y[2] && x[3] == y[3] && x[4] == y[4] && x[5] == y[5];
    }
  }

  // ---------------------------------------------------------------------------
  // What the messages say
  // ---------------------------------------------------------------------------

  lemma EmittedIsRead(i: Item, rest: Bytes)
    requires Wellformed(i) && !Omitted(i)
    ensures Emit(i) + rest != []
    ensures ReadField(Emit(i) + rest) == Success((TagOf(i), if i.Blob? then Text(i.b) else Number(i.n), rest))
    ensures FieldOf(TagOf(i)) == i.field
  {
    hide ReadVarint, Varint, ReadBytes;
    var s := Emit(i) + rest;
    OneByteTag(i);
    BodyReads(i, rest);
    assert s == Varint(TagOf(i)) + s[1..];
    VarintRoundTrip(TagOf(i), s[1..]);
  }

  predicate Increasing(items: seq<Item>) {
    && AllWellformed(items)
    && forall i, j :: 0 <= i < j < |items| ==> items[i].field < items[j].field
  }

  /** A reader finds under each field number the value of that item, or nothing if it was omitted. */
  lemma {:induction false} ItemIsFound(items: seq<Item>, k: nat)
    requires Increasing(items) && k < |items|
    ensures Find(Serialize(items), items[k].field) ==
            Success(if Omitted(items[k]) then None
                    else Some(if items[k].Blob? then Text(items[k].b) else Number(items[k].n)))
  {
    hide Emit, ReadField, Omitted, FieldOf;
    var rest := Serialize(items[1..]);
    if Omitted(items[0]) {
      OmittedIsEmpty(items[0]);
      assert Emit(items[0]) + rest == rest;
    } else {
      EmittedIsRead(items[0], rest);
    }
    if k > 0 {
      ItemIsFound(items[1..], k - 1);
    } else if Omitted(items[0]) {
      LaterIsNotFound(items[1..], items[0].field);
    }
  }

  lemma OmittedIsEmpty(i: Item)
    requires Omitted(i)
    ensures Emit(i) == []
  {
  }

  lemma {:induction false} LaterIsNotFound(items: seq<Item>, field: nat)
    requires AllAfter(items, field)
    ensures Find(Serialize(items), field) == Success(None)
  {
    hide Emit, ReadField, Omitted, FieldOf;
    if items != [] {
      var rest := Serialize(items[1..]);
      LaterIsNotFound(items[1..], field);
      if Omitted(items[0]) {
        OmittedIsEmpty(items[0]);
        assert Emit(items[0]) + rest == rest;
      } else {
        EmittedIsRead(items[0], rest);
      }
    }
  }

  /** What a reader learns of one item. */
  predicate Says(s: Bytes, i: Item) {
    if i.Blob? then SaysText(s, i.field, i.b)
    else if i.RequiredUint? then Find(s, i.field) == Success(Some(Number(i.n)))
    else SaysNumber(s, i.field, i.n)
  }

  lemma EachIsSaid(items: seq<Item>, k: nat)
    requires Increasing(items) && k < |items|
    ensures Says(Serialize(items), items[k])
  {
    hide Find, Serialize;
    ItemIsFound(items, k);
  }

  /** Each field of a TaeRead stands under its own number; the account is always present. */
  lemma TaeReadSays(r: TaeRead)
    requires AllWellformed(TaeItems(r))
    ensures var s := SerializeTaeRead(r);
            && SaysNumber(s, 1, r.protocolVersion) && SaysNumber(s, 2, r.featureBits) && SaysText(s, 3, r.readRef)
            && SaysText(s, 4, r.queryId) && Find(s, 5) == Success(Some(Number(r.accountId)))
            && SaysNumber(s, 6, r.tableId) && SaysText(s, 7, r.snapshotTs) && SaysText(s, 8, r.schemaDigest)
            && SaysText(s, 9, r.manifestSha256) && SaysText(s, 10, r.capabilityHash)
            && SaysNumber(s, 11, r.expiresAtUnixMs) && SaysNumber(s, 12, r.databaseId)
  {
    hide Serialize, Find, SaysNumber, SaysText, Wellformed;
    var items := TaeItems(r);
    assert Increasing(items);
    forall k | 0 <= k < |items| ensures Says(Serialize(items), items[k]) { EachIsSaid(items, k); }
    var s := Serialize(items);
    assert Says(s, items[0]) && Says(s, items[1]) && Says(s, items[2]) && Says(s, items[3]) && Says(s, items[4]);
    assert Says(s, items[5]) && Says(s, items[6]) && Says(s, items[7]) && Says(s, items[8]) && Says(s, items[9]);
    assert Says(s, items[10]) && Says(s, items[11]);
  }

  /** Each field of a StreamRead stands under its own number; the account is always present. */
  lemma StreamReadSays(r: StreamRead)
    requires AllWellformed(StreamItems(r))
    ensures var s := Serialize(StreamItems(r));
            && SaysNumber(s, 1, r.protocolVersion) && SaysNumber(s, 2, r.featureBits) && SaysText(s, 3, r.streamRef)
            && SaysText(s, 4, r.queryId) && Find(s, 5) == Success(Some(Number(r.accountId)))
            && SaysText(s, 6, r.snapshotTs) && SaysText(s, 7, r.schemaDigest)
            && SaysText(s, 8, r.capabilityHash) && SaysNumber(s, 9, r.expiresAtUnixMs)
  {
    hide Serialize, Find, SaysNumber, SaysText, Wellformed;
    var items := StreamItems(r);
    assert Increasing(items);
    forall k | 0 <= k < |items| ensures Says(Serialize(items), items[k]) { EachIsSaid(items, k); }
    var s := Serialize(items);
    assert Says(s, items[0]) && Says(s, items[1]) && Says(s, items[2]) && Says(s, items[3]) && Says(s, items[4]);
    assert Says(s, items[5]) && Says(s, items[6]) && Says(s, items[7]) && Says(s, items[8]);
  }

  /** Each counter and flag of an acknowledgement stands under its own number. */
  lemma AckSays(a: UploadAck)
    requires AllWellformed(AckItems(a))
    ensures var s := Serialize(AckItems(a));
            && SaysNumber(s, 1, a.batches) && SaysNumber(s, 2, a.rows) && SaysNumber(s, 3, a.bytes)
            && SaysNumber(s, 4, if a.complete then 1 else 0) && SaysNumber(s, 5, if a.notNeeded then 1 else 0)
            && SaysNumber(s, 6, if a.ready then 1 else 0)
  {
    hide Serialize, Find, SaysNumber, SaysText, Wellformed;
    var items := AckItems(a);
    assert Increasing(items);
    forall k | 0 <= k < |items| ensures Says(Serialize(items), items[k]) { EachIsSaid(items, k); }
    var s := Serialize(items);
    assert Says(s, items[0]) && Says(s, items[1]) && Says(s, items[2]);
    assert Says(s, items[3]) && Says(s, items[4]) && Says(s, items[5]);
  }
}
