/** `grpc.health.v1.HealthCheckRequest` and `HealthCheckResponse`: encoding, decoding, and what decoding an encoding, or
    any other bytes, gives. */
module HealthMessages {
  import opened Common
  import opened HealthWire
  import opened HealthCodec

  newtype I32 = x: int | -0x8000_0000 <= x < 0x8000_0000

  /** `as i64 as u64`: a negative status becomes its two's complement. */
  function U64Of(status: I32): nat {
    if status < 0 then U64_LIMIT + status as int else status as int
  }

  /** `as i32`: the low 32 bits, as a signed number. */
  function I32Of(value: nat): I32 {
    var low := value % U32_LIMIT;
    if low >= 0x8000_0000 then (low - U32_LIMIT) as I32 else low as I32
  }

  lemma SignExtends(status: I32)
    ensures U64Of(status) < U64_LIMIT && I32Of(U64Of(status)) == status
    ensures status != 0 ==> U64Of(status) != 0
  {
  }

  /** Of a decoded value the low 32 bits count, as a signed number. */
  lemma LowBitsCount(value: nat)
    ensures (I32Of(value) as int - value) % 0x1_0000_0000 == 0
  {
  }

  /** A growing buffer of bytes. */
  class ByteBuffer {
    var bytes: Bytes

    constructor ()
      ensures bytes == []
    {
      bytes := [];
    }

    method Push(byte: Byte)
      modifies this
      ensures bytes == old(bytes) + [byte]
    {
      bytes := bytes + [byte];
    }

    method ExtendFromSlice(more: Bytes)
      modifies this
      ensures bytes == old(bytes) + more
    {
      bytes := bytes + more;
    }
  }

  /** Appends one varint. */
  method WriteVarint(out: ByteBuffer, value: nat)
    modifies out
    ensures out.bytes == old(out.bytes) + VarintBytes(value)
  {
    var left := value;
    while left >= 0x80
      invariant out.bytes + VarintBytes(left) == old(out.bytes) + VarintBytes(value)
    {
      ghost var before := out.bytes;
      out.Push((left % 128 + 0x80) as Byte);
      assert before + VarintBytes(left) == out.bytes + VarintBytes(left / 128);
      left := left / 128;
    }
    out.Push(left as Byte);
  }

  /** The length of a varint, without writing it. */
  method VarintLen(value: nat) returns (length: nat)
    ensures length == |VarintBytes(value)|
  {
    var left := value;
    length := 1;
    while left >= 0x80
      invariant length + |VarintBytes(left)| == 1 + |VarintBytes(value)|
    {
      left := left / 128;
      length := length + 1;
    }
  }

  lemma SmallVarint(value: nat)
    requires value < 128
    ensures IsVarint([value as Byte]) && VarintValue([value as Byte]) == value && VarintBytes(value) == [value as Byte]
  {
  }

  // ---------------------------------------------------------------- the response

  /** The field a status is written as. */
  function StatusField(status: I32): Field { Field([0x08], [], VarintBytes(U64Of(status))) }

  predicate IsStatus(f: Field) { f.Number() == 1 && f.WireType() == 0 }

  function EncodedResponse(status: I32): Bytes { if status == 0 then [] else StatusField(status).Wire() }

  /** The status after these fields, if it was `status` before them. */
  function StatusOf(fields: seq<Field>, status: I32): I32 {
    if fields == [] then status else
    StatusOf(fields[1..], if IsStatus(fields[0]) then I32Of(VarintValue(fields[0].body)) else status)
  }

  function DecodedResponse(bytes: Bytes): Result<I32, DecodeError> {
    match ReadFields(bytes, 0)
    case Ok(fields) => Ok(StatusOf(fields, 0))
    case Err(e) => Err(e)
  }

  method EncodeResponse(status: I32, out: ByteBuffer)
    modifies out
    ensures out.bytes == old(out.bytes) + EncodedResponse(status)
  {
    if status != 0 {
      SmallVarint(0x08);
      ghost var before := out.bytes;
      WriteVarint(out, 0x08);
      WriteVarint(out, U64Of(status));
      Associate(before, [0x08], VarintBytes(U64Of(status)));
      assert StatusField(status).Wire() == [0x08] + VarintBytes(U64Of(status));
    }
  }

  method EstimateResponse(status: I32) returns (length: nat)
    ensures length == |EncodedResponse(status)|
  {
    if status == 0 {
      length := 0;
    } else {
      var n := VarintLen(U64Of(status));
      length := 1 + n;
    }
  }

  /** Decoding from `at` on, with this status so far, gives what decoding the whole gives. */
  ghost predicate ResponsePending(bytes: Bytes, at: nat, status: I32)
    requires at <= |bytes|
  {
    match ReadFields(bytes[at..], at)
    case Ok(fields) => DecodedResponse(bytes) == Ok(StatusOf(fields, status))
    case Err(e) => DecodedResponse(bytes) == Err(e)
  }

  lemma ResponseStep(bytes: Bytes, at: nat, status: I32)
    requires at < |bytes| && ResponsePending(bytes, at, status)
    ensures match ReadField(bytes[at..], at)
            case Err(e) => DecodedResponse(bytes) == Err(e)
            case Ok(f) =>
              at + |f.Wire()| <= |bytes|
              && ResponsePending(bytes, at + |f.Wire()|, if IsStatus(f) then I32Of(VarintValue(f.body)) else status)
  {
    var s := bytes[at..];
    if ReadField(s, at).Ok? {
      var f := ReadField(s, at).value;
      ReadAllStep(s, at);
      assert s[|f.Wire()|..] == bytes[at + |f.Wire()|..];
      var rest := ReadAll(s[|f.Wire()|..], at + |f.Wire()|).fields;
      assert ([f] + rest)[1..] == rest;
    }
  }

  /** The key of a field is acceptable to the reader. */
  predicate KeyAccepted(key: nat) { !(key / 8 == 0 || key / 8 > 0x1fff_ffff || key % 8 in {3, 4, 6, 7}) }

  /** The reader has read the key of the field at `start`, and nothing of its body. */
  ghost predicate AfterKey(bytes: Bytes, start: nat, offset: nat, number: nat, wireType: nat) {
    && start < offset <= |bytes| < U64_LIMIT
    && ReadVarintAt(bytes[start..]).Ok?
    && var (key, n) := ReadVarintAt(bytes[start..]).value;
       KeyAccepted(key) && number == key / 8 && wireType == key % 8 && offset == start + n
  }

  /** A key that is read leaves the reader after it; one that is not, or is refused, is a field that cannot be read. */
  lemma KeyStep(bytes: Bytes, start: nat)
    requires start < |bytes| < U64_LIMIT
    ensures match ReadVarintAt(bytes[start..])
            case Err(e) => ReadField(bytes[start..], start) == Err(e)
            case Ok((key, n)) =>
              if KeyAccepted(key) then AfterKey(bytes, start, start + n, key / 8, key % 8)
              else ReadField(bytes[start..], start) == Err(InvalidKey)
  {
    if ReadVarintAt(bytes[start..]).Ok? {
      ReadFits(bytes[start..]);
    }
  }

  /** The field at `start`, put together from its key and from what is read after it. */
  lemma FieldByParts(bytes: Bytes, start: nat, offset: nat, number: nat, wireType: nat)
    requires AfterKey(bytes, start, offset, number, wireType)
    ensures match ReadBody(bytes[offset..], wireType, offset)
            case Err(e) => ReadField(bytes[start..], start) == Err(e)
            case Ok((length, body)) =>
              ReadField(bytes[start..], start).Ok? &&
              var f := ReadField(bytes[start..], start).value;
              && f.length == length && f.body == body && f.Number() == number && f.WireType() == wireType
              && start + |f.Wire()| == offset + |length| + |body|
              && (wireType == 0 ==> ReadVarintAt(bytes[offset..]) == Ok((VarintValue(body), |body|)))
  {
    var s := bytes[start..];
    var (key, n) := ReadVarintAt(s).value;
    ReadFits(s);
    ReadsVarintIff(s, 0, key, n);
    var rest := bytes[offset..];
    assert s[n..] == rest;
    if wireType == 0 && ReadVarintAt(rest).Ok? {
      var (value, m) := ReadVarintAt(rest).value;
      ReadFits(rest);
      ReadsVarintIff(rest, 0, value, m);
    }
  }

  /** Reads the body of one field: its number when it is the status field, nothing when it is skipped. */
  method TakeStatus(reader: HealthProtoReader, number: nat, wireType: nat, ghost start: nat)
    returns (r: Result<Option<nat>, DecodeError>)
    requires reader.Valid() && AfterKey(reader.bytes, start, reader.offset, number, wireType)
    modifies reader
    ensures reader.Valid()
    ensures match ReadField(reader.bytes[start..], start)
            case Err(e) => r == Err(e)
            case Ok(f) =>
              r == Ok(if IsStatus(f) then Some(VarintValue(f.body)) else None) && reader.offset == start + |f.Wire()|
              && reader.offset > start
  {
    FieldByParts(reader.bytes, start, reader.offset, number, wireType);
    if number == 1 && wireType == 0 {
      var value := reader.ReadVarint();
      r := if value.Ok? then Ok(Some(value.value)) else Err(value.error);
    } else {
      var skipped := reader.Skip(wireType);
      r := if skipped.Ok? then Ok(None) else Err(skipped.error);
    }
  }

  method DecodeResponse(bytes: Bytes) returns (r: Result<I32, DecodeError>)
    requires |bytes| < U64_LIMIT
    ensures r == DecodedResponse(bytes)
  {
    hide ReadField;
    var reader := new HealthProtoReader(bytes);
    var status: I32 := 0;
    assert bytes[0..] == bytes;
    while true
      invariant reader.bytes == bytes && reader.Valid() && ResponsePending(bytes, reader.offset, status)
      decreases |bytes| - reader.offset
    {
      ghost var start := reader.offset;
      if start < |bytes| {
        KeyStep(bytes, start);
        ResponseStep(bytes, start, status);
      }
      var next := reader.NextField();
      if next.Err? {
        return Err(next.error);
      }
      if next.value.None? {
        return Ok(status);
      }
      var (number, wireType) := next.value.value;
      var taken := TakeStatus(reader, number, wireType, start);
      if taken.Err? {
        return Err(taken.error);
      }
      if taken.value.Some? {
        status := I32Of(taken.value.value);
      }
    }
  }

  /** Decoding succeeds on exactly the bytes of the grammar. */
  lemma ResponseAcceptsTheGrammar(bytes: Bytes)
    requires |bytes| < U64_LIMIT
    ensures DecodedResponse(bytes).Ok? <==> exists fields :: AllValid(fields) && bytes == Wires(fields)
    ensures forall fields :: AllValid(fields) && bytes == Wires(fields) ==>
              DecodedResponse(bytes) == Ok(StatusOf(fields, 0))
  {
    if DecodedResponse(bytes).Ok? {
      ReadsExactlyTheGrammar(bytes, ReadFields(bytes, 0).value);
    }
    forall fields | AllValid(fields) && bytes == Wires(fields) ensures ReadFields(bytes, 0) == Ok(fields) {
      ReadsExactlyTheGrammar(bytes, fields);
    }
  }

  /** "Last One Wins": of several statuses the last counts, and without one the status is what it was. */
  lemma {:induction false} LastStatusWins(fields: seq<Field>, status: I32, k: int)
    requires -1 <= k < |fields| && (k >= 0 ==> fields[k].Number() == 1 && fields[k].WireType() == 0)
    requires forall i :: k < i < |fields| ==> fields[i].Number() != 1 || fields[i].WireType() != 0
    ensures StatusOf(fields, status) == if k < 0 then status else I32Of(VarintValue(fields[k].body))
    decreases |fields|
  {
    if fields != [] {
      var rest := fields[1..];
      var next := if IsStatus(fields[0]) then I32Of(VarintValue(fields[0].body)) else status;
      LastStatusWins(rest, next, if k > 0 then k - 1 else -1);
    }
  }

  lemma {:induction false} StatusOfAppended(a: seq<Field>, b: seq<Field>, status: I32)
    ensures StatusOf(a + b, status) == StatusOf(b, StatusOf(a, status))
    decreases |a|
  {
    if a == [] {
      assert a + b == b;
    } else {
      var next := if IsStatus(a[0]) then I32Of(VarintValue(a[0].body)) else status;
      StatusOfAppended(a[1..], b, next);
      assert (a + b)[0] == a[0] && (a + b)[1..] == a[1..] + b;
    }
  }

  lemma UnknownStatusIsIgnored(a: seq<Field>, unknown: Field, b: seq<Field>, status: I32)
    requires unknown.Number() != 1 || unknown.WireType() != 0
    ensures StatusOf(a + [unknown] + b, status) == StatusOf(a + b, status)
  {
    StatusOfAppended(a, [unknown], status);
    StatusOfAppended(a + [unknown], b, status);
    StatusOfAppended(a, b, status);
    assert [unknown][1..] == [];
  }

  /** A well-formed field of any other number or wire type, anywhere between fields, changes nothing. */
  lemma UnknownFieldIsIgnored(a: seq<Field>, unknown: Field, b: seq<Field>)
    requires AllValid(a) && AllValid(b) && unknown.Valid() && (unknown.Number() != 1 || unknown.WireType() != 0)
    requires |Wires(a + [unknown] + b)| < U64_LIMIT
    ensures DecodedResponse(Wires(a) + unknown.Wire() + Wires(b)) == DecodedResponse(Wires(a) + Wires(b))
    ensures DecodedResponse(Wires(a) + Wires(b)).Ok?
  {
    WiresConcatenate(a, b);
    WiresConcatenate(a, [unknown]);
    WiresConcatenate(a + [unknown], b);
    WiresOfOne(unknown);
    ReadFieldsOfWires(a + [unknown] + b, 0);
    ReadFieldsOfWires(a + b, 0);
    UnknownStatusIsIgnored(a, unknown, b, 0);
  }

  lemma StatusFieldIsValid(status: I32)
    ensures var f := StatusField(status);
            && f.Valid() && f.Number() == 1 && f.WireType() == 0 && I32Of(VarintValue(f.body)) == status
            && 2 <= |f.Wire()| <= 11
  {
    SmallVarint(0x08);
    SignExtends(status);
    RoomIsU64();
    WrittenIsVarint(U64Of(status), 0);
  }

  lemma OneField(f: Field)
    requires f.Valid() && |f.Wire()| < U64_LIMIT
    ensures ReadFields(f.Wire(), 0) == Ok([f])
  {
    WiresOfOne(f);
    ReadFieldsOfWires([f], 0);
  }

  /** Every 32-bit status, a negative one included, survives encoding and decoding; the encoding has 0 to 11 bytes. */
  lemma ResponseRoundTrip(status: I32)
    ensures DecodedResponse(EncodedResponse(status)) == Ok(status) && |EncodedResponse(status)| <= 11
  {
    if status != 0 {
      StatusFieldIsValid(status);
      OneField(StatusField(status));
      LastStatusWins([StatusField(status)], 0, 0);
    }
  }

  /** A value takes more than `n` bytes exactly when it does not fit in `n` groups of seven bits. */
  lemma {:induction false} LongVarint(value: nat, n: nat)
    requires n > 0
    ensures |VarintBytes(value)| > n <==> value >= Pow128(n)
  {
    if n > 1 {
      LongVarint(value / 128, n - 1);
    } else {
      assert Pow128(1) == 128 * Pow128(0);
    }
  }

  /** On the wire a status is the key of field 1 with wire type 0 and, after it, the 64-bit two's complement: a
      negative one takes ten bytes. */
  lemma StatusOnTheWire(status: I32)
    requires status != 0
    ensures var bytes := EncodedResponse(status);
            && bytes[0] == 0x08
            && ReadVarintAt(bytes[1..])
               == Ok((if status < 0 then 0x1_0000_0000_0000_0000 + status as int else status as int, |bytes| - 1))
            && (status < 0 ==> |bytes| == 11)
  {
    var body := VarintBytes(U64Of(status));
    assert EncodedResponse(status)[1..] == body;
    SignExtends(status);
    VarintRoundTrip(U64Of(status), []);
    assert body + [] == body;
    if status < 0 {
      LongVarint(U64Of(status), 9);
    }
  }

  /** Decoding fails as its first unreadable field does. */
  lemma ResponseFailsAtTheFirst(fields: seq<Field>, rest: Bytes, error: DecodeError)
    requires AllValid(fields) && |Wires(fields)| < U64_LIMIT
    requires rest != [] && ReadField(rest, |Wires(fields)|) == Err(error)
    ensures DecodedResponse(Wires(fields) + rest) == Err(error)
  {
    ReadsUpToTheFailure(fields, rest, 0, error);
  }

  // ---------------------------------------------------------------- the request

  /** The field a service name is written as. */
  function ServiceField(service: Bytes): Field { Field([0x0a], VarintBytes(|service|), service) }

  predicate IsService(f: Field) { f.Number() == 1 && f.WireType() == 2 }

  function EncodedRequest(service: Bytes): Bytes { if service == [] then [] else ServiceField(service).Wire() }

  function ServiceOf(fields: seq<Field>, service: Bytes): Bytes {
    if fields == [] then service else ServiceOf(fields[1..], if IsService(fields[0]) then fields[0].body else service)
  }

  /** What the bytes decode to when these fields could be read, and the next one could not for this reason, if it names
      one. `utf8` says which bytes are text; a service that is not text is found before any later failure. */
  function Concluded(utf8: Bytes -> bool, all: Reading, service: Bytes): Result<Bytes, DecodeError> {
    if exists f | f in all.fields :: IsService(f) && !utf8(f.body) then Err(NotUtf8)
    else if all.why.Some? then Err(all.why.value) else Ok(ServiceOf(all.fields, service))
  }

  function DecodedRequest(utf8: Bytes -> bool, bytes: Bytes): Result<Bytes, DecodeError> {
    Concluded(utf8, ReadAll(bytes, 0), [])
  }

  method EncodeRequest(service: Bytes, out: ByteBuffer)
    modifies out
    ensures out.bytes == old(out.bytes) + EncodedRequest(service)
  {
    if service != [] {
      SmallVarint(0x0a);
      ghost var before := out.bytes;
      WriteVarint(out, 0x0a);
      WriteVarint(out, |service|);
      out.ExtendFromSlice(service);
      assert out.bytes == before + ([0x0a] + VarintBytes(|service|) + service);
    }
  }

  method EstimateRequest(service: Bytes) returns (length: nat)
    ensures length == |EncodedRequest(service)|
  {
    if service == [] {
      length := 0;
    } else {
      var n := VarintLen(|service|);
      length := 1 + n + |service|;
    }
  }

  /** Decoding from `at` on, with this service so far, gives what decoding the whole gives. */
  ghost predicate RequestPending(utf8: Bytes -> bool, bytes: Bytes, at: nat, service: Bytes)
    requires at <= |bytes|
  {
    DecodedRequest(utf8, bytes) == Concluded(utf8, ReadAll(bytes[at..], at), service)
  }

  lemma ConcludedOneMore(utf8: Bytes -> bool, f: Field, rest: Reading, service: Bytes)
    ensures Concluded(utf8, Reading([f] + rest.fields, rest.why), service)
            == if IsService(f) && !utf8(f.body) then Err(NotUtf8)
               else Concluded(utf8, rest, if IsService(f) then f.body else service)
  {
  }

  lemma RequestStep(utf8: Bytes -> bool, bytes: Bytes, at: nat, service: Bytes)
    requires at < |bytes| && RequestPending(utf8, bytes, at, service)
    ensures match ReadField(bytes[at..], at)
            case Err(e) => DecodedRequest(utf8, bytes) == Err(e)
            case Ok(f) =>
              at + |f.Wire()| <= |bytes|
              && if IsService(f) && !utf8(f.body) then DecodedRequest(utf8, bytes) == Err(NotUtf8)
                 else RequestPending(utf8, bytes, at + |f.Wire()|, if IsService(f) then f.body else service)
  {
    var s := bytes[at..];
    if ReadField(s, at).Ok? {
      var f := ReadField(s, at).value;
      ReadAllStep(s, at);
      assert s[|f.Wire()|..] == bytes[at + |f.Wire()|..];
      ConcludedOneMore(utf8, f, ReadAll(s[|f.Wire()|..], at + |f.Wire()|), service);
    }
  }

  /** Reads the body of one field: its bytes when it is the service field, nothing when it is skipped. */
  method TakeService(reader: HealthProtoReader, number: nat, wireType: nat, ghost start: nat)
    returns (r: Result<Option<Bytes>, DecodeError>)
    requires reader.Valid() && AfterKey(reader.bytes, start, reader.offset, number, wireType)
    modifies reader
    ensures reader.Valid()
    ensures match ReadField(reader.bytes[start..], start)
            case Err(e) => r == Err(e)
            case Ok(f) =>
              r == Ok(if IsService(f) then Some(f.body) else None) && reader.offset == start + |f.Wire()|
              && reader.offset > start
  {
    FieldByParts(reader.bytes, start, reader.offset, number, wireType);
    if number == 1 && wireType == 2 {
      var value := reader.ReadLengthDelimited();
      r := if value.Ok? then Ok(Some(value.value)) else Err(value.error);
    } else {
      var skipped := reader.Skip(wireType);
      r := if skipped.Ok? then Ok(None) else Err(skipped.error);
    }
  }

  method DecodeRequest(utf8: Bytes -> bool, bytes: Bytes) returns (r: Result<Bytes, DecodeError>)
    requires |bytes| < U64_LIMIT
    ensures r == DecodedRequest(utf8, bytes)
  {
    hide ReadField;
    var reader := new HealthProtoReader(bytes);
    var service: Bytes := [];
    assert bytes[0..] == bytes;
    while true
      invariant reader.bytes == bytes && reader.Valid() && RequestPending(utf8, bytes, reader.offset, service)
      decreases |bytes| - reader.offset
    {
      ghost var start := reader.offset;
      if start < |bytes| {
        KeyStep(bytes, start);
        RequestStep(utf8, bytes, start, service);
      }
      var next := reader.NextField();
      if next.Err? {
        return Err(next.error);
      }
      if next.value.None? {
        return Ok(service);
      }
      var (number, wireType) := next.value.value;
      var taken := TakeService(reader, number, wireType, start);
      if taken.Err? {
        return Err(taken.error);
      }
      if taken.value.Some? {
        if !utf8(taken.value.value) {
          return Err(NotUtf8);
        }
        service := taken.value.value;
      }
    }
  }

  /** Every service name among the fields is text. */
  ghost predicate AllText(utf8: Bytes -> bool, fields: seq<Field>) {
    forall f :: f in fields && f.Number() == 1 && f.WireType() == 2 ==> utf8(f.body)
  }

  /** Decoding succeeds on exactly the bytes of the grammar whose service names are all text. */
  lemma RequestAcceptsTheGrammar(utf8: Bytes -> bool, bytes: Bytes)
    requires |bytes| < U64_LIMIT
    ensures DecodedRequest(utf8, bytes).Ok? <==>
            exists fields :: AllValid(fields) && AllText(utf8, fields) && bytes == Wires(fields)
    ensures forall fields :: AllValid(fields) && AllText(utf8, fields) && bytes == Wires(fields) ==>
              DecodedRequest(utf8, bytes) == Ok(ServiceOf(fields, []))
  {
    if ReadFields(bytes, 0).Ok? {
      ReadsExactlyTheGrammar(bytes, ReadFields(bytes, 0).value);
    }
    forall fields | AllValid(fields) && AllText(utf8, fields) && bytes == Wires(fields)
      ensures ReadFields(bytes, 0) == Ok(fields)
    {
      ReadsExactlyTheGrammar(bytes, fields);
    }
  }

  lemma {:induction false} LastServiceWins(fields: seq<Field>, service: Bytes, k: int)
    requires -1 <= k < |fields| && (k >= 0 ==> fields[k].Number() == 1 && fields[k].WireType() == 2)
    requires forall i :: k < i < |fields| ==> fields[i].Number() != 1 || fields[i].WireType() != 2
    ensures ServiceOf(fields, service) == if k < 0 then service else fields[k].body
    decreases |fields|
  {
    if fields != [] {
      var next := if IsService(fields[0]) then fields[0].body else service;
      LastServiceWins(fields[1..], next, if k > 0 then k - 1 else -1);
    }
  }

  lemma {:induction false} ServiceOfAppended(a: seq<Field>, b: seq<Field>, service: Bytes)
    ensures ServiceOf(a + b, service) == ServiceOf(b, ServiceOf(a, service))
    decreases |a|
  {
    if a == [] {
      assert a + b == b;
    } else {
      ServiceOfAppended(a[1..], b, if IsService(a[0]) then a[0].body else service);
      assert (a + b)[0] == a[0] && (a + b)[1..] == a[1..] + b;
    }
  }

  lemma UnknownServiceIsIgnored(a: seq<Field>, unknown: Field, b: seq<Field>, service: Bytes)
    requires unknown.Number() != 1 || unknown.WireType() != 2
    ensures ServiceOf(a + [unknown] + b, service) == ServiceOf(a + b, service)
  {
    ServiceOfAppended(a, [unknown], service);
    ServiceOfAppended(a + [unknown], b, service);
    ServiceOfAppended(a, b, service);
    assert [unknown][1..] == [];
  }

  lemma UnknownIsIgnoredInTheEnd(utf8: Bytes -> bool, a: seq<Field>, unknown: Field, b: seq<Field>)
    requires unknown.Number() != 1 || unknown.WireType() != 2
    ensures Concluded(utf8, Reading(a + [unknown] + b, None), []) == Concluded(utf8, Reading(a + b, None), [])
  {
    UnknownServiceIsIgnored(a, unknown, b, []);
    assert forall f :: f in a + [unknown] + b <==> f in a + b || f == unknown;
  }

  /** A well-formed field of any other number or wire type, anywhere between the fields of a request, changes
      nothing. */
  lemma UnknownRequestFieldIsIgnored(utf8: Bytes -> bool, a: seq<Field>, unknown: Field, b: seq<Field>)
    requires AllValid(a) && AllValid(b) && unknown.Valid() && (unknown.Number() != 1 || unknown.WireType() != 2)
    requires |Wires(a + [unknown] + b)| < U64_LIMIT
    ensures DecodedRequest(utf8, Wires(a) + unknown.Wire() + Wires(b)) == DecodedRequest(utf8, Wires(a) + Wires(b))
  {
    WiresConcatenate(a, b);
    WiresConcatenate(a, [unknown]);
    WiresConcatenate(a + [unknown], b);
    WiresOfOne(unknown);
    ReadFieldsOfWires(a + [unknown] + b, 0);
    ReadFieldsOfWires(a + b, 0);
    hide *;
    UnknownIsIgnoredInTheEnd(utf8, a, unknown, b);
  }

  /** So does a request, unless a name before it is not text. */
  lemma RequestFailsAtTheFirst(utf8: Bytes -> bool, fields: seq<Field>, rest: Bytes, error: DecodeError)
    requires AllValid(fields) && |Wires(fields)| < U64_LIMIT
    requires rest != [] && ReadField(rest, |Wires(fields)|) == Err(error)
    ensures DecodedRequest(utf8, Wires(fields) + rest) == Err(if AllText(utf8, fields) then error else NotUtf8)
  {
    ReadsUpToTheFailure(fields, rest, 0, error);
  }

  /** And a request whose fields can all be read fails just when a name in it is not text. */
  lemma UntextIsRefused(utf8: Bytes -> bool, fields: seq<Field>)
    requires AllValid(fields) && |Wires(fields)| < U64_LIMIT && !AllText(utf8, fields)
    ensures DecodedRequest(utf8, Wires(fields)) == Err(NotUtf8)
  {
    ReadFieldsOfWires(fields, 0);
  }

  lemma ServiceFieldIsValid(service: Bytes)
    requires |service| < U64_LIMIT
    ensures var f := ServiceField(service); f.Valid() && f.Number() == 1 && f.WireType() == 2
  {
    SmallVarint(0x0a);
    RoomIsU64();
    WrittenIsVarint(|service|, 0);
  }

  /** Every name that is text survives encoding and decoding. */
  lemma RequestRoundTrip(utf8: Bytes -> bool, service: Bytes)
    requires utf8(service) && |EncodedRequest(service)| < U64_LIMIT
    ensures DecodedRequest(utf8, EncodedRequest(service)) == Ok(service)
  {
    if service != [] {
      var f := ServiceField(service);
      ServiceFieldIsValid(service);
      OneField(f);
      LastServiceWins([f], [], 0);
    }
  }
}
