/** The hand-written codec of the two gRPC health messages, and the grammar of the bytes it accepts. */
module HealthCodec {
  import opened Common
  import opened HealthWire

  // ---------------------------------------------------------------- the grammar

  /** One field on the wire: its key, for a length-delimited one its length, and its body. */
  datatype Field = Field(key: Bytes, length: Bytes, body: Bytes) {
    function Number(): nat { VarintValue(key) / 8 }

    function WireType(): nat { VarintValue(key) % 8 }

    function Wire(): Bytes { key + length + body }

    ghost predicate Valid() {
      && IsVarint(key) && 1 <= Number() <= 0x1fff_ffff
      && match WireType()
         case 0 => length == [] && IsVarint(body)
         case 1 => length == [] && |body| == 8
         case 2 => IsVarint(length) && VarintValue(length) == |body|
         case 5 => length == [] && |body| == 4
         case _ => false
    }
  }

  function Wires(fields: seq<Field>): Bytes {
    if fields == [] then [] else fields[0].Wire() + Wires(fields[1..])
  }

  ghost predicate AllValid(fields: seq<Field>) { forall f :: f in fields ==> f.Valid() }

  // ---------------------------------------------------------------- reading one field

  function ReadRecord(s: Bytes, offset: nat): Result<(Bytes, Bytes), DecodeError> {
    match ReadVarintAt(s)
    case Err(e) => Err(e)
    case Ok((length, n)) =>
      ReadFits(s);
      if offset + n + length >= U64_LIMIT then Err(LengthOverflows)
      else if n + length > |s| then Err(TruncatedRecord)
      else Ok((s[..n], s[n..n + length]))
  }

  function ReadFixed(s: Bytes, width: nat): Result<(Bytes, Bytes), DecodeError> {
    if width > |s| then Err(TruncatedFixed) else Ok(([], s[..width]))
  }

  /** What a field of this wire type has after its key: its length bytes and its body. */
  function ReadBody(s: Bytes, wireType: nat, offset: nat): Result<(Bytes, Bytes), DecodeError> {
    match wireType
    case 0 =>
      (match ReadVarintAt(s)
       case Err(e) => Err(e)
       case Ok((_, n)) => ReadFits(s); Ok(([], s[..n])))
    case 1 => ReadFixed(s, 8)
    case 2 => ReadRecord(s, offset)
    case 5 => ReadFixed(s, 4)
    case _ => Err(UnsupportedWireType)
  }

  /** The field at the beginning of `s`, which is what is left of a message from `offset` on. */
  function ReadField(s: Bytes, offset: nat): Result<Field, DecodeError> {
    match ReadVarintAt(s)
    case Err(e) => Err(e)
    case Ok((key, n)) =>
      ReadFits(s);
      if key / 8 == 0 || key / 8 > 0x1fff_ffff || key % 8 in {3, 4, 6, 7} then Err(InvalidKey)
      else match ReadBody(s[n..], key % 8, offset + n)
        case Err(e) => Err(e)
        case Ok((length, body)) => Ok(Field(s[..n], length, body))
  }

  lemma PrefixOf(a: Bytes, b: Bytes)
    ensures (a + b)[..|a|] == a && (a + b)[|a|..] == b
  {
  }

  /** A varint at the beginning is read whatever follows. */
  lemma VarintThen(v: Bytes, suffix: Bytes)
    requires IsVarint(v)
    ensures ReadVarintAt(v + suffix) == Ok((VarintValue(v), |v|))
  {
    PrefixOf(v, suffix);
    ReadsVarintIff(v + suffix, 0, VarintValue(v), |v|);
  }

  lemma RecordThen(length: Bytes, body: Bytes, suffix: Bytes, offset: nat)
    requires IsVarint(length) && VarintValue(length) == |body| && offset + |length| + |body| < U64_LIMIT
    ensures ReadRecord(length + (body + suffix), offset) == Ok((length, body))
  {
    var s := length + (body + suffix);
    VarintThen(length, body + suffix);
    PrefixOf(length, body + suffix);
    assert s[|length|..|length| + |body|] == body;
  }

  lemma BodyThen(f: Field, suffix: Bytes, offset: nat)
    requires f.Valid() && offset + |f.length| + |f.body| < U64_LIMIT
    ensures ReadBody(f.length + (f.body + suffix), f.WireType(), offset) == Ok((f.length, f.body))
  {
    if f.WireType() == 2 {
      RecordThen(f.length, f.body, suffix, offset);
    } else {
      assert f.length + (f.body + suffix) == f.body + suffix;
      PrefixOf(f.body, suffix);
      if f.WireType() == 0 {
        VarintThen(f.body, suffix);
      }
    }
  }

  /** A valid field at the beginning is read whatever follows. */
  lemma FieldThen(f: Field, suffix: Bytes, offset: nat)
    requires f.Valid() && offset + |f.Wire()| < U64_LIMIT
    ensures ReadField(f.Wire() + suffix, offset) == Ok(f)
  {
    var rest := f.length + (f.body + suffix);
    assert f.Wire() + suffix == f.key + rest;
    VarintThen(f.key, rest);
    PrefixOf(f.key, rest);
    BodyThen(f, suffix, offset + |f.key|);
  }

  lemma PrefixesJoin(a: Bytes, b: Bytes, s: Bytes)
    requires a <= s && b <= s[|a|..]
    ensures a + b <= s
  {
  }

  lemma BodyIsValid(s: Bytes, wireType: nat, offset: nat)
    requires ReadBody(s, wireType, offset).Ok?
    ensures var (length, body) := ReadBody(s, wireType, offset).value;
            && length + body <= s
            && (wireType == 0 ==> length == [] && IsVarint(body))
            && (wireType == 1 ==> length == [] && |body| == 8)
            && (wireType == 2 ==> IsVarint(length) && VarintValue(length) == |body|)
            && (wireType == 5 ==> length == [] && |body| == 4)
            && wireType in {0, 1, 2, 5}
  {
    var (length, body) := ReadBody(s, wireType, offset).value;
    if wireType == 0 || wireType == 2 {
      var (value, n) := ReadVarintAt(s).value;
      ReadFits(s);
      ReadsVarintIff(s, 0, value, n);
    }
    assert length + body == s[..|length + body|];
  }

  /** What is read as a field is a valid one, and is at the beginning. */
  lemma ReadIsField(s: Bytes, offset: nat)
    requires ReadField(s, offset).Ok?
    ensures var f := ReadField(s, offset).value; f.Valid() && f.Wire() <= s && |f.Wire()| > 0
  {
    var (key, n) := ReadVarintAt(s).value;
    ReadFits(s);
    ReadsVarintIff(s, 0, key, n);
    var f := ReadField(s, offset).value;
    hide ReadVarintAt, VarintValue, IsVarint;
    BodyIsValid(s[n..], key % 8, offset + n);
    hide ReadBody, ReadField;
    PrefixesJoin(f.key, f.length + f.body, s);
    Associate(f.key, f.length, f.body);
  }

  lemma RecordAt(s: Bytes, size: nat, n: nat, offset: nat)
    requires ReadVarintAt(s) == Ok((size, n)) && n <= |s|
    ensures ReadRecord(s, offset) ==
            if offset + n + size >= 0x1_0000_0000_0000_0000 then Err(LengthOverflows)
            else if n + size > |s| then Err(TruncatedRecord)
            else Ok((s[..n], s[n..n + size]))
  {
    hide ReadVarintAt;
  }

  /** A record whose end is no 64-bit offset overflows; one whose end is past the bytes is truncated; any other is
      read. */
  lemma RecordsBySize(s: Bytes, n: nat, offset: nat)
    requires n <= |s| && IsVarint(s[..n])
    ensures var size := VarintValue(s[..n]);
            ReadRecord(s, offset) ==
            if offset + n + size >= 0x1_0000_0000_0000_0000 then Err(LengthOverflows)
            else if n + size > |s| then Err(TruncatedRecord)
            else Ok((s[..n], s[n..n + size]))
  {
    ReadsVarintIff(s, 0, VarintValue(s[..n]), n);
    RecordAt(s, VarintValue(s[..n]), n, offset);
  }

  /** A key whose number or wire type is not allowed is refused; after any other the failures are those of the body. */
  lemma KeysByNumber(key: Bytes, rest: Bytes, offset: nat)
    requires IsVarint(key)
    ensures var number, wireType := VarintValue(key) / 8, VarintValue(key) % 8;
            var body := ReadBody(rest, wireType, offset + |key|);
            ReadField(key + rest, offset) ==
            if !(1 <= number <= 536_870_911 && wireType in {0, 1, 2, 5}) then Err(InvalidKey)
            else if body.Err? then Err(body.error)
            else Ok(Field(key, body.value.0, body.value.1))
  {
    VarintThen(key, rest);
    PrefixOf(key, rest);
    hide ReadBody, ReadVarintAt, IsVarint;
  }

  /** What the bodies that are no records can fail for. */
  lemma BodiesBySize(s: Bytes, offset: nat)
    ensures ReadBody(s, 1, offset) == if |s| < 8 then Err(TruncatedFixed) else Ok(([], s[..8]))
    ensures ReadBody(s, 5, offset) == if |s| < 4 then Err(TruncatedFixed) else Ok(([], s[..4]))
    ensures ReadBody(s, 0, offset).Err? <==> ReadVarintAt(s).Err?
    ensures ReadVarintAt(s).Err? ==> ReadBody(s, 0, offset) == Err(ReadVarintAt(s).error)
  {
  }

  // ---------------------------------------------------------------- reading a message

  /** The fields that could be read, and why the next one could not, if there is one. */
  datatype Reading = Reading(fields: seq<Field>, why: Option<DecodeError>)

  /** The fields of `s`, in order, up to the first that cannot be read. */
  function ReadAll(s: Bytes, offset: nat): Reading
    decreases |s|
  {
    if s == [] then Reading([], None) else
    match ReadField(s, offset)
    case Err(e) => Reading([], Some(e))
    case Ok(f) =>
      ReadIsField(s, offset);
      var rest := ReadAll(s[|f.Wire()|..], offset + |f.Wire()|);
      rest.(fields := [f] + rest.fields)
  }

  lemma BodyFails(s: Bytes, wireType: nat, offset: nat)
    requires wireType in {0, 1, 2, 5}
    ensures ReadBody(s, wireType, offset) != Err(UnsupportedWireType)
    ensures ReadBody(s, wireType, offset) != Err(VarintTooLong)
  {
    NeverTooLong(s, 0);
  }

  predicate Occurs(why: Option<DecodeError>) { why != Some(UnsupportedWireType) && why != Some(VarintTooLong) }

  lemma FieldFails(s: Bytes, offset: nat)
    ensures ReadField(s, offset).Err? ==> Occurs(Some(ReadField(s, offset).error))
  {
    NeverTooLong(s, 0);
    if ReadVarintAt(s).Ok? {
      var (key, n) := ReadVarintAt(s).value;
      ReadFits(s);
      if key % 8 in {0, 1, 2, 5} {
        BodyFails(s[n..], key % 8, offset + n);
      }
      hide ReadVarintAt, ReadBody;
    }
  }

  lemma ReadAllStep(s: Bytes, offset: nat)
    requires s != [] && ReadField(s, offset).Ok?
    ensures var f := ReadField(s, offset).value;
            && f.Valid() && 0 < |f.Wire()| <= |s| && s == f.Wire() + s[|f.Wire()|..]
            && var rest := ReadAll(s[|f.Wire()|..], offset + |f.Wire()|);
               ReadAll(s, offset) == Reading([f] + rest.fields, rest.why)
  {
    ReadIsField(s, offset);
  }

  lemma FailureIsOfOneField(s: Bytes, offset: nat)
    requires s != []
    ensures var f := ReadField(s, offset);
            if f.Err? then ReadAll(s, offset).why == Some(f.error)
            else
              && 0 < |f.value.Wire()| <= |s|
              && ReadAll(s, offset).why == ReadAll(s[|f.value.Wire()|..], offset + |f.value.Wire()|).why
  {
    hide ReadField;
    if ReadField(s, offset).Ok? {
      ReadAllStep(s, offset);
    }
  }

  lemma NothingFails(offset: nat)
    ensures Occurs(ReadAll([], offset).why)
  {
  }

  /** Two failures never occur: a key that is accepted has a wire type whose body can be skipped, and no varint is too
      long to end. */
  lemma {:induction false} UnreachableFailures(s: Bytes, offset: nat)
    ensures Occurs(ReadAll(s, offset).why)
    decreases |s|
  {
    hide ReadAll, ReadField, Occurs;
    if s == [] {
      NothingFails(offset);
    } else {
      FailureIsOfOneField(s, offset);
      FieldFails(s, offset);
      if ReadField(s, offset).Ok? {
        var n := |ReadField(s, offset).value.Wire()|;
        UnreachableFailures(s[n..], offset + n);
      }
    }
  }

  /** All the fields of `s`. */
  function ReadFields(s: Bytes, offset: nat): Result<seq<Field>, DecodeError> {
    var all := ReadAll(s, offset);
    if all.why.None? then Ok(all.fields) else Err(all.why.value)
  }

  lemma ReadsOneMore(f: Field, tail: Bytes, offset: nat)
    requires f.Valid() && offset + |f.Wire()| < U64_LIMIT
    ensures var rest := ReadAll(tail, offset + |f.Wire()|);
            ReadAll(f.Wire() + tail, offset) == Reading([f] + rest.fields, rest.why)
  {
    hide ReadField;
    FieldThen(f, tail, offset);
    PrefixOf(f.Wire(), tail);
    ReadAllStep(f.Wire() + tail, offset);
  }

  lemma {:induction false} ReadFieldsOfWires(fields: seq<Field>, offset: nat)
    requires AllValid(fields) && offset + |Wires(fields)| < U64_LIMIT
    ensures ReadAll(Wires(fields), offset) == Reading(fields, None)
    decreases |fields|
  {
    hide ReadField;
    if fields != [] {
      var f, rest := fields[0], fields[1..];
      ReadFieldsOfWires(rest, offset + |f.Wire()|);
      ReadsOneMore(f, Wires(rest), offset);
    }
  }

  /** The fields read are valid, and when all could be read they are the bytes. */
  ghost predicate Faithful(s: Bytes, all: Reading) {
    AllValid(all.fields) && (all.why.None? ==> Wires(all.fields) == s)
  }

  lemma FaithfulOneMore(f: Field, tail: Bytes, rest: Reading)
    requires f.Valid() && Faithful(tail, rest)
    ensures Faithful(f.Wire() + tail, Reading([f] + rest.fields, rest.why))
  {
  }

  lemma {:induction false} ReadFieldsAreWires(s: Bytes, offset: nat)
    ensures Faithful(s, ReadAll(s, offset))
    decreases |s|
  {
    hide ReadField;
    if s != [] {
      var first := ReadField(s, offset);
      if first.Ok? {
        ReadAllStep(s, offset);
        var f := first.value;
        ReadFieldsAreWires(s[|f.Wire()|..], offset + |f.Wire()|);
        FaithfulOneMore(f, s[|f.Wire()|..], ReadAll(s[|f.Wire()|..], offset + |f.Wire()|));
      }
    }
  }

  /** The fields before one that cannot be read are read, and then its failure is found. */
  lemma {:induction false} ReadsUpToTheFailure(fields: seq<Field>, rest: Bytes, offset: nat, error: DecodeError)
    requires AllValid(fields) && offset + |Wires(fields)| < U64_LIMIT
    requires rest != [] && ReadField(rest, offset + |Wires(fields)|) == Err(error)
    ensures ReadAll(Wires(fields) + rest, offset) == Reading(fields, Some(error))
    decreases |fields|
  {
    hide ReadField;
    if fields == [] {
      assert Wires(fields) + rest == rest;
    } else {
      var f, more := fields[0], fields[1..];
      assert f in fields && Wires(fields) == f.Wire() + Wires(more) && AllValid(more);
      hide *;
      ReadsUpToTheFailure(more, rest, offset + |f.Wire()|, error);
      Associate(f.Wire(), Wires(more), rest);
      ReadsOneMore(f, Wires(more) + rest, offset);
      assert [f] + more == fields;
    }
  }

  /** The bytes that can be read are exactly the concatenations of valid fields, and each has one reading. */
  lemma ReadsExactlyTheGrammar(s: Bytes, fields: seq<Field>)
    requires |s| < U64_LIMIT
    ensures ReadFields(s, 0) == Ok(fields) <==> AllValid(fields) && s == Wires(fields)
  {
    if ReadFields(s, 0) == Ok(fields) {
      ReadFieldsAreWires(s, 0);
    }
    if AllValid(fields) && s == Wires(fields) {
      ReadFieldsOfWires(fields, 0);
    }
  }

  lemma {:induction false} WiresConcatenate(a: seq<Field>, b: seq<Field>)
    ensures Wires(a + b) == Wires(a) + Wires(b)
  {
    if a == [] {
      assert a + b == b;
    } else {
      WiresConcatenate(a[1..], b);
      Associate(a[0].Wire(), Wires(a[1..]), Wires(b));
      assert (a + b)[0] == a[0] && (a + b)[1..] == a[1..] + b;
    }
  }

  lemma WiresOfOne(f: Field)
    ensures Wires([f]) == f.Wire()
  {
  }

  // ---------------------------------------------------------------- the reader

  lemma NextGroup(value: nat, shift: nat, group: nat, rest: nat)
    ensures value + shift * (group + 128 * rest) == (value + shift * group) + (shift * 128) * rest
  {
  }

  /** `index` groups of the varint at the beginning of `s` are read, to `value`; `here` is what is left. */
  ghost predicate GroupsRead(s: Bytes, value: nat, shift: nat, index: nat, here: Bytes)
    requires index <= MAX_VARINT
  {
    match ReadVarintFrom(here, index)
    case Ok((rest, length)) => ReadVarintAt(s) == Ok((value + shift * rest, index + length))
    case Err(e) => ReadVarintAt(s) == Err(e)
  }

  lemma GroupStep(s: Bytes, value: nat, shift: nat, index: nat, here: Bytes)
    requires index < MAX_VARINT && GroupsRead(s, value, shift, index, here)
    ensures here == [] ==> ReadVarintAt(s) == Err(TruncatedVarint)
    ensures here != [] && index == 9 && here[0] > 1 ==> ReadVarintAt(s) == Err(VarintOverflows)
    ensures here != [] && !(index == 9 && here[0] > 1) ==>
              var next := value + shift * ((here[0] as nat) % 128);
              if here[0] < 128 then ReadVarintAt(s) == Ok((next, index + 1))
              else GroupsRead(s, next, shift * 128, index + 1, here[1..])
  {
    if here != [] && here[0] >= 128 && !(index == 9 && here[0] > 1) {
      match ReadVarintFrom(here[1..], index + 1) {
        case Ok((rest, _)) => NextGroup(value, shift, (here[0] as nat) % 128, rest);
        case Err(_) =>
      }
    }
  }

  class HealthProtoReader {
    const bytes: Bytes
    var offset: nat

    ghost predicate Valid()
      reads this
    {
      offset <= |bytes| < U64_LIMIT
    }

    constructor (bytes: Bytes)
      requires |bytes| < U64_LIMIT
      ensures this.bytes == bytes && offset == 0 && Valid()
    {
      this.bytes := bytes;
      offset := 0;
    }

    method ReadVarint() returns (r: Result<nat, DecodeError>)
      requires Valid()
      modifies this
      ensures Valid()
      ensures match ReadVarintAt(bytes[old(offset)..])
              case Ok((value, length)) => r == Ok(value) && offset == old(offset) + length
              case Err(e) => r == Err(e)
    {
      ghost var s := bytes[offset..];
      var value: nat, shift: nat := 0, 1;
      for index := 0 to 10
        invariant Valid() && offset == old(offset) + index && shift == Pow128(index)
        invariant GroupsRead(s, value, shift, index, bytes[offset..])
      {
        GroupStep(s, value, shift, index, bytes[offset..]);
        if offset == |bytes| {
          return Err(TruncatedVarint);
        }
        var byte := bytes[offset];
        assert bytes[offset..][1..] == bytes[offset + 1..];
        offset := offset + 1;
        if index == 9 && byte > 1 {
          return Err(VarintOverflows);
        }
        value := value + shift * ((byte as nat) % 128);
        if byte < 128 {
          return Ok(value);
        }
        shift := shift * 128;
      }
      r := Err(VarintTooLong);
    }

    method ReadLengthDelimited() returns (r: Result<Bytes, DecodeError>)
      requires Valid()
      modifies this
      ensures Valid()
      ensures match ReadRecord(bytes[old(offset)..], old(offset))
              case Ok((length, body)) => r == Ok(body) && offset == old(offset) + |length| + |body|
              case Err(e) => r == Err(e)
    {
      ghost var s := bytes[offset..];
      ghost var start := offset;
      var length := ReadVarint();
      if length.Err? {
        return Err(length.error);
      }
      ReadFits(s);
      if offset + length.value >= U64_LIMIT {
        return Err(LengthOverflows);
      }
      var end := offset + length.value;
      if end > |bytes| {
        return Err(TruncatedRecord);
      }
      assert bytes[offset..end] == s[offset - start..end - start];
      r := Ok(bytes[offset..end]);
      offset := end;
    }

    method SkipBytes(width: nat) returns (r: Result<(), DecodeError>)
      requires Valid() && width <= 8
      modifies this
      ensures Valid()
      ensures match ReadFixed(bytes[old(offset)..], width)
              case Ok((_, body)) => r == Ok(()) && offset == old(offset) + |body|
              case Err(e) => r == Err(e)
    {
      var end := offset + width;
      if end > |bytes| {
        return Err(TruncatedFixed);
      }
      offset := end;
      r := Ok(());
    }

    method Skip(wireType: nat) returns (r: Result<(), DecodeError>)
      requires Valid()
      modifies this
      ensures Valid()
      ensures match ReadBody(bytes[old(offset)..], wireType, old(offset))
              case Ok((length, body)) => r == Ok(()) && offset == old(offset) + |length| + |body|
              case Err(e) => r == Err(e)
    {
      ghost var s := bytes[offset..];
      match wireType {
        case 0 =>
          var value := ReadVarint();
          if value.Ok? {
            ReadFits(s);
          }
          r := if value.Ok? then Ok(()) else Err(value.error);
        case 1 => r := SkipBytes(8);
        case 2 =>
          var body := ReadLengthDelimited();
          r := if body.Ok? then Ok(()) else Err(body.error);
        case 5 => r := SkipBytes(4);
        case _ => r := Err(UnsupportedWireType);
      }
    }

    /** The number and the wire type of the next field, or nothing at the end. */
    method NextField() returns (r: Result<Option<(nat, nat)>, DecodeError>)
      requires Valid()
      modifies this
      ensures Valid()
      ensures old(offset) == |bytes| ==> r == Ok(None) && offset == old(offset)
      ensures old(offset) < |bytes| ==>
                match ReadVarintAt(bytes[old(offset)..])
                case Err(e) => r == Err(e)
                case Ok((key, n)) =>
                  if key / 8 == 0 || key / 8 > 0x1fff_ffff || key % 8 in {3, 4, 6, 7} then r == Err(InvalidKey)
                  else r == Ok(Some((key / 8, key % 8))) && offset == old(offset) + n
    {
      if offset == |bytes| {
        return Ok(None);
      }
      var key := ReadVarint();
      if key.Err? {
        return Err(key.error);
      }
      var field, wireType := key.value / 8, key.value % 8;
      if field == 0 || field > 0x1fff_ffff || wireType in {3, 4, 6, 7} {
        return Err(InvalidKey);
      }
      r := Ok(Some((field, wireType)));
    }
  }
}
