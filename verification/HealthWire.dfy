/** The protobuf wire format as the health messages use it: what its bytes are, declaratively, and how they are read.
    "Base 128 Varints" and "Length-Delimited Records" are sections of the Protocol Buffers Encoding document. */
module HealthWire {
  import opened Common

  datatype DecodeError =
    | InvalidKey | TruncatedVarint | VarintOverflows | VarintTooLong | LengthOverflows | TruncatedRecord
    | TruncatedFixed | UnsupportedWireType | NotUtf8

  // ---------------------------------------------------------------- varints

  const MAX_VARINT: nat := 10

  function Pow128(n: nat): (p: nat)
    ensures p >= 1
  {
    if n == 0 then 1 else 128 * Pow128(n - 1)
  }

  /** The bytes of a varint: groups of seven bits, least significant first, all but the last with the top bit set. */
  function VarintBytes(value: nat): Bytes {
    if value < 128 then [value as Byte] else [(value % 128 + 128) as Byte] + VarintBytes(value / 128)
  }

  /** The bytes a varint may have when `index` bytes of it came before: at most ten in all, and nothing above bit 63. */
  ghost predicate IsVarintFrom(s: Bytes, index: nat) {
    && 1 <= |s| && index + |s| <= MAX_VARINT
    && (forall i :: 0 <= i < |s| - 1 ==> s[i] >= 128)
    && s[|s| - 1] < 128
    && (index + |s| == MAX_VARINT ==> s[|s| - 1] <= 1)
  }

  ghost predicate IsVarint(s: Bytes) { IsVarintFrom(s, 0) }

  function VarintValue(s: Bytes): nat {
    if s == [] then 0 else (s[0] as nat) % 128 + 128 * VarintValue(s[1..])
  }

  /** Reads the rest of a varint of which `index` bytes came before: its value and its length. */
  function ReadVarintFrom(s: Bytes, index: nat): Result<(nat, nat), DecodeError>
    requires index <= MAX_VARINT
    decreases |s|
  {
    if index == MAX_VARINT then Err(VarintTooLong)
    else if s == [] then Err(TruncatedVarint)
    else if index == 9 && s[0] > 1 then Err(VarintOverflows)
    else if s[0] < 128 then Ok((s[0] as nat, 1))
    else match ReadVarintFrom(s[1..], index + 1)
      case Ok((value, length)) => Ok(((s[0] as nat) % 128 + 128 * value, length + 1))
      case Err(e) => Err(e)
  }

  function ReadVarintAt(s: Bytes): Result<(nat, nat), DecodeError> { ReadVarintFrom(s, 0) }

  lemma VarintTail(s: Bytes, index: nat, length: nat)
    requires 1 <= length <= |s| && s[0] >= 128
    ensures IsVarintFrom(s[..length], index) <==> length >= 2 && IsVarintFrom(s[1..][..length - 1], index + 1)
    ensures VarintValue(s[..length]) == (s[0] as nat) % 128 + 128 * VarintValue(s[1..][..length - 1])
  {
    var t, u := s[..length], s[1..][..length - 1];
    assert t[1..] == u && t[0] == s[0];
    if length >= 2 {
      assert u[|u| - 1] == t[|t| - 1];
      assert forall i :: 0 <= i < |u| ==> u[i] == t[i + 1];
    }
  }

  /** A varint is read exactly when the bytes begin with one, and then just that one. */
  lemma {:induction false} ReadsVarintIff(s: Bytes, index: nat, value: nat, length: nat)
    requires index <= MAX_VARINT
    ensures ReadVarintFrom(s, index) == Ok((value, length)) <==>
            length <= |s| && IsVarintFrom(s[..length], index) && VarintValue(s[..length]) == value
    decreases |s|
  {
    if index < MAX_VARINT && s != [] {
      if s[0] < 128 {
        if 1 <= length <= |s| {
          var t := s[..length];
          assert t[0] == s[0];
          assert length == 1 ==> t[1..] == [];
        }
      } else if length >= 1 {
        var rest := s[1..];
        var later := if value >= (s[0] as nat) % 128 then (value - (s[0] as nat) % 128) / 128 else 0;
        ReadsVarintIff(rest, index + 1, later, length - 1);
        if length <= |s| {
          VarintTail(s, index, length);
        }
        match ReadVarintFrom(rest, index + 1) {
          case Ok((v, n)) => ReadsVarintIff(rest, index + 1, v, n);
          case Err(_) =>
        }
      }
    }
  }

  lemma {:induction false} GroupsFit(s: Bytes)
    ensures VarintValue(s) < Pow128(|s|)
  {
    if s != [] {
      GroupsFit(s[1..]);
    }
  }

  lemma Distribute(low: nat, rest: nat, weight: nat, more: nat)
    ensures low + 128 * (rest + weight * more) == (low + 128 * rest) + 128 * weight * more
  {
  }

  /** The groups of a varint are digits to base 128, least significant first: of those before a byte the value is below
      the weight of its group, and that of those after it weighs 128 times more. */
  lemma {:induction false} GroupsAreWeighed(a: Bytes, x: Byte, b: Bytes)
    ensures VarintValue(a + [x] + b) == VarintValue(a) + Pow128(|a|) * (x as nat % 128 + 128 * VarintValue(b))
    ensures VarintValue(a) < Pow128(|a|)
  {
    GroupsFit(a);
    var s := a + [x] + b;
    var more := x as nat % 128 + 128 * VarintValue(b);
    if a == [] {
      assert s[1..] == b && s[0] == x;
      assert VarintValue(s) == more;
    } else {
      var rest := a[1..] + [x] + b;
      assert s[1..] == rest && s[0] == a[0];
      GroupsAreWeighed(a[1..], x, b);
      Distribute(a[0] as nat % 128, VarintValue(a[1..]), Pow128(|a| - 1), more);
    }
  }

  /** Ten bytes are always enough to stop: the last failure of the reader never happens. */
  lemma {:induction false} NeverTooLong(s: Bytes, index: nat)
    requires index < MAX_VARINT
    ensures ReadVarintFrom(s, index).Err? ==> ReadVarintFrom(s, index).error in {TruncatedVarint, VarintOverflows}
    decreases |s|
  {
    if s != [] && s[0] >= 128 && index < 9 {
      NeverTooLong(s[1..], index + 1);
    }
  }

  /** Which bytes are no varint, and why: fewer than ten are truncated when each has its top bit set, and of ten or more
      the tenth may only be 0 or 1. */
  lemma {:induction false} VarintFailures(s: Bytes, index: nat)
    requires index < MAX_VARINT
    ensures ReadVarintFrom(s, index) == Err(TruncatedVarint) <==>
              |s| < 10 - index && forall i :: 0 <= i < |s| ==> s[i] >= 128
    ensures ReadVarintFrom(s, index) == Err(VarintOverflows) <==>
              |s| >= 10 - index && s[9 - index] > 1 && forall i :: 0 <= i < 9 - index ==> s[i] >= 128
    decreases |s|
  {
    if s != [] && s[0] >= 128 && index < 9 {
      VarintFailures(s[1..], index + 1);
      assert forall i :: 0 <= i < |s| - 1 ==> s[1..][i] == s[i + 1];
      assert forall i :: 1 <= i < |s| ==> s[i] == s[1..][i - 1];
    }
  }

  /** How far a varint of which `index` bytes came before can reach. */
  function Room(index: nat): nat
    requires index < MAX_VARINT
  {
    2 * Pow128(9 - index)
  }

  lemma {:induction false} WrittenIsVarint(value: nat, index: nat)
    requires index < MAX_VARINT && value < Room(index)
    ensures IsVarintFrom(VarintBytes(value), index) && VarintValue(VarintBytes(value)) == value
  {
    if value >= 128 {
      var rest := VarintBytes(value / 128);
      WrittenIsVarint(value / 128, index + 1);
      var s := VarintBytes(value);
      assert s[1..] == rest && s[|s| - 1] == rest[|rest| - 1];
      assert forall i :: 1 <= i < |s| - 1 ==> s[i] == rest[i - 1];
    } else {
      assert VarintBytes(value)[1..] == [];
    }
  }

  lemma {:induction false} VarintValueFits(s: Bytes, index: nat)
    requires IsVarintFrom(s, index)
    ensures VarintValue(s) < Room(index)
  {
    if |s| == 1 {
      assert s[1..] == [];
      assert index < 9 ==> Room(index) == 2 * (128 * Pow128(8 - index));
    } else {
      assert s[1..][|s| - 2] == s[|s| - 1];
      VarintValueFits(s[1..], index + 1);
    }
  }

  lemma RoomIsU64()
    ensures Room(0) == U64_LIMIT
  {
  }

  /** Every 64-bit value, followed by anything, is read back, and just its own bytes are consumed: one to ten of
      them. */
  lemma VarintRoundTrip(value: nat, suffix: Bytes)
    requires value < U64_LIMIT
    ensures ReadVarintAt(VarintBytes(value) + suffix) == Ok((value, |VarintBytes(value)|))
    ensures 1 <= |VarintBytes(value)| <= MAX_VARINT
  {
    RoomIsU64();
    WrittenIsVarint(value, 0);
    var s := VarintBytes(value);
    assert (s + suffix)[..|s|] == s;
    ReadsVarintIff(s + suffix, 0, value, |s|);
  }

  /** Whatever is read fits in 64 bits. */
  lemma ReadFits(s: Bytes)
    requires ReadVarintAt(s).Ok?
    ensures ReadVarintAt(s).value.0 < U64_LIMIT && 1 <= ReadVarintAt(s).value.1 <= |s|
  {
    var (value, length) := ReadVarintAt(s).value;
    ReadsVarintIff(s, 0, value, length);
    VarintValueFits(s[..length], 0);
    RoomIsU64();
  }
}
