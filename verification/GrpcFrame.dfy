/** The message framing of gRPC: a flag byte, a length in four bytes, most significant first, and the payload
    ("Length-Prefixed-Message" in section "Requests" of gRPC over HTTP/2). */
module GrpcFrame {
  import opened Common

  const PREFIX_LEN: nat := 5

  datatype DecodedFrame = DecodedFrame(compressed: bool, payload: Bytes)

  function U32Bytes(n: nat): Bytes
    requires n < U32_LIMIT
  {
    [(n / 0x100_0000) as Byte, (n / 0x1_0000 % 0x100) as Byte, (n / 0x100 % 0x100) as Byte, (n % 0x100) as Byte]
  }

  /** The length in the prefix at the beginning of `s`. */
  function LengthAt(s: Bytes): nat
    requires |s| >= PREFIX_LEN
  {
    (s[1] as nat) * 0x100_0000 + (s[2] as nat) * 0x1_0000 + (s[3] as nat) * 0x100 + s[4] as nat
  }

  /** One message; a length that does not fit is cut to its low 32 bits. */
  function Frame(flag: Byte, payload: Bytes): Bytes { [flag] + U32Bytes(|payload| % U32_LIMIT) + payload }

  function Encoded(frame: DecodedFrame): Bytes { Frame(if frame.compressed then 1 else 0, frame.payload) }

  function EncodeAll(frames: seq<DecodedFrame>): Bytes {
    if frames == [] then [] else Encoded(frames[0]) + EncodeAll(frames[1..])
  }

  /** `s` begins with a whole message. */
  predicate IsComplete(s: Bytes) { |s| >= PREFIX_LEN && |s| >= PREFIX_LEN + LengthAt(s) }

  /** Every whole message at the beginning of `data`, in order. */
  function Decoded(data: Bytes): seq<DecodedFrame>
    decreases |data|
  {
    if !IsComplete(data) then [] else
    var end := PREFIX_LEN + LengthAt(data);
    [DecodedFrame(data[0] == 1, data[PREFIX_LEN..end])] + Decoded(data[end..])
  }

  method DecodeAll(data: Bytes) returns (frames: seq<DecodedFrame>)
    ensures frames == Decoded(data)
  {
    frames := [];
    var rest := data;
    while |rest| >= PREFIX_LEN
      invariant frames + Decoded(rest) == Decoded(data)
      decreases |rest|
    {
      var end := PREFIX_LEN + LengthAt(rest);
      if |rest| < end {
        break;
      }
      ghost var before := frames;
      frames := frames + [DecodedFrame(rest[0] == 1, rest[PREFIX_LEN..end])];
      assert frames + Decoded(rest[end..]) == before + Decoded(rest);
      rest := rest[end..];
    }
    assert frames + [] == frames;
  }

  lemma FourBytes(n: nat)
    requires n < U32_LIMIT
    ensures n == n / 0x100_0000 * 0x100_0000 + n / 0x1_0000 % 0x100 * 0x1_0000 + n / 0x100 % 0x100 * 0x100 + n % 0x100
  {
    var high, higher := n / 0x100, n / 0x100 / 0x100;
    assert n == high * 0x100 + n % 0x100 && high == higher * 0x100 + high % 0x100;
    assert higher == higher / 0x100 * 0x100 + higher % 0x100;
    assert higher == n / 0x1_0000 && higher / 0x100 == n / 0x100_0000;
  }

  /** The number these bytes spell, most significant first. */
  function BigEndian(s: Bytes): nat {
    if s == [] then 0 else BigEndian(s[..|s| - 1]) * 0x100 + s[|s| - 1] as nat
  }

  lemma FourBytesSpell(s: Bytes)
    requires |s| == 4
    ensures BigEndian(s) == (s[0] as nat) * 0x100_0000 + (s[1] as nat) * 0x1_0000 + (s[2] as nat) * 0x100 + s[3] as nat
  {
    assert BigEndian(s[..1]) == s[0] as nat by { assert s[..1][..0] == []; }
    assert BigEndian(s[..2]) == BigEndian(s[..1]) * 0x100 + s[1] as nat by { assert s[..2][..1] == s[..1]; }
    assert BigEndian(s[..3]) == BigEndian(s[..2]) * 0x100 + s[2] as nat by { assert s[..3][..2] == s[..2]; }
  }

  /** The length of a prefix is written and read most significant byte first. */
  lemma LengthIsBigEndian(s: Bytes, n: nat)
    requires |s| >= PREFIX_LEN && n < U32_LIMIT
    ensures LengthAt(s) == BigEndian(s[1..PREFIX_LEN]) && BigEndian(U32Bytes(n)) == n
  {
    FourBytesSpell(s[1..PREFIX_LEN]);
    FourBytesSpell(U32Bytes(n));
    FourBytes(n);
  }

  /** What an encoded message is: a flag of 1 when it is compressed and of 0 otherwise, the low 32 bits of its length,
      most significant byte first, and its payload. */
  lemma EncodedIsPrefixed(frame: DecodedFrame)
    ensures var s := Encoded(frame);
            && |s| == 5 + |frame.payload| && s[5..] == frame.payload
            && s[0] == (if frame.compressed then 1 else 0)
            && BigEndian(s[1..5]) == |frame.payload| % 0x1_0000_0000
  {
    var length := U32Bytes(|frame.payload| % U32_LIMIT);
    LengthIsBigEndian([0] + length, |frame.payload| % U32_LIMIT);
    hide U32Bytes, BigEndian, LengthAt;
    assert Encoded(frame)[1..5] == length;
  }

  lemma LengthReads(flag: Byte, payload: Bytes, tail: Bytes)
    ensures LengthAt(Frame(flag, payload) + tail) == |payload| % U32_LIMIT
  {
    var n := |payload| % U32_LIMIT;
    var s := Frame(flag, payload) + tail;
    FourBytes(n);
    assert s[1] == U32Bytes(n)[0] && s[2] == U32Bytes(n)[1] && s[3] == U32Bytes(n)[2] && s[4] == U32Bytes(n)[3];
  }

  lemma FrameShape(flag: Byte, payload: Bytes)
    ensures var s := Frame(flag, payload);
            |s| == PREFIX_LEN + |payload| && s[0] == flag && s[1..PREFIX_LEN] == U32Bytes(|payload| % U32_LIMIT)
            && s[PREFIX_LEN..] == payload
  {
  }

  lemma DecodesFirst(s: Bytes, n: nat)
    requires |s| >= PREFIX_LEN + n && LengthAt(s) == n
    ensures Decoded(s) == [DecodedFrame(s[0] == 1, s[PREFIX_LEN..PREFIX_LEN + n])] + Decoded(s[PREFIX_LEN + n..])
  {
    hide LengthAt;
  }

  lemma FrameThen(frame: DecodedFrame, tail: Bytes)
    requires |frame.payload| < U32_LIMIT
    ensures Decoded(Encoded(frame) + tail) == [frame] + Decoded(tail)
  {
    var s := Encoded(frame) + tail;
    LengthReads(if frame.compressed then 1 else 0, frame.payload, tail);
    FrameShape(if frame.compressed then 1 else 0, frame.payload);
    DecodesFirst(s, |frame.payload|);
    hide Frame, LengthAt, U32Bytes, Decoded;
    assert s[PREFIX_LEN..PREFIX_LEN + |frame.payload|] == frame.payload;
    assert s[PREFIX_LEN + |frame.payload|..] == tail;
  }

  /** The frames that were encoded are decoded, in order, whatever incomplete message follows them. */
  lemma {:induction false} EncodedFramesDecode(frames: seq<DecodedFrame>, tail: Bytes)
    requires (forall f :: f in frames ==> |f.payload| < U32_LIMIT) && !IsComplete(tail)
    ensures Decoded(EncodeAll(frames) + tail) == frames
  {
    if frames == [] {
      assert EncodeAll(frames) + tail == tail;
    } else {
      hide Decoded, Encoded, IsComplete;
      EncodedFramesDecode(frames[1..], tail);
      FrameThen(frames[0], EncodeAll(frames[1..]) + tail);
      Associate(Encoded(frames[0]), EncodeAll(frames[1..]), tail);
    }
  }

  /** One message comes back exactly when its length fits in 32 bits. */
  lemma DecodesIffItFits(frame: DecodedFrame)
    ensures Decoded(Encoded(frame)) == [frame] <==> |frame.payload| < U32_LIMIT
  {
    assert Encoded(frame) + [] == Encoded(frame);
    if |frame.payload| < U32_LIMIT {
      FrameThen(frame, []);
    } else {
      LengthReads(if frame.compressed then 1 else 0, frame.payload, []);
      assert |Decoded(Encoded(frame))[0].payload| == |frame.payload| % U32_LIMIT;
    }
  }

  /** Every whole message of `data` has a flag byte the encoder writes. */
  predicate CleanFlags(data: Bytes)
    decreases |data|
  {
    IsComplete(data) ==> data[0] <= 1 && CleanFlags(data[PREFIX_LEN + LengthAt(data)..])
  }

  lemma U32RoundTrip(s: Bytes)
    requires |s| >= PREFIX_LEN
    ensures LengthAt(s) < U32_LIMIT && U32Bytes(LengthAt(s)) == s[1..5]
  {
    var n := LengthAt(s);
    assert n / 0x100 == (s[1] as nat) * 0x1_0000 + (s[2] as nat) * 0x100 + s[3] as nat;
    assert n / 0x1_0000 == (s[1] as nat) * 0x100 + s[2] as nat;
    assert n / 0x100_0000 == s[1] as nat;
  }

  lemma ReencodedFrame(length: Bytes, flag: Byte, payload: Bytes)
    requires |payload| < U32_LIMIT && U32Bytes(|payload|) == length
    ensures Frame(flag, payload) == [flag] + (length + payload)
  {
  }

  /** A whole message encoded again differs at most in its flag byte. */
  lemma ReencodedHead(data: Bytes)
    requires IsComplete(data)
    ensures var end := PREFIX_LEN + LengthAt(data);
            var head := Encoded(Decoded(data)[0]);
            |head| == end && head == [if data[0] == 1 then 1 else 0] + data[1..end] && |head| > 0
  {
    var end := PREFIX_LEN + LengthAt(data);
    var flag: Byte, payload := if data[0] == 1 then 1 else 0, data[PREFIX_LEN..end];
    U32RoundTrip(data);
    assert Decoded(data)[0] == DecodedFrame(data[0] == 1, payload);
    ReencodedFrame(data[1..PREFIX_LEN], flag, payload);
    assert data[1..end] == data[1..PREFIX_LEN] + payload;
  }

  lemma PrefixAfter(head: Bytes, a: Bytes, b: Bytes)
    ensures a <= b <==> head + a <= head + b
  {
    if head + a <= head + b {
      assert forall i :: 0 <= i < |a| ==> a[i] == (head + a)[|head| + i] && b[i] == (head + b)[|head| + i];
    }
  }

  /** Encoding again what was decoded gives the beginning of the data exactly when its flag bytes are those the encoder
      writes. */
  lemma {:induction false} ReencodingIsPrefix(data: Bytes)
    ensures EncodeAll(Decoded(data)) <= data <==> CleanFlags(data)
    decreases |data|
  {
    if IsComplete(data) {
      ReencodedHead(data);
      hide LengthAt, Encoded;
      var end := PREFIX_LEN + LengthAt(data);
      var head, rest := Encoded(Decoded(data)[0]), data[end..];
      assert Decoded(data)[1..] == Decoded(rest);
      ReencodingIsPrefix(rest);
      assert data == data[..end] + rest;
      if data[0] <= 1 {
        assert head == data[..end];
        PrefixAfter(head, EncodeAll(Decoded(rest)), rest);
      } else {
        assert head[0] != data[0];
      }
    }
  }
}
