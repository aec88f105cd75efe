/** The two TCP framings: abridged, with one- and four-byte headers, and intermediate. */
module Framing {
  import opened Outcomes
  import opened Bytes

  const LONG_HEADER: byte := 0x7f
  const MAX_WORDS: nat := 0x00ff_ffff

  datatype FrameBounds = FrameBounds(payloadOffset: nat, payloadLength: nat, consumed: nat) {
    function Payload(input: bytes): Option<bytes> {
      if payloadOffset + payloadLength <= |input| then Some(input[payloadOffset..payloadOffset + payloadLength]) else None
    }
  }

  datatype FrameStatus =
    | Incomplete(required: nat)
    | Packet(bounds: FrameBounds)
    | QuickAck(token: u32, consumed: nat)

  datatype Codec = Abridged | Intermediate

  // ----- decoding ----------------------------------------------------------------------------

  // The decision on a frame whose header has been read.
  function Delimit(header: nat, length: nat, available: nat, maxFrameBytes: u32): Result<FrameStatus> {
    if length == 0 || length % 4 != 0 then Err(InvalidLength)
    else if length > maxFrameBytes then Err(LimitExceeded)
    else if available < header + length then Ok(Incomplete(header + length))
    else Ok(Packet(FrameBounds(header, length, header + length)))
  }

  function Decode(codec: Codec, input: bytes, maxFrameBytes: u32): Result<FrameStatus> {
    match codec
    case Abridged =>
      if |input| == 0 then Ok(Incomplete(1))
      else if input[0] < LONG_HEADER then Delimit(1, 4 * input[0] as nat, |input|, maxFrameBytes)
      else if input[0] > LONG_HEADER then Err(InvalidLength)
      else if |input| < 4 then Ok(Incomplete(4))
      else Delimit(4, 4 * LeValue(input[1..4]), |input|, maxFrameBytes)
    case Intermediate =>
      if |input| < 4 then Ok(Incomplete(4))
      else
        var encoded := U32Of(input[..4]);
        if encoded >= 0x8000_0000 then Ok(QuickAck(encoded, 4))
        else Delimit(4, encoded, |input|, maxFrameBytes)
  }

  lemma DecodeAdvances(codec: Codec, input: bytes, maxFrameBytes: u32)
    requires Decode(codec, input, maxFrameBytes).Ok?
    ensures match Decode(codec, input, maxFrameBytes).value
            case Incomplete(required) => required > |input|
            case QuickAck(_, consumed) => 0 < consumed <= |input|
            case Packet(b) => b.payloadOffset + b.payloadLength == b.consumed && 0 < b.consumed <= |input|
  {
  }

  // An answer other than Incomplete is final; Incomplete(n) is repeated until n bytes are there.
  lemma DecodeIsStable(codec: Codec, input: bytes, more: bytes, maxFrameBytes: u32)
    ensures var now, later := Decode(codec, input, maxFrameBytes), Decode(codec, input + more, maxFrameBytes);
      (now.Ok? && now.value.Incomplete? ==> |input + more| < now.value.required) ==> later == now
  {
    if |input| >= 4 {
      assert (input + more)[1..4] == input[1..4];
      assert (input + more)[..4] == input[..4];
    }
  }

  // The length a header announces and its own width, byte by byte; a header of another kind, or one that is not
  // there in full, announces none.
  function Announced(codec: Codec, input: bytes): Option<(nat, nat)> {
    match codec
    case Abridged =>
      if |input| >= 1 && input[0] <= 126 then Some((4 * input[0] as nat, 1))
      else if |input| >= 4 && input[0] == 127
      then Some((4 * (input[1] as nat + 0x100 * input[2] as nat + 0x1_0000 * input[3] as nat), 4))
      else None
    case Intermediate =>
      if |input| >= 4 && input[3] <= 127
      then Some((input[0] as nat + 0x100 * input[1] as nat + 0x1_0000 * input[2] as nat + 0x100_0000 * input[3] as nat, 4))
      else None
  }

  // What is answered then: more bytes, an acknowledgement, or an error.
  function Unannounced(codec: Codec, input: bytes): Result<FrameStatus> {
    match codec
    case Abridged =>
      if |input| == 0 then Ok(Incomplete(1)) else if input[0] == 127 then Ok(Incomplete(4)) else Err(InvalidLength)
    case Intermediate => if |input| < 4 then Ok(Incomplete(4)) else Ok(QuickAck(U32Of(input[..4]), 4))
  }

  // A frame beyond the limit is refused, as soon as its header is there, and no other.
  lemma DecodeFollowsAnnouncement(codec: Codec, input: bytes, maxFrameBytes: u32)
    ensures var r, a := Decode(codec, input, maxFrameBytes), Announced(codec, input);
      && (r == Err(LimitExceeded) <==> a.Some? && a.value.0 > maxFrameBytes && a.value.0 % 4 == 0)
      && (a.Some? && (a.value.0 == 0 || a.value.0 % 4 != 0) ==> r == Err(InvalidLength))
      && (a.Some? && 0 < a.value.0 <= maxFrameBytes && a.value.0 % 4 == 0 ==>
            var (length, header) := a.value;
            r == if |input| < header + length then Ok(Incomplete(header + length))
                 else Ok(Packet(FrameBounds(header, length, header + length))))
      && (a.None? ==> r == Unannounced(codec, input))
  {
    if |input| >= 4 {
      LeInBytes(input[1..4]);
      LeInBytes(input[..4]);
    }
  }

  lemma LeInBytes(b: bytes)
    requires 3 <= |b| <= 4
    ensures LeValue(b) == b[0] as nat + 0x100 * b[1] as nat + 0x1_0000 * b[2] as nat
                          + if |b| == 4 then 0x100_0000 * b[3] as nat else 0
  {
    assert b[1..][1..] == b[2..] && b[2..][1..] == b[3..];
    assert LeValue(b[2..]) == b[2] as nat + 256 * LeValue(b[3..]);
    assert |b| == 4 ==> b[3..] == [b[3]];
    assert |b| == 3 ==> b[3..] == [];
  }

  // So a payload that can be framed is refused by a receiver whose limit it exceeds.
  lemma OversizedFrameIsRefused(codec: Codec, payload: bytes, rest: bytes, maxFrameBytes: u32)
    requires FrameText(codec, payload).Ok? && |payload| > maxFrameBytes
    ensures Decode(codec, FrameText(codec, payload).value + rest, maxFrameBytes) == Err(LimitExceeded)
  {
    hide Decode;
    var input := FrameText(codec, payload).value + rest;
    DecodeFollowsAnnouncement(codec, input, maxFrameBytes);
    HeaderAnnounces(codec, payload, rest);
  }

  lemma HeaderAnnounces(codec: Codec, payload: bytes, rest: bytes)
    requires FrameText(codec, payload).Ok?
    ensures var text := FrameText(codec, payload).value;
      Announced(codec, text + rest) == Some((|payload|, |text| - |payload|)) && |payload| % 4 == 0
  {
    var header := Header(codec, |payload|).value;
    var input := header + payload + rest;
    if codec.Intermediate? {
      U32RoundTrip(|payload|);
      LeInBytes(header);
    } else if |header| == 4 {
      assert header[1..4] == Le(|payload| / 4, 3);
      assert Pow(256, 3) == 0x100_0000;
      LeRoundTrip(|payload| / 4, 3);
      LeInBytes(Le(|payload| / 4, 3));
    }
  }

  // ----- encoding ----------------------------------------------------------------------------

  function Header(codec: Codec, length: nat): Result<bytes> {
    if length == 0 || length % 4 != 0 then Err(InvalidLength)
    else match codec
      case Abridged =>
        var words := length / 4;
        if words < LONG_HEADER as nat then Ok([words])
        else if words <= MAX_WORDS then Ok([LONG_HEADER] + Le(words, 3))
        else Err(InvalidLength)
      case Intermediate => if length > 0x7fff_ffff then Err(InvalidLength) else Ok(Le32(length))
  }

  // Payloads of whole words, at least one, up to what the header can announce.
  lemma FramableExactly(codec: Codec, payload: bytes)
    ensures FrameText(codec, payload).Ok?
       <==> |payload| > 0 && |payload| % 4 == 0 && |payload| <= if codec.Abridged? then 0x3ff_fffc else 0x7fff_ffff
    ensures FrameText(codec, payload).Err? ==> FrameText(codec, payload).kind == InvalidLength
  {
  }

  function FrameText(codec: Codec, payload: bytes): Result<bytes> {
    var header :- Header(codec, |payload|);
    Ok(header + payload)
  }

  method Encode(codec: Codec, payload: bytes, output: array<byte>) returns (r: Result<nat>)
    modifies output
    ensures match FrameText(codec, payload)
            case Err(kind) => r == Err(kind) && output[..] == old(output[..])
            case Ok(text) =>
              if output.Length < |text| then r == Err(OutputTooSmall) && output[..] == old(output[..])
              else (r == Ok(|text|) && output[..] == Splice(old(output[..]), 0, text))
  {
    hide Splice;
    var header :- Header(codec, |payload|);
    var total := |header| + |payload|;
    if output.Length < total {
      return Err(OutputTooSmall);
    }
    Store(output, 0, header);
    Store(output, |header|, payload);
    SpliceGrows(old(output[..]), 0, header, payload);
    return Ok(total);
  }

  // Decoding is a left inverse of encoding, whatever follows in the stream.
  lemma DecodeAfterEncode(codec: Codec, payload: bytes, rest: bytes, maxFrameBytes: u32)
    requires FrameText(codec, payload).Ok? && |payload| <= maxFrameBytes
    ensures var text := FrameText(codec, payload).value;
      var header := |text| - |payload|;
      && Decode(codec, text + rest, maxFrameBytes) == Ok(Packet(FrameBounds(header, |payload|, |text|)))
      && (text + rest)[header..|text|] == payload
  {
    var header := Header(codec, |payload|).value;
    var input := header + payload + rest;
    if codec.Intermediate? {
      assert input[..4] == header;
      U32RoundTrip(|payload|);
    } else if |header| == 4 {
      assert input[0] == LONG_HEADER;
      assert input[1..4] == Le(|payload| / 4, 3);
      assert Pow(256, 3) == 0x100_0000;
      LeRoundTrip(|payload| / 4, 3);
    } else {
      assert input[0] == |payload| / 4;
    }
  }

  // Re-encoding a decoded payload gives back the bytes consumed, except for an abridged frame that
  // carries the long header although the short one would do.
  lemma EncodeAfterDecode(codec: Codec, input: bytes, maxFrameBytes: u32)
    requires Decode(codec, input, maxFrameBytes).Ok? && Decode(codec, input, maxFrameBytes).value.Packet?
    ensures var b := Decode(codec, input, maxFrameBytes).value.bounds;
      b.Payload(input).Some?
      && (FrameText(codec, b.Payload(input).value) == Ok(input[..b.consumed])
          <==> codec.Intermediate? || input[0] < LONG_HEADER || b.payloadLength >= 4 * LONG_HEADER as nat)
  {
    var b := Decode(codec, input, maxFrameBytes).value.bounds;
    var payload := input[b.payloadOffset..b.consumed];
    assert input[..b.consumed] == input[..b.payloadOffset] + payload;
    if codec.Intermediate? {
      U32Canonical(input[..4]);
    } else if input[0] == LONG_HEADER {
      LeCanonical(input[1..4]);
      assert Pow(256, 3) == 0x100_0000;
      assert input[..4] == [LONG_HEADER] + input[1..4];
    } else {
      assert input[..1] == [input[0]];
    }
    if FrameText(codec, payload).Ok? {
      var header := Header(codec, |payload|).value;
      assert header + payload == input[..b.consumed] ==> |header| == b.payloadOffset;
    }
  }

  // The exception is real: this frame is accepted but would be sent in fewer bytes.
  lemma LongHeaderOnShortFrame()
    ensures Decode(Abridged, OVERLONG, 4) == Ok(Packet(FrameBounds(4, 4, 8)))
    ensures FrameText(Abridged, OVERLONG[4..8]) == Ok([1, 9, 9, 9, 9])
  {
    var length := OVERLONG[1..4];
    assert length == [1, 0, 0] && length[1..] == [0, 0];
    assert LeValue([0]) == 0 && LeValue([0, 0]) == 0;
    assert LeValue(length) == 1;
    assert Decode(Abridged, OVERLONG, 4) == Delimit(4, 4 * LeValue(OVERLONG[1..4]), 8, 4);
    assert OVERLONG[4..8] == [9, 9, 9, 9];
    var header: bytes := [1];
    assert Header(Abridged, 4) == Ok(header);
    assert header + OVERLONG[4..8] == [1, 9, 9, 9, 9];
  }

  const OVERLONG: bytes := [0x7f, 1, 0, 0, 9, 9, 9, 9]

  // ----- streams of frames -----------------------------------------------------------------------

  ghost predicate Encodable(codec: Codec, payloads: seq<bytes>, maxFrameBytes: u32) {
    forall i :: 0 <= i < |payloads| ==> FrameText(codec, payloads[i]).Ok? && |payloads[i]| <= maxFrameBytes
  }

  function StreamText(codec: Codec, payloads: seq<bytes>): bytes
    requires forall i :: 0 <= i < |payloads| ==> FrameText(codec, payloads[i]).Ok?
  {
    if payloads == [] then [] else FrameText(codec, payloads[0]).value + StreamText(codec, payloads[1..])
  }

  // The payloads of the complete frames at the front of a stream, and what is left behind them.
  function Frames(codec: Codec, stream: bytes, maxFrameBytes: u32): (r: (seq<bytes>, bytes))
    decreases |stream|
  {
    var status := Decode(codec, stream, maxFrameBytes);
    if status.Ok? && status.value.Packet? then
      DecodeAdvances(codec, stream, maxFrameBytes);
      var b := status.value.bounds;
      var (payloads, rest) := Frames(codec, stream[b.consumed..], maxFrameBytes);
      ([stream[b.payloadOffset..b.consumed]] + payloads, rest)
    else ([], stream)
  }

  // The frames written into a stream are the frames read from it, and nothing of them is left over.
  lemma {:induction false} StreamRoundTrip(codec: Codec, payloads: seq<bytes>, tail: bytes, maxFrameBytes: u32)
    requires Encodable(codec, payloads, maxFrameBytes)
    ensures var (more, rest) := Frames(codec, tail, maxFrameBytes);
      Frames(codec, StreamText(codec, payloads) + tail, maxFrameBytes) == (payloads + more, rest)
  {
    hide Decode, FrameText;
    var (more, rest) := Frames(codec, tail, maxFrameBytes);
    if payloads == [] {
      assert StreamText(codec, payloads) + tail == tail;
      assert payloads + more == more;
    } else {
      var text := FrameText(codec, payloads[0]).value;
      var behind := StreamText(codec, payloads[1..]) + tail;
      var stream := StreamText(codec, payloads) + tail;
      assert stream == text + behind;
      DecodeAfterEncode(codec, payloads[0], behind, maxFrameBytes);
      assert stream[|text|..] == behind;
      StreamRoundTrip(codec, payloads[1..], tail, maxFrameBytes);
      assert payloads + more == [payloads[0]] + (payloads[1..] + more);
    }
  }
}
