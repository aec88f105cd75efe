/** The gateway's event function, and what a connection that polls it sees of a byte stream. */
module Gateway {
  import opened Outcomes
  import opened Bytes
  import opened Framing
  import Packets

  datatype CoreGateway = CoreGateway(codec: Codec, maxFrameBytes: u32, maxMessageBytes: u32)

  datatype Event =
    | NeedMoreBytes(required: nat)
    | Envelope(envelope: Packets.Envelope, consumed: nat)
    | Acknowledged(token: u32, consumed: nat)

  function Poll(g: CoreGateway, input: bytes): Result<Event> {
    var status :- Decode(g.codec, input, g.maxFrameBytes);
    match status
    case Incomplete(required) => Ok(NeedMoreBytes(required))
    case QuickAck(token, consumed) => Ok(Acknowledged(token, consumed))
    case Packet(bounds) =>
      match bounds.Payload(input)
      case None => Err(InvalidPacket)
      case Some(payload) =>
        var envelope :- Packets.External(payload, g.maxMessageBytes);
        Ok(Envelope(envelope, bounds.consumed))
  }

  lemma PollAdvances(g: CoreGateway, input: bytes)
    requires Poll(g, input).Ok?
    ensures var e := Poll(g, input).value;
      if e.NeedMoreBytes? then e.required > |input| else 0 < e.consumed <= |input|
  {
    hide Packets.External, Decode;
    DecodeAdvances(g.codec, input, g.maxFrameBytes);
  }

  // A decided answer does not change when more bytes arrive, and an undecided one stays undecided
  // until the announced number of bytes is there.
  lemma PollIsStable(g: CoreGateway, input: bytes, more: bytes)
    ensures var now, later := Poll(g, input), Poll(g, input + more);
      (now.Ok? && now.value.NeedMoreBytes? ==> |input + more| < now.value.required) ==> later == now
  {
    hide Packets.External, Decode;
    DecodeIsStable(g.codec, input, more, g.maxFrameBytes);
    var status := Decode(g.codec, input, g.maxFrameBytes);
    if status.Ok? {
      DecodeAdvances(g.codec, input, g.maxFrameBytes);
      if status.value.Packet? {
        var b := status.value.bounds;
        assert (input + more)[b.payloadOffset..b.consumed] == input[b.payloadOffset..b.consumed];
      }
    }
  }

  // ----- a connection ------------------------------------------------------------------------

  // What polling has produced so far: the events, the bytes not yet consumed, and the error that
  // ended the connection, if one did.
  datatype Connection = Connection(events: seq<Event>, buffer: bytes, failure: Option<ErrorKind>)

  // Polls until more bytes are needed or an error occurs, discarding what each event consumed.
  function Drain(g: CoreGateway, buffer: bytes): Connection
    decreases |buffer|
  {
    var r := Poll(g, buffer);
    if r.Err? then Connection([], buffer, Some(r.kind))
    else if r.value.NeedMoreBytes? then Connection([], buffer, None)
    else
      PollAdvances(g, buffer);
      var rest := Drain(g, buffer[r.value.consumed..]);
      Connection([r.value] + rest.events, rest.buffer, rest.failure)
  }

  function Receive(g: CoreGateway, c: Connection, chunk: bytes): Connection {
    if c.failure.Some? then c
    else
      var d := Drain(g, c.buffer + chunk);
      Connection(c.events + d.events, d.buffer, d.failure)
  }

  function ReceiveAll(g: CoreGateway, chunks: seq<bytes>): Connection {
    if chunks == [] then Connection([], [], None)
    else Receive(g, ReceiveAll(g, chunks[..|chunks| - 1]), chunks[|chunks| - 1])
  }

  function Joined(chunks: seq<bytes>): bytes {
    if chunks == [] then [] else Joined(chunks[..|chunks| - 1]) + chunks[|chunks| - 1]
  }

  // The two connections have seen the same; unless they failed, they also buffer the same bytes.
  ghost predicate Indistinguishable(a: Connection, b: Connection) {
    a.events == b.events && a.failure == b.failure && (a.failure.None? ==> a.buffer == b.buffer)
  }

  lemma {:induction false} DrainContinues(g: CoreGateway, buffer: bytes, more: bytes)
    ensures Indistinguishable(Receive(g, Drain(g, buffer), more), Drain(g, buffer + more))
    decreases |buffer|
  {
    hide Poll;
    var r := Poll(g, buffer);
    PollIsStable(g, buffer, more);
    if r.Ok? && !r.value.NeedMoreBytes? {
      PollAdvances(g, buffer);
      var consumed := r.value.consumed;
      assert (buffer + more)[consumed..] == buffer[consumed..] + more;
      DrainContinues(g, buffer[consumed..], more);
      var d := Drain(g, buffer[consumed..]);
      var later := Drain(g, d.buffer + more).events;
      assert [r.value] + (d.events + later) == ([r.value] + d.events) + later;
    } else if r.Ok? {
      assert [] + Drain(g, buffer + more).events == Drain(g, buffer + more).events;
    }
  }

  // However a stream is cut into chunks, the events are those of the whole stream.
  lemma {:induction false} ChunkingDoesNotMatter(g: CoreGateway, chunks: seq<bytes>)
    ensures Indistinguishable(ReceiveAll(g, chunks), Drain(g, Joined(chunks)))
  {
    hide Poll, Drain;
    if chunks == [] {
      NothingToDrain(g);
    } else {
      var earlier, last := chunks[..|chunks| - 1], chunks[|chunks| - 1];
      ChunkingDoesNotMatter(g, earlier);
      DrainContinues(g, Joined(earlier), last);
    }
  }

  lemma NothingToDrain(g: CoreGateway)
    ensures Drain(g, []) == Connection([], [], None)
  {
  }

  // ----- the sender's packets come out as events -------------------------------------------------

  function EventsOf(g: CoreGateway, payloads: seq<bytes>): seq<Event>
    requires forall i :: 0 <= i < |payloads| ==>
      FrameText(g.codec, payloads[i]).Ok? && Packets.External(payloads[i], g.maxMessageBytes).Ok?
  {
    if payloads == [] then []
    else
      var e := Envelope(Packets.External(payloads[0], g.maxMessageBytes).value, |FrameText(g.codec, payloads[0]).value|);
      [e] + EventsOf(g, payloads[1..])
  }

  // Sent envelopes arrive in order and exactly once, over any framing, in any chunks.
  lemma {:induction false} SentEnvelopesArrive(g: CoreGateway, payloads: seq<bytes>, chunks: seq<bytes>)
    requires Encodable(g.codec, payloads, g.maxFrameBytes)
    requires forall i :: 0 <= i < |payloads| ==> Packets.External(payloads[i], g.maxMessageBytes).Ok?
    requires Joined(chunks) == StreamText(g.codec, payloads)
    ensures ReceiveAll(g, chunks) == Connection(EventsOf(g, payloads), [], None)
  {
    ChunkingDoesNotMatter(g, chunks);
    DrainsSentEnvelopes(g, payloads);
  }

  lemma {:induction false} DrainsSentEnvelopes(g: CoreGateway, payloads: seq<bytes>)
    requires Encodable(g.codec, payloads, g.maxFrameBytes)
    requires forall i :: 0 <= i < |payloads| ==> Packets.External(payloads[i], g.maxMessageBytes).Ok?
    ensures Drain(g, StreamText(g.codec, payloads)) == Connection(EventsOf(g, payloads), [], None)
  {
    hide Decode, FrameText, Packets.External;
    if payloads == [] {
      NothingToDrain(g);
    } else {
      var text, behind := FrameText(g.codec, payloads[0]).value, StreamText(g.codec, payloads[1..]);
      DecodeAfterEncode(g.codec, payloads[0], behind, g.maxFrameBytes);
      assert (text + behind)[|text|..] == behind;
      DrainsSentEnvelopes(g, payloads[1..]);
    }
  }
}
