/** From a list of messages to the byte stream that carries them, and back through the gateway. */
module MessageStream {
  import opened Outcomes
  import opened Bytes
  import opened Primitives
  import opened SessionCrypto
  import opened Packets
  import opened Framing
  import opened Gateway

  // What a sender needs: its own key and the direction it sends in.
  datatype Channel = Channel(suite: Suite, direction: Direction, authKey: AuthKey, authKeyId: u64) {
    function Packet(m: Message): bytes
      requires |m.body| < 0x1_0000_0000
    {
      PacketText(suite, direction, authKey, authKeyId, m)
    }

    // A message within the receiver's limits whose packet the codec can frame.
    ghost predicate Carries(g: CoreGateway, m: Message) {
      && Sendable(m, g.maxMessageBytes)
      && FrameText(g.codec, Packet(m)).Ok? && |Packet(m)| <= g.maxFrameBytes
    }

    function PacketsOf(messages: seq<Message>): (packets: seq<bytes>)
      requires forall i :: 0 <= i < |messages| ==> |messages[i].body| < 0x1_0000_0000
      ensures |packets| == |messages|
    {
      seq(|messages|, i requires 0 <= i < |messages| => Packet(messages[i]))
    }

    ghost predicate CarriesAll(g: CoreGateway, messages: seq<Message>) {
      forall i :: 0 <= i < |messages| ==> Carries(g, messages[i])
    }

    // The bytes that go over the connection.
    ghost function StreamOf(g: CoreGateway, messages: seq<Message>): bytes
      requires CarriesAll(g, messages)
    {
      assert forall i :: 0 <= i < |messages| ==> Carries(g, messages[i]);
      StreamText(g.codec, PacketsOf(messages))
    }

    // The receiver's reading of one event.
    function Read(g: CoreGateway, e: Event): Result<(u64, Message)> {
      match e
      case Envelope(envelope, _) => OpenedEnvelope(suite, direction, authKey, envelope, g.maxMessageBytes)
      case NeedMoreBytes(_) => Err(NeedMore)
      case Acknowledged(_, _) => Err(UnexpectedConstructor)
    }
  }

  lemma {:induction false} EventAt(g: CoreGateway, payloads: seq<bytes>, i: nat)
    requires i < |payloads|
    requires forall j :: 0 <= j < |payloads| ==>
      FrameText(g.codec, payloads[j]).Ok? && External(payloads[j], g.maxMessageBytes).Ok?
    ensures |EventsOf(g, payloads)| == |payloads|
    ensures EventsOf(g, payloads)[i]
         == Envelope(External(payloads[i], g.maxMessageBytes).value, |FrameText(g.codec, payloads[i]).value|)
    decreases |payloads|
  {
    hide External, FrameText;
    if i > 0 {
      EventAt(g, payloads[1..], i - 1);
    } else if |payloads| > 1 {
      EventAt(g, payloads[1..], 0);
    }
  }

  // A packet that is accepted as a whole has an acceptable envelope.
  lemma PacketIsRead(c: Channel, g: CoreGateway, m: Message)
    requires c.authKeyId != 0 && Sendable(m, g.maxMessageBytes)
    ensures var e := External(c.Packet(m), g.maxMessageBytes);
      e.Ok? && OpenedEnvelope(c.suite, c.direction, c.authKey, e.value, g.maxMessageBytes) == Ok((c.authKeyId, m))
  {
    hide PacketText, External, OpenedEnvelope, Sendable;
    SentIsReceived(c.suite, c.direction, c.authKey, c.authKeyId, m, g.maxMessageBytes);
  }

  // Whatever messages are sent, and however their stream is cut, the receiver reads exactly them, in order,
  // and nothing is left in its buffer.
  lemma SentMessagesArrive(c: Channel, g: CoreGateway, messages: seq<Message>, chunks: seq<bytes>)
    requires c.authKeyId != 0 && c.CarriesAll(g, messages)
    requires Joined(chunks) == c.StreamOf(g, messages)
    ensures var r := ReceiveAll(g, chunks);
      && r.failure == None && r.buffer == [] && |r.events| == |messages|
      && forall i :: 0 <= i < |messages| ==> c.Read(g, r.events[i]) == Ok((c.authKeyId, messages[i]))
  {
    hide External, FrameText, OpenedEnvelope, StreamText, ReceiveAll, Channel.Packet;
    var packets := c.PacketsOf(messages);
    forall i | 0 <= i < |packets| ensures External(packets[i], g.maxMessageBytes).Ok? {
      assert c.Carries(g, messages[i]);
      PacketIsRead(c, g, messages[i]);
    }
    assert Encodable(g.codec, packets, g.maxFrameBytes) by {
      forall i | 0 <= i < |packets| ensures FrameText(g.codec, packets[i]).Ok? && |packets[i]| <= g.maxFrameBytes {
        assert c.Carries(g, messages[i]);
      }
    }
    SentEnvelopesArrive(g, packets, chunks);
    if messages == [] {
      assert EventsOf(g, packets) == [];
    } else {
      EventAt(g, packets, 0);
    }
    forall i | 0 <= i < |messages| ensures c.Read(g, EventsOf(g, packets)[i]) == Ok((c.authKeyId, messages[i])) {
      EventAt(g, packets, i);
      assert c.Carries(g, messages[i]);
      PacketIsRead(c, g, messages[i]);
    }
  }
}
