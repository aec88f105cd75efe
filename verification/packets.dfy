/** External envelopes: construction of encrypted packets and the two parsers. */
module Packets {
  import opened Outcomes
  import opened Bytes
  import opened Primitives
  import opened C = TlCodec
  import opened TlCursor
  import opened TlWriter
  import opened SessionCrypto

  const HEADER: nat := 24

  datatype Message = Message(
    serverSalt: u64,
    sessionId: u64,
    messageId: u64,
    sequenceNumber: u32,
    body: bytes,
    padding: bytes
  )

  datatype Envelope =
    | Plain(messageId: u64, body: bytes)
    | Encrypted(authKeyId: u64, messageKey: Block, encryptedData: bytes)

  // ----- the formats as functions ----------------------------------------------------------

  function EncryptedPacketLength(m: Message): Result<nat> {
    var encrypted := 32 + |m.body| + |m.padding|;
    if |m.body| % 4 != 0 || !(12 <= |m.padding| <= 1024) || encrypted % 16 != 0 then Err(InvalidLength)
    else Ok(encrypted + HEADER)
  }

  // The fixed fields in front of the body's length.
  function HeaderStart(m: Message): (text: bytes)
    ensures |text| == 28
  {
    Le64(m.serverSalt) + Le64(m.sessionId) + Le64(m.messageId) + Le32(m.sequenceNumber)
  }

  function MessageHeader(m: Message): (text: bytes)
    requires |m.body| < 0x1_0000_0000
    ensures |text| == 32
  {
    HeaderStart(m) + Le32(|m.body|)
  }

  function InnerText(m: Message): (text: bytes)
    requires |m.body| < 0x1_0000_0000
    ensures |text| == 32 + |m.body| + |m.padding|
  {
    MessageHeader(m) + m.body + m.padding
  }

  function PacketText(suite: Suite, direction: Direction, authKey: AuthKey, authKeyId: u64, m: Message): (text: bytes)
    requires |m.body| < 0x1_0000_0000
    ensures |text| == HEADER + 32 + |m.body| + |m.padding|
  {
    var (messageKey, cipher) := Sealed(suite, direction, authKey, InnerText(m));
    Le64(authKeyId) + messageKey + cipher
  }

  function External(input: bytes, maxMessageBytes: u32): Result<Envelope> {
    var (authKeyId, rest) :- ReadU64(input);
    if authKeyId == 0 then
      var (messageId, rest) :- ReadU64(rest);
      var (length, rest) :- ReadU32(rest);
      if length % 4 != 0 then Err(InvalidLength)
      else if length > maxMessageBytes then Err(LimitExceeded)
      else
        var (body, rest) :- C.Take(rest, length);
        var _ :- C.Finish(rest);
        Ok(Plain(messageId, body))
    else
      var (messageKey, data) :- C.Take(rest, 16);
      if !IsBlockData(|data|) then Err(InvalidLength)
      else if |data| > maxMessageBytes + 1072 then Err(LimitExceeded)
      else Ok(Encrypted(authKeyId, messageKey, data))
  }

  function Decrypted(input: bytes, maxMessageBytes: u32): Result<Message> {
    if |input| % 16 != 0 then Err(InvalidLength)
    else
      var (serverSalt, rest) :- ReadU64(input);
      var (sessionId, rest) :- ReadU64(rest);
      var (messageId, rest) :- ReadU64(rest);
      var (sequenceNumber, rest) :- ReadU32(rest);
      var (length, rest) :- ReadU32(rest);
      if length % 4 != 0 then Err(InvalidLength)
      else if length > maxMessageBytes then Err(LimitExceeded)
      else
        var (body, padding) :- C.Take(rest, length);
        if !(12 <= |padding| <= 1024) then Err(InvalidLength)
        else Ok(Message(serverSalt, sessionId, messageId, sequenceNumber, body, padding))
  }

  // ----- the plaintext parser and printer are inverse ---------------------------------------

  ghost predicate Sendable(m: Message, maxMessageBytes: u32) {
    EncryptedPacketLength(m).Ok? && |m.body| <= maxMessageBytes
  }

  lemma DecryptedReadsInnerText(m: Message, maxMessageBytes: u32)
    requires Sendable(m, maxMessageBytes)
    ensures Decrypted(InnerText(m), maxMessageBytes) == Ok(m)
  {
    hide Le32, Le64, ReadU32, ReadU64;
    var tail5 := m.body + m.padding;
    var tail4 := Le32(|m.body|) + tail5;
    var tail3 := Le32(m.sequenceNumber) + tail4;
    var tail2 := Le64(m.messageId) + tail3;
    var tail1 := Le64(m.sessionId) + tail2;
    assert InnerText(m) == Le64(m.serverSalt) + tail1;
    ReadU64AfterWrite(m.serverSalt, tail1);
    ReadU64AfterWrite(m.sessionId, tail2);
    ReadU64AfterWrite(m.messageId, tail3);
    ReadU32AfterWrite(m.sequenceNumber, tail4);
    ReadU32AfterWrite(|m.body|, tail5);
    TakePrefix(m.body, m.padding);
  }

  lemma DecryptedIsCanonical(input: bytes, maxMessageBytes: u32)
    requires Decrypted(input, maxMessageBytes).Ok?
    ensures var m := Decrypted(input, maxMessageBytes).value;
      Sendable(m, maxMessageBytes) && InnerText(m) == input
  {
    hide Le32, Le64, ReadU32, ReadU64;
    ReadU64IsCanonical(input);
    var rest1 := ReadU64(input).value.1;
    ReadU64IsCanonical(rest1);
    var rest2 := ReadU64(rest1).value.1;
    ReadU64IsCanonical(rest2);
    var rest3 := ReadU64(rest2).value.1;
    ReadU32IsCanonical(rest3);
    var rest4 := ReadU32(rest3).value.1;
    ReadU32IsCanonical(rest4);
    var rest5 := ReadU32(rest4).value.1;
    var m := Decrypted(input, maxMessageBytes).value;
    assert rest5 == m.body + m.padding;
  }

  // ----- plain envelopes ---------------------------------------------------------------------

  // Eight zero bytes, the identifier, the length of the body, the body.
  function PlainText(messageId: u64, body: bytes): bytes
    requires |body| < 0x1_0000_0000
  {
    Zeros(8) + Le64(messageId) + Le32(|body|) + body
  }

  // An envelope is read as a plain one exactly when it is the text of one whose body is whole words and within
  // the limit, with nothing behind it.
  lemma PlainIsRead(packet: bytes, messageId: u64, body: bytes, maxMessageBytes: u32)
    ensures External(packet, maxMessageBytes) == Ok(Plain(messageId, body))
       <==> |body| % 4 == 0 && |body| <= maxMessageBytes && packet == PlainText(messageId, body)
  {
    hide PlainText, External;
    if |body| % 4 == 0 && |body| <= maxMessageBytes {
      PlainAfterWrite(messageId, body, maxMessageBytes);
    }
    if External(packet, maxMessageBytes) == Ok(Plain(messageId, body)) {
      PlainIsCanonical(packet, maxMessageBytes);
    }
  }

  lemma ZeroWord()
    ensures Le64(0) == Zeros(8)
  {
  }

  lemma PlainAfterWrite(messageId: u64, body: bytes, maxMessageBytes: u32)
    requires |body| % 4 == 0 && |body| <= maxMessageBytes
    ensures External(PlainText(messageId, body), maxMessageBytes) == Ok(Plain(messageId, body))
  {
    ZeroWord();
    hide Le64, Le32, ReadU64, ReadU32, Zeros;
    var tail := Le32(|body|) + body;
    assert PlainText(messageId, body) == Le64(0) + (Le64(messageId) + tail);
    ReadU64AfterWrite(0, Le64(messageId) + tail);
    ReadU64AfterWrite(messageId, tail);
    ReadU32AfterWrite(|body|, body);
    TakePrefix(body, []);
    assert body + [] == body;
  }

  lemma PlainIsCanonical(packet: bytes, maxMessageBytes: u32)
    requires External(packet, maxMessageBytes).Ok? && External(packet, maxMessageBytes).value.Plain?
    ensures var e := External(packet, maxMessageBytes).value;
      |e.body| % 4 == 0 && |e.body| <= maxMessageBytes && packet == PlainText(e.messageId, e.body)
  {
    ZeroWord();
    hide Le64, Le32, ReadU64, ReadU32, Zeros;
    ReadU64IsCanonical(packet);
    var rest := ReadU64(packet).value.1;
    ReadU64IsCanonical(rest);
    var rest' := ReadU64(rest).value.1;
    ReadU32IsCanonical(rest');
    var body := ReadU32(rest').value.1;
    assert body[..|body|] == body;
  }

  // Envelopes beyond the limit are refused for that.
  lemma LargeEnvelopes(messageId: u64, body: bytes, authKeyId: u64, messageKey: Block, data: bytes, maxMessageBytes: u32)
    ensures maxMessageBytes < |body| < 0x1_0000_0000 && |body| % 4 == 0 ==>
      External(PlainText(messageId, body), maxMessageBytes) == Err(LimitExceeded)
    ensures authKeyId != 0 && |data| > maxMessageBytes + 1072 && |data| % 16 == 0 ==>
      External(Le64(authKeyId) + messageKey + data, maxMessageBytes) == Err(LimitExceeded)
  {
    if |body| < 0x1_0000_0000 {
      LongPlainText(messageId, body, maxMessageBytes);
    }
    hide Le64, Le32, ReadU64, ReadU32, PlainText;
    Regroup(Le64(authKeyId), messageKey, data);
    ReadU64AfterWrite(authKeyId, messageKey + data);
    TakePrefix(messageKey, data);
  }

  lemma LongPlainText(messageId: u64, body: bytes, maxMessageBytes: u32)
    requires |body| < 0x1_0000_0000
    ensures |body| > maxMessageBytes && |body| % 4 == 0 ==>
      External(PlainText(messageId, body), maxMessageBytes) == Err(LimitExceeded)
  {
    ZeroWord();
    hide Le64, Le32, ReadU64, ReadU32, Zeros;
    var tail := Le32(|body|) + body;
    assert PlainText(messageId, body) == Le64(0) + (Le64(messageId) + tail);
    ReadU64AfterWrite(0, Le64(messageId) + tail);
    ReadU64AfterWrite(messageId, tail);
    ReadU32AfterWrite(|body|, body);
  }

  // ----- the packet in bytes -------------------------------------------------------------------

  // Where each field of the text under encryption stands.
  ghost predicate HoldsFields(inner: bytes, m: Message)
    requires |m.body| < 0x1_0000_0000
  {
    && |inner| == 32 + |m.body| + |m.padding|
    && inner[0..8] == Le64(m.serverSalt) && inner[8..16] == Le64(m.sessionId) && inner[16..24] == Le64(m.messageId)
    && inner[24..28] == Le32(m.sequenceNumber) && inner[28..32] == Le32(|m.body|)
    && inner[32..32 + |m.body|] == m.body && inner[32 + |m.body|..] == m.padding
  }

  lemma InnerTextInBytes(m: Message)
    requires |m.body| < 0x1_0000_0000
    ensures HoldsFields(InnerText(m), m)
  {
    hide Le64, Le32;
    var inner, header := InnerText(m), MessageHeader(m);
    assert inner == header + (m.body + m.padding);
    forall a, b | 0 <= a <= b <= 32 ensures inner[a..b] == header[a..b] {
    }
    assert header[0..8] == Le64(m.serverSalt) && header[8..16] == Le64(m.sessionId) && header[16..24] == Le64(m.messageId);
    assert header[24..28] == Le32(m.sequenceNumber) && header[28..32] == Le32(|m.body|);
  }

  // The identifier, the message key, and the sealed fields.
  lemma PacketInBytes(suite: Suite, direction: Direction, authKey: AuthKey, authKeyId: u64, m: Message)
    returns (inner: bytes)
    requires |m.body| < 0x1_0000_0000
    ensures HoldsFields(inner, m)
    ensures var text := PacketText(suite, direction, authKey, authKeyId, m);
      && |text| == 56 + |m.body| + |m.padding| && text[0..8] == Le64(authKeyId)
      && SealsTo(suite, direction, authKey, inner, text[8..24], text[24..])
  {
    InnerTextInBytes(m);
    hide Sealed, SealsTo, InnerText, Le64, HoldsFields;
    inner := InnerText(m);
    var (messageKey, cipher) := Sealed(suite, direction, authKey, inner);
    SealsAsSpecified(suite, direction, authKey, inner, messageKey, cipher);
    PacketSlices(Le64(authKeyId), messageKey, cipher);
  }

  lemma PacketSlices(id: bytes, messageKey: Block, cipher: bytes)
    requires |id| == 8
    ensures var text := id + messageKey + cipher;
      text[0..8] == id && text[8..24] == messageKey && text[24..] == cipher
  {
  }

  // ----- from the sender's message to the receiver's, and back -------------------------------

  // What a receiver holding the authorization key makes of an envelope, and of a packet.
  function OpenedEnvelope(suite: Suite, direction: Direction, authKey: AuthKey, envelope: Envelope, maxMessageBytes: u32)
    : Result<(u64, Message)>
  {
    match envelope
    case Plain(_, _) => Err(UnexpectedConstructor)
    case Encrypted(authKeyId, messageKey, data) =>
      var plain :- Opened(suite, direction, authKey, messageKey, data);
      var m :- Decrypted(plain, maxMessageBytes);
      Ok((authKeyId, m))
  }

  function Received(suite: Suite, direction: Direction, authKey: AuthKey, packet: bytes, maxMessageBytes: u32)
    : Result<(u64, Message)>
  {
    var envelope :- External(packet, maxMessageBytes);
    OpenedEnvelope(suite, direction, authKey, envelope, maxMessageBytes)
  }

  lemma ExternalOfEncrypted(authKeyId: u64, messageKey: Block, data: bytes, maxMessageBytes: u32)
    ensures External(Le64(authKeyId) + messageKey + data, maxMessageBytes)
         == Ok(Encrypted(authKeyId, messageKey, data))
       <==> authKeyId != 0 && IsBlockData(|data|) && |data| <= maxMessageBytes + 1072
  {
    hide Le64, ReadU64, ReadU32;
    var packet := Le64(authKeyId) + messageKey + data;
    assert packet == Le64(authKeyId) + (messageKey + data);
    ReadU64AfterWrite(authKeyId, messageKey + data);
    TakePrefix(messageKey, data);
  }

  lemma ExternalIsCanonical(packet: bytes, maxMessageBytes: u32)
    requires External(packet, maxMessageBytes).Ok? && External(packet, maxMessageBytes).value.Encrypted?
    ensures var e := External(packet, maxMessageBytes).value;
      e.authKeyId != 0 && packet == Le64(e.authKeyId) + e.messageKey + e.encryptedData
  {
    hide Le64, ReadU64, ReadU32;
    ReadU64IsCanonical(packet);
    var rest := ReadU64(packet).value.1;
    assert rest == rest[..16] + rest[16..];
  }

  // A packet is accepted exactly when it is the encoding of a sendable message under a non-zero
  // key identifier, and then every field comes back as it was sent.
  lemma ReceivesExactlyWhatWasSent(suite: Suite, direction: Direction, authKey: AuthKey,
      packet: bytes, authKeyId: u64, m: Message, maxMessageBytes: u32)
    ensures Received(suite, direction, authKey, packet, maxMessageBytes) == Ok((authKeyId, m))
       <==> authKeyId != 0 && Sendable(m, maxMessageBytes)
            && packet == PacketText(suite, direction, authKey, authKeyId, m)
  {
    if authKeyId != 0 && Sendable(m, maxMessageBytes) {
      SentIsReceived(suite, direction, authKey, authKeyId, m, maxMessageBytes);
    }
    if Received(suite, direction, authKey, packet, maxMessageBytes) == Ok((authKeyId, m)) {
      ReceivedWasSent(suite, direction, authKey, packet, maxMessageBytes);
    }
  }

  lemma SentIsReceived(suite: Suite, direction: Direction, authKey: AuthKey, authKeyId: u64, m: Message,
        maxMessageBytes: u32)
    requires authKeyId != 0 && Sendable(m, maxMessageBytes)
    ensures Received(suite, direction, authKey, PacketText(suite, direction, authKey, authKeyId, m), maxMessageBytes)
         == Ok((authKeyId, m))
  {
    hide Sealed, Opened, External, Decrypted, InnerText, Le64;
    var plain := InnerText(m);
    var (messageKey, cipher) := Sealed(suite, direction, authKey, plain);
    ExternalOfEncrypted(authKeyId, messageKey, cipher, maxMessageBytes);
    OpensExactlyWhatWasSealed(suite, direction, authKey, messageKey, cipher, plain);
    DecryptedReadsInnerText(m, maxMessageBytes);
  }

  lemma ReceivedWasSent(suite: Suite, direction: Direction, authKey: AuthKey, packet: bytes, maxMessageBytes: u32)
    requires Received(suite, direction, authKey, packet, maxMessageBytes).Ok?
    ensures var (authKeyId, m) := Received(suite, direction, authKey, packet, maxMessageBytes).value;
      authKeyId != 0 && Sendable(m, maxMessageBytes)
      && packet == PacketText(suite, direction, authKey, authKeyId, m)
  {
    hide Sealed, Opened, External, Decrypted, InnerText, Le64;
    ExternalIsCanonical(packet, maxMessageBytes);
    var e := External(packet, maxMessageBytes).value;
    var plain := Opened(suite, direction, authKey, e.messageKey, e.encryptedData).value;
    OpensExactlyWhatWasSealed(suite, direction, authKey, e.messageKey, e.encryptedData, plain);
    DecryptedIsCanonical(plain, maxMessageBytes);
  }

  // ----- the methods -------------------------------------------------------------------------

  method ParseExternal(input: bytes, maxMessageBytes: u32) returns (r: Result<Envelope>)
    ensures r == External(input, maxMessageBytes)
  {
    hide C.ReadU64, C.ReadU32;
    var cursor := new Cursor(input);
    var authKeyId :- cursor.ReadU64();
    if authKeyId == 0 {
      var messageId :- cursor.ReadU64();
      var length :- cursor.ReadU32();
      if length % 4 != 0 {
        return Err(InvalidLength);
      }
      if length > maxMessageBytes {
        return Err(LimitExceeded);
      }
      var body :- cursor.Take(length);
      var _ :- cursor.Finish();
      return Ok(Plain(messageId, body));
    }
    var messageKey :- cursor.Take(16);
    var data := cursor.Remaining();
    if !IsBlockData(|data|) {
      return Err(InvalidLength);
    }
    if |data| > maxMessageBytes + 1072 {
      return Err(LimitExceeded);
    }
    return Ok(Encrypted(authKeyId, messageKey, data));
  }

  method ParseDecrypted(input: bytes, maxMessageBytes: u32) returns (r: Result<Message>)
    ensures r == Decrypted(input, maxMessageBytes)
  {
    hide C.ReadU64, C.ReadU32;
    if |input| % 16 != 0 {
      return Err(InvalidLength);
    }
    var cursor := new Cursor(input);
    var serverSalt :- cursor.ReadU64();
    var sessionId :- cursor.ReadU64();
    var messageId :- cursor.ReadU64();
    var sequenceNumber :- cursor.ReadU32();
    var length :- cursor.ReadU32();
    if length % 4 != 0 {
      return Err(InvalidLength);
    }
    if length > maxMessageBytes {
      return Err(LimitExceeded);
    }
    var body :- cursor.Take(length);
    var padding := cursor.Remaining();
    if !(12 <= |padding| <= 1024) {
      return Err(InvalidLength);
    }
    return Ok(Message(serverSalt, sessionId, messageId, sequenceNumber, body, padding));
  }

  method WriteHeaderStart(writer: Writer, m: Message) returns (r: Result<()>)
    requires writer.Valid()
    modifies writer, writer.output
    ensures writer.Valid() && writer.Appends(HeaderStart(m), r)
  {
    hide Le64, Le32, Writer.Valid;
    var _ :- writer.WriteU64(m.serverSalt);
    var _ :- writer.WriteU64(m.sessionId);
    var _ :- writer.WriteU64(m.messageId);
    r := writer.WriteU32(m.sequenceNumber);
  }

  // The identifier, room for the message key, and the fixed fields.
  function PacketStart(authKeyId: u64, m: Message): (text: bytes)
    ensures |text| == HEADER + 28
  {
    Le64(authKeyId) + Zeros(16) + HeaderStart(m)
  }

  method WritePacketStart(writer: Writer, authKeyId: u64, m: Message) returns (r: Result<()>)
    requires writer.Valid()
    modifies writer, writer.output
    ensures writer.Valid() && writer.Appends(PacketStart(authKeyId, m), r)
  {
    hide Le64, HeaderStart, Zeros, Writer.Valid;
    var _ :- writer.WriteU64(authKeyId);
    var _ :- writer.WriteAll(Zeros(16));
    r := WriteHeaderStart(writer, m);
  }

  // The whole packet before encryption.  A body whose length does not fit its field is noticed only when
  // that field is due.
  method WritePacket(authKeyId: u64, m: Message, output: array<byte>) returns (r: Result<()>)
    requires HEADER + 32 + |m.body| + |m.padding| <= output.Length
    modifies output
    ensures if |m.body| < 0x1_0000_0000
            then r.Ok? && output[..] == Splice(old(output[..]), 0, Le64(authKeyId) + Zeros(16) + InnerText(m))
            else r == Err(InvalidLength) && output[..] == Splice(old(output[..]), 0, PacketStart(authKeyId, m))
  {
    hide Le64, Le32, InnerText, PacketStart, Splice;
    var writer := new Writer(output);
    var start := WritePacketStart(writer, authKeyId, m);
    assert writer.written == PacketStart(authKeyId, m);
    if |m.body| >= 0x1_0000_0000 {
      return Err(InvalidLength);
    }
    var length := writer.WriteU32(|m.body|);
    var body := writer.WriteAll(m.body);
    r := writer.WriteAll(m.padding);
    PacketParts(authKeyId, m);
  }

  lemma PacketParts(authKeyId: u64, m: Message)
    requires |m.body| < 0x1_0000_0000
    ensures PacketStart(authKeyId, m) + Le32(|m.body|) + m.body + m.padding == Le64(authKeyId) + Zeros(16) + InnerText(m)
  {
    hide Le64, Le32, HeaderStart, Zeros;
    Regroup(Le64(authKeyId) + Zeros(16), HeaderStart(m), Le32(|m.body|));
    Regroup(Le64(authKeyId) + Zeros(16), MessageHeader(m), m.body);
    Regroup(Le64(authKeyId) + Zeros(16), MessageHeader(m) + m.body, m.padding);
  }

  lemma SealedInPlace(was: bytes, id: bytes, messageKey: Block, plain: bytes, cipher: bytes)
    requires |id| == 8 && |plain| == |cipher| && HEADER + |plain| <= |was|
    ensures var whole := Splice(was, 0, id + Zeros(16) + plain);
      && whole[HEADER..HEADER + |plain|] == plain
      && Splice(Splice(whole, HEADER, cipher), 8, messageKey) == Splice(was, 0, id + messageKey + cipher)
  {
    var whole := Splice(was, 0, id + Zeros(16) + plain);
    assert Splice(whole, HEADER, cipher) == id + Zeros(16) + cipher + was[HEADER + |plain|..];
  }

  // Encrypts a written packet in place and fills in the message key.
  method SealPacket(suite: Suite, direction: Direction, authKey: AuthKey, authKeyId: u64, m: Message,
      output: array<byte>, total: nat, ghost was: bytes)
    requires EncryptedPacketLength(m) == Ok(total) && total <= output.Length == |was|
    requires |m.body| < 0x1_0000_0000
    requires output[..] == Splice(was, 0, Le64(authKeyId) + Zeros(16) + InnerText(m))
    modifies output
    ensures output[..] == Splice(was, 0, PacketText(suite, direction, authKey, authKeyId, m))
  {
    assert IsBlockData(total - HEADER) && total - HEADER == |InnerText(m)|;
    hide InnerText, Sealed, Splice, Le64, EncryptedPacketLength;
    ghost var plain := InnerText(m);
    ghost var (key, cipher) := Sealed(suite, direction, authKey, plain);
    SealedInPlace(was, Le64(authKeyId), key, plain, cipher);
    var sealed := Seal(suite, direction, authKey, output, HEADER, total);
    Store(output, 8, sealed.value);
  }

  method EncodeEncrypted(suite: Suite, direction: Direction, authKey: AuthKey, authKeyId: u64, m: Message,
      output: array<byte>)
    returns (r: Result<nat>)
    modifies output
    ensures r.Ok? <==> |m.body| % 4 == 0 && 12 <= |m.padding| <= 1024 && (|m.body| + |m.padding|) % 16 == 0
                       && |m.body| < 0x1_0000_0000 && 56 + |m.body| + |m.padding| <= output.Length
    ensures match EncryptedPacketLength(m)
            case Err(kind) => r == Err(kind) && output[..] == old(output[..])
            case Ok(total) =>
              if output.Length < total then r == Err(OutputTooSmall) && output[..] == old(output[..])
              else if |m.body| >= 0x1_0000_0000
              then r == Err(InvalidLength) && output[..] == Splice(old(output[..]), 0, PacketStart(authKeyId, m))
              else (r == Ok(total)
                && output[..] == Splice(old(output[..]), 0, PacketText(suite, direction, authKey, authKeyId, m)))
  {
    hide Splice, Le64, PacketText, PacketStart, InnerText;
    var total :- EncryptedPacketLength(m);
    if output.Length < total {
      return Err(OutputTooSmall);
    }
    var _ :- WritePacket(authKeyId, m, output);
    SealPacket(suite, direction, authKey, authKeyId, m, output, total, old(output[..]));
    return Ok(total);
  }
}
