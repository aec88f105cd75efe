/**
 The handshake against an honest server: a server that holds the private key, decrypts what the
 client sends and answers as the protocol prescribes.  Both sides end with the same key.
 */
module KeyAgreement {
  import opened Outcomes
  import opened Bytes
  import opened Primitives
  import opened AesIge
  import opened NumberTheory
  import opened RsaPad
  import opened C = TlCodec
  import opened HandshakeMessages
  import opened Factoring
  import opened SessionCrypto
  import opened Handshake

  datatype Server = Server(
    params: Params,
    privateOperation: nat -> nat,
    serverNonce: Nonce,
    pq: bytes,
    fingerprints: seq<u64>,
    g: i32,
    secret: nat,
    serverTime: i32
  ) {
    ghost predicate Honest() {
      && params.Valid()
      && InvertsPublicOperation(privateOperation, params.rsaModulus)
      && 1 <= |pq| <= 8
      && |fingerprints| <= MAX_FINGERPRINTS && FINGERPRINT in fingerprints
      && 2 <= g <= 7 && Pow(2, 1984) <= ModPow(g, secret, params.dhPrime) <= params.dhPrime - Pow(2, 1984)
    }

    function PublicValue(): (r: bytes)
      requires params.dhPrime > 0 && g >= 0
      ensures |r| == 256
    {
      Be(ModPow(g, secret, params.dhPrime), 256)
    }
  }

  // ----- what the server does ---------------------------------------------------------------------

  function ReadReqPq(s: bytes): Result<Nonce> {
    var s :- Expect(s, REQ_PQ_MULTI);
    var (nonce, s) :- C.Take(s, 16);
    var _ :- C.Finish(s);
    Ok(nonce)
  }

  function ServerResPq(server: Server, nonce: Nonce): bytes
    requires |server.pq| <= 8 && |server.fingerprints| <= MAX_FINGERPRINTS
  {
    ResPqText(nonce, server.serverNonce, server.pq, server.fingerprints)
  }

  function ReadReqDh(s: bytes, nonce: Nonce, serverNonce: Nonce): Result<(bytes, bytes, bytes)> {
    var s :- Expect(s, REQ_DH_PARAMS);
    var s :- ExpectNonce(s, nonce);
    var s :- ExpectNonce(s, serverNonce);
    var (p, s) :- ReadBytes(s);
    var (q, s) :- ReadBytes(s);
    var (fingerprint, s) :- ReadU64(s);
    var (encrypted, s) :- ReadBytes(s);
    var _ :- C.Finish(s);
    if fingerprint == FINGERPRINT then Ok((p, q, encrypted)) else Err(Authentication)
  }

  // The new nonce inside the decrypted request; the padding behind it is ignored.
  function ReadPqInner(s: bytes, pq: bytes, p: bytes, q: bytes, nonce: Nonce, serverNonce: Nonce): Result<NewNonce> {
    var s :- Expect(s, PQ_INNER_DATA_DC);
    var (pq', s) :- ReadBytes(s);
    var (p', s) :- ReadBytes(s);
    var (q', s) :- ReadBytes(s);
    var s :- ExpectNonce(s, nonce);
    var s :- ExpectNonce(s, serverNonce);
    var (newNonce, s) :- C.Take(s, 32);
    var (dcId, s) :- ReadI32(s);
    if (pq', p', q') == (pq, p, q) then Ok(newNonce) else Err(Authentication)
  }

  // The server takes only a true factorisation of its number into ascending factors.
  function ServerReadsRequest(suite: Suite, server: Server, nonce: Nonce, text: bytes): Result<NewNonce> {
    var (p, q, encrypted) :- ReadReqDh(text, nonce, server.serverNonce);
    if BeValue(p) * BeValue(q) != BeValue(server.pq) || BeValue(p) > BeValue(q) then Err(InvalidPacket)
    else match KeyHolderReads(suite, server.privateOperation, encrypted)
      case None => Err(Authentication)
      case Some(padded) => ReadPqInner(padded, server.pq, p, q, nonce, server.serverNonce)
  }

  const SERVER_PADDING: nat := 8

  function ServerInner(server: Server, nonce: Nonce): bytes
    requires server.params.dhPrime > 0 && server.g >= 0
  {
    DhInnerText(nonce, server.serverNonce,
      DhInner(server.g, Be(server.params.dhPrime, 256), server.PublicValue(), server.serverTime))
  }

  function ServerAnswer(suite: Suite, server: Server, nonce: Nonce, newNonce: NewNonce, padding: bytes): bytes
    requires server.params.dhPrime > 0 && server.g >= 0 && |padding| == SERVER_PADDING
  {
    var material := TemporaryAes(suite, newNonce, server.serverNonce);
    ServerInnerLength(server, nonce);
    ServerDhText(nonce, server.serverNonce,
      IgeEncrypt(suite, material.key, material.iv, WithHash(suite, ServerInner(server, nonce)) + padding))
  }

  lemma ServerInnerLength(server: Server, nonce: Nonce)
    requires server.params.dhPrime > 0 && server.g >= 0
    ensures |ServerInner(server, nonce)| == 564
  {
    LongBytesLength(Be(server.params.dhPrime, 256));
    LongBytesLength(server.PublicValue());
    hide EncodeBytes, Le32, Be, ModPow;
  }

  lemma LongBytesLength(b: bytes)
    requires |b| == 256
    ensures |EncodeBytes(b)| == 260
  {
  }

  function ReadClientInner(s: bytes, nonce: Nonce, serverNonce: Nonce): (r: Reading<bytes>)
    ensures r.Ok? ==> |r.value.1| <= |s|
  {
    hide Expect, ExpectNonce, ReadI64, ReadBytes;
    var s :- Expect(s, CLIENT_DH_INNER_DATA);
    var s :- ExpectNonce(s, nonce);
    var s :- ExpectNonce(s, serverNonce);
    var (retry, s) :- ReadI64(s);
    ReadBytes(s)
  }

  function ReadSetClientDh(s: bytes, nonce: Nonce, serverNonce: Nonce): Result<bytes> {
    var s :- Expect(s, SET_CLIENT_DH_PARAMS);
    var s :- ExpectNonce(s, nonce);
    var s :- ExpectNonce(s, serverNonce);
    var (encrypted, s) :- ReadBytes(s);
    var _ :- C.Finish(s);
    Ok(encrypted)
  }

  // The client's public value, if the hash in front of it is right.
  function ServerReadsPublicValue(suite: Suite, server: Server, nonce: Nonce, newNonce: NewNonce,
        text: bytes): Result<bytes> {
    var encrypted :- ReadSetClientDh(text, nonce, server.serverNonce);
    if |encrypted| < 32 || |encrypted| % 16 != 0 then Err(InvalidLength)
    else
      var material := TemporaryAes(suite, newNonce, server.serverNonce);
      var plain := IgeDecrypt(suite, material.key, material.iv, encrypted);
      var (gb, rest) :- ReadClientInner(plain[20..], nonce, server.serverNonce);
      if Sha1(suite, plain[20..|plain| - |rest|]) != plain[..20] then Err(Authentication) else Ok(gb)
  }

  function ServerKey(server: Server, gb: bytes): AuthKey
    requires server.params.dhPrime > 0
  {
    Be(ModPow(BeValue(gb), server.secret, server.params.dhPrime), 256)
  }

  function ServerConfirmation(suite: Suite, server: Server, nonce: Nonce, newNonce: NewNonce, key: AuthKey): bytes {
    DhGenOkText(nonce, server.serverNonce, Sha1(suite, newNonce + [1] + Sha1(suite, key)[..8])[4..20])
  }

  function ServerMaterial(suite: Suite, server: Server, newNonce: NewNonce, key: AuthKey): KeyMaterial {
    KeyMaterial(key, U64Of(Sha1(suite, key)[12..20]), U64Of(Xor(newNonce[..8], server.serverNonce[..8])), server.serverTime)
  }

  // ----- the server reads what the client writes -----------------------------------------------------

  lemma ReqDhIsRead(nonce: Nonce, serverNonce: Nonce, p: u32, q: u32, encrypted: bytes)
    requires |encrypted| == 256
    ensures ReadReqDh(ReqDhText(nonce, serverNonce, p, q, encrypted), nonce, serverNonce)
         == Ok((Be(p, 4), Be(q, 4), encrypted))
  {
    hide Le32, Le64, EncodeBytes, ReadBytes, ReadU64, Expect, ExpectNonce, Be;
    var s5 := Le64(FINGERPRINT) + EncodeBytes(encrypted);
    var s4 := EncodeBytes(Be(q, 4)) + s5;
    var s3 := EncodeBytes(Be(p, 4)) + s4;
    var s2 := serverNonce + s3;
    assert ReqDhText(nonce, serverNonce, p, q, encrypted) == Le32(REQ_DH_PARAMS) + (nonce + s2);
    ExpectAfterWrite(REQ_DH_PARAMS, nonce + s2);
    ExpectNonceAfterWrite(nonce, s2);
    ExpectNonceAfterWrite(serverNonce, s3);
    ReadBytesAfterWrite(Be(p, 4), s4);
    ReadBytesAfterWrite(Be(q, 4), s5);
    ReadU64AfterWrite(FINGERPRINT, EncodeBytes(encrypted));
    ReadBytesAfterWrite(encrypted, []);
    assert EncodeBytes(encrypted) + [] == EncodeBytes(encrypted);
  }

  lemma PqInnerIsRead(pq: bytes, p: u32, q: u32, nonce: Nonce, serverNonce: Nonce, newNonce: NewNonce, dcId: i32,
        rest: bytes)
    requires |pq| <= 8
    ensures ReadPqInner(PqInnerText(pq, p, q, nonce, serverNonce, newNonce, dcId) + rest, pq, Be(p, 4), Be(q, 4), nonce, serverNonce)
         == Ok(newNonce)
  {
    hide Le32, EncodeI32, EncodeBytes, ReadBytes, ReadI32, Expect, ExpectNonce, Be, C.Take;
    var s6 := newNonce + (EncodeI32(dcId) + rest);
    var s5 := nonce + (serverNonce + s6);
    var s3 := EncodeBytes(Be(p, 4)) + (EncodeBytes(Be(q, 4)) + s5);
    assert PqInnerText(pq, p, q, nonce, serverNonce, newNonce, dcId) + rest == Le32(PQ_INNER_DATA_DC) + (EncodeBytes(pq) + s3);
    ExpectAfterWrite(PQ_INNER_DATA_DC, EncodeBytes(pq) + s3);
    ReadBytesAfterWrite(pq, s3);
    ReadBytesAfterWrite(Be(p, 4), EncodeBytes(Be(q, 4)) + s5);
    ReadBytesAfterWrite(Be(q, 4), s5);
    ExpectNonceAfterWrite(nonce, serverNonce + s6);
    ExpectNonceAfterWrite(serverNonce, s6);
    TakePrefix(newNonce, EncodeI32(dcId) + rest);
    ReadI32AfterWrite(dcId, rest);
  }

  lemma ClientInnerIsRead(nonce: Nonce, serverNonce: Nonce, gb: bytes, rest: bytes)
    requires |gb| == 256
    ensures ReadClientInner(ClientInnerText(nonce, serverNonce, gb) + rest, nonce, serverNonce) == Ok((gb, rest))
  {
    hide Le32, EncodeI64, EncodeBytes, ReadBytes, ReadI64, Expect, ExpectNonce;
    var s3 := EncodeI64(0) + (EncodeBytes(gb) + rest);
    assert ClientInnerText(nonce, serverNonce, gb) + rest == Le32(CLIENT_DH_INNER_DATA) + (nonce + (serverNonce + s3));
    ExpectAfterWrite(CLIENT_DH_INNER_DATA, nonce + (serverNonce + s3));
    ExpectNonceAfterWrite(nonce, serverNonce + s3);
    ExpectNonceAfterWrite(serverNonce, s3);
    ReadI64AfterWrite(0, EncodeBytes(gb) + rest);
    ReadBytesAfterWrite(gb, rest);
  }

  lemma SetClientDhIsRead(nonce: Nonce, serverNonce: Nonce, encrypted: bytes)
    requires |encrypted| <= MAX_BYTES_LENGTH
    ensures ReadSetClientDh(SetClientDhText(nonce, serverNonce, encrypted), nonce, serverNonce) == Ok(encrypted)
  {
    hide Le32, EncodeBytes, ReadBytes, Expect, ExpectNonce;
    var s2 := serverNonce + EncodeBytes(encrypted);
    assert SetClientDhText(nonce, serverNonce, encrypted) == Le32(SET_CLIENT_DH_PARAMS) + (nonce + s2);
    ExpectAfterWrite(SET_CLIENT_DH_PARAMS, nonce + s2);
    ExpectNonceAfterWrite(nonce, s2);
    ExpectNonceAfterWrite(serverNonce, EncodeBytes(encrypted));
    ReadBytesAfterWrite(encrypted, []);
    assert EncodeBytes(encrypted) + [] == EncodeBytes(encrypted);
  }

  lemma ReqPqIsRead(nonce: Nonce)
    ensures ReadReqPq(ReqPqText(nonce)) == Ok(nonce)
  {
    hide Le32, Expect;
    ExpectAfterWrite(REQ_PQ_MULTI, nonce);
    TakePrefix(nonce, []);
    assert nonce + [] == nonce;
  }

  // ----- first exchange ----------------------------------------------------------------------------------

  // The client gets past every check on the server's first message.
  lemma ClientTakesResPq(suite: Suite, server: Server, h: State, factors: (u32, u32), tape: bytes,
        failure: ErrorKind, capacity: nat)
    requires server.Honest() && h.phase == 0
    ensures AfterResPq(suite, server.params, h, ServerResPq(server, h.nonce), Ok(factors), tape, failure, capacity)
         == Requested(suite, server.params, h.(serverNonce := server.serverNonce), server.pq, factors, tape, failure, capacity)
    ensures BeValue(server.pq) < 0x1_0000_0000_0000_0000
    ensures Offered(h.nonce, ServerResPq(server, h.nonce)) == Some(BeValue(server.pq))
  {
    hide ReadResPqHead, ReadResPqTail, Requested, ResPqText, BeValue, InvertsPublicOperation, Pow, ModPow;
    ResPqIsRead(h.nonce, server.serverNonce, server.pq, server.fingerprints);
    ShortValue(server.pq);
  }

  // The client's answer has one length, whatever is in it.
  lemma ReqDhLength(nonce: Nonce, serverNonce: Nonce, p: u32, q: u32, encrypted: bytes)
    requires |encrypted| == 256
    ensures |ReqDhText(nonce, serverNonce, p, q, encrypted)| == 320
  {
    LongBytesLength(encrypted);
    hide EncodeBytes, HeadText, FactorsText, Le64;
  }

  // The number was factored, some candidate was below the modulus, and there is room for the answer.
  ghost predicate CanRequest(suite: Suite, server: Server, h: State, factors: Result<(u32, u32)>, tape: bytes,
      failure: ErrorKind, capacity: nat)
    requires server.params.rsaModulus > 0 && |server.pq| <= 8
  {
    && factors.Ok?
    && |RequestInner(server, h, factors.value)| <= 144
    && SomeFits(suite, server.params.rsaModulus, RequestInner(server, h, factors.value), tape)
    && 320 <= capacity
  }

  function RequestInner(server: Server, h: State, factors: (u32, u32)): bytes
    requires |server.pq| <= 8
  {
    PqInnerText(server.pq, factors.0, factors.1, h.nonce, server.serverNonce, h.newNonce, h.dcId)
  }

  // The entropy that the padding leaves.
  function LeftAfterRequest(suite: Suite, server: Server, h: State, factors: Result<(u32, u32)>, tape: bytes,
      failure: ErrorKind): bytes
    requires server.params.rsaModulus > 0 && |server.pq| <= 8
  {
    if factors.Err? then tape
    else Padded(suite, server.params.rsaModulus, RequestInner(server, h, factors.value), tape, failure).1
  }

  // The client answers exactly when it can, and then has drawn what the padding used.
  lemma ClientAnswersWhenItCan(suite: Suite, server: Server, h: State, factors: Result<(u32, u32)>, tape: bytes,
      failure: ErrorKind, capacity: nat)
    requires server.Honest() && h.phase == 0
    ensures var o := AfterResPq(suite, server.params, h, ServerResPq(server, h.nonce), factors, tape, failure, capacity);
      && (o.answer.Ok? <==> CanRequest(suite, server, h, factors, tape, failure, capacity))
      && (o.answer.Ok? ==> o.tape == LeftAfterRequest(suite, server, h, factors, tape, failure))
  {
    hide ReadResPqHead, ReadResPqTail, ResPqText, BeValue, InvertsPublicOperation, Pow, ModPow, Padded, PqInnerText, ReqDhText, SomeFits;
    ResPqIsRead(h.nonce, server.serverNonce, server.pq, server.fingerprints);
    if factors.Ok? {
      var (p, q) := factors.value;
      var block := Padded(suite, server.params.rsaModulus, RequestInner(server, h, factors.value), tape, failure).0;
      PaddingSucceedsExactly(suite, server.params.rsaModulus, RequestInner(server, h, factors.value), tape, failure);
      if block.Ok? {
        ReqDhLength(h.nonce, server.serverNonce, p, q, block.value);
      }
    }
  }

  // The answer tells the server the client's new nonce.
  lemma NewNonceReachesServer(suite: Suite, server: Server, h: State, factors: (u32, u32), tape: bytes,
        failure: ErrorKind, capacity: nat)
    requires server.Honest() && h.serverNonce == server.serverNonce
    requires factors.0 * factors.1 == BeValue(server.pq) && factors.0 <= factors.1
    requires Requested(suite, server.params, h, server.pq, factors, tape, failure, capacity).answer.Ok?
    ensures var o := Requested(suite, server.params, h, server.pq, factors, tape, failure, capacity);
      ServerReadsRequest(suite, server, h.nonce, o.answer.value) == Ok(h.newNonce)
  {
    hide Padded, PqInnerText, ReqDhText, KeyHolderReads, ReadPqInner, ReadReqDh, BeValue, Be, Pow, InvertsPublicOperation, ModPow;
    var (p, q) := factors;
    var inner := PqInnerText(server.pq, p, q, h.nonce, h.serverNonce, h.newNonce, h.dcId);
    var block := Padded(suite, server.params.rsaModulus, inner, tape, failure).0.value;
    ReqDhIsRead(h.nonce, h.serverNonce, p, q, block);
    FourBytes(p);
    FourBytes(q);
    KeyHolderRecoversData(suite, server.privateOperation, server.params.rsaModulus, inner, tape, failure);
    PqInnerIsRead(server.pq, p, q, h.nonce, h.serverNonce, h.newNonce, h.dcId, tape[..PADDED - |inner|]);
  }

  lemma FourBytes(x: u32)
    ensures BeValue(Be(x, 4)) == x
  {
    assert Pow(256, 4) == 0x1_0000_0000;
    BeRoundTrip(x, 4);
  }

  // ----- second exchange ---------------------------------------------------------------------------------

  // What the client stores when it accepts the server's answer.
  function Informed(server: Server, h: State): State
    requires server.params.dhPrime > 0 && server.g >= 0
  {
    h.(serverTime := server.serverTime, dhPrime := Be(server.params.dhPrime, 256), gA := server.PublicValue())
  }

  lemma ResidueFits(server: Server, x: nat)
    requires server.params.Valid() && x < server.params.dhPrime
    ensures BeValue(Be(x, 256)) == x
  {
    hide Be, BeValue;
    BeRoundTrip(x, 256);
  }

  lemma AnswerDecrypts(suite: Suite, material: Material, text: bytes, padding: bytes)
    ensures var plain := IgeDecrypt(suite, material.key, material.iv, IgeEncrypt(suite, material.key, material.iv, WithHash(suite, text) + padding));
      && plain == WithHash(suite, text) + padding
      && |plain| == 20 + |text| + |padding|
      && plain[20..] == text + padding
      && plain[20..|plain| - |padding|] == text
      && plain[..20] == Sha1(suite, text)
  {
    hide IgeEncrypt, IgeDecrypt;
    IgeInverse(suite, material.key, material.iv, WithHash(suite, text) + padding);
  }

  lemma ServerAnswerPasses(suite: Suite, server: Server, plain: bytes, text: bytes, d: DhInner, padding: bytes)
    requires server.Honest() && |padding| <= 15
    requires plain == WithHash(suite, text) + padding
    requires d == DhInner(server.g, Be(server.params.dhPrime, 256), server.PublicValue(), server.serverTime)
    ensures CheckDhInner(suite, server.params, plain, d, |padding|) == Ok(())
  {
    hide Be, BeValue, ModPow, InvertsPublicOperation, Sha1, InRange, Pow;
    RangeInNumerals(server.params, ModPow(server.g, server.secret, server.params.dhPrime));
    assert plain[20..|plain| - |padding|] == text && plain[..20] == Sha1(suite, text);
    ResidueFits(server, ModPow(server.g, server.secret, server.params.dhPrime));
  }

  // The client gets past every check on the server's second message.
  lemma ClientTakesServerAnswer(suite: Suite, server: Server, h: State, padding: bytes, tape: bytes,
        failure: ErrorKind, capacity: nat)
    requires server.Honest() && h.phase == 1 && h.serverNonce == server.serverNonce && |padding| == SERVER_PADDING
    ensures AfterServerDh(suite, server.params, h, ServerAnswer(suite, server, h.nonce, h.newNonce, padding), tape, failure, capacity)
         == Agreed(suite, server.params, Informed(server, h), server.g, tape, failure, capacity)
  {
    hide ReadServerDh, ReadDhInner, CheckDhInner, TemporaryAes, IgeEncrypt, IgeDecrypt, Agreed, WithHash, DhInnerText;
    hide ServerDhText, Server.PublicValue, Be, ModPow, InvertsPublicOperation, InRange, Pow;
    var material := TemporaryAes(suite, h.newNonce, h.serverNonce);
    var inner := ServerInner(server, h.nonce);
    ServerInnerLength(server, h.nonce);
    assert |WithHash(suite, inner)| == 584 by {
      WithHashLength(suite, inner);
    }
    var encrypted := IgeEncrypt(suite, material.key, material.iv, WithHash(suite, inner) + padding);
    ServerDhIsRead(h.nonce, h.serverNonce, encrypted);
    AnswerDecrypts(suite, material, inner, padding);
    var d := DhInner(server.g, Be(server.params.dhPrime, 256), server.PublicValue(), server.serverTime);
    DhInnerIsRead(h.nonce, h.serverNonce, d, padding);
    ServerAnswerPasses(suite, server, WithHash(suite, inner) + padding, inner, d, padding);
  }

  lemma WithHashLength(suite: Suite, text: bytes)
    ensures |WithHash(suite, text)| == 20 + |text|
  {
  }

  lemma PublicValueReachesServer(suite: Suite, server: Server, h: State, gb: nat, padding: bytes)
    requires h.serverNonce == server.serverNonce && |padding| == CLIENT_PADDING
    ensures ServerReadsPublicValue(suite, server, h.nonce, h.newNonce, ClientText(suite, h, gb, padding)) == Ok(Be(gb, 256))
  {
    hide ReadSetClientDh, ReadClientInner, TemporaryAes, IgeEncrypt, IgeDecrypt, WithHash, ClientInnerText, SetClientDhText, Be;
    var material := TemporaryAes(suite, h.newNonce, h.serverNonce);
    var inner := ClientInnerText(h.nonce, h.serverNonce, Be(gb, 256));
    ClientInnerLength(h.nonce, h.serverNonce, Be(gb, 256));
    WithHashLength(suite, inner);
    AnswerDecrypts(suite, material, inner, padding);
    var sealed := IgeEncrypt(suite, material.key, material.iv, WithHash(suite, inner) + padding);
    SetClientDhIsRead(h.nonce, h.serverNonce, sealed);
    ClientInnerIsRead(h.nonce, h.serverNonce, Be(gb, 256), padding);
  }

  // Raising either side's public value to the other side's secret gives the same number.
  lemma SecretsCommute(g: nat, a: nat, b: nat, p: nat)
    requires p > 0
    ensures ModPow(ModPow(g, a, p), b, p) == ModPow(g, a * b, p) == ModPow(ModPow(g, b, p), a, p)
  {
    hide ModPow;
    ModPowOfModPow(g, a, b, p);
    ModPowOfModPow(g, b, a, p);
    assert a * b == b * a;
  }

  // The message length does not depend on what is in it.
  lemma ClientTextLength(suite: Suite, h: State, gb: nat, padding: bytes)
    requires |padding| == CLIENT_PADDING
    ensures |ClientText(suite, h, gb, padding)| == 376
  {
    hide IgeEncrypt, TemporaryAes, ClientInnerText, WithHash, HeadText, EncodeBytes, Be;
    var inner := ClientInnerText(h.nonce, h.serverNonce, Be(gb, 256));
    ClientInnerLength(h.nonce, h.serverNonce, Be(gb, 256));
    WithHashLength(suite, inner);
    var material := TemporaryAes(suite, h.newNonce, h.serverNonce);
    EncryptedLength(IgeEncrypt(suite, material.key, material.iv, WithHash(suite, inner) + padding));
  }

  // Enough entropy, a public value of the client in range, and room for its message.
  predicate CanAgree(server: Server, tape: bytes, capacity: nat)
    requires server.params.dhPrime > 0 && server.g >= 0
  {
    && 268 <= |tape|
    && Pow(2, 1984) <= ModPow(server.g, BeValue(tape[..256]), server.params.dhPrime) <= server.params.dhPrime - Pow(2, 1984)
    && 376 <= capacity
  }

  // From the client's message the server computes the key the client stored, g to both secrets.
  predicate SharesKey(suite: Suite, server: Server, before: State, after: State, text: bytes, secret: bytes)
    requires server.params.dhPrime > 0 && server.g >= 0
  {
    && after == before.(authKey := after.authKey, phase := before.phase + 1)
    && after.authKey == Be(ModPow(server.g, server.secret * BeValue(secret), server.params.dhPrime), 256)
    && match ServerReadsPublicValue(suite, server, before.nonce, before.newNonce, text)
       case Ok(gb) => after.authKey == ServerKey(server, gb)
       case Err(_) => false
  }

  lemma BothSidesAgree(suite: Suite, server: Server, h: State, tape: bytes, failure: ErrorKind, capacity: nat)
    requires server.Honest() && h == Informed(server, h) && h.serverNonce == server.serverNonce
    ensures var o := Agreed(suite, server.params, h, server.g, tape, failure, capacity);
      && (o.answer.Ok? <==> CanAgree(server, tape, capacity))
      && (o.answer.Ok? ==> SharesKey(suite, server, h, o.after, o.answer.value, tape[..256]))
  {
    hide ClientText, ServerReadsPublicValue, ModPow, BeValue, Be, InRange, InvertsPublicOperation, Pow;
    if 256 + CLIENT_PADDING <= |tape| {
      var a, b, p := server.secret, BeValue(tape[..256]), server.params.dhPrime;
      var gb := ModPow(server.g, b, p);
      var padding := tape[256..][..CLIENT_PADDING];
      RangeInNumerals(server.params, gb);
      ResidueFits(server, ModPow(server.g, a, p));
      ResidueFits(server, gb);
      SecretsCommute(server.g, a, b, p);
      var h' := h.(authKey := Be(ModPow(BeValue(h.gA), b, p), 256));
      ClientTextLength(suite, h', gb, padding);
      PublicValueReachesServer(suite, server, h', gb, padding);
    }
  }

  // ----- third exchange ------------------------------------------------------------------------------------

  lemma ClientTakesConfirmation(suite: Suite, server: Server, h: State)
    requires h.phase == 2 && h.serverNonce == server.serverNonce && h.serverTime == server.serverTime
    ensures AfterDhGen(suite, h, ServerConfirmation(suite, server, h.nonce, h.newNonce, h.authKey)).0
         == Ok(ServerMaterial(suite, server, h.newNonce, h.authKey))
  {
    hide ReadDhGen, DhGenOkText, Sha1, U64Of, Xor;
    DhGenOkIsRead(h.nonce, h.serverNonce, Sha1(suite, h.newNonce + [1] + Sha1(suite, h.authKey)[..8])[4..20]);
  }

  // ----- the whole run ---------------------------------------------------------------------------------------

  // What both sides hold at the end: the client first, the server second.
  type Keys = (KeyMaterial, KeyMaterial)

  function SecondExchange(suite: Suite, server: Server, h: State, newNonce: NewNonce, padding: bytes,
      tape: bytes, failure: ErrorKind, capacity: nat): Result<Keys>
    requires server.params.dhPrime > 0 && server.g >= 0 && |padding| == SERVER_PADDING
  {
    var o := AfterServerDh(suite, server.params, h, ServerAnswer(suite, server, h.nonce, newNonce, padding), tape, failure, capacity);
    var text :- o.answer;
    var gb :- ServerReadsPublicValue(suite, server, h.nonce, newNonce, text);
    var key := ServerKey(server, gb);
    var material :- AfterDhGen(suite, o.after, ServerConfirmation(suite, server, h.nonce, newNonce, key)).0;
    Ok((material, ServerMaterial(suite, server, newNonce, key)))
  }

  function JointRun(suite: Suite, server: Server, h: State, factors: Result<(u32, u32)>, padding: bytes,
      tape: bytes, failure: ErrorKind, capacity: nat, capacity': nat): Result<Keys>
    requires 0 < server.params.rsaModulus && server.params.dhPrime > 0 && server.g >= 0 && |padding| == SERVER_PADDING
    requires |server.pq| <= 8 && |server.fingerprints| <= MAX_FINGERPRINTS
  {
    var nonce :- ReadReqPq(ReqPqText(h.nonce));
    var o := AfterResPq(suite, server.params, h, ServerResPq(server, nonce), factors, tape, failure, capacity);
    var text :- o.answer;
    var newNonce :- ServerReadsRequest(suite, server, nonce, text);
    SecondExchange(suite, server, o.after, newNonce, padding, o.tape, failure, capacity')
  }

  // The same key, key identifier, salt and time, and the key is g to both secrets.
  predicate SameKeys(server: Server, keys: Keys, secret: bytes)
    requires server.params.dhPrime > 0 && server.g >= 0
  {
    && keys.0 == keys.1
    && keys.0.authKey == Be(ModPow(server.g, server.secret * BeValue(secret), server.params.dhPrime), 256)
  }

  lemma SecondExchangeAgrees(suite: Suite, server: Server, h: State, padding: bytes, tape: bytes, failure: ErrorKind,
        capacity: nat)
    requires server.Honest() && h.phase == 1 && h.serverNonce == server.serverNonce && |padding| == SERVER_PADDING
    ensures var run := SecondExchange(suite, server, h, h.newNonce, padding, tape, failure, capacity);
      && (run.Ok? <==> CanAgree(server, tape, capacity))
      && (run.Ok? ==> SameKeys(server, run.value, tape[..256]))
  {
    hide AfterServerDh, AfterDhGen, Agreed, ServerAnswer, ServerConfirmation, ServerMaterial, ServerReadsPublicValue;
    hide ServerKey, Be, ModPow, BeValue, InvertsPublicOperation, InRange, Pow;
    ClientTakesServerAnswer(suite, server, h, padding, tape, failure, capacity);
    var informed := Informed(server, h);
    BothSidesAgree(suite, server, informed, tape, failure, capacity);
    var o := Agreed(suite, server.params, informed, server.g, tape, failure, capacity);
    if o.answer.Ok? {
      ClientTakesConfirmation(suite, server, o.after);
      assert ServerMaterial(suite, server, h.newNonce, o.after.authKey).authKey == o.after.authKey by {
        MaterialHoldsKey(suite, server, h.newNonce, o.after.authKey);
      }
    }
  }

  lemma MaterialHoldsKey(suite: Suite, server: Server, newNonce: NewNonce, key: AuthKey)
    ensures ServerMaterial(suite, server, newNonce, key).authKey == key
  {
    hide U64Of, Sha1, Xor;
  }

  // Against an honest server the handshake succeeds exactly when the number is factored, the padding finds
  // a candidate, the entropy left suffices, the client's public value is in range and both messages fit;
  // then both sides hold the same key material.
  lemma WholeRunAgrees(suite: Suite, server: Server, h: State, factors: Result<(u32, u32)>, padding: bytes,
      tape: bytes, failure: ErrorKind, capacity: nat, capacity': nat)
    requires server.Honest() && h.phase == 0 && |padding| == SERVER_PADDING
    requires FactorsOffered(h.nonce, ServerResPq(server, h.nonce), factors)
    ensures var run := JointRun(suite, server, h, factors, padding, tape, failure, capacity, capacity');
      var left := LeftAfterRequest(suite, server, h, factors, tape, failure);
      && (run.Ok? <==> CanRequest(suite, server, h, factors, tape, failure, capacity) && CanAgree(server, left, capacity'))
      && (run.Ok? ==> SameKeys(server, run.value, left[..256]))
  {
    hide SecondExchange, CanAgree, CanRequest, SameKeys, Requested, ServerReadsRequest, ServerResPq, InvertsPublicOperation;
    hide Pow, ModPow;
    hide Factored, BeValue, InRange, ReadReqPq, ReqPqText, AfterResPq, LeftAfterRequest;
    ReqPqIsRead(h.nonce);
    ClientAnswersWhenItCan(suite, server, h, factors, tape, failure, capacity);
    var first := AfterResPq(suite, server.params, h, ServerResPq(server, h.nonce), factors, tape, failure, capacity);
    if first.answer.Ok? {
      FirstExchange(suite, server, h, factors, tape, failure, capacity);
      SecondExchangeAgrees(suite, server, first.after, padding, first.tape, failure, capacity');
    }
  }

  lemma FirstExchange(suite: Suite, server: Server, h: State, factors: Result<(u32, u32)>, tape: bytes,
        failure: ErrorKind, capacity: nat)
    requires server.Honest() && h.phase == 0
    requires FactorsOffered(h.nonce, ServerResPq(server, h.nonce), factors)
    requires AfterResPq(suite, server.params, h, ServerResPq(server, h.nonce), factors, tape, failure, capacity).answer.Ok?
    ensures var o := AfterResPq(suite, server.params, h, ServerResPq(server, h.nonce), factors, tape, failure, capacity);
      && o.after == h.(serverNonce := server.serverNonce, phase := 1)
      && ServerReadsRequest(suite, server, h.nonce, o.answer.value) == Ok(h.newNonce)
  {
    hide ServerReadsRequest, ServerResPq, InvertsPublicOperation, Pow, ModPow, Padded, ReqDhText, PqInnerText;
    hide Factored, BeValue, InRange, ReadResPqHead, ReadResPqTail;
    ClientTakesResPq(suite, server, h, factors.value, tape, failure, capacity);
    FactorsAreSound(BeValue(server.pq), h.nonce[0], factors.value);
    NewNonceReachesServer(suite, server, h.(serverNonce := server.serverNonce), factors.value, tape, failure, capacity);
  }
}
