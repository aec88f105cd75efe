/**
 What the handshake accepts and sends, byte by byte: every identifier, offset and bound is written out, so
 nothing here depends on how the state machine arranges its checks.
 */
module HandshakeChecks {
  import opened Outcomes
  import opened Bytes
  import opened Primitives
  import opened AesIge
  import opened C = TlCodec
  import opened TlLists
  import opened NumberTheory
  import opened HandshakeMessages
  import opened SessionCrypto
  import opened Handshake

  // ----- readers accept nothing but what is written -----------------------------------------------------------

  lemma ExpectIsCanonical(s: bytes, id: u32)
    requires Expect(s, id).Ok?
    ensures s == Le32(id) + Expect(s, id).value
  {
    hide Le32, ReadU32;
    ReadU32IsCanonical(s);
  }

  lemma ExpectNonceIsCanonical(s: bytes, nonce: Nonce)
    requires ExpectNonce(s, nonce).Ok?
    ensures s == nonce + ExpectNonce(s, nonce).value
  {
  }

  lemma HeadIsCanonical(s: bytes, id: u32, nonce: Nonce, serverNonce: Nonce)
    requires Expect(s, id).Ok? && ExpectNonce(Expect(s, id).value, nonce).Ok?
    requires ExpectNonce(ExpectNonce(Expect(s, id).value, nonce).value, serverNonce).Ok?
    ensures var rest := ExpectNonce(ExpectNonce(Expect(s, id).value, nonce).value, serverNonce).value;
      s == Le32(id) + nonce + serverNonce + rest
  {
    hide Expect, ExpectNonce, Le32;
    ExpectIsCanonical(s, id);
    var s1 := Expect(s, id).value;
    ExpectNonceIsCanonical(s1, nonce);
    var s2 := ExpectNonce(s1, nonce).value;
    ExpectNonceIsCanonical(s2, serverNonce);
    var rest := ExpectNonce(s2, serverNonce).value;
    Regroup(Le32(id), nonce, serverNonce + rest);
    Regroup(Le32(id) + nonce, serverNonce, rest);
  }

  // ----- resPQ ---------------------------------------------------------------------------------------------------

  // The number is one to eight bytes long and the pinned key is among at most eight.
  ghost predicate OffersWith(h: State, input: bytes, serverNonce: Nonce, pq: bytes, fingerprints: seq<u64>) {
    && 1 <= |pq| <= 8 && |fingerprints| <= 8 && 0xb258_98df_208d_2603 in fingerprints
    && input == Le32(0x0516_2463) + h.nonce + serverNonce + EncodeBytes(pq) + Le32(0x1cb5_c415) + Le32(|fingerprints|)
                + ListText(Le64, fingerprints)
  }

  ghost predicate Offers(h: State, input: bytes, serverNonce: Nonce, pq: bytes) {
    exists fingerprints: seq<u64> :: OffersWith(h, input, serverNonce, pq, fingerprints)
  }

  ghost predicate SomethingOffered(h: State, input: bytes, serverNonce: Nonce) {
    exists pq :: Offers(h, input, serverNonce, pq)
  }

  lemma LongsAreCanonical(s: bytes, count: nat)
    requires ReadLongs(s, count).Ok?
    ensures var (xs, rest) := ReadLongs(s, count).value; |xs| == count && s == ListText(Le64, xs) + rest
  {
    hide ListText, ReadList, ReadU64;
    assert Canonical(Le64, ReadU64) by {
      forall s | ReadU64(s).Ok? ensures s == Le64(ReadU64(s).value.0) + ReadU64(s).value.1 {
        ReadU64IsCanonical(s);
      }
    }
    ListIsCanonical(Le64, ReadU64, s, count);
  }

  lemma TailIsCanonical(s: bytes) returns (fingerprints: seq<u64>)
    requires ReadResPqTail(s).Ok?
    ensures |fingerprints| <= 8 && FINGERPRINT in fingerprints
    ensures s == EncodeBytes(ReadResPqTail(s).value) + (Le32(VECTOR) + (Le32(|fingerprints|) + ListText(Le64, fingerprints)))
  {
    hide Le32, EncodeBytes, ReadBytes, Expect, ReadU32, ReadLongs, ListText;
    ReadBytesIsCanonical(s);
    var s1 := ReadBytes(s).value.1;
    ExpectIsCanonical(s1, VECTOR);
    var s2 := Expect(s1, VECTOR).value;
    ReadU32IsCanonical(s2);
    var (count, s3) := ReadU32(s2).value;
    LongsAreCanonical(s3, count);
    fingerprints := ReadLongs(s3, count).value.0;
    assert ListText(Le64, fingerprints) + [] == ListText(Le64, fingerprints);
  }

  // The reader takes exactly such a message.
  lemma OfferIsRead(h: State, input: bytes, serverNonce: Nonce, pq: bytes)
    ensures Offers(h, input, serverNonce, pq)
       <==> var head := ReadResPqHead(input, h.nonce);
            head.Ok? && head.value.0 == serverNonce && ReadResPqTail(head.value.1) == Ok(pq)
  {
    hide ReadResPqHead, ReadResPqTail, Le32, EncodeBytes, ListText, OffersWith;
    var head := ReadResPqHead(input, h.nonce);
    if Offers(h, input, serverNonce, pq) {
      var fingerprints :| OffersWith(h, input, serverNonce, pq, fingerprints);
      OfferText(h, input, serverNonce, pq, fingerprints);
      ResPqIsRead(h.nonce, serverNonce, pq, fingerprints);
    }
    if head.Ok? && head.value.0 == serverNonce && ReadResPqTail(head.value.1) == Ok(pq) {
      ReadOffer(h, input);
    }
  }

  lemma OfferText(h: State, input: bytes, serverNonce: Nonce, pq: bytes, fingerprints: seq<u64>)
    requires OffersWith(h, input, serverNonce, pq, fingerprints)
    ensures 1 <= |pq| <= 8 && |fingerprints| <= MAX_FINGERPRINTS && FINGERPRINT in fingerprints
    ensures input == ResPqText(h.nonce, serverNonce, pq, fingerprints)
  {
    hide Le32, EncodeBytes, ListText;
  }

  lemma ReadOffer(h: State, input: bytes)
    requires var head := ReadResPqHead(input, h.nonce); head.Ok? && ReadResPqTail(head.value.1).Ok?
    ensures var (serverNonce, rest) := ReadResPqHead(input, h.nonce).value;
      Offers(h, input, serverNonce, ReadResPqTail(rest).value)
  {
    hide ReadResPqTail, Le32, EncodeBytes, ListText, Expect, ExpectNonce;
    var (serverNonce, rest) := ReadResPqHead(input, h.nonce).value;
    ExpectIsCanonical(input, RES_PQ);
    ExpectNonceIsCanonical(Expect(input, RES_PQ).value, h.nonce);
    var fingerprints := TailIsCanonical(rest);
    var pq := ReadResPqTail(rest).value;
    var last := Le32(|fingerprints|) + ListText(Le64, fingerprints);
    assert input == Le32(RES_PQ) + (h.nonce + (serverNonce + (EncodeBytes(pq) + (Le32(VECTOR) + last))));
    RegroupFour(Le32(RES_PQ), h.nonce, serverNonce, EncodeBytes(pq) + (Le32(VECTOR) + last));
    RegroupFour(Le32(RES_PQ) + h.nonce + serverNonce, EncodeBytes(pq), Le32(VECTOR), last);
    Regroup(Le32(RES_PQ) + h.nonce + serverNonce + EncodeBytes(pq) + Le32(VECTOR), Le32(|fingerprints|), ListText(Le64, fingerprints));
    assert OffersWith(h, input, serverNonce, pq, fingerprints);
  }

  // The number is passed on to be factored exactly if it is offered so; otherwise the call fails.
  lemma TakesExactlyOffers(suite: Suite, params: Params, h: State, input: bytes, factors: (u32, u32), tape: bytes,
        failure: ErrorKind, capacity: nat)
    requires params.rsaModulus > 0 && h.phase == 0
    ensures forall serverNonce, pq :: Offers(h, input, serverNonce, pq) ==>
      |pq| <= 8 && AfterResPq(suite, params, h, input, Ok(factors), tape, failure, capacity)
                   == Requested(suite, params, h.(serverNonce := serverNonce), pq, factors, tape, failure, capacity)
    ensures (forall serverNonce, pq :: !Offers(h, input, serverNonce, pq)) ==>
      AfterResPq(suite, params, h, input, Ok(factors), tape, failure, capacity).answer.Err?
  {
    hide Offers, ReadResPqHead, ReadResPqTail, Requested;
    forall serverNonce, pq | Offers(h, input, serverNonce, pq)
      ensures |pq| <= 8 && AfterResPq(suite, params, h, input, Ok(factors), tape, failure, capacity)
                           == Requested(suite, params, h.(serverNonce := serverNonce), pq, factors, tape, failure, capacity)
    {
      OfferIsRead(h, input, serverNonce, pq);
    }
    var head := ReadResPqHead(input, h.nonce);
    if head.Ok? && ReadResPqTail(head.value.1).Ok? {
      OfferIsRead(h, input, head.value.0, ReadResPqTail(head.value.1).value);
    }
  }

  // A request that is sent answers an offer.
  lemma RequestFollowsOffer(suite: Suite, params: Params, h: State, input: bytes, factors: Result<(u32, u32)>, tape: bytes,
        failure: ErrorKind, capacity: nat)
    requires params.rsaModulus > 0
    ensures var o := AfterResPq(suite, params, h, input, factors, tape, failure, capacity);
      o.answer.Ok? ==> h.phase == 0 && SomethingOffered(h, input, o.after.serverNonce)
  {
    hide Offers, ReadResPqHead, ReadResPqTail, PqInnerText, ReqDhText;
    if AfterResPq(suite, params, h, input, factors, tape, failure, capacity).answer.Ok? {
      var (serverNonce, rest) := ReadResPqHead(input, h.nonce).value;
      OfferIsRead(h, input, serverNonce, ReadResPqTail(rest).value);
    }
  }

  // ----- what the client sends -----------------------------------------------------------------------------------

  lemma RequestInBytes(nonce: Nonce, serverNonce: Nonce, p: u32, q: u32, block: bytes)
    requires |block| == 256
    ensures ReqPqText(nonce) == Le32(0xbe7e_8ef1) + nonce
    ensures ReqDhText(nonce, serverNonce, p, q, block)
         == Le32(0xd712_e4be) + nonce + serverNonce + EncodeBytes(Be(p, 4)) + EncodeBytes(Be(q, 4))
            + Le64(0xb258_98df_208d_2603) + EncodeBytes(block)
  {
    hide Le32, Le64, EncodeBytes, Be;
    Regroup(Le32(0xd712_e4be) + nonce + serverNonce, EncodeBytes(Be(p, 4)), EncodeBytes(Be(q, 4)));
  }

  lemma InnerRequestInBytes(pq: bytes, p: u32, q: u32, nonce: Nonce, serverNonce: Nonce, newNonce: NewNonce, dcId: i32)
    requires |pq| <= 8
    ensures PqInnerText(pq, p, q, nonce, serverNonce, newNonce, dcId)
         == Le32(0xa9f5_5f95) + EncodeBytes(pq) + EncodeBytes(Be(p, 4)) + EncodeBytes(Be(q, 4))
            + nonce + serverNonce + newNonce + EncodeI32(dcId)
  {
    hide Le32, EncodeBytes, Be;
    var front := Le32(0xa9f5_5f95) + EncodeBytes(pq);
    Regroup(front, EncodeBytes(Be(p, 4)), EncodeBytes(Be(q, 4)));
    var whole := front + FactorsText(p, q);
    RegroupFour(whole, nonce, serverNonce, newNonce + EncodeI32(dcId));
    Regroup(nonce + serverNonce, newNonce, EncodeI32(dcId));
    Regroup(nonce, serverNonce, newNonce + EncodeI32(dcId));
    Regroup(whole + nonce + serverNonce, newNonce, EncodeI32(dcId));
  }

  // The client's public value behind a retry identifier of zero, hashed, filled up and encrypted.
  lemma AnswerInBytes(suite: Suite, h: State, gb: nat, padding: bytes, key: bytes, iv: bytes)
    requires |padding| == 12 && TemporaryKeys(suite, h.newNonce, h.serverNonce, key, iv)
    ensures var inner := Le32(0x6643_b654) + h.nonce + h.serverNonce + Zeros(8) + EncodeBytes(Be(gb, 256));
      var sealed := IgeEncrypt(suite, key, iv, Sha1(suite, inner) + inner + padding);
      |sealed| == 336 && ClientText(suite, h, gb, padding) == Le32(0xf504_5f1f) + h.nonce + h.serverNonce + EncodeBytes(sealed)
  {
    TemporaryKeysOnce(suite, h.newNonce, h.serverNonce, key, iv);
    ZeroLong();
    hide Le32, EncodeBytes, Be, IgeEncrypt, TemporaryKeys, TemporaryAes, EncodeI64, Zeros;
    ClientInnerLength(h.nonce, h.serverNonce, Be(gb, 256));
  }

  lemma ZeroLong()
    ensures EncodeI64(0) == Zeros(8)
  {
  }

  // ----- the temporary key ------------------------------------------------------------------------------------------

  // Key and vector from three hashes of the nonces, byte by byte.
  ghost predicate TemporaryKeys(suite: Suite, newNonce: NewNonce, serverNonce: Nonce, key: bytes, iv: bytes) {
    var a, b, c := Sha1(suite, newNonce + serverNonce), Sha1(suite, serverNonce + newNonce), Sha1(suite, newNonce + newNonce);
    && |key| == 32 && |iv| == 32
    && (forall i :: 0 <= i < 32 ==> key[i] == if i < 20 then a[i] else b[i - 20])
    && (forall i :: 0 <= i < 32 ==> iv[i] == if i < 8 then b[12 + i] else if i < 28 then c[i - 8] else newNonce[i - 28])
  }

  lemma TemporaryKeysOnce(suite: Suite, newNonce: NewNonce, serverNonce: Nonce, key: bytes, iv: bytes)
    ensures TemporaryKeys(suite, newNonce, serverNonce, key, iv)
       <==> |iv| == 32 && Material(key, iv) == TemporaryAes(suite, newNonce, serverNonce)
  {
    hide Sha1;
    var a, b, c := Sha1(suite, newNonce + serverNonce), Sha1(suite, serverNonce + newNonce), Sha1(suite, newNonce + newNonce);
    var key', iv' := a + b[..12], b[12..] + c + newNonce[..4];
    assert TemporaryAes(suite, newNonce, serverNonce) == Material(key', iv');
    assert TemporaryKeys(suite, newNonce, serverNonce, key', iv');
    if TemporaryKeys(suite, newNonce, serverNonce, key, iv) {
      assert forall i :: 0 <= i < 32 ==> key[i] == key'[i] && iv[i] == iv'[i];
      assert key == key' && iv == iv';
    }
  }

  // ----- server_DH_params_ok ---------------------------------------------------------------------------------------

  // A group with a small generator, the pinned prime, and a public value between 2^1984 and the prime less 2^1984.
  ghost predicate GroupIsAcceptable(params: Params, d: DhInner) {
    && 2 <= d.g <= 7 && |d.prime| == 256 && BeValue(d.prime) == params.dhPrime && |d.ga| == 256
    && Pow(2, 1984) <= BeValue(d.ga) <= params.dhPrime - Pow(2, 1984)
  }

  // The group and public value inside an answer, with its hash in front and at most fifteen bytes behind.
  ghost predicate ProposesWith(suite: Suite, params: Params, h: State, input: bytes, d: DhInner, encrypted: bytes,
      inner: bytes, padding: bytes, key: bytes, iv: Iv)
  {
    && 32 <= |encrypted| <= 1024 && |encrypted| % 16 == 0
    && input == Le32(0xd0e8_075c) + h.nonce + h.serverNonce + EncodeBytes(encrypted)
    && TemporaryKeys(suite, h.newNonce, h.serverNonce, key, iv)
    && encrypted == IgeEncrypt(suite, key, iv, Sha1(suite, inner) + inner + padding) && |padding| <= 15
    && GroupIsAcceptable(params, d)
    && inner == Le32(0xb589_0dba) + h.nonce + h.serverNonce + EncodeI32(d.g) + EncodeBytes(d.prime) + EncodeBytes(d.ga)
                + EncodeI32(d.serverTime)
  }

  ghost predicate Proposes(suite: Suite, params: Params, h: State, input: bytes, d: DhInner) {
    exists encrypted: bytes, inner: bytes, padding: bytes, key: bytes, iv: Iv ::
      ProposesWith(suite, params, h, input, d, encrypted, inner, padding, key, iv)
  }

  lemma ProposalPasses(suite: Suite, params: Params, h: State, input: bytes, d: DhInner, tape: bytes, failure: ErrorKind,
      capacity: nat)
    requires params.Valid() && h.phase == 1 && Proposes(suite, params, h, input, d)
    ensures AfterServerDh(suite, params, h, input, tape, failure, capacity)
         == Agreed(suite, params, h.(serverTime := d.serverTime, dhPrime := d.prime, gA := d.ga), d.g, tape, failure, capacity)
  {
    hide Le32, EncodeI32, EncodeBytes, Be, BeValue, Pow, IgeEncrypt, IgeDecrypt, Sha1, TemporaryKeys, TemporaryAes;
    hide ReadServerDh, ReadDhInner, CheckDhInner, Agreed;
    var encrypted: bytes, inner: bytes, padding: bytes, key: bytes, iv: Iv :|
      ProposesWith(suite, params, h, input, d, encrypted, inner, padding, key, iv);
    TemporaryKeysOnce(suite, h.newNonce, h.serverNonce, key, iv);
    ServerDhIsRead(h.nonce, h.serverNonce, encrypted);
    var whole := Sha1(suite, inner) + inner + padding;
    IgeInverse(suite, key, iv, whole);
    WholeParts(Sha1(suite, inner), inner, padding);
    DhInnerIsRead(h.nonce, h.serverNonce, d, padding);
    ProposalChecks(suite, params, h, input, d, encrypted, inner, padding, key, iv);
  }

  lemma WholeParts(hash: bytes, inner: bytes, padding: bytes)
    requires |hash| == 20
    ensures var whole := hash + inner + padding;
      whole[..20] == hash && whole[20..] == inner + padding && whole[20..|whole| - |padding|] == inner
  {
  }

  lemma ProposalChecks(suite: Suite, params: Params, h: State, input: bytes, d: DhInner, encrypted: bytes,
      inner: bytes, padding: bytes, key: bytes, iv: Iv)
    requires ProposesWith(suite, params, h, input, d, encrypted, inner, padding, key, iv)
    ensures CheckDhInner(suite, params, Sha1(suite, inner) + inner + padding, d, |padding|) == Ok(())
  {
    hide Le32, EncodeI32, EncodeBytes, Be, BeValue, Pow, IgeEncrypt, Sha1, TemporaryKeys, InRange;
    WholeParts(Sha1(suite, inner), inner, padding);
    BeCanonical(d.prime);
    RangeInNumerals(params, BeValue(d.ga));
  }

  // The length is checked first, then the hash, then the group.
  lemma ChecksInOrder(suite: Suite, params: Params, plain: bytes, d: DhInner, left: nat)
    requires params.Valid() && 20 + left <= |plain|
    ensures CheckDhInner(suite, params, plain, d, left)
         == if left > 15 then Err(InvalidLength)
            else if plain[..20] != Sha1(suite, plain[20..|plain| - left]) then Err(Authentication)
            else if !GroupIsAcceptable(params, d) then Err(InvalidPacket)
            else Ok(())
  {
    hide Sha1, Be, BeValue, Pow, InRange;
    RangeInNumerals(params, BeValue(d.ga));
    BeRoundTrip(params.dhPrime, 256);
    if |d.prime| == 256 {
      BeCanonical(d.prime);
    }
  }

  lemma DhInnerIsCanonical(s: bytes, nonce: Nonce, serverNonce: Nonce)
    requires ReadDhInner(s, nonce, serverNonce).Ok?
    ensures var (d, rest) := ReadDhInner(s, nonce, serverNonce).value;
      && |d.prime| <= MAX_BYTES_LENGTH && |d.ga| <= MAX_BYTES_LENGTH
      && s == Le32(0xb589_0dba) + nonce + serverNonce + EncodeI32(d.g) + EncodeBytes(d.prime) + EncodeBytes(d.ga)
              + EncodeI32(d.serverTime) + rest
  {
    hide Le32, EncodeI32, EncodeBytes, ReadBytes, ReadI32, Expect, ExpectNonce;
    HeadIsCanonical(s, SERVER_DH_INNER_DATA, nonce, serverNonce);
    var s3 := ExpectNonce(ExpectNonce(Expect(s, SERVER_DH_INNER_DATA).value, nonce).value, serverNonce).value;
    ReadI32IsCanonical(s3);
    var (g, s4) := ReadI32(s3).value;
    ReadBytesIsCanonical(s4);
    var (prime, s5) := ReadBytes(s4).value;
    ReadBytesIsCanonical(s5);
    var (ga, s6) := ReadBytes(s5).value;
    ReadI32IsCanonical(s6);
    var (time, rest) := ReadI32(s6).value;
    var head := Le32(0xb589_0dba) + nonce + serverNonce;
    RegroupFour(head, EncodeI32(g), EncodeBytes(prime), EncodeBytes(ga) + (EncodeI32(time) + rest));
    RegroupFour(head + EncodeI32(g) + EncodeBytes(prime), EncodeBytes(ga), EncodeI32(time), rest);
  }

  lemma AnswerIsCanonical(input: bytes, nonce: Nonce, serverNonce: Nonce)
    requires ReadServerDh(input, nonce, serverNonce).Ok?
    ensures input == Le32(0xd0e8_075c) + nonce + serverNonce + EncodeBytes(ReadServerDh(input, nonce, serverNonce).value)
  {
    hide Le32, EncodeBytes, ReadBytes, Expect, ExpectNonce;
    HeadIsCanonical(input, SERVER_DH_PARAMS_OK, nonce, serverNonce);
    var s3 := ExpectNonce(ExpectNonce(Expect(input, SERVER_DH_PARAMS_OK).value, nonce).value, serverNonce).value;
    ReadBytesIsCanonical(s3);
    var value := ReadBytes(s3).value.0;
    assert EncodeBytes(value) + [] == EncodeBytes(value);
  }

  // What passes the checks is a proposal.
  lemma PassingIsProposal(suite: Suite, params: Params, h: State, input: bytes)
    requires params.Valid() && ReadServerDh(input, h.nonce, h.serverNonce).Ok?
    requires var material := TemporaryAes(suite, h.newNonce, h.serverNonce);
      var plain := IgeDecrypt(suite, material.key, material.iv, ReadServerDh(input, h.nonce, h.serverNonce).value);
      var inner := ReadDhInner(plain[20..], h.nonce, h.serverNonce);
      inner.Ok? && CheckDhInner(suite, params, plain, inner.value.0, |inner.value.1|).Ok?
    ensures var material := TemporaryAes(suite, h.newNonce, h.serverNonce);
      var plain := IgeDecrypt(suite, material.key, material.iv, ReadServerDh(input, h.nonce, h.serverNonce).value);
      Proposes(suite, params, h, input, ReadDhInner(plain[20..], h.nonce, h.serverNonce).value.0)
  {
    hide Le32, EncodeI32, EncodeBytes, Be, BeValue, Pow, IgeEncrypt, IgeDecrypt, Sha1, TemporaryKeys, TemporaryAes, InRange;
    hide ReadServerDh, ReadDhInner;
    var material := TemporaryAes(suite, h.newNonce, h.serverNonce);
    var encrypted := ReadServerDh(input, h.nonce, h.serverNonce).value;
    var plain := IgeDecrypt(suite, material.key, material.iv, encrypted);
    var (d, rest) := ReadDhInner(plain[20..], h.nonce, h.serverNonce).value;
    var inner := plain[20..|plain| - |rest|];
    AnswerIsCanonical(input, h.nonce, h.serverNonce);
    TemporaryKeysOnce(suite, h.newNonce, h.serverNonce, material.key, material.iv);
    DhInnerIsCanonical(plain[20..], h.nonce, h.serverNonce);
    IgeInverse(suite, material.key, material.iv, encrypted);
    PlainParts(plain, rest, Le32(0xb589_0dba) + h.nonce + h.serverNonce + EncodeI32(d.g) + EncodeBytes(d.prime)
      + EncodeBytes(d.ga) + EncodeI32(d.serverTime));
    BeRoundTrip(params.dhPrime, 256);
    RangeInNumerals(params, BeValue(d.ga));
    assert ProposesWith(suite, params, h, input, d, encrypted, inner, rest, material.key, material.iv);
  }

  lemma PlainParts(plain: bytes, rest: bytes, inner: bytes)
    requires 20 <= |plain| && plain[20..] == inner + rest
    ensures plain[20..|plain| - |rest|] == inner && plain == plain[..20] + inner + rest
  {
    assert plain == plain[..20] + plain[20..];
    assert plain[20..][..|inner|] == inner;
  }

  // The client goes on to agree a key exactly on a proposal; on anything else it fails, and of its fields only
  // the server's time can have changed.
  lemma TakesExactlyProposals(suite: Suite, params: Params, h: State, input: bytes, tape: bytes, failure: ErrorKind,
        capacity: nat)
    requires params.Valid() && h.phase == 1
    ensures forall d :: Proposes(suite, params, h, input, d) ==>
      AfterServerDh(suite, params, h, input, tape, failure, capacity)
      == Agreed(suite, params, h.(serverTime := d.serverTime, dhPrime := d.prime, gA := d.ga), d.g, tape, failure, capacity)
    ensures (forall d :: !Proposes(suite, params, h, input, d)) ==>
      var o := AfterServerDh(suite, params, h, input, tape, failure, capacity);
      o.answer.Err? && o.tape == tape && o.after == h.(serverTime := o.after.serverTime)
  {
    hide ReadServerDh, ReadDhInner, CheckDhInner, TemporaryAes, IgeDecrypt, Agreed, Pow, TemporaryKeys, EncodeBytes, Le32, EncodeI32, BeValue;
    forall d | Proposes(suite, params, h, input, d)
      ensures AfterServerDh(suite, params, h, input, tape, failure, capacity)
           == Agreed(suite, params, h.(serverTime := d.serverTime, dhPrime := d.prime, gA := d.ga), d.g, tape, failure, capacity)
    {
      ProposalPasses(suite, params, h, input, d, tape, failure, capacity);
    }
    if ReadServerDh(input, h.nonce, h.serverNonce).Ok? {
      var material := TemporaryAes(suite, h.newNonce, h.serverNonce);
      var plain := IgeDecrypt(suite, material.key, material.iv, ReadServerDh(input, h.nonce, h.serverNonce).value);
      var inner := ReadDhInner(plain[20..], h.nonce, h.serverNonce);
      if inner.Ok? && CheckDhInner(suite, params, plain, inner.value.0, |inner.value.1|).Ok? {
        PassingIsProposal(suite, params, h, input);
      }
    }
  }

  // ----- the client's answer ---------------------------------------------------------------------------------------

  // Entropy for the secret and the padding, a public value in range, and room for 376 bytes.
  predicate CanAnswer(params: Params, g: nat, tape: bytes, capacity: nat)
    requires params.dhPrime > 0
  {
    && 268 <= |tape| && 376 <= capacity
    && Pow(2, 1984) <= Pow(g, BeValue(tape[..256])) % params.dhPrime <= params.dhPrime - Pow(2, 1984)
  }

  ghost predicate Answerable(suite: Suite, params: Params, h: State, input: bytes, tape: bytes, capacity: nat)
    requires params.dhPrime > 0
  {
    exists d :: Proposes(suite, params, h, input, d) && CanAnswer(params, d.g, tape, capacity)
  }

  lemma AgreesExactly(suite: Suite, params: Params, h: State, g: nat, tape: bytes, failure: ErrorKind, capacity: nat)
    requires params.dhPrime > 0
    ensures var o := Agreed(suite, params, h, g, tape, failure, capacity);
      && (o.answer.Ok? <==> CanAnswer(params, g, tape, capacity))
      && o.after == h.(authKey := o.after.authKey, phase := if o.answer.Ok? then h.phase + 1 else h.phase)
      && (o.answer.Ok? ==>
            && o.after.authKey == Be(Pow(BeValue(h.gA), BeValue(tape[..256])) % params.dhPrime, 256)
            && o.tape == tape[268..]
            && o.answer.value == ClientText(suite, h, Pow(g, BeValue(tape[..256])) % params.dhPrime, tape[256..268]))
  {
    hide ClientText, BeValue, Be, InRange, Pow;
    if 256 <= |tape| {
      RangeInNumerals(params, ModPow(g, BeValue(tape[..256]), params.dhPrime));
      if 268 <= |tape| {
        assert tape[256..][..12] == tape[256..268] && tape[256..][12..] == tape[268..];
        var gb := ModPow(g, BeValue(tape[..256]), params.dhPrime);
        SameClientText(suite, h, h.(authKey := Be(ModPow(BeValue(h.gA), BeValue(tape[..256]), params.dhPrime), 256)), gb, tape[256..268]);
        AnswerLength(suite, h, gb, tape[256..268]);
      }
    }
  }

  lemma SameClientText(suite: Suite, h: State, h': State, gb: nat, padding: bytes)
    requires |padding| == 12 && h' == h.(authKey := h'.authKey)
    ensures ClientText(suite, h', gb, padding) == ClientText(suite, h, gb, padding)
  {
    hide TemporaryAes, IgeEncrypt, ClientInnerText, SetClientDhText, Be, WithHash;
  }

  lemma AnswerLength(suite: Suite, h: State, gb: nat, padding: bytes)
    requires |padding| == 12
    ensures |ClientText(suite, h, gb, padding)| == 376
  {
    var material := TemporaryAes(suite, h.newNonce, h.serverNonce);
    TemporaryKeysOnce(suite, h.newNonce, h.serverNonce, material.key, material.iv);
    AnswerInBytes(suite, h, gb, padding, material.key, material.iv);
    hide ClientText, TemporaryAes, IgeEncrypt, Be, TemporaryKeys, Le32, EncodeBytes;
    var inner := Le32(0x6643_b654) + h.nonce + h.serverNonce + Zeros(8) + EncodeBytes(Be(gb, 256));
    EncryptedLength(IgeEncrypt(suite, material.key, material.iv, Sha1(suite, inner) + inner + padding));
  }

  // The second message is answered exactly when it is a proposal and can be answered.
  lemma AnswersExactlyProposals(suite: Suite, params: Params, h: State, input: bytes, tape: bytes, failure: ErrorKind,
        capacity: nat)
    requires params.Valid() && h.phase == 1
    ensures var o := AfterServerDh(suite, params, h, input, tape, failure, capacity);
      && (o.answer.Ok? <==> Answerable(suite, params, h, input, tape, capacity))
      && (forall d :: Proposes(suite, params, h, input, d) ==>
            o.after.dhPrime == d.prime && o.after.gA == d.ga && o.after.serverTime == d.serverTime)
      && ((forall d :: !Proposes(suite, params, h, input, d)) ==>
            o.tape == tape && o.after == h.(serverTime := o.after.serverTime))
      && (o.answer.Ok? ==> o.after.authKey == Be(Pow(BeValue(o.after.gA), BeValue(tape[..256])) % params.dhPrime, 256))
  {
    hide AfterServerDh, Agreed, BeValue, Be, Pow, TemporaryKeys, EncodeBytes, Le32, EncodeI32, ProposesWith;
    TakesExactlyProposals(suite, params, h, input, tape, failure, capacity);
    forall d | Proposes(suite, params, h, input, d)
      ensures var o := AfterServerDh(suite, params, h, input, tape, failure, capacity);
        && o.after.dhPrime == d.prime && o.after.gA == d.ga && o.after.serverTime == d.serverTime
        && d.g >= 0 && (o.answer.Ok? <==> CanAnswer(params, d.g, tape, capacity))
        && (o.answer.Ok? ==> o.after.authKey == Be(Pow(BeValue(d.ga), BeValue(tape[..256])) % params.dhPrime, 256))
    {
      GeneratorIsSmall(suite, params, h, input, d);
      AgreesExactly(suite, params, h.(serverTime := d.serverTime, dhPrime := d.prime, gA := d.ga), d.g, tape, failure, capacity);
    }
  }

  lemma GeneratorIsSmall(suite: Suite, params: Params, h: State, input: bytes, d: DhInner)
    requires Proposes(suite, params, h, input, d)
    ensures 2 <= d.g <= 7 && |d.ga| == 256 && |d.prime| == 256
  {
    hide BeValue, Pow, TemporaryKeys, EncodeBytes, Le32, EncodeI32, IgeEncrypt;
  }

  // ----- dh_gen_ok -----------------------------------------------------------------------------------------------------

  // The confirmation carries part of a hash over the new nonce, the number one and part of the key's hash.
  ghost predicate Confirms(suite: Suite, h: State, input: bytes) {
    input == Le32(0x3bcb_f734) + h.nonce + h.serverNonce + Sha1(suite, h.newNonce + [1] + Sha1(suite, h.authKey)[..8])[4..20]
  }

  // The identifier is the end of the key's hash, the salt the two nonces combined.
  ghost predicate MaterialOf(suite: Suite, h: State, m: KeyMaterial) {
    && m.authKey == h.authKey && m.serverTime == h.serverTime
    && Le64(m.keyId) == Sha1(suite, h.authKey)[12..20]
    && forall i :: 0 <= i < 8 ==> Le64(m.salt)[i] == XorByte(h.newNonce[i], h.serverNonce[i])
  }

  lemma DhGenIsCanonical(input: bytes, nonce: Nonce, serverNonce: Nonce)
    requires ReadDhGen(input, nonce, serverNonce).Ok?
    ensures input == Le32(0x3bcb_f734) + nonce + serverNonce + ReadDhGen(input, nonce, serverNonce).value
  {
    hide Le32, ReadU32, ExpectNonce;
    ReadU32IsCanonical(input);
    var s1 := ReadU32(input).value.1;
    ExpectNonceIsCanonical(s1, nonce);
    var s2 := ExpectNonce(s1, nonce).value;
    ExpectNonceIsCanonical(s2, serverNonce);
    var s3 := ExpectNonce(s2, serverNonce).value;
    assert s3[..16] == s3;
    RegroupFour(Le32(0x3bcb_f734), nonce, serverNonce, s3);
  }

  lemma FinishesExactlyWhenConfirmed(suite: Suite, h: State, input: bytes)
    requires h.phase == 2
    ensures AfterDhGen(suite, h, input).0.Ok? <==> Confirms(suite, h, input)
    ensures AfterDhGen(suite, h, input).0.Ok? ==> MaterialOf(suite, h, AfterDhGen(suite, h, input).0.value)
    ensures forall hash: Block :: input == Le32(0x3bcb_f734) + h.nonce + h.serverNonce + hash && !Confirms(suite, h, input) ==>
      AfterDhGen(suite, h, input).0 == Err(Authentication)
    ensures forall rest :: input == Le32(0x46dc_1fb9) + rest || input == Le32(0xa69d_ae02) + rest ==>
      AfterDhGen(suite, h, input).0 == Err(Authentication)
  {
    MaterialInBytes(suite, h);
    hide Le32, ReadDhGen, Sha1, KeyId, Salt, MaterialOf;
    var expected := Sha1(suite, h.newNonce + [1] + Sha1(suite, h.authKey)[..8])[4..20];
    DhGenOkIsRead(h.nonce, h.serverNonce, expected);
    if ReadDhGen(input, h.nonce, h.serverNonce).Ok? {
      DhGenIsCanonical(input, h.nonce, h.serverNonce);
    }
    forall hash: Block | input == Le32(0x3bcb_f734) + h.nonce + h.serverNonce + hash
      ensures ReadDhGen(input, h.nonce, h.serverNonce) == Ok(hash)
    {
      DhGenOkIsRead(h.nonce, h.serverNonce, hash);
    }
    forall rest | input == Le32(0x46dc_1fb9) + rest || input == Le32(0xa69d_ae02) + rest
      ensures ReadDhGen(input, h.nonce, h.serverNonce) == Err(Authentication)
    {
      RefusalIsRead(h.nonce, h.serverNonce, rest);
    }
  }

  lemma RefusalIsRead(nonce: Nonce, serverNonce: Nonce, rest: bytes)
    ensures ReadDhGen(Le32(0x46dc_1fb9) + rest, nonce, serverNonce) == Err(Authentication)
    ensures ReadDhGen(Le32(0xa69d_ae02) + rest, nonce, serverNonce) == Err(Authentication)
  {
    hide Le32, ReadU32, ExpectNonce;
    ReadU32AfterWrite(0x46dc_1fb9, rest);
    ReadU32AfterWrite(0xa69d_ae02, rest);
  }

  lemma MaterialInBytes(suite: Suite, h: State)
    ensures MaterialOf(suite, h, KeyMaterial(h.authKey, KeyId(suite, h.authKey), Salt(h.newNonce, h.serverNonce), h.serverTime))
  {
    hide Sha1, XorByte, U64Of, Le64;
    U64Canonical(Sha1(suite, h.authKey)[12..20]);
    U64Canonical(Xor(h.newNonce[..8], h.serverNonce[..8]));
  }
}
