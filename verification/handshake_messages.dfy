/** The texts of the handshake's messages, and the client's readings of those it receives. */
module HandshakeMessages {
  import opened Outcomes
  import opened Bytes
  import opened Primitives
  import opened C = TlCodec
  import opened TlLists

  const REQ_PQ_MULTI: u32 := 0xbe7e_8ef1
  const RES_PQ: u32 := 0x0516_2463
  const PQ_INNER_DATA_DC: u32 := 0xa9f5_5f95
  const REQ_DH_PARAMS: u32 := 0xd712_e4be
  const SERVER_DH_PARAMS_OK: u32 := 0xd0e8_075c
  const SERVER_DH_INNER_DATA: u32 := 0xb589_0dba
  const CLIENT_DH_INNER_DATA: u32 := 0x6643_b654
  const SET_CLIENT_DH_PARAMS: u32 := 0xf504_5f1f
  const DH_GEN_OK: u32 := 0x3bcb_f734
  const DH_GEN_RETRY: u32 := 0x46dc_1fb9
  const DH_GEN_FAIL: u32 := 0xa69d_ae02
  const FINGERPRINT: u64 := 0xb258_98df_208d_2603
  const MAX_FINGERPRINTS: u32 := 8

  type Nonce = Block
  type NewNonce = b: bytes | |b| == 32 witness Zeros(32)

  // ----- reading aids -----------------------------------------------------------------------

  // Consumes sixteen bytes that have to equal the expected nonce.
  function ExpectNonce(s: bytes, expected: Nonce): (r: Result<bytes>)
    ensures r.Ok? ==> |r.value| == |s| - 16
  {
    var (actual, rest) :- C.Take(s, 16);
    if actual == expected then Ok(rest) else Err(Authentication)
  }

  lemma ExpectNonceAfterWrite(nonce: Nonce, rest: bytes)
    ensures ExpectNonce(nonce + rest, nonce) == Ok(rest)
  {
    TakePrefix(nonce, rest);
  }

  function LongsText(values: seq<u64>): bytes {
    ListText(Le64, values)
  }

  function ReadLongs(s: bytes, count: nat): (r: Reading<seq<u64>>)
    ensures r.Ok? ==> |r.value.0| == count
  {
    ReadList(ReadU64, s, count)
  }

  lemma ReadLongsAfterWrite(values: seq<u64>, rest: bytes)
    ensures ReadLongs(LongsText(values) + rest, |values|) == Ok((values, rest))
  {
    assert ReadsBack(Le64, ReadU64) by {
      forall x: u64, tail ensures ReadU64(Le64(x) + tail) == Ok((x, tail)) {
        ReadU64AfterWrite(x, tail);
      }
    }
    ListIsRead(Le64, ReadU64, values, rest);
  }

  // ----- resPQ ------------------------------------------------------------------------------------

  function ResPqText(nonce: Nonce, serverNonce: Nonce, pq: bytes, fingerprints: seq<u64>): bytes
    requires |pq| <= MAX_BYTES_LENGTH && |fingerprints| < 0x1_0000_0000
  {
    Le32(RES_PQ) + nonce + serverNonce + EncodeBytes(pq) + Le32(VECTOR) + Le32(|fingerprints|) + LongsText(fingerprints)
  }

  // The part up to the server's nonce, which is stored before the rest is read.
  function ReadResPqHead(s: bytes, nonce: Nonce): Reading<Nonce> {
    var s :- Expect(s, RES_PQ);
    var s :- ExpectNonce(s, nonce);
    C.Take(s, 16)
  }

  // The rest: the number to factor, provided one of the listed keys is the pinned one.
  function ReadResPqTail(s: bytes): (r: Result<bytes>)
    ensures r.Ok? ==> 1 <= |r.value| <= 8
  {
    var (pq, s) :- ReadBytes(s);
    if !(1 <= |pq| <= 8) then Err(InvalidLength)
    else
      var (count, s) :- ReadVectorLength(s, MAX_FINGERPRINTS);
      var (fingerprints, s) :- ReadLongs(s, count);
      var _ :- C.Finish(s);
      if FINGERPRINT in fingerprints then Ok(pq) else Err(Authentication)
  }

  lemma ResPqIsRead(nonce: Nonce, serverNonce: Nonce, pq: bytes, fingerprints: seq<u64>)
    requires 1 <= |pq| <= 8 && |fingerprints| <= MAX_FINGERPRINTS && FINGERPRINT in fingerprints
    ensures var head := ReadResPqHead(ResPqText(nonce, serverNonce, pq, fingerprints), nonce);
      head.Ok? && head.value.0 == serverNonce && ReadResPqTail(head.value.1) == Ok(pq)
  {
    hide Le32, EncodeBytes, ReadBytes, LongsText, ReadLongs, Expect, ExpectNonce, ReadU32;
    var s4 := Le32(|fingerprints|) + LongsText(fingerprints);
    var s3 := EncodeBytes(pq) + (Le32(VECTOR) + s4);
    var s2 := serverNonce + s3;
    assert ResPqText(nonce, serverNonce, pq, fingerprints) == Le32(RES_PQ) + (nonce + s2);
    ExpectAfterWrite(RES_PQ, nonce + s2);
    ExpectNonceAfterWrite(nonce, s2);
    TakePrefix(serverNonce, s3);
    ReadBytesAfterWrite(pq, Le32(VECTOR) + s4);
    ExpectAfterWrite(VECTOR, s4);
    ReadU32AfterWrite(|fingerprints|, LongsText(fingerprints));
    ReadLongsAfterWrite(fingerprints, []);
    assert LongsText(fingerprints) + [] == LongsText(fingerprints);
  }

  // ----- what the client sends in answer -------------------------------------------------------------

  function HeadText(id: u32, nonce: Nonce, serverNonce: Nonce): (r: bytes)
    ensures |r| == 36
  {
    Le32(id) + nonce + serverNonce
  }

  // Both factors as four big-endian bytes, whatever their size.
  function FactorsText(p: u32, q: u32): (r: bytes)
    ensures |r| == 16
  {
    ShortBytesLength(Be(p, 4));
    ShortBytesLength(Be(q, 4));
    EncodeBytes(Be(p, 4)) + EncodeBytes(Be(q, 4))
  }

  function PartiesText(nonce: Nonce, serverNonce: Nonce, newNonce: NewNonce, dcId: i32): (r: bytes)
    ensures |r| == 68
  {
    nonce + serverNonce + newNonce + EncodeI32(dcId)
  }

  function PqInnerText(pq: bytes, p: u32, q: u32, nonce: Nonce, serverNonce: Nonce, newNonce: NewNonce,
        dcId: i32): bytes
    requires |pq| <= MAX_BYTES_LENGTH
  {
    Le32(PQ_INNER_DATA_DC) + EncodeBytes(pq) + FactorsText(p, q) + PartiesText(nonce, serverNonce, newNonce, dcId)
  }

  lemma PqInnerLength(pq: bytes, p: u32, q: u32, nonce: Nonce, serverNonce: Nonce, newNonce: NewNonce, dcId: i32)
    requires |pq| <= 8
    ensures |PqInnerText(pq, p, q, nonce, serverNonce, newNonce, dcId)| <= 100
  {
    ShortBytesLength(pq);
    hide EncodeBytes, Le32, FactorsText, PartiesText;
  }

  lemma ShortBytesLength(b: bytes)
    requires |b| <= 8
    ensures |EncodeBytes(b)| == 1 + |b| + PaddingLength(1 + |b|)
  {
  }

  function ReqDhText(nonce: Nonce, serverNonce: Nonce, p: u32, q: u32, encrypted: bytes): bytes
    requires |encrypted| <= MAX_BYTES_LENGTH
  {
    HeadText(REQ_DH_PARAMS, nonce, serverNonce) + FactorsText(p, q) + Le64(FINGERPRINT) + EncodeBytes(encrypted)
  }

  // ----- server_DH_params_ok ----------------------------------------------------------------------------

  function ServerDhText(nonce: Nonce, serverNonce: Nonce, encrypted: bytes): bytes
    requires |encrypted| <= MAX_BYTES_LENGTH
  {
    Le32(SERVER_DH_PARAMS_OK) + nonce + serverNonce + EncodeBytes(encrypted)
  }

  function ReadServerDh(s: bytes, nonce: Nonce, serverNonce: Nonce): (r: Result<bytes>)
    ensures r.Ok? ==> 32 <= |r.value| <= 1024 && |r.value| % 16 == 0
  {
    var s :- Expect(s, SERVER_DH_PARAMS_OK);
    var s :- ExpectNonce(s, nonce);
    var s :- ExpectNonce(s, serverNonce);
    var (encrypted, s) :- ReadBytes(s);
    var _ :- C.Finish(s);
    if |encrypted| < 32 || |encrypted| > 1024 || |encrypted| % 16 != 0 then Err(InvalidLength) else Ok(encrypted)
  }

  lemma ServerDhIsRead(nonce: Nonce, serverNonce: Nonce, encrypted: bytes)
    requires 32 <= |encrypted| <= 1024 && |encrypted| % 16 == 0
    ensures ReadServerDh(ServerDhText(nonce, serverNonce, encrypted), nonce, serverNonce) == Ok(encrypted)
  {
    hide Le32, EncodeBytes, ReadBytes, Expect, ExpectNonce;
    var s2 := serverNonce + EncodeBytes(encrypted);
    assert ServerDhText(nonce, serverNonce, encrypted) == Le32(SERVER_DH_PARAMS_OK) + (nonce + s2);
    ExpectAfterWrite(SERVER_DH_PARAMS_OK, nonce + s2);
    ExpectNonceAfterWrite(nonce, s2);
    ExpectNonceAfterWrite(serverNonce, EncodeBytes(encrypted));
    ReadBytesAfterWrite(encrypted, []);
    assert EncodeBytes(encrypted) + [] == EncodeBytes(encrypted);
  }

  datatype DhInner = DhInner(g: i32, prime: bytes, ga: bytes, serverTime: i32)

  function DhInnerText(nonce: Nonce, serverNonce: Nonce, d: DhInner): bytes
    requires |d.prime| <= MAX_BYTES_LENGTH && |d.ga| <= MAX_BYTES_LENGTH
  {
    Le32(SERVER_DH_INNER_DATA) + nonce + serverNonce + EncodeI32(d.g) + EncodeBytes(d.prime) + EncodeBytes(d.ga)
    + EncodeI32(d.serverTime)
  }

  function ReadDhInner(s: bytes, nonce: Nonce, serverNonce: Nonce): (r: Reading<DhInner>)
    ensures r.Ok? ==> |r.value.1| <= |s|
  {
    hide Expect, ExpectNonce, ReadI32, ReadBytes;
    var s :- Expect(s, SERVER_DH_INNER_DATA);
    var s :- ExpectNonce(s, nonce);
    var s :- ExpectNonce(s, serverNonce);
    var (g, s) :- ReadI32(s);
    var (prime, s) :- ReadBytes(s);
    var (ga, s) :- ReadBytes(s);
    var (serverTime, s) :- ReadI32(s);
    Ok((DhInner(g, prime, ga, serverTime), s))
  }

  lemma DhInnerIsRead(nonce: Nonce, serverNonce: Nonce, d: DhInner, rest: bytes)
    requires |d.prime| <= MAX_BYTES_LENGTH && |d.ga| <= MAX_BYTES_LENGTH
    ensures ReadDhInner(DhInnerText(nonce, serverNonce, d) + rest, nonce, serverNonce) == Ok((d, rest))
  {
    hide Le32, EncodeI32, EncodeBytes, ReadBytes, ReadI32, Expect, ExpectNonce;
    var s5 := EncodeBytes(d.ga) + (EncodeI32(d.serverTime) + rest);
    var s4 := EncodeBytes(d.prime) + s5;
    var s3 := EncodeI32(d.g) + s4;
    var s2 := serverNonce + s3;
    assert DhInnerText(nonce, serverNonce, d) + rest == Le32(SERVER_DH_INNER_DATA) + (nonce + s2);
    ExpectAfterWrite(SERVER_DH_INNER_DATA, nonce + s2);
    ExpectNonceAfterWrite(nonce, s2);
    ExpectNonceAfterWrite(serverNonce, s3);
    ReadI32AfterWrite(d.g, s4);
    ReadBytesAfterWrite(d.prime, s5);
    ReadBytesAfterWrite(d.ga, EncodeI32(d.serverTime) + rest);
    ReadI32AfterWrite(d.serverTime, rest);
  }

  // ----- set_client_DH_params ----------------------------------------------------------------------------

  function ClientInnerText(nonce: Nonce, serverNonce: Nonce, gb: bytes): bytes
    requires |gb| <= MAX_BYTES_LENGTH
  {
    HeadText(CLIENT_DH_INNER_DATA, nonce, serverNonce) + EncodeI64(0) + EncodeBytes(gb)
  }

  lemma ClientInnerLength(nonce: Nonce, serverNonce: Nonce, gb: bytes)
    requires |gb| == 256
    ensures |ClientInnerText(nonce, serverNonce, gb)| == 304
  {
    assert |EncodeBytes(gb)| == 260;
    hide EncodeBytes, Le32, Le64;
  }

  function SetClientDhText(nonce: Nonce, serverNonce: Nonce, encrypted: bytes): bytes
    requires |encrypted| <= MAX_BYTES_LENGTH
  {
    HeadText(SET_CLIENT_DH_PARAMS, nonce, serverNonce) + EncodeBytes(encrypted)
  }

  // ----- dh_gen_ok -------------------------------------------------------------------------------------------

  function DhGenOkText(nonce: Nonce, serverNonce: Nonce, hash: Block): bytes {
    Le32(DH_GEN_OK) + nonce + serverNonce + hash
  }

  function ReadDhGen(s: bytes, nonce: Nonce, serverNonce: Nonce): Result<Block> {
    var (id, s) :- ReadU32(s);
    if id != DH_GEN_OK then Err(if id == DH_GEN_RETRY || id == DH_GEN_FAIL then Authentication else UnexpectedConstructor)
    else
      var s :- ExpectNonce(s, nonce);
      var s :- ExpectNonce(s, serverNonce);
      var (hash, s) :- C.Take(s, 16);
      var _ :- C.Finish(s);
      Ok(hash)
  }

  lemma DhGenOkIsRead(nonce: Nonce, serverNonce: Nonce, hash: Block)
    ensures ReadDhGen(DhGenOkText(nonce, serverNonce, hash), nonce, serverNonce) == Ok(hash)
  {
    hide Le32, ReadU32, ExpectNonce;
    assert DhGenOkText(nonce, serverNonce, hash) == Le32(DH_GEN_OK) + (nonce + (serverNonce + hash));
    ReadU32AfterWrite(DH_GEN_OK, nonce + (serverNonce + hash));
    ExpectNonceAfterWrite(nonce, serverNonce + hash);
    ExpectNonceAfterWrite(serverNonce, hash);
    TakePrefix(hash, []);
    assert hash + [] == hash;
  }
}
