/** The handshake object: its calls update its fields in place and write into the caller's buffer. */
module HandshakeMethods {
  import opened Outcomes
  import opened Bytes
  import opened Primitives
  import opened AesIge
  import opened NumberTheory
  import opened RandomSource
  import opened RsaPad
  import opened C = TlCodec
  import opened TlCursor
  import opened TlWriter
  import opened HandshakeMessages
  import Factoring
  import opened SessionCrypto
  import opened Handshake
  import opened HandshakeChecks

  // ----- reading ------------------------------------------------------------------------------------

  method ReadNonce(cursor: Cursor, expected: Nonce) returns (r: Result<()>)
    requires cursor.Valid()
    modifies cursor
    ensures cursor.Valid()
    ensures match ExpectNonce(old(cursor.Remaining()), expected)
            case Ok(rest) => r == Ok(()) && cursor.Remaining() == rest
            case Err(kind) => r == Err(kind)
  {
    var actual :- cursor.Take(16);
    return if actual == expected then Ok(()) else Err(Authentication);
  }

  // Reading the entries one by one: what is read so far, followed by the reading of the rest.
  ghost predicate ReadSoFar(all: Reading<seq<u64>>, read: seq<u64>, rest: Reading<seq<u64>>) {
    match rest
    case Ok((others, left)) => all == Ok((read + others, left))
    case Err(kind) => all == Err(kind)
  }

  method ReadFingerprints(cursor: Cursor, count: nat) returns (r: Result<seq<u64>>)
    requires cursor.Valid()
    modifies cursor
    ensures cursor.Valid() && Answers(ReadLongs(old(cursor.Remaining()), count), r, cursor.Remaining())
  {
    hide C.ReadU64, Cursor.Remaining;
    var read: seq<u64> := [];
    ghost var all := ReadLongs(cursor.Remaining(), count);
    assert all.Ok? ==> read + all.value.0 == all.value.0;
    while |read| < count
      invariant cursor.Valid() && |read| <= count
      invariant ReadSoFar(all, read, ReadLongs(cursor.Remaining(), count - |read|))
    {
      ghost var before := cursor.Remaining();
      var value :- cursor.ReadU64();
      ReadOneMore(all, read, before, count - |read|);
      read := read + [value];
    }
    assert read + [] == read;
    return Ok(read);
  }

  lemma ReadOneMore(all: Reading<seq<u64>>, read: seq<u64>, s: bytes, count: nat)
    requires count > 0 && ReadSoFar(all, read, ReadLongs(s, count)) && C.ReadU64(s).Ok?
    ensures ReadSoFar(all, read + [C.ReadU64(s).value.0], ReadLongs(C.ReadU64(s).value.1, count - 1))
  {
    hide C.ReadU64;
    var (value, rest) := C.ReadU64(s).value;
    var others := ReadLongs(rest, count - 1);
    if others.Ok? {
      assert read + ([value] + others.value.0) == read + [value] + others.value.0;
    }
  }

  method ReadNumber(cursor: Cursor) returns (r: Result<bytes>)
    requires cursor.Valid()
    modifies cursor
    ensures cursor.Valid() && r == ReadResPqTail(old(cursor.Remaining()))
  {
    hide C.ReadBytes, C.ReadVectorLength, ReadLongs, Cursor.Remaining;
    var pq :- cursor.ReadBytes();
    if |pq| == 0 || |pq| > 8 {
      return Err(InvalidLength);
    }
    var count :- cursor.ReadVectorLength(MAX_FINGERPRINTS);
    var fingerprints :- ReadFingerprints(cursor, count);
    var _ :- cursor.Finish();
    return if FINGERPRINT in fingerprints then Ok(pq) else Err(Authentication);
  }

  // Assembles the number from its bytes, most significant first; eight bytes fill the word.
  method WordOf(b: bytes) returns (word: u64)
    requires |b| <= 8
    ensures word == BeValue(b)
  {
    word := 0;
    var i := 0;
    while i < |b|
      invariant 0 <= i <= |b|
      invariant word == BeValue(b[..i])
    {
      assert b[..i + 1][..i] == b[..i];
      ShortValue(b[..i + 1]);
      word := word * 256 + b[i];
      i := i + 1;
    }
    assert b[..i] == b;
  }

  method ReadDhFields(cursor: Cursor, nonce: Nonce, serverNonce: Nonce) returns (r: Result<DhInner>)
    requires cursor.Valid()
    modifies cursor
    ensures cursor.Valid() && Answers(ReadDhInner(old(cursor.Remaining()), nonce, serverNonce), r, cursor.Remaining())
  {
    hide C.ReadBytes, C.ReadI32, C.Expect, ExpectNonce, Cursor.Remaining;
    var _ :- cursor.ExpectConstructor(SERVER_DH_INNER_DATA);
    var _ :- ReadNonce(cursor, nonce);
    var _ :- ReadNonce(cursor, serverNonce);
    var g :- cursor.ReadI32();
    var prime :- cursor.ReadBytes();
    var ga :- cursor.ReadBytes();
    var serverTime :- cursor.ReadI32();
    return Ok(DhInner(g, prime, ga, serverTime));
  }

  method ReadEncryptedAnswer(input: bytes, nonce: Nonce, serverNonce: Nonce) returns (r: Result<bytes>)
    ensures r == ReadServerDh(input, nonce, serverNonce)
  {
    hide C.ReadBytes, C.Expect, ExpectNonce, Cursor.Remaining;
    var cursor := new Cursor(input);
    var _ :- cursor.ExpectConstructor(SERVER_DH_PARAMS_OK);
    var _ :- ReadNonce(cursor, nonce);
    var _ :- ReadNonce(cursor, serverNonce);
    var encrypted :- cursor.ReadBytes();
    var _ :- cursor.Finish();
    if |encrypted| < 32 || |encrypted| > 1024 || |encrypted| % 16 != 0 {
      return Err(InvalidLength);
    }
    return Ok(encrypted);
  }

  method ReadConfirmation(input: bytes, nonce: Nonce, serverNonce: Nonce) returns (r: Result<Block>)
    ensures r == ReadDhGen(input, nonce, serverNonce)
  {
    hide C.ReadU32, C.Take, ExpectNonce, Cursor.Remaining;
    var cursor := new Cursor(input);
    var id :- cursor.ReadU32();
    if id != DH_GEN_OK {
      return Err(if id == DH_GEN_RETRY || id == DH_GEN_FAIL then Authentication else UnexpectedConstructor);
    }
    var _ :- ReadNonce(cursor, nonce);
    var _ :- ReadNonce(cursor, serverNonce);
    var hash :- cursor.Take(16);
    var _ :- cursor.Finish();
    return Ok(hash);
  }

  // ----- writing --------------------------------------------------------------------------------------

  // What writing a text into a buffer answers and leaves there.
  ghost predicate Emits(was: bytes, now: bytes, text: bytes, r: Result<nat>) {
    if |text| <= |was| then r == Ok(|text|) && now == Splice(was, 0, text) else r == Err(OutputTooSmall) && |now| == |was|
  }

  // What a call answers and leaves in the caller's buffer, given the answer on values.
  ghost predicate Delivers(was: bytes, now: bytes, answer: Result<bytes>, r: Result<nat>) {
    match answer
    case Ok(text) => |text| <= |was| && r == Ok(|text|) && now == Splice(was, 0, text)
    case Err(kind) => r == Err(kind) && |now| == |was| && (kind != OutputTooSmall ==> now == was)
  }

  lemma Undelivered(output: bytes, kind: ErrorKind)
    ensures Delivers(output, output, Err(kind), Err(kind))
  {
  }

  lemma DeliversAnswer(was: bytes, now: bytes, answer: Result<bytes>, r: Result<nat>)
    requires Delivers(was, now, answer, r)
    ensures r.Ok? <==> answer.Ok?
  {
  }

  method WriteHead(writer: Writer, id: u32, nonce: Nonce, serverNonce: Nonce) returns (r: Result<()>)
    requires writer.Valid()
    modifies writer, writer.output
    ensures writer.Valid() && writer.Appends(HeadText(id, nonce, serverNonce), r)
  {
    hide Writer.Valid, Le32;
    var _ :- writer.WriteU32(id);
    var _ :- writer.WriteAll(nonce);
    r := writer.WriteAll(serverNonce);
  }

  method WriteFactors(writer: Writer, p: u32, q: u32) returns (r: Result<()>)
    requires writer.Valid()
    modifies writer, writer.output
    ensures writer.Valid() && writer.Appends(FactorsText(p, q), r)
  {
    hide Writer.Valid, EncodeBytes, Be;
    var _ :- writer.WriteBytes(Be(p, 4));
    r := writer.WriteBytes(Be(q, 4));
  }

  lemma WriterEmits(writer: Writer, text: bytes, r: Result<()>)
    requires writer.Valid()
    requires if |text| <= writer.output.Length then r.Ok? && writer.written == text else r == Err(OutputTooSmall)
    ensures Emits(writer.original, writer.output[..], text, if r.Ok? then Ok(writer.position) else Err(r.kind))
  {
  }

  lemma SignedWord(word: u64)
    ensures EncodeI64(ToI64(word)) == Le64(word)
  {
  }

  method WriteReqDh(writer: Writer, nonce: Nonce, serverNonce: Nonce, p: u32, q: u32, encrypted: bytes)
    returns (r: Result<()>)
    requires writer.Valid() && |encrypted| == 256
    modifies writer, writer.output
    ensures writer.Valid() && writer.Appends(ReqDhText(nonce, serverNonce, p, q, encrypted), r)
  {
    hide Writer.Valid, HeadText, FactorsText, EncodeBytes, Le64, EncodeI64, ToI64;
    SignedWord(FINGERPRINT);
    var _ :- WriteHead(writer, REQ_DH_PARAMS, nonce, serverNonce);
    var _ :- WriteFactors(writer, p, q);
    var _ :- writer.WriteI64(ToI64(FINGERPRINT));
    r := writer.WriteBytes(encrypted);
  }

  method EmitReqDh(nonce: Nonce, serverNonce: Nonce, p: u32, q: u32, encrypted: bytes, output: array<byte>)
    returns (r: Result<nat>)
    requires |encrypted| == 256
    modifies output
    ensures Emits(old(output[..]), output[..], ReqDhText(nonce, serverNonce, p, q, encrypted), r)
  {
    hide Writer.Valid, ReqDhText, Emits;
    var writer := new Writer(output);
    var done := WriteReqDh(writer, nonce, serverNonce, p, q, encrypted);
    WriterEmits(writer, ReqDhText(nonce, serverNonce, p, q, encrypted), done);
    return if done.Ok? then Ok(writer.position) else Err(done.kind);
  }

  method EmitSetClientDh(nonce: Nonce, serverNonce: Nonce, encrypted: bytes, output: array<byte>)
    returns (r: Result<nat>)
    requires |encrypted| <= MAX_BYTES_LENGTH
    modifies output
    ensures Emits(old(output[..]), output[..], SetClientDhText(nonce, serverNonce, encrypted), r)
  {
    hide Writer.Valid, HeadText, EncodeBytes, Emits;
    var writer := new Writer(output);
    var done := WriteHead(writer, SET_CLIENT_DH_PARAMS, nonce, serverNonce);
    if done.Ok? {
      done := writer.WriteBytes(encrypted);
    }
    WriterEmits(writer, SetClientDhText(nonce, serverNonce, encrypted), done);
    return if done.Ok? then Ok(writer.position) else Err(done.kind);
  }

  method WriteParties(writer: Writer, h: State) returns (r: Result<()>)
    requires writer.Valid()
    modifies writer, writer.output
    ensures writer.Valid() && writer.Appends(PartiesText(h.nonce, h.serverNonce, h.newNonce, h.dcId), r)
  {
    hide Writer.Valid, EncodeI32;
    var _ :- writer.WriteAll(h.nonce);
    var _ :- writer.WriteAll(h.serverNonce);
    var _ :- writer.WriteAll(h.newNonce);
    r := writer.WriteI32(h.dcId);
  }

  method WritePqInner(writer: Writer, h: State, pq: bytes, p: u32, q: u32) returns (r: Result<()>)
    requires writer.Valid() && |pq| <= 8
    modifies writer, writer.output
    ensures writer.Valid()
    ensures writer.Appends(PqInnerText(pq, p, q, h.nonce, h.serverNonce, h.newNonce, h.dcId), r)
  {
    hide Writer.Valid, FactorsText, EncodeBytes, Le32, PartiesText;
    var _ :- writer.WriteU32(PQ_INNER_DATA_DC);
    var _ :- writer.WriteBytes(pq);
    var _ :- WriteFactors(writer, p, q);
    r := WriteParties(writer, h);
  }

  const INNER_BUFFER: nat := 144

  method PqInner(h: State, pq: bytes, p: u32, q: u32) returns (inner: bytes)
    requires |pq| <= 8
    ensures inner == PqInnerText(pq, p, q, h.nonce, h.serverNonce, h.newNonce, h.dcId)
  {
    hide PqInnerText;
    var buffer := new byte[INNER_BUFFER](_ => 0);
    var writer := new Writer(buffer);
    var done := WritePqInner(writer, h, pq, p, q);
    PqInnerLength(pq, p, q, h.nonce, h.serverNonce, h.newNonce, h.dcId);
    return buffer[..writer.position];
  }

  // The body of the last message, behind room for its hash and in front of the padding.
  method ClientBody(nonce: Nonce, serverNonce: Nonce, gb: bytes) returns (body: bytes)
    requires |gb| == 256
    ensures body == ClientInnerText(nonce, serverNonce, gb)
  {
    hide Writer.Valid, HeadText, EncodeBytes, EncodeI64;
    ClientInnerLength(nonce, serverNonce, gb);
    var buffer := new byte[492](_ => 0);
    var writer := new Writer(buffer);
    var head := WriteHead(writer, CLIENT_DH_INNER_DATA, nonce, serverNonce);
    var retry := writer.WriteI64(0);
    var value := writer.WriteBytes(gb);
    WriterHolds(writer);
    return buffer[..writer.position];
  }

  lemma WriterHolds(writer: Writer)
    requires writer.Valid()
    ensures writer.position <= writer.output.Length && writer.output[..writer.position] == writer.written
  {
  }

  method SealClient(suite: Suite, material: Material, body: bytes, hash: bytes, padding: bytes) returns (sealed: bytes)
    requires |body| == 304 && hash == Sha1(suite, body) && |padding| == CLIENT_PADDING
    ensures sealed == IgeEncrypt(suite, material.key, material.iv, WithHash(suite, body) + padding)
  {
    hide IgeEncrypt, Sha1;
    var client := new byte[512](_ => 0);
    Store(client, 20, body);
    Store(client, 0, hash);
    Store(client, 324, padding);
    assert client[..][0..336] == WithHash(suite, body) + padding;
    AesIgeEncrypt(suite, material.key, material.iv, client, 0, 336);
    return client[..336];
  }

  method DecryptAnswer(suite: Suite, material: Material, encrypted: bytes) returns (plain: bytes)
    requires 32 <= |encrypted| <= 1024
    ensures plain == IgeDecrypt(suite, material.key, material.iv, encrypted)
  {
    hide IgeDecrypt;
    var buffer := new byte[1024](_ => 0);
    Store(buffer, 0, encrypted);
    assert buffer[..][0..|encrypted|] == encrypted;
    AesIgeDecrypt(suite, material.key, material.iv, buffer, 0, |encrypted|);
    return buffer[..|encrypted|];
  }

  // Key and vector of the temporary cipher, assembled in buffers from three hashes.
  method DeriveTemporaryAes(suite: Suite, newNonce: NewNonce, serverNonce: Nonce) returns (material: Material)
    ensures material == TemporaryAes(suite, newNonce, serverNonce)
  {
    hide Sha1, Splice;
    var a := HashOfTwo(suite, newNonce, serverNonce);
    var b := HashOfTwo(suite, serverNonce, newNonce);
    var c := HashOfTwo(suite, newNonce, newNonce);
    var key := new byte[32](_ => 0);
    var iv := new byte[32](_ => 0);
    ghost var blankKey, blankIv := key[..], iv[..];
    Store(key, 0, a);
    Store(key, 20, b[..12]);
    SpliceGrows(blankKey, 0, a, b[..12]);
    SpliceAll(blankKey, a + b[..12]);
    Store(iv, 0, b[12..]);
    Store(iv, 8, c);
    Store(iv, 28, newNonce[..4]);
    SpliceGrows(blankIv, 0, b[12..], c);
    SpliceGrows(blankIv, 0, b[12..] + c, newNonce[..4]);
    SpliceAll(blankIv, b[12..] + c + newNonce[..4]);
    return Material(key[..], iv[..]);
  }

  method HashOfTwo(suite: Suite, first: bytes, second: bytes) returns (digest: bytes)
    ensures digest == Sha1(suite, first + second)
  {
    hide Sha1, Splice;
    var input := new byte[|first| + |second|](_ => 0);
    ghost var blank := input[..];
    Store(input, 0, first);
    Store(input, |first|, second);
    SpliceGrows(blank, 0, first, second);
    SpliceAll(blank, first + second);
    return Sha1(suite, input[..]);
  }

  // The hash a dh_gen_ok has to carry: new nonce, the marker 1 and the first half of the key's hash.
  method ExpectedConfirmation(suite: Suite, newNonce: NewNonce, authHash: bytes) returns (hash: Block)
    requires |authHash| == 20
    ensures hash == Sha1(suite, newNonce + [1] + authHash[..8])[4..20]
  {
    hide Sha1, Splice;
    var input := new byte[41](_ => 0);
    ghost var blank := input[..];
    Store(input, 0, newNonce);
    Store(input, 32, [1]);
    Store(input, 33, authHash[..8]);
    SpliceGrows(blank, 0, newNonce, [1]);
    SpliceGrows(blank, 0, newNonce + [1], authHash[..8]);
    SpliceAll(blank, newNonce + [1] + authHash[..8]);
    var expected := Sha1(suite, input[..]);
    return expected[4..20];
  }

  method ComputeSalt(newNonce: NewNonce, serverNonce: Nonce) returns (salt: u64)
    ensures salt == Salt(newNonce, serverNonce)
  {
    hide Splice, Xor, U64Of;
    var bytes := new byte[8](_ => 0);
    ghost var blank := bytes[..];
    Store(bytes, 0, newNonce[..8]);
    SpliceAll(blank, newNonce[..8]);
    assert bytes[0..8] == newNonce[..8];
    XorInto(bytes, 0, serverNonce[..8]);
    SpliceAll(newNonce[..8], Xor(newNonce[..8], serverNonce[..8]));
    return U64Of(bytes[..]);
  }

  method CheckAnswer(suite: Suite, params: Params, plain: bytes, d: DhInner, position: nat) returns (r: Result<()>)
    requires 20 + position <= |plain| && params.Valid()
    ensures r == CheckDhInner(suite, params, plain, d, |plain| - 20 - position)
    ensures r == if |plain| - 20 - position > 15 then Err(InvalidLength)
                 else if plain[..20] != Sha1(suite, plain[20..20 + position]) then Err(Authentication)
                 else if !GroupIsAcceptable(params, d) then Err(InvalidPacket)
                 else Ok(())
  {
    ChecksInOrder(suite, params, plain, d, |plain| - 20 - position);
    hide Pow, Sha1, Be, BeValue, GroupIsAcceptable;
    if |plain| - 20 - position > 15 {
      return Err(InvalidLength);
    }
    var expected := Sha1(suite, plain[20..20 + position]);
    if expected != plain[..20] {
      return Err(Authentication);
    }
    if !(2 <= d.g <= 7) || d.prime != Be(params.dhPrime, 256) || |d.ga| != 256 {
      return Err(InvalidPacket);
    }
    var ga := BeValue(d.ga);
    if ga < LOWER {
      return Err(InvalidPacket);
    }
    if ga > params.dhPrime - LOWER {
      return Err(InvalidPacket);
    }
    return Ok(());
  }

  class AuthKeyHandshake {
    var dcId: i32
    var nonce: Nonce
    var serverNonce: Nonce
    var newNonce: NewNonce
    var dhPrime: bytes
    var gA: bytes
    var authKey: AuthKey
    var serverTime: i32
    var phase: nat

    function Current(): State
      reads this
    {
      State(dcId, nonce, serverNonce, newNonce, dhPrime, gA, authKey, serverTime, phase)
    }

    constructor (dcId: i32, nonce: Nonce, newNonce: NewNonce)
      ensures Current() == Fresh(dcId, nonce, newNonce)
    {
      this.dcId := dcId;
      this.nonce := nonce;
      serverNonce := Zeros(16);
      this.newNonce := newNonce;
      dhPrime := Zeros(256);
      gA := Zeros(256);
      authKey := Zeros(256);
      serverTime := 0;
      phase := 0;
    }

    static method Start(random: Source, dcId: i32) returns (r: Result<AuthKeyHandshake>)
      modifies random
      ensures random.tape == Started(dcId, old(random.tape), random.failure).1
      ensures match Started(dcId, old(random.tape), random.failure).0
              case Ok(h) => r.Ok? && fresh(r.value) && r.value.Current() == h
              case Err(kind) => r.Err? && r.kind == kind
      ensures r.Ok? <==> 48 <= |old(random.tape)|
      ensures r.Ok? ==> r.value.dcId == dcId && r.value.phase == 0 && random.tape == old(random.tape)[48..]
      ensures r.Ok? ==> r.value.nonce == old(random.tape)[..16] && r.value.newNonce == old(random.tape)[16..48]
    {
      var nonce :- random.Fill(16);
      var newNonce :- random.Fill(32);
      var handshake := new AuthKeyHandshake(dcId, nonce, newNonce);
      return Ok(handshake);
    }

    static method StartTestDc(random: Source, dcId: i32) returns (r: Result<AuthKeyHandshake>)
      modifies random
      ensures random.tape == Started(TestDc(dcId), old(random.tape), random.failure).1
      ensures match Started(TestDc(dcId), old(random.tape), random.failure).0
              case Ok(h) => r.Ok? && fresh(r.value) && r.value.Current() == h
              case Err(kind) => r.Err? && r.kind == kind
      ensures r.Ok? ==> r.value.dcId == if dcId < 0x7fff_ffff - 10_000 then dcId + 10_000 else 0x7fff_ffff
    {
      r := Start(random, TestDc(dcId));
    }

    method WriteReqPq(output: array<byte>) returns (r: Result<nat>)
      modifies output
      ensures Emits(old(output[..]), output[..], ReqPqText(nonce), r)
    {
      hide Writer.Valid, Le32, Emits;
      var writer := new Writer(output);
      var done := writer.WriteU32(REQ_PQ_MULTI);
      if done.Ok? {
        done := writer.WriteAll(nonce);
      }
      WriterEmits(writer, ReqPqText(nonce), done);
      return if done.Ok? then Ok(writer.position) else Err(done.kind);
    }

    method Finish(suite: Suite, input: bytes) returns (r: Result<KeyMaterial>)
      modifies this
      ensures (r, Current()) == AfterDhGen(suite, old(Current()), input)
      ensures r.Ok? <==> old(phase) == 2 && Confirms(suite, old(Current()), input)
      ensures r.Ok? ==> MaterialOf(suite, old(Current()), r.value)
    {
      if phase == 2 {
        FinishesExactlyWhenConfirmed(suite, Current(), input);
      }
      hide Confirms, MaterialOf;
      hide ReadDhGen, Sha1, U64Of, Salt;
      if phase != 2 {
        return Err(InvalidState);
      }
      var hash :- ReadConfirmation(input, nonce, serverNonce);
      var authHash := Sha1(suite, authKey);
      var expected := ExpectedConfirmation(suite, newNonce, authHash);
      if expected != hash {
        return Err(Authentication);
      }
      var salt := ComputeSalt(newNonce, serverNonce);
      var material := KeyMaterial(authKey, U64Of(authHash[12..20]), salt, serverTime);
      authKey := Zeros(256);
      phase := 3;
      return Ok(material);
    }
  
    // Stores the server's nonce as soon as it is read, before the rest is checked.
    method TakeResPq(input: bytes) returns (r: Result<bytes>)
      modifies this`serverNonce
      ensures match ReadResPqHead(input, nonce)
              case Err(kind) => r == Err(kind) && serverNonce == old(serverNonce)
              case Ok((accepted, rest)) => serverNonce == accepted && r == ReadResPqTail(rest)
    {
      hide ReadResPqTail, C.Expect, C.Take, ExpectNonce, Cursor.Remaining;
      var cursor := new Cursor(input);
      var _ :- cursor.ExpectConstructor(RES_PQ);
      var _ :- ReadNonce(cursor, nonce);
      var accepted :- cursor.Take(16);
      serverNonce := accepted;
      r := ReadNumber(cursor);
    }

    method Request(suite: Suite, params: Params, pq: bytes, factors: (u32, u32), random: Source, output: array<byte>)
      returns (r: Result<nat>)
      requires params.Valid() && |pq| <= 8
      modifies this`phase, random, output
      ensures var o := Requested(suite, params, old(Current()), pq, factors, old(random.tape), random.failure, output.Length);
        Current() == o.after && random.tape == o.tape && Delivers(old(output[..]), output[..], o.answer, r)
    {
      hide Padded, PqInnerText, ReqDhText, Pow, Splice;
      var inner := PqInner(Current(), pq, factors.0, factors.1);
      var encrypted :- RsaPadEncrypt(suite, params.rsaModulus, inner, random);
      r := EmitReqDh(nonce, serverNonce, factors.0, factors.1, encrypted, output);
      if r.Ok? {
        phase := phase + 1;
      }
    }

    method AcceptResPq(suite: Suite, params: Params, input: bytes, random: Source, output: array<byte>)
      returns (r: Result<nat>, ghost factors: Result<(u32, u32)>)
      requires params.Valid()
      modifies this, random, output
      ensures old(phase) == 0 ==> FactorsOffered(old(nonce), input, factors)
      ensures r.Ok? ==> old(phase) == 0 && SomethingOffered(old(Current()), input, serverNonce)
      ensures var o := AfterResPq(suite, params, old(Current()), input, factors, old(random.tape), random.failure, output.Length);
        Current() == o.after && random.tape == o.tape && Delivers(old(output[..]), output[..], o.answer, r)
    {
      hide ReadResPqHead, ReadResPqTail, Factoring.Factored, Factoring.DegenerateTry, Requested, Pow, Delivers, SomethingOffered;
      factors := Err(InvalidState);
      if phase != 0 {
        Undelivered(output[..], InvalidState);
        return Err(InvalidState), factors;
      }
      var number := TakeResPq(input);
      if number.Err? {
        Undelivered(output[..], number.kind);
        return Err(number.kind), factors;
      }
      var word := WordOf(number.value);
      var found := Factoring.FactorPq(word, nonce[0]);
      factors := found;
      if found.Err? {
        Undelivered(output[..], found.kind);
        return Err(found.kind), factors;
      }
      r := Request(suite, params, number.value, found.value, random, output);
      ghost var o := AfterResPq(suite, params, old(Current()), input, factors, old(random.tape), random.failure, output.Length);
      DeliversAnswer(old(output[..]), output[..], o.answer, r);
      RequestFollowsOffer(suite, params, old(Current()), input, factors, old(random.tape), random.failure, output.Length);
    }
  
    method Agree(suite: Suite, params: Params, material: Material, g: nat, random: Source, output: array<byte>)
      returns (r: Result<nat>)
      requires params.Valid() && material == TemporaryAes(suite, newNonce, serverNonce)
      modifies this`authKey, this`phase, random, output
      ensures var o := Agreed(suite, params, old(Current()), g, old(random.tape), random.failure, output.Length);
        Current() == o.after && random.tape == o.tape && Delivers(old(output[..]), output[..], o.answer, r)
    {
      hide Pow, ModPow, BeValue, Be, InRange, TemporaryAes, IgeEncrypt, ClientInnerText, SetClientDhText, Splice, Sha1;
      var secret :- random.Fill(256);
      authKey := secret;
      var b := BeValue(authKey);
      var gb := ModPow(g, b, params.dhPrime);
      var shared := ModPow(BeValue(gA), b, params.dhPrime);
      if !InRange(params, gb) {
        return Err(InvalidPacket);
      }
      authKey := Be(shared, 256);
      ClientInnerLength(nonce, serverNonce, Be(gb, 256));
      var body := ClientBody(nonce, serverNonce, Be(gb, 256));
      var hash := Sha1(suite, body);
      var padding :- random.Fill(CLIENT_PADDING);
      var sealed := SealClient(suite, material, body, hash, padding);
      r := EmitSetClientDh(nonce, serverNonce, sealed, output);
      if r.Ok? {
        phase := phase + 1;
      }
    }

    method TakeServerDh(suite: Suite, params: Params, input: bytes, random: Source, output: array<byte>)
      returns (r: Result<nat>)
      requires params.Valid()
      modifies this, random, output
      ensures var o := AfterServerDh(suite, params, old(Current()), input, old(random.tape), random.failure, output.Length);
        Current() == o.after && random.tape == o.tape && Delivers(old(output[..]), output[..], o.answer, r)
    {
      hide Pow, ReadServerDh, ReadDhInner, CheckDhInner, TemporaryAes, IgeDecrypt, Agreed, Delivers, Cursor.Remaining;
      if phase != 1 {
        Undelivered(output[..], InvalidState);
        return Err(InvalidState);
      }
      var encrypted := ReadEncryptedAnswer(input, nonce, serverNonce);
      if encrypted.Err? {
        Undelivered(output[..], encrypted.kind);
        return Err(encrypted.kind);
      }
      var material := DeriveTemporaryAes(suite, newNonce, serverNonce);
      var plain := DecryptAnswer(suite, material, encrypted.value);
      var inner := new Cursor(plain[20..]);
      var fields := ReadDhFields(inner, nonce, serverNonce);
      if fields.Err? {
        Undelivered(output[..], fields.kind);
        return Err(fields.kind);
      }
      var d := fields.value;
      serverTime := d.serverTime;
      var checked := CheckAnswer(suite, params, plain, d, inner.position);
      if checked.Err? {
        Undelivered(output[..], checked.kind);
        return Err(checked.kind);
      }
      dhPrime := d.prime;
      gA := d.ga;
      r := Agree(suite, params, material, d.g, random, output);
    }

    // Accepted exactly if it is a proposal that can be answered; then the group, the public value and the time
    // are those proposed, and the key is the value raised to the secret.
    method AcceptServerDh(suite: Suite, params: Params, input: bytes, random: Source, output: array<byte>)
      returns (r: Result<nat>)
      requires params.Valid()
      modifies this, random, output
      ensures var o := AfterServerDh(suite, params, old(Current()), input, old(random.tape), random.failure, output.Length);
        Current() == o.after && random.tape == o.tape && Delivers(old(output[..]), output[..], o.answer, r)
      ensures r.Ok? <==>
        old(phase) == 1 && Answerable(suite, params, old(Current()), input, old(random.tape), output.Length)
      ensures old(phase) == 1 ==> forall d :: Proposes(suite, params, old(Current()), input, d) ==>
        dhPrime == d.prime && gA == d.ga && serverTime == d.serverTime
      ensures old(phase) == 1 && (forall d :: !Proposes(suite, params, old(Current()), input, d)) ==>
        random.tape == old(random.tape) && Current() == old(Current()).(serverTime := serverTime)
      ensures r.Ok? ==> authKey == Be(Pow(BeValue(gA), BeValue(old(random.tape)[..256])) % params.dhPrime, 256)
    {
      hide AfterServerDh, Proposes, CanAnswer, Be, BeValue, Pow, Delivers;
      ghost var h, tape, was := Current(), random.tape, output[..];
      r := TakeServerDh(suite, params, input, random, output);
      ghost var o := AfterServerDh(suite, params, h, input, tape, random.failure, output.Length);
      DeliversAnswer(was, output[..], o.answer, r);
      if h.phase == 1 {
        AnswersExactlyProposals(suite, params, h, input, tape, random.failure, output.Length);
      } else {
        WrongPhase(suite, params, h, input, tape, random.failure, output.Length);
      }
    }
  }

  lemma WrongPhase(suite: Suite, params: Params, h: State, input: bytes, tape: bytes, failure: ErrorKind, capacity: nat)
    requires params.dhPrime > 0 && h.phase != 1
    ensures AfterServerDh(suite, params, h, input, tape, failure, capacity) == Outcome(Err(InvalidState), h, tape)
  {
  }
}
