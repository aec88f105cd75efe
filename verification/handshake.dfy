/**
 The authorization-key handshake of the client as a state machine on values: what each call answers,
 what it stores, even when it fails, and how much of the entropy stream it consumes.
 */
module Handshake {
  import opened Outcomes
  import opened Bytes
  import opened Primitives
  import opened AesIge
  import opened NumberTheory
  import opened RandomSource
  import opened RsaPad
  import opened HandshakeMessages
  import opened Factoring
  import opened SessionCrypto
  import C = TlCodec

  // The smallest accepted public value, 2 to the 1984.
  const LOWER: nat := Pow(256, 248)

  // The pinned numbers.  Both are odd, so Montgomery arithmetic modulo them is defined.
  datatype Params = Params(rsaModulus: nat, dhPrime: nat) {
    ghost predicate Valid() {
      && 0 < rsaModulus <= Pow(256, 256) && rsaModulus % 2 == 1
      && 0 < 2 * LOWER < dhPrime < Pow(256, 256) && dhPrime % 2 == 1
    }
  }

  datatype State = State(
    dcId: i32,
    nonce: Nonce,
    serverNonce: Nonce,
    newNonce: NewNonce,
    dhPrime: bytes,
    gA: bytes,
    authKey: AuthKey,
    serverTime: i32,
    phase: nat
  )

  datatype KeyMaterial = KeyMaterial(authKey: AuthKey, keyId: u64, salt: u64, serverTime: i32)

  // What a call answers, the state after it, and the entropy left.
  datatype Outcome<+T> = Outcome(answer: Result<T>, after: State, tape: bytes)

  // ----- starting -----------------------------------------------------------------------------------

  function Fresh(dcId: i32, nonce: Nonce, newNonce: NewNonce): State {
    State(dcId, nonce, Zeros(16), newNonce, Zeros(256), Zeros(256), Zeros(256), 0, 0)
  }

  function TestDc(dcId: i32): i32 {
    if dcId + 10_000 <= 0x7fff_ffff then dcId + 10_000 else 0x7fff_ffff
  }

  function Started(dcId: i32, tape: bytes, failure: ErrorKind): (Result<State>, bytes) {
    var (nonce, rest) := Drawn(tape, 16, failure);
    if nonce.Err? then (Err(failure), rest)
    else
      var (newNonce, rest) := Drawn(rest, 32, failure);
      if newNonce.Err? then (Err(failure), rest) else (Ok(Fresh(dcId, nonce.value, newNonce.value)), rest)
  }

  function ReqPqText(nonce: Nonce): bytes {
    Le32(REQ_PQ_MULTI) + nonce
  }

  // ----- resPQ -------------------------------------------------------------------------------------

  // A message that fits the caller's buffer moves the handshake on.
  function Send(h: State, text: bytes, capacity: nat, tape: bytes): Outcome<bytes> {
    if |text| <= capacity then Outcome(Ok(text), h.(phase := h.phase + 1), tape)
    else Outcome(Err(OutputTooSmall), h, tape)
  }

  // The answer to a number that was factored.
  function Requested(suite: Suite, params: Params, h: State, pq: bytes, factors: (u32, u32),
      tape: bytes, failure: ErrorKind, capacity: nat): Outcome<bytes>
    requires params.rsaModulus > 0 && |pq| <= 8
  {
    var inner := PqInnerText(pq, factors.0, factors.1, h.nonce, h.serverNonce, h.newNonce, h.dcId);
    var (encrypted, rest) := Padded(suite, params.rsaModulus, inner, tape, failure);
    match encrypted
    case Err(kind) => Outcome(Err(kind), h, rest)
    case Ok(block) =>
      Send(h, ReqDhText(h.nonce, h.serverNonce, factors.0, factors.1, block), capacity, rest)
  }

  // The factors are an input here; FactorsOffered ties them to the number in the message.
  function AfterResPq(suite: Suite, params: Params, h: State, input: bytes, factors: Result<(u32, u32)>,
      tape: bytes, failure: ErrorKind, capacity: nat): Outcome<bytes>
    requires params.rsaModulus > 0
  {
    if h.phase != 0 then Outcome(Err(InvalidState), h, tape)
    else match ReadResPqHead(input, h.nonce)
      case Err(kind) => Outcome(Err(kind), h, tape)
      case Ok((serverNonce, rest)) =>
        var h := h.(serverNonce := serverNonce);
        match ReadResPqTail(rest)
        case Err(kind) => Outcome(Err(kind), h, tape)
        case Ok(pq) =>
          match factors
          case Err(kind) => Outcome(Err(kind), h, tape)
          case Ok(pair) => Requested(suite, params, h, pq, pair, tape, failure, capacity)
  }

  // The number a well-formed resPQ asks to factor.
  function Offered(nonce: Nonce, input: bytes): Option<u64> {
    match ReadResPqHead(input, nonce)
    case Err(_) => None
    case Ok((_, rest)) =>
      match ReadResPqTail(rest)
      case Err(_) => None
      case Ok(pq) =>
        ShortValue(pq);
        Some(BeValue(pq))
  }

  lemma ShortValue(b: bytes)
    requires |b| <= 8
    ensures BeValue(b) < 0x1_0000_0000_0000_0000
  {
    BeCanonical(b);
    PowGrows(|b|, 8);
    assert Pow(256, 8) == 0x1_0000_0000_0000_0000;
  }

  lemma {:induction false} PowGrows(a: nat, b: nat)
    requires a <= b
    ensures Pow(256, a) <= Pow(256, b)
    decreases b
  {
    if a < b {
      PowGrows(a, b - 1);
    }
  }

  ghost predicate FactorsOffered(nonce: Nonce, input: bytes, factors: Result<(u32, u32)>) {
    Offered(nonce, input).Some? ==> Factored(Offered(nonce, input).value, nonce[0], factors)
  }

  // ----- server_DH_params_ok -------------------------------------------------------------------------

  function TemporaryAes(suite: Suite, newNonce: NewNonce, serverNonce: Nonce): Material {
    var a := Sha1(suite, newNonce + serverNonce);
    var b := Sha1(suite, serverNonce + newNonce);
    var c := Sha1(suite, newNonce + newNonce);
    Material(a + b[..12], b[12..] + c + newNonce[..4])
  }

  // The checks on a decrypted answer: its length, its hash, and the group it proposes.
  function CheckDhInner(suite: Suite, params: Params, plain: bytes, d: DhInner, left: nat): (r: Result<()>)
    requires 20 + left <= |plain|
    ensures r.Ok? ==> 2 <= d.g <= 7 && d.prime == Be(params.dhPrime, 256) && |d.ga| == 256
  {
    if left > 15 then Err(InvalidLength)
    else if Sha1(suite, plain[20..|plain| - left]) != plain[..20] then Err(Authentication)
    else if !(2 <= d.g <= 7) || d.prime != Be(params.dhPrime, 256) || |d.ga| != 256 then Err(InvalidPacket)
    else if !InRange(params, BeValue(d.ga)) then Err(InvalidPacket)
    else Ok(())
  }

  // Subtraction saturates at zero, as the original's does.
  predicate InRange(params: Params, x: nat) {
    LOWER <= x <= if params.dhPrime < LOWER then 0 else params.dhPrime - LOWER
  }

  lemma PowersOfTwo(n: nat)
    ensures Pow(256, n) == Pow(2, 8 * n)
  {
    PowOfPow(2, 8, n);
    assert Pow(2, 8) == 256;
  }

  lemma RangeInNumerals(params: Params, x: nat)
    ensures InRange(params, x) <==> Pow(2, 1984) <= x <= params.dhPrime - Pow(2, 1984)
  {
    hide Pow;
    PowersOfTwo(248);
  }

  function WithHash(suite: Suite, text: bytes): bytes {
    Sha1(suite, text) + text
  }

  const CLIENT_PADDING: nat := 12

  function ClientText(suite: Suite, h: State, gb: nat, padding: bytes): (text: bytes)
    requires |padding| == CLIENT_PADDING
    ensures |text| <= 1000
  {
    var inner := ClientInnerText(h.nonce, h.serverNonce, Be(gb, 256));
    var material := TemporaryAes(suite, h.newNonce, h.serverNonce);
    ClientInnerLength(h.nonce, h.serverNonce, Be(gb, 256));
    var sealed := IgeEncrypt(suite, material.key, material.iv, WithHash(suite, inner) + padding);
    EncryptedLength(sealed);
    SetClientDhText(h.nonce, h.serverNonce, sealed)
  }

  lemma EncryptedLength(sealed: bytes)
    requires |sealed| == 336
    ensures |C.EncodeBytes(sealed)| == 340
  {
  }

  // Draws the secret exponent and the padding, and answers with the client's public value.  Until the
  // shared key replaces it, the exponent sits where the key will be.
  function Agreed(suite: Suite, params: Params, h: State, g: nat, tape: bytes, failure: ErrorKind, capacity: nat)
    : Outcome<bytes>
    requires params.dhPrime > 0
  {
    var (secret, rest) := Drawn(tape, 256, failure);
    match secret
    case Err(kind) => Outcome(Err(kind), h, rest)
    case Ok(secret) =>
      var gb := ModPow(g, BeValue(secret), params.dhPrime);
      if !InRange(params, gb) then Outcome(Err(InvalidPacket), h.(authKey := secret), rest)
      else
        var h := h.(authKey := Be(ModPow(BeValue(h.gA), BeValue(secret), params.dhPrime), 256));
        var (padding, rest) := Drawn(rest, CLIENT_PADDING, failure);
        match padding
        case Err(kind) => Outcome(Err(kind), h, rest)
        case Ok(padding) => Send(h, ClientText(suite, h, gb, padding), capacity, rest)
  }

  function AfterServerDh(suite: Suite, params: Params, h: State, input: bytes,
      tape: bytes, failure: ErrorKind, capacity: nat): Outcome<bytes>
    requires params.dhPrime > 0
  {
    if h.phase != 1 then Outcome(Err(InvalidState), h, tape)
    else match ReadServerDh(input, h.nonce, h.serverNonce)
      case Err(kind) => Outcome(Err(kind), h, tape)
      case Ok(encrypted) =>
        var material := TemporaryAes(suite, h.newNonce, h.serverNonce);
        var plain := IgeDecrypt(suite, material.key, material.iv, encrypted);
        match ReadDhInner(plain[20..], h.nonce, h.serverNonce)
        case Err(kind) => Outcome(Err(kind), h, tape)
        case Ok((d, rest)) =>
          var h := h.(serverTime := d.serverTime);
          match CheckDhInner(suite, params, plain, d, |rest|)
          case Err(kind) => Outcome(Err(kind), h, tape)
          case Ok(_) => Agreed(suite, params, h.(dhPrime := d.prime, gA := d.ga), d.g, tape, failure, capacity)
  }

  // ----- dh_gen_ok -------------------------------------------------------------------------------------

  function ConfirmationHash(suite: Suite, newNonce: NewNonce, authKey: AuthKey): Block {
    Sha1(suite, newNonce + [1] + Sha1(suite, authKey)[..8])[4..20]
  }

  function KeyId(suite: Suite, authKey: AuthKey): u64 {
    U64Of(Sha1(suite, authKey)[12..20])
  }

  function Salt(newNonce: NewNonce, serverNonce: Nonce): u64 {
    U64Of(Xor(newNonce[..8], serverNonce[..8]))
  }

  function AfterDhGen(suite: Suite, h: State, input: bytes): (Result<KeyMaterial>, State) {
    if h.phase != 2 then (Err(InvalidState), h)
    else match ReadDhGen(input, h.nonce, h.serverNonce)
      case Err(kind) => (Err(kind), h)
      case Ok(hash) =>
        if hash != ConfirmationHash(suite, h.newNonce, h.authKey) then (Err(Authentication), h)
        else
          var material := KeyMaterial(h.authKey, KeyId(suite, h.authKey), Salt(h.newNonce, h.serverNonce), h.serverTime);
          (Ok(material), h.(authKey := Zeros(256), phase := 3))
  }
}
