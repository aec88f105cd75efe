/** Message keys, key derivation, and in-place sealing and opening of MTProto 2.0 session data. */
module SessionCrypto {
  import opened Outcomes
  import opened Bytes
  import opened Primitives
  import opened AesIge

  type AuthKey = b: bytes | |b| == 256 witness Zeros(256)

  datatype Direction = ClientToServer | ServerToClient {
    // Where in the authorization key this direction takes its material from.
    function X(): nat {
      if ClientToServer? then 0 else 8
    }
  }

  datatype Material = Material(key: bytes, iv: Iv)

  predicate IsBlockData(length: nat) {
    length >= 32 && length % BLOCK == 0
  }

  function MessageKey(suite: Suite, direction: Direction, authKey: AuthKey, plain: bytes): Block {
    var x := direction.X();
    Sha256(suite, authKey[88 + x..120 + x] + plain)[8..24]
  }

  function DeriveMaterial(suite: Suite, direction: Direction, authKey: AuthKey, messageKey: Block): Material {
    var x := direction.X();
    var a := Sha256(suite, messageKey + authKey[x..x + 36]);
    var b := Sha256(suite, authKey[40 + x..76 + x] + messageKey);
    Material(a[..8] + b[8..24] + a[24..], b[..8] + a[8..24] + b[24..])
  }

  // What sealing a plaintext yields: its message key and its ciphertext.
  function Sealed(suite: Suite, direction: Direction, authKey: AuthKey, plain: bytes): (r: (Block, bytes))
    ensures |r.1| == |plain|
  {
    var messageKey := MessageKey(suite, direction, authKey, plain);
    var material := DeriveMaterial(suite, direction, authKey, messageKey);
    (messageKey, IgeEncrypt(suite, material.key, material.iv, plain))
  }

  function Opened(suite: Suite, direction: Direction, authKey: AuthKey, messageKey: Block, cipher: bytes)
    : (r: Result<bytes>)
    ensures r.Ok? ==> |r.value| == |cipher|
  {
    if !IsBlockData(|cipher|) then Err(InvalidLength)
    else
      var material := DeriveMaterial(suite, direction, authKey, messageKey);
      var plain := IgeDecrypt(suite, material.key, material.iv, cipher);
      if MessageKey(suite, direction, authKey, plain) == messageKey then Ok(plain) else Err(Authentication)
  }

  // Opening accepts exactly what sealing produces, and gives back the text that was sealed.
  lemma OpensExactlyWhatWasSealed(suite: Suite, direction: Direction, authKey: AuthKey,
      messageKey: Block, cipher: bytes, plain: bytes)
    ensures Opened(suite, direction, authKey, messageKey, cipher) == Ok(plain)
       <==> IsBlockData(|plain|) && Sealed(suite, direction, authKey, plain) == (messageKey, cipher)
  {
    hide MessageKey, DeriveMaterial, IgeEncrypt, IgeDecrypt;
    var material := DeriveMaterial(suite, direction, authKey, messageKey);
    IgeInverse(suite, material.key, material.iv, cipher);
    IgeInverse(suite, material.key, material.iv, plain);
  }

  // ----- the same byte by byte ---------------------------------------------------------------

  // Key and vector interleave two hashes: the outer thirds of one around the middle of the other.
  ghost predicate Interleaved(a: bytes, b: bytes, key: bytes, iv: bytes)
    requires |a| == 32 && |b| == 32
  {
    && |key| == 32 && |iv| == 32
    && forall i :: 0 <= i < 32 ==> key[i] == (if 8 <= i < 24 then b[i] else a[i]) && iv[i] == (if 8 <= i < 24 then a[i] else b[i])
  }

  // The chaining under the key and vector that the message key yields with two slices of the authorization key.
  ghost predicate EncryptsUnder(suite: Suite, messageKey: Block, left: bytes, right: bytes, plain: bytes, cipher: bytes) {
    exists key: bytes, iv: Iv ::
      && Interleaved(Sha256(suite, messageKey + left), Sha256(suite, right + messageKey), key, iv)
      && cipher == IgeEncrypt(suite, key, iv, plain)
  }

  // Which slices of the authorization key each direction uses.
  ghost predicate SealsTo(suite: Suite, direction: Direction, authKey: AuthKey, plain: bytes, messageKey: Block, cipher: bytes) {
    match direction
    case ClientToServer =>
      && messageKey == Sha256(suite, authKey[88..120] + plain)[8..24]
      && EncryptsUnder(suite, messageKey, authKey[0..36], authKey[40..76], plain, cipher)
    case ServerToClient =>
      && messageKey == Sha256(suite, authKey[96..128] + plain)[8..24]
      && EncryptsUnder(suite, messageKey, authKey[8..44], authKey[48..84], plain, cipher)
  }

  ghost predicate SomethingSealsTo(suite: Suite, direction: Direction, authKey: AuthKey, messageKey: Block, cipher: bytes) {
    exists plain: bytes :: |plain| == |cipher| && SealsTo(suite, direction, authKey, plain, messageKey, cipher)
  }

  lemma InterleavedOnce(a: bytes, b: bytes, key: bytes, iv: bytes)
    requires |a| == 32 && |b| == 32
    ensures Interleaved(a, b, key, iv) <==> key == a[..8] + b[8..24] + a[24..] && iv == b[..8] + a[8..24] + b[24..]
  {
    InterleavedParts(a, b);
    var key', iv' := a[..8] + b[8..24] + a[24..], b[..8] + a[8..24] + b[24..];
    if Interleaved(a, b, key, iv) {
      assert forall i :: 0 <= i < 32 ==> key[i] == key'[i] && iv[i] == iv'[i];
    }
  }

  lemma InterleavedParts(a: bytes, b: bytes)
    requires |a| == 32 && |b| == 32
    ensures Interleaved(a, b, a[..8] + b[8..24] + a[24..], b[..8] + a[8..24] + b[24..])
  {
  }

  lemma EncryptsUnderOnce(suite: Suite, messageKey: Block, left: bytes, right: bytes, plain: bytes, cipher: bytes)
    ensures var a, b := Sha256(suite, messageKey + left), Sha256(suite, right + messageKey);
      EncryptsUnder(suite, messageKey, left, right, plain, cipher)
      <==> cipher == IgeEncrypt(suite, a[..8] + b[8..24] + a[24..], b[..8] + a[8..24] + b[24..], plain)
  {
    hide Interleaved, IgeEncrypt, Sha256;
    var a, b := Sha256(suite, messageKey + left), Sha256(suite, right + messageKey);
    InterleavedOnce(a, b, a[..8] + b[8..24] + a[24..], b[..8] + a[8..24] + b[24..]);
    forall key: bytes, iv: Iv | Interleaved(a, b, key, iv)
      ensures key == a[..8] + b[8..24] + a[24..] && iv == b[..8] + a[8..24] + b[24..]
    {
      InterleavedOnce(a, b, key, iv);
    }
  }

  // What sealing computes, with every offset written out.
  lemma SealsAsSpecified(suite: Suite, direction: Direction, authKey: AuthKey, plain: bytes, messageKey: Block, cipher: bytes)
    ensures SealsTo(suite, direction, authKey, plain, messageKey, cipher)
       <==> Sealed(suite, direction, authKey, plain) == (messageKey, cipher)
  {
    hide EncryptsUnder, IgeEncrypt, Sha256;
    EncryptsUnderOnce(suite, messageKey, authKey[0..36], authKey[40..76], plain, cipher);
    EncryptsUnderOnce(suite, messageKey, authKey[8..44], authKey[48..84], plain, cipher);
  }

  // A direction sees only its own slices of the authorization key.
  lemma SlicesDecide(suite: Suite, direction: Direction, authKey: AuthKey, authKey': AuthKey, plain: bytes)
    requires direction.ClientToServer? ==>
      authKey[0..36] == authKey'[0..36] && authKey[40..76] == authKey'[40..76] && authKey[88..120] == authKey'[88..120]
    requires direction.ServerToClient? ==>
      authKey[8..44] == authKey'[8..44] && authKey[48..84] == authKey'[48..84] && authKey[96..128] == authKey'[96..128]
    ensures Sealed(suite, direction, authKey, plain) == Sealed(suite, direction, authKey', plain)
  {
    hide Sealed, EncryptsUnder, Sha256;
    var (messageKey, cipher) := Sealed(suite, direction, authKey, plain);
    SealsAsSpecified(suite, direction, authKey, plain, messageKey, cipher);
    SealsAsSpecified(suite, direction, authKey', plain, messageKey, cipher);
  }

  lemma OpensAsSpecified(suite: Suite, direction: Direction, authKey: AuthKey, messageKey: Block, cipher: bytes)
    ensures var r := Opened(suite, direction, authKey, messageKey, cipher);
      && (r.Ok? <==> |cipher| >= 32 && |cipher| % 16 == 0 && SomethingSealsTo(suite, direction, authKey, messageKey, cipher))
      && (r.Ok? ==> SealsTo(suite, direction, authKey, r.value, messageKey, cipher))
  {
    hide Sealed, Opened, SealsTo;
    var r := Opened(suite, direction, authKey, messageKey, cipher);
    if r.Ok? {
      OpensExactlyWhatWasSealed(suite, direction, authKey, messageKey, cipher, r.value);
      SealsAsSpecified(suite, direction, authKey, r.value, messageKey, cipher);
    }
    forall plain: bytes | |plain| == |cipher| && IsBlockData(|cipher|) && SealsTo(suite, direction, authKey, plain, messageKey, cipher)
      ensures r.Ok?
    {
      OpensExactlyWhatWasSealed(suite, direction, authKey, messageKey, cipher, plain);
      SealsAsSpecified(suite, direction, authKey, plain, messageKey, cipher);
    }
  }

  // ----- in place ------------------------------------------------------------------------------

  method Seal(suite: Suite, direction: Direction, authKey: AuthKey, data: array<byte>, lo: nat, hi: nat)
    returns (r: Result<Block>)
    requires lo <= hi <= data.Length
    modifies data
    ensures IsBlockData(hi - lo) ==>
      var (messageKey, cipher) := Sealed(suite, direction, authKey, old(data[..])[lo..hi]);
      r == Ok(messageKey) && data[..] == Splice(old(data[..]), lo, cipher)
    ensures !IsBlockData(hi - lo) ==> r == Err(InvalidLength) && data[..] == old(data[..])
    ensures r.Ok? <==> hi - lo >= 32 && (hi - lo) % 16 == 0
    ensures r.Ok? ==> SealsTo(suite, direction, authKey, old(data[..])[lo..hi], r.value, data[..][lo..hi])
  {
    if !IsBlockData(hi - lo) {
      return Err(InvalidLength);
    }
    hide MessageKey, DeriveMaterial, IgeEncrypt, Splice, SealsTo;
    var messageKey := MessageKey(suite, direction, authKey, data[..][lo..hi]);
    var material := DeriveMaterial(suite, direction, authKey, messageKey);
    ghost var plain := data[..][lo..hi];
    AesIgeEncrypt(suite, material.key, material.iv, data, lo, hi);
    SealsAsSpecified(suite, direction, authKey, plain, messageKey, IgeEncrypt(suite, material.key, material.iv, plain));
    return Ok(messageKey);
  }

  // A message that fails authentication is wiped before the error is returned.
  method Open(suite: Suite, direction: Direction, authKey: AuthKey, messageKey: Block,
      data: array<byte>, lo: nat, hi: nat)
    returns (r: Result<()>)
    requires lo <= hi <= data.Length
    modifies data
    ensures match Opened(suite, direction, authKey, messageKey, old(data[..])[lo..hi])
            case Ok(plain) => r == Ok(()) && data[..] == Splice(old(data[..]), lo, plain)
            case Err(Authentication) =>
              r == Err(Authentication) && data[..] == Splice(old(data[..]), lo, Zeros(hi - lo))
            case Err(kind) => r == Err(kind) && data[..] == old(data[..])
    ensures r.Ok? ==> SealsTo(suite, direction, authKey, data[..][lo..hi], messageKey, old(data[..])[lo..hi])
    ensures r.Ok? <==> hi - lo >= 32 && (hi - lo) % 16 == 0 && SomethingSealsTo(suite, direction, authKey, messageKey, old(data[..])[lo..hi])
  {
    OpensAsSpecified(suite, direction, authKey, messageKey, data[..][lo..hi]);
    if !IsBlockData(hi - lo) {
      return Err(InvalidLength);
    }
    hide MessageKey, DeriveMaterial, IgeDecrypt, Splice, SealsTo, SomethingSealsTo;
    ghost var was := data[..];
    var material := DeriveMaterial(suite, direction, authKey, messageKey);
    AesIgeDecrypt(suite, material.key, material.iv, data, lo, hi);
    ghost var plain := IgeDecrypt(suite, material.key, material.iv, was[lo..hi]);
    var calculated := MessageKey(suite, direction, authKey, data[..][lo..hi]);
    if calculated == messageKey {
      return Ok(());
    }
    Store(data, lo, Zeros(hi - lo));
    SpliceReplaces(was, lo, plain, Zeros(hi - lo));
    return Err(Authentication);
  }
}
