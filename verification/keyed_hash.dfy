/** HMAC (section 2 of RFC 2104) and one block of PBKDF2 (section 5.2 of RFC 8018) over SHA-256. */
module KeyedHash {
  import opened Outcomes
  import opened Bytes
  import opened Primitives

  const HASH_BLOCK: nat := 64

  function Repeated(value: byte, n: nat): (r: bytes)
    ensures |r| == n
  {
    seq(n, _ => value)
  }

  // ----- as the standards define them ------------------------------------------------------

  // The key brought to the hash's block size: hashed first when it is longer.
  function BlockKey(suite: Suite, key: bytes): (r: bytes)
    ensures |r| == HASH_BLOCK
  {
    var short := if |key| > HASH_BLOCK then Sha256(suite, key) else key;
    short + Zeros(HASH_BLOCK - |short|)
  }

  function Hmac(suite: Suite, key: bytes, text: bytes): (r: bytes)
    ensures |r| == 32
  {
    var k := BlockKey(suite, key);
    var inner := Sha256(suite, Xor(k, Repeated(0x36, HASH_BLOCK)) + text);
    Sha256(suite, Xor(k, Repeated(0x5c, HASH_BLOCK)) + inner)
  }

  // U(1) = PRF(password, salt || INT(1)), U(i) = PRF(password, U(i - 1)).
  function U(suite: Suite, password: bytes, salt: bytes, i: nat): (r: bytes)
    requires i > 0
    ensures |r| == 32
  {
    Hmac(suite, password, if i == 1 then salt + [0, 0, 0, 1] else U(suite, password, salt, i - 1))
  }

  // F(c) = U(1) xor U(2) xor ... xor U(c).
  function F(suite: Suite, password: bytes, salt: bytes, iterations: nat): (r: bytes)
    requires iterations > 0
    ensures |r| == 32
  {
    if iterations == 1 then U(suite, password, salt, 1)
    else Xor(F(suite, password, salt, iterations - 1), U(suite, password, salt, iterations))
  }

  // ----- byte by byte ---------------------------------------------------------------------------

  // The key, hashed if it is longer than 64 bytes, filled up with zeros and combined with a repeated byte.
  ghost predicate KeyWithPad(suite: Suite, key: bytes, pad: byte, block: bytes) {
    && |block| == 64
    && var short := if |key| <= 64 then key else Sha256(suite, key);
      forall i :: 0 <= i < 64 ==> block[i] == XorByte(if i < |short| then short[i] else 0, pad)
  }

  // The outer hash covers the inner one, each behind its own form of the key.
  lemma HmacIsNestedHash(suite: Suite, key: bytes, text: bytes) returns (inner: bytes, outer: bytes)
    ensures KeyWithPad(suite, key, 0x36, inner) && KeyWithPad(suite, key, 0x5c, outer)
    ensures Hmac(suite, key, text) == Sha256(suite, outer + Sha256(suite, inner + text))
  {
    hide XorByte, Sha256;
    inner, outer := Xor(BlockKey(suite, key), Repeated(0x36, 64)), Xor(BlockKey(suite, key), Repeated(0x5c, 64));
    KeyBlockBytes(suite, key, 0x36);
    KeyBlockBytes(suite, key, 0x5c);
  }

  lemma KeyBlockBytes(suite: Suite, key: bytes, pad: byte)
    ensures KeyWithPad(suite, key, pad, Xor(BlockKey(suite, key), Repeated(pad, 64)))
  {
    hide XorByte, Sha256;
  }

  lemma KeyWithPadIsUnique(suite: Suite, key: bytes, pad: byte, a: bytes, b: bytes)
    requires KeyWithPad(suite, key, pad, a) && KeyWithPad(suite, key, pad, b)
    ensures a == b
  {
    hide XorByte, Sha256;
    assert forall i :: 0 <= i < 64 ==> a[i] == b[i];
  }

  // Two texts with one code under one key give two byte strings with one hash.
  lemma HmacCollision(suite: Suite, key: bytes, text: bytes, text': bytes) returns (x: bytes, y: bytes)
    requires text != text' && Hmac(suite, key, text) == Hmac(suite, key, text')
    ensures x != y && Sha256(suite, x) == Sha256(suite, y)
  {
    hide Sha256, Hmac, KeyWithPad;
    var inner, outer := HmacIsNestedHash(suite, key, text);
    var inner', outer' := HmacIsNestedHash(suite, key, text');
    KeyWithPadIsUnique(suite, key, 0x36, inner, inner');
    KeyWithPadIsUnique(suite, key, 0x5c, outer, outer');
    x, y := inner + text, inner + text';
    if Sha256(suite, x) != Sha256(suite, y) {
      SamePrefix(outer, Sha256(suite, x), Sha256(suite, y));
      x, y := outer + Sha256(suite, x), outer + Sha256(suite, y);
    } else {
      SamePrefix(inner, text, text');
    }
  }

  lemma SamePrefix(prefix: bytes, a: bytes, b: bytes)
    ensures prefix + a == prefix + b <==> a == b
  {
    assert (prefix + a)[|prefix|..] == a && (prefix + b)[|prefix|..] == b;
  }

  // The blocks of PBKDF2: the first is keyed on the salt and the block number, each other one on its predecessor.
  ghost predicate IsChain(suite: Suite, password: bytes, salt: bytes, blocks: seq<bytes>) {
    && |blocks| > 0 && blocks[0] == Hmac(suite, password, salt + [0, 0, 0, 1])
    && forall i :: 0 < i < |blocks| ==> blocks[i] == Hmac(suite, password, blocks[i - 1])
  }

  function XorOf(blocks: seq<bytes>): bytes
    requires |blocks| > 0
  {
    if |blocks| == 1 then blocks[0] else Xor(XorOf(blocks[..|blocks| - 1]), blocks[|blocks| - 1])
  }

  lemma {:induction false} DerivedKeyIsXorOfChain(suite: Suite, password: bytes, salt: bytes, iterations: nat)
    returns (blocks: seq<bytes>)
    requires iterations > 0
    ensures |blocks| == iterations && IsChain(suite, password, salt, blocks)
    ensures F(suite, password, salt, iterations) == XorOf(blocks)
    ensures blocks[iterations - 1] == U(suite, password, salt, iterations)
    decreases iterations
  {
    hide Hmac, Xor;
    if iterations == 1 {
      blocks := [U(suite, password, salt, 1)];
    } else {
      var earlier := DerivedKeyIsXorOfChain(suite, password, salt, iterations - 1);
      blocks := earlier + [U(suite, password, salt, iterations)];
      assert blocks[..iterations - 1] == earlier;
    }
  }

  // ----- as the code computes them ------------------------------------------------------------

  method HmacSha256(suite: Suite, key: bytes, first: bytes, second: bytes, third: bytes) returns (digest: bytes)
    ensures digest == Hmac(suite, key, first + second + third)
  {
    var keyBlock := PadKey(suite, key);
    var innerPad := XorPad(keyBlock, 0x36);
    var outerPad := XorPad(keyBlock, 0x5c);
    var innerDigest := Sha256(suite, innerPad + first + second + third);
    assert innerPad + first + second + third == innerPad + (first + second + third);
    digest := Sha256(suite, outerPad + innerDigest);
  }

  method PadKey(suite: Suite, key: bytes) returns (k: bytes)
    ensures k == BlockKey(suite, key)
  {
    var keyBlock := new byte[HASH_BLOCK](_ => 0);
    assert keyBlock[..] == Zeros(HASH_BLOCK);
    if |key| > HASH_BLOCK {
      Store(keyBlock, 0, Sha256(suite, key));
    } else {
      Store(keyBlock, 0, key);
    }
    k := keyBlock[..];
  }

  method XorPad(keyBlock: bytes, mask: byte) returns (pad: bytes)
    requires |keyBlock| == HASH_BLOCK
    ensures pad == Xor(keyBlock, Repeated(mask, HASH_BLOCK))
  {
    var filled := new byte[HASH_BLOCK](_ => 0);
    var i := 0;
    while i < HASH_BLOCK
      invariant 0 <= i <= HASH_BLOCK
      invariant forall j :: 0 <= j < i ==> filled[j] == XorByte(keyBlock[j], mask)
    {
      filled[i] := XorByte(keyBlock[i], mask);
      i := i + 1;
    }
    pad := filled[..];
  }

  method Pbkdf2OneBlock(suite: Suite, password: bytes, salt: bytes, iterations: nat) returns (output: bytes)
    requires iterations > 0
    ensures output == F(suite, password, salt, iterations)
  {
    var blockIndex: bytes := [0, 0, 0, 1];
    assert salt + blockIndex + [] == salt + [0, 0, 0, 1];
    var current := HmacSha256(suite, password, salt, blockIndex, []);
    output := current;
    var i := 1;
    while i < iterations
      invariant 1 <= i <= iterations
      invariant current == U(suite, password, salt, i)
      invariant output == F(suite, password, salt, i)
    {
      hide Hmac, Xor;
      assert current + [] + [] == current;
      current := HmacSha256(suite, password, current, [], []);
      output := Xor(output, current);
      i := i + 1;
    }
  }

  method DeriveFromPassphrase(suite: Suite, passphrase: bytes, salt: bytes, iterations: u32) returns (r: Result<bytes>)
    ensures r == if iterations == 0 then Err(InvalidLength) else Ok(F(suite, passphrase, salt, iterations))
  {
    if iterations == 0 {
      return Err(InvalidLength);
    }
    var derived := Pbkdf2OneBlock(suite, passphrase, salt, iterations);
    return Ok(derived);
  }
}
