/**
 AES in infinite garble extension mode, in place over a stretch of a buffer.  The mode chains
 c[i] = E(m[i] xor c[i-1]) xor m[i-1]; the initialization vector holds c[-1] and then m[-1].
 */
module AesIge {
  import opened Bytes
  import opened Primitives

  type Iv = b: bytes | |b| == 32 witness Zeros(32)

  function XorBlock(a: Block, b: Block): Block {
    Xor(a, b)
  }

  function EncryptStep(suite: Suite, key: bytes, cipher: Block, plain: Block, m: Block): Block {
    XorBlock(EncryptBlock(suite, key, XorBlock(m, cipher)), plain)
  }

  function DecryptStep(suite: Suite, key: bytes, cipher: Block, plain: Block, c: Block): Block {
    XorBlock(DecryptBlock(suite, key, XorBlock(c, plain)), cipher)
  }

  lemma StepInverse(suite: Suite, key: bytes, cipher: Block, plain: Block, b: Block)
    ensures DecryptStep(suite, key, cipher, plain, EncryptStep(suite, key, cipher, plain, b)) == b
    ensures EncryptStep(suite, key, cipher, plain, DecryptStep(suite, key, cipher, plain, b)) == b
  {
    var sealed := EncryptBlock(suite, key, XorBlock(b, cipher));
    XorInvolution(sealed, plain);
    BlockInverse(suite, key, XorBlock(b, cipher));
    XorInvolution(b, cipher);
    var raw := DecryptBlock(suite, key, XorBlock(b, plain));
    XorInvolution(raw, cipher);
    BlockInverse(suite, key, XorBlock(b, plain));
    XorInvolution(b, plain);
  }

  // ----- the chaining as a recursion over blocks; a last partial block is left alone -------

  function EncryptChain(suite: Suite, key: bytes, cipher: Block, plain: Block, data: bytes): (r: bytes)
    ensures |r| == |data|
    decreases |data|
  {
    if |data| < BLOCK then data
    else
      var c := EncryptStep(suite, key, cipher, plain, data[..BLOCK]);
      c + EncryptChain(suite, key, c, data[..BLOCK], data[BLOCK..])
  }

  function DecryptChain(suite: Suite, key: bytes, cipher: Block, plain: Block, data: bytes): (r: bytes)
    ensures |r| == |data|
    decreases |data|
  {
    if |data| < BLOCK then data
    else
      var m := DecryptStep(suite, key, cipher, plain, data[..BLOCK]);
      m + DecryptChain(suite, key, data[..BLOCK], m, data[BLOCK..])
  }

  lemma {:induction false} DecryptUndoesEncrypt(suite: Suite, key: bytes, cipher: Block, plain: Block, data: bytes)
    ensures DecryptChain(suite, key, cipher, plain, EncryptChain(suite, key, cipher, plain, data)) == data
    decreases |data|
  {
    hide EncryptStep, DecryptStep, XorBlock;
    if |data| >= BLOCK {
      var m: Block := data[..BLOCK];
      var c := EncryptStep(suite, key, cipher, plain, m);
      var rest: bytes := EncryptChain(suite, key, c, m, data[BLOCK..]);
      var sealed: bytes := c + rest;
      assert sealed[..BLOCK] == c && sealed[BLOCK..] == rest;
      StepInverse(suite, key, cipher, plain, m);
      DecryptUndoesEncrypt(suite, key, c, m, data[BLOCK..]);
    }
  }

  lemma {:induction false} EncryptUndoesDecrypt(suite: Suite, key: bytes, cipher: Block, plain: Block, data: bytes)
    ensures EncryptChain(suite, key, cipher, plain, DecryptChain(suite, key, cipher, plain, data)) == data
    decreases |data|
  {
    hide EncryptStep, DecryptStep, XorBlock;
    if |data| >= BLOCK {
      var c: Block := data[..BLOCK];
      var m := DecryptStep(suite, key, cipher, plain, c);
      var rest: bytes := DecryptChain(suite, key, c, m, data[BLOCK..]);
      var plainText: bytes := m + rest;
      assert plainText[..BLOCK] == m && plainText[BLOCK..] == rest;
      StepInverse(suite, key, cipher, plain, c);
      EncryptUndoesDecrypt(suite, key, c, m, data[BLOCK..]);
    }
  }

  function IgeEncrypt(suite: Suite, key: bytes, iv: Iv, data: bytes): (r: bytes)
    ensures |r| == |data|
  {
    EncryptChain(suite, key, iv[..BLOCK], iv[BLOCK..], data)
  }

  function IgeDecrypt(suite: Suite, key: bytes, iv: Iv, data: bytes): (r: bytes)
    ensures |r| == |data|
  {
    DecryptChain(suite, key, iv[..BLOCK], iv[BLOCK..], data)
  }

  lemma IgeInverse(suite: Suite, key: bytes, iv: Iv, data: bytes)
    ensures IgeDecrypt(suite, key, iv, IgeEncrypt(suite, key, iv, data)) == data
    ensures IgeEncrypt(suite, key, iv, IgeDecrypt(suite, key, iv, data)) == data
  {
    DecryptUndoesEncrypt(suite, key, iv[..BLOCK], iv[BLOCK..], data);
    EncryptUndoesDecrypt(suite, key, iv[..BLOCK], iv[BLOCK..], data);
  }

  // ----- the equation of the mode ------------------------------------------------------------

  function BlockOf(data: bytes, i: nat): Block
    requires 16 * i + 16 <= |data|
  {
    data[16 * i..16 * i + 16]
  }

  lemma {:induction false} ChainEquation(suite: Suite, key: bytes, cipher: Block, plain: Block, data: bytes, i: nat)
    requires 16 * i + 16 <= |data|
    ensures var sealed := EncryptChain(suite, key, cipher, plain, data);
      var c, m := if i == 0 then cipher else BlockOf(sealed, i - 1), if i == 0 then plain else BlockOf(data, i - 1);
      BlockOf(sealed, i) == Xor(EncryptBlock(suite, key, Xor(BlockOf(data, i), c)), m)
    decreases i
  {
    hide Xor, EncryptBlock;
    var first := EncryptStep(suite, key, cipher, plain, data[..16]);
    var rest := EncryptChain(suite, key, first, data[..16], data[16..]);
    var sealed: bytes := first + rest;
    assert sealed == EncryptChain(suite, key, cipher, plain, data);
    if i == 0 {
      assert BlockOf(sealed, 0) == first && BlockOf(data, 0) == data[..16];
    } else {
      ChainEquation(suite, key, first, data[..16], data[16..], i - 1);
      BlockBehind(first, rest, i);
      BlockBehind(data[..16], data[16..], i);
      assert data == data[..16] + data[16..];
      if i == 1 {
        assert BlockOf(sealed, 0) == first && BlockOf(data, 0) == data[..16];
      } else {
        BlockBehind(first, rest, i - 1);
        BlockBehind(data[..16], data[16..], i - 1);
      }
    }
  }

  lemma BlockBehind(first: bytes, rest: bytes, i: nat)
    requires |first| == 16 && i > 0 && 16 * i <= |rest|
    ensures BlockOf(first + rest, i) == BlockOf(rest, i - 1)
  {
    var whole := first + rest;
    assert whole[16..] == rest;
    assert whole[16..][16 * i - 16..16 * i] == whole[16 * i..16 * i + 16];
  }

  // c[i] = E(m[i] xor c[i-1]) xor m[i-1], where the vector holds c[-1] in its first half and m[-1] in its second.
  lemma IgeEquation(suite: Suite, key: bytes, iv: Iv, data: bytes, i: nat)
    requires 16 * i + 16 <= |data|
    ensures var sealed := IgeEncrypt(suite, key, iv, data);
      var c, m := if i == 0 then iv[..16] else BlockOf(sealed, i - 1), if i == 0 then iv[16..] else BlockOf(data, i - 1);
      BlockOf(sealed, i) == Xor(EncryptBlock(suite, key, Xor(BlockOf(data, i), c)), m)
  {
    ChainEquation(suite, key, iv[..16], iv[16..], data, i);
  }

  // ----- the loops over the buffer ---------------------------------------------------------

  method EncryptBlockAt(suite: Suite, key: bytes, cipher: Block, plain: Block, data: array<byte>, at: nat)
    requires at + BLOCK <= data.Length
    modifies data
    ensures data[..] == Splice(old(data[..]), at, EncryptStep(suite, key, cipher, plain, old(data[..])[at..at + BLOCK]))
  {
    ghost var was := data[..];
    XorInto(data, at, cipher);
    ghost var mixed := XorBlock(was[at..at + BLOCK], cipher);
    assert data[at..at + BLOCK] == data[..][at..at + BLOCK] == mixed;
    Store(data, at, EncryptBlock(suite, key, data[at..at + BLOCK]));
    ghost var turned := EncryptBlock(suite, key, mixed);
    SpliceReplaces(was, at, mixed, turned);
    assert data[at..at + BLOCK] == data[..][at..at + BLOCK] == turned;
    XorInto(data, at, plain);
    SpliceReplaces(was, at, turned, XorBlock(turned, plain));
  }

  // The loop invariant: of the original was[lo..hi], the blocks before at are done in buffer and
  // chaining on from there completes the text.
  ghost predicate EncryptedUpTo(suite: Suite, key: bytes, iv: Iv, was: bytes, lo: nat, hi: nat, at: nat,
      cipher: Block, plain: Block, buffer: bytes)
  {
    && lo <= at <= hi <= |was| == |buffer|
    && buffer == Splice(was, lo, buffer[lo..at])
    && buffer[lo..at] + EncryptChain(suite, key, cipher, plain, was[at..hi]) == IgeEncrypt(suite, key, iv, was[lo..hi])
  }

  lemma EncryptBegins(suite: Suite, key: bytes, iv: Iv, was: bytes, lo: nat, hi: nat)
    requires lo <= hi <= |was|
    ensures EncryptedUpTo(suite, key, iv, was, lo, hi, lo, iv[..BLOCK], iv[BLOCK..], was)
  {
    hide EncryptChain;
    SpliceSame(was, lo, 0);
  }

  lemma EncryptContinues(suite: Suite, key: bytes, iv: Iv, was: bytes, lo: nat, hi: nat, at: nat,
      cipher: Block, plain: Block, buffer: bytes)
    requires EncryptedUpTo(suite, key, iv, was, lo, hi, at, cipher, plain, buffer) && at + BLOCK <= hi
    ensures var block: Block := buffer[at..at + BLOCK];
      var next := EncryptStep(suite, key, cipher, plain, block);
      var after := Splice(buffer, at, next);
      after[at..at + BLOCK] == next
      && EncryptedUpTo(suite, key, iv, was, lo, hi, at + BLOCK, next, block, after)
  {
    hide EncryptStep, IgeEncrypt;
    var done := buffer[lo..at];
    SpliceBeyond(was, lo, done, at, at + BLOCK);
    var block: Block := buffer[at..at + BLOCK];
    var next := EncryptStep(suite, key, cipher, plain, block);
    SpliceGrows(was, lo, done, next);
    var after := Splice(buffer, at, next);
    assert after[lo..at + BLOCK] == done + next;
    var rest := was[at..hi];
    assert block == was[at..at + BLOCK];
    assert rest[..BLOCK] == was[at..at + BLOCK];
    assert rest[BLOCK..] == was[at + BLOCK..hi];
    Regroup(done, next, EncryptChain(suite, key, next, block, was[at + BLOCK..hi]));
  }

  lemma EncryptEnds(suite: Suite, key: bytes, iv: Iv, was: bytes, lo: nat, hi: nat, at: nat,
      cipher: Block, plain: Block, buffer: bytes)
    requires EncryptedUpTo(suite, key, iv, was, lo, hi, at, cipher, plain, buffer) && at + BLOCK > hi
    ensures buffer == Splice(was, lo, IgeEncrypt(suite, key, iv, was[lo..hi]))
  {
    hide IgeEncrypt;
    SpliceUpTo(was, lo, buffer[lo..at], hi);
  }

  method AesIgeEncrypt(suite: Suite, key: bytes, iv: Iv, data: array<byte>, lo: nat, hi: nat)
    requires lo <= hi <= data.Length
    modifies data
    ensures data[..] == Splice(old(data[..]), lo, IgeEncrypt(suite, key, iv, old(data[..])[lo..hi]))
  {
    hide IgeEncrypt, EncryptedUpTo, EncryptStep, Splice;
    var previousCiphertext: Block := iv[..BLOCK];
    var previousPlaintext: Block := iv[BLOCK..];
    var at := lo;
    ghost var was := data[..];
    EncryptBegins(suite, key, iv, was, lo, hi);
    while at + BLOCK <= hi
      invariant lo <= at <= hi
      invariant EncryptedUpTo(suite, key, iv, was, lo, hi, at, previousCiphertext, previousPlaintext, data[..])
    {
      var block: Block := data[..][at..at + BLOCK];
      EncryptContinues(suite, key, iv, was, lo, hi, at, previousCiphertext, previousPlaintext, data[..]);
      EncryptBlockAt(suite, key, previousCiphertext, previousPlaintext, data, at);
      previousCiphertext, previousPlaintext := data[..][at..at + BLOCK], block;
      at := at + BLOCK;
    }
    EncryptEnds(suite, key, iv, was, lo, hi, at, previousCiphertext, previousPlaintext, data[..]);
  }

  method DecryptBlockAt(suite: Suite, key: bytes, cipher: Block, plain: Block, data: array<byte>, at: nat)
    requires at + BLOCK <= data.Length
    modifies data
    ensures data[..] == Splice(old(data[..]), at, DecryptStep(suite, key, cipher, plain, old(data[..])[at..at + BLOCK]))
  {
    ghost var was := data[..];
    XorInto(data, at, plain);
    ghost var mixed := XorBlock(was[at..at + BLOCK], plain);
    assert data[at..at + BLOCK] == data[..][at..at + BLOCK] == mixed;
    Store(data, at, DecryptBlock(suite, key, data[at..at + BLOCK]));
    ghost var turned := DecryptBlock(suite, key, mixed);
    SpliceReplaces(was, at, mixed, turned);
    assert data[at..at + BLOCK] == data[..][at..at + BLOCK] == turned;
    XorInto(data, at, cipher);
    SpliceReplaces(was, at, turned, XorBlock(turned, cipher));
  }

  // The loop invariant: of the original was[lo..hi], the blocks before at are done in buffer and
  // chaining on from there completes the text.
  ghost predicate DecryptedUpTo(suite: Suite, key: bytes, iv: Iv, was: bytes, lo: nat, hi: nat, at: nat,
      cipher: Block, plain: Block, buffer: bytes)
  {
    && lo <= at <= hi <= |was| == |buffer|
    && buffer == Splice(was, lo, buffer[lo..at])
    && buffer[lo..at] + DecryptChain(suite, key, cipher, plain, was[at..hi]) == IgeDecrypt(suite, key, iv, was[lo..hi])
  }

  lemma DecryptBegins(suite: Suite, key: bytes, iv: Iv, was: bytes, lo: nat, hi: nat)
    requires lo <= hi <= |was|
    ensures DecryptedUpTo(suite, key, iv, was, lo, hi, lo, iv[..BLOCK], iv[BLOCK..], was)
  {
    hide DecryptChain;
    SpliceSame(was, lo, 0);
  }

  lemma DecryptContinues(suite: Suite, key: bytes, iv: Iv, was: bytes, lo: nat, hi: nat, at: nat,
      cipher: Block, plain: Block, buffer: bytes)
    requires DecryptedUpTo(suite, key, iv, was, lo, hi, at, cipher, plain, buffer) && at + BLOCK <= hi
    ensures var block: Block := buffer[at..at + BLOCK];
      var next := DecryptStep(suite, key, cipher, plain, block);
      var after := Splice(buffer, at, next);
      after[at..at + BLOCK] == next
      && DecryptedUpTo(suite, key, iv, was, lo, hi, at + BLOCK, block, next, after)
  {
    hide DecryptStep, IgeDecrypt;
    var done := buffer[lo..at];
    SpliceBeyond(was, lo, done, at, at + BLOCK);
    var block: Block := buffer[at..at + BLOCK];
    var next := DecryptStep(suite, key, cipher, plain, block);
    SpliceGrows(was, lo, done, next);
    var after := Splice(buffer, at, next);
    assert after[lo..at + BLOCK] == done + next;
    var rest := was[at..hi];
    assert block == was[at..at + BLOCK];
    assert rest[..BLOCK] == was[at..at + BLOCK];
    assert rest[BLOCK..] == was[at + BLOCK..hi];
    Regroup(done, next, DecryptChain(suite, key, block, next, was[at + BLOCK..hi]));
  }

  lemma DecryptEnds(suite: Suite, key: bytes, iv: Iv, was: bytes, lo: nat, hi: nat, at: nat,
      cipher: Block, plain: Block, buffer: bytes)
    requires DecryptedUpTo(suite, key, iv, was, lo, hi, at, cipher, plain, buffer) && at + BLOCK > hi
    ensures buffer == Splice(was, lo, IgeDecrypt(suite, key, iv, was[lo..hi]))
  {
    hide IgeDecrypt;
    SpliceUpTo(was, lo, buffer[lo..at], hi);
  }

  method AesIgeDecrypt(suite: Suite, key: bytes, iv: Iv, data: array<byte>, lo: nat, hi: nat)
    requires lo <= hi <= data.Length
    modifies data
    ensures data[..] == Splice(old(data[..]), lo, IgeDecrypt(suite, key, iv, old(data[..])[lo..hi]))
  {
    hide IgeDecrypt, DecryptedUpTo, DecryptStep, Splice;
    var previousCiphertext: Block := iv[..BLOCK];
    var previousPlaintext: Block := iv[BLOCK..];
    var at := lo;
    ghost var was := data[..];
    DecryptBegins(suite, key, iv, was, lo, hi);
    while at + BLOCK <= hi
      invariant lo <= at <= hi
      invariant DecryptedUpTo(suite, key, iv, was, lo, hi, at, previousCiphertext, previousPlaintext, data[..])
    {
      var block: Block := data[..][at..at + BLOCK];
      DecryptContinues(suite, key, iv, was, lo, hi, at, previousCiphertext, previousPlaintext, data[..]);
      DecryptBlockAt(suite, key, previousCiphertext, previousPlaintext, data, at);
      previousCiphertext, previousPlaintext := block, data[..][at..at + BLOCK];
      at := at + BLOCK;
    }
    DecryptEnds(suite, key, iv, was, lo, hi, at, previousCiphertext, previousPlaintext, data[..]);
  }
}
