/**
 The external primitives: two hash functions and a 16-byte block cipher.  Nothing is known of
 them but the sizes of their results and that block decryption and encryption are inverse.
 */
module Primitives {
  import opened Bytes

  const BLOCK: nat := 16

  type Block = b: bytes | |b| == 16 witness Zeros(16)

  datatype Oracles = Oracles(
    sha1: bytes -> bytes,
    sha256: bytes -> bytes,
    encrypt: (bytes, Block) -> Block,
    decrypt: (bytes, Block) -> Block
  )

  ghost predicate Lawful(o: Oracles) {
    && (forall message :: |o.sha1(message)| == 20)
    && (forall message :: |o.sha256(message)| == 32)
    && (forall key, block :: o.decrypt(key, o.encrypt(key, block)) == block)
    && (forall key, block :: o.encrypt(key, o.decrypt(key, block)) == block)
  }

  const CONSTANT_HASHES := Oracles(_ => Zeros(20), _ => Zeros(32), (_, block) => block, (_, block) => block)

  type Suite = o: Oracles | Lawful(o) witness CONSTANT_HASHES

  function Sha1(suite: Suite, message: bytes): (digest: bytes)
    ensures |digest| == 20
  {
    suite.sha1(message)
  }

  function Sha256(suite: Suite, message: bytes): (digest: bytes)
    ensures |digest| == 32
  {
    suite.sha256(message)
  }

  function EncryptBlock(suite: Suite, key: bytes, block: Block): Block {
    suite.encrypt(key, block)
  }

  function DecryptBlock(suite: Suite, key: bytes, block: Block): Block {
    suite.decrypt(key, block)
  }

  lemma BlockInverse(suite: Suite, key: bytes, block: Block)
    ensures DecryptBlock(suite, key, EncryptBlock(suite, key, block)) == block
    ensures EncryptBlock(suite, key, DecryptBlock(suite, key, block)) == block
  {
  }
}
