/** AES in counter mode: twelve bytes of salt and a four-byte block index make the counter block. */
module AesCtr {
  import opened Outcomes
  import opened Bytes
  import opened Primitives

  const BLOCK_LIMIT: nat := 0x1_0000_0000

  function CounterBlock(salt: Block, index: nat): Block {
    salt[..12] + Be(index, 4)
  }

  // The byte of key stream for position k; section 6.5 of NIST SP 800-38A.
  function KeyStream(suite: Suite, key: bytes, salt: Block, k: nat): byte {
    EncryptBlock(suite, key, CounterBlock(salt, k / BLOCK))[k % BLOCK]
  }

  function Mixed(suite: Suite, key: bytes, salt: Block, data: bytes): (r: bytes)
    ensures |r| == |data|
  {
    seq(|data|, k requires 0 <= k < |data| => XorByte(data[k], KeyStream(suite, key, salt, k)))
  }

  lemma MixedTwice(suite: Suite, key: bytes, salt: Block, data: bytes)
    ensures Mixed(suite, key, salt, Mixed(suite, key, salt, data)) == data
  {
    hide XorByte, KeyStream;
    forall k | 0 <= k < |data|
      ensures Mixed(suite, key, salt, Mixed(suite, key, salt, data))[k] == data[k]
    {
      XorByteInvolution(data[k], KeyStream(suite, key, salt, k));
    }
  }

  // Byte k is combined with byte k % 16 of an encrypted block: twelve bytes of the salt and the number of the
  // block, most significant byte first.
  lemma MixedByte(suite: Suite, key: bytes, salt: Block, data: bytes, k: nat, counter: Block)
    requires k < |data| && counter[..12] == salt[..12] && BeValue(counter[12..]) == k / 16
    ensures Mixed(suite, key, salt, data)[k] == XorByte(data[k], EncryptBlock(suite, key, counter)[k % 16])
  {
    hide XorByte, EncryptBlock, BeValue, Be;
    BeCanonical(counter[12..]);
    assert counter == counter[..12] + counter[12..];
  }

  // No counter block is used for two blocks of a document.
  lemma CountersAreDistinct(salt: Block, i: nat, j: nat)
    requires i < BLOCK_LIMIT && j < BLOCK_LIMIT && CounterBlock(salt, i) == CounterBlock(salt, j)
    ensures i == j
  {
    assert CounterBlock(salt, i)[12..] == Be(i, 4);
    assert CounterBlock(salt, j)[12..] == Be(j, 4);
    assert Pow(256, 4) == BLOCK_LIMIT;
    BeRoundTrip(i, 4);
    BeRoundTrip(j, 4);
  }

  function BlockCount(length: nat): nat {
    (length + BLOCK - 1) / BLOCK
  }

  // The loop invariant: the bytes before at are mixed, the others still as they were.
  ghost predicate MixedUpTo(suite: Suite, key: bytes, salt: Block, was: bytes, at: nat, buffer: bytes) {
    && at <= |was| == |buffer|
    && buffer[..at] == Mixed(suite, key, salt, was)[..at]
    && buffer[at..] == was[at..]
  }

  lemma MixingContinues(suite: Suite, key: bytes, salt: Block, was: bytes, index: nat, width: nat, buffer: bytes)
    requires width <= BLOCK && BLOCK * index + width <= |was|
    requires MixedUpTo(suite, key, salt, was, BLOCK * index, buffer)
    ensures var at := BLOCK * index;
      var mask := EncryptBlock(suite, key, CounterBlock(salt, index))[..width];
      MixedUpTo(suite, key, salt, was, at + width, Splice(buffer, at, Xor(buffer[at..at + width], mask)))
  {
    hide XorByte, CounterBlock, EncryptBlock;
    var at := BLOCK * index;
    var mask := EncryptBlock(suite, key, CounterBlock(salt, index))[..width];
    var mixed := Xor(buffer[at..at + width], mask);
    var after := Splice(buffer, at, mixed);
    assert after[at + width..] == buffer[at..][width..] == was[at + width..];
    forall k | 0 <= k < at + width ensures after[k] == Mixed(suite, key, salt, was)[k] {
      if k >= at {
        assert k / BLOCK == index && k % BLOCK == k - at;
        assert after[k] == mixed[k - at];
        assert buffer[k] == buffer[at..][k - at] == was[at..][k - at] == was[k];
      } else {
        assert after[k] == buffer[..at][k];
      }
    }
  }

  method ApplyAesCtr(suite: Suite, key: bytes, salt: Block, data: array<byte>, n: nat) returns (r: Result<()>)
    requires n <= data.Length
    modifies data
    ensures r.Ok? <==> n <= 16 * 0x1_0000_0000
    ensures r.Ok? ==> data[..] == Splice(old(data[..]), 0, Mixed(suite, key, salt, old(data[..])[..n]))
    ensures r.Err? ==> r.kind == LimitExceeded && data[..][n..] == old(data[..])[n..]
  {
    hide MixedUpTo, Mixed, Splice, CounterBlock, EncryptBlock;
    ghost var text, tail := data[..n], data[n..];
    var index := 0;
    MixingBegins(suite, key, salt, text);
    while BLOCK * index < n
      invariant index <= BlockCount(n) && index <= BLOCK_LIMIT
      invariant MixedUpTo(suite, key, salt, text, if BLOCK * index < n then BLOCK * index else n, data[..n])
      invariant data[n..] == tail
      decreases n - BLOCK * index
    {
      if index >= BLOCK_LIMIT {
        assert data[..][n..] == tail;
        return Err(LimitExceeded);
      }
      var at := BLOCK * index;
      var width := if n - at < BLOCK then n - at else BLOCK;
      var mask := EncryptBlock(suite, key, CounterBlock(salt, index))[..width];
      MixingContinues(suite, key, salt, text, index, width, data[..n]);
      XorPrefixInto(data, n, at, mask);
      index := index + 1;
    }
    MixingEnds(suite, key, salt, text, data[..n]);
    assert data[..] == data[..n] + data[n..];
    SplicePrefix(old(data[..]), data[..n], tail);
    return Ok(());
  }

  method XorPrefixInto(data: array<byte>, n: nat, at: nat, mask: bytes)
    requires at + |mask| <= n <= data.Length
    modifies data
    ensures data[..n] == Splice(old(data[..n]), at, Xor(old(data[..n])[at..at + |mask|], mask))
    ensures data[n..] == old(data[n..])
  {
    ghost var was := data[..];
    XorInto(data, at, mask);
    ghost var mixed := Xor(was[at..at + |mask|], mask);
    assert was[..n][at..at + |mask|] == was[at..at + |mask|];
    assert data[..n] == data[..][..n] == Splice(was, at, mixed)[..n] == Splice(was[..n], at, mixed);
    assert data[n..] == data[..][n..] == was[n..];
  }

  lemma MixingBegins(suite: Suite, key: bytes, salt: Block, text: bytes)
    ensures MixedUpTo(suite, key, salt, text, 0, text)
  {
  }

  lemma MixingEnds(suite: Suite, key: bytes, salt: Block, text: bytes, buffer: bytes)
    requires MixedUpTo(suite, key, salt, text, |text|, buffer)
    ensures buffer == Mixed(suite, key, salt, text)
  {
    hide Mixed;
    assert buffer == buffer[..|text|];
  }

  lemma SplicePrefix(was: bytes, prefix: bytes, tail: bytes)
    requires |prefix| <= |was| && tail == was[|prefix|..]
    ensures prefix + tail == Splice(was, 0, prefix)
  {
  }
}
