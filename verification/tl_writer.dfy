/** The writer over a caller-owned buffer: every write goes through WriteAll. */
module TlWriter {
  import opened Outcomes
  import opened Bytes
  import opened C = TlCodec

  // What remains of a length prefix, and of a byte string, that does not fit: the pieces written before
  // the first that is too long.
  function LengthPrefix(length: nat, room: nat): bytes {
    if length >= 254 && room >= 1 then [254] else []
  }

  function BytesPrefix(value: bytes, room: nat): bytes
    requires |value| <= MAX_BYTES_LENGTH
  {
    var header := EncodeLength(|value|);
    if |header| > room then LengthPrefix(|value|, room)
    else if |header| + |value| > room then header
    else header + value
  }

  class Writer {
    const output: array<byte>
    var position: nat
    ghost const original: bytes  // the buffer as it was handed over
    ghost var written: bytes     // everything written so far

    // The buffer holds what was written and, behind the position, what it held before.
    ghost predicate Valid()
      reads this, output
    {
      && position == |written| <= output.Length == |original|
      && output[..] == Splice(original, 0, written)
    }

    constructor (output: array<byte>)
      ensures Valid() && this.output == output && written == [] && original == output[..]
    {
      this.output := output;
      position := 0;
      original := output[..];
      written := [];
    }

    lemma Fits()
      requires Valid()
      ensures |written| <= output.Length
    {
    }

    // Writing text succeeds exactly when it fits, and then appends it.  A write that does not
    // fit may leave a prefix of the text behind.
    twostate predicate Appends(text: bytes, new r: Result<()>)
      reads this
    {
      && (r.Ok? <==> |old(written)| + |text| <= output.Length)
      && (r.Ok? ==> written == old(written) + text)
      && (r.Err? ==> r.kind == OutputTooSmall && old(written) <= written)
    }

    method WriteAll(text: bytes) returns (r: Result<()>)
      requires Valid()
      modifies this, output
      ensures Valid() && Appends(text, r)
      ensures r.Err? ==> written == old(written)
    {
      var end := position + |text|;
      if end > output.Length {
        return Err(OutputTooSmall);
      }
      Store(output, position, text);
      SpliceGrows(original, 0, written, text);
      position := end;
      written := written + text;
      return Ok(());
    }

    method WriteU8(value: byte) returns (r: Result<()>)
      requires Valid()
      modifies this, output
      ensures Valid() && Appends([value], r)
      ensures r.Err? ==> written == old(written)
    {
      r := WriteAll([value]);
    }

    method WriteU32(value: u32) returns (r: Result<()>)
      requires Valid()
      modifies this, output
      ensures Valid() && Appends(Le32(value), r)
      ensures r.Err? ==> written == old(written)
    {
      r := WriteAll(Le32(value));
    }

    method WriteI32(value: i32) returns (r: Result<()>)
      requires Valid()
      modifies this, output
      ensures Valid() && Appends(EncodeI32(value), r)
      ensures r.Err? ==> written == old(written)
    {
      r := WriteU32(FromI32(value));
    }

    method WriteU64(value: u64) returns (r: Result<()>)
      requires Valid()
      modifies this, output
      ensures Valid() && Appends(Le64(value), r)
      ensures r.Err? ==> written == old(written)
    {
      r := WriteAll(Le64(value));
    }

    method WriteI64(value: i64) returns (r: Result<()>)
      requires Valid()
      modifies this, output
      ensures Valid() && Appends(EncodeI64(value), r)
      ensures r.Err? ==> written == old(written)
    {
      r := WriteU64(FromI64(value));
    }

    method WriteLength(length: nat) returns (r: Result<()>)
      requires Valid() && length <= MAX_BYTES_LENGTH
      modifies this, output
      ensures Valid() && Appends(EncodeLength(length), r)
      ensures r.Err? ==> written == old(written) + LengthPrefix(length, output.Length - |old(written)|)
    {
      hide Valid;
      Fits();
      if length < 254 {
        r := WriteU8(length);
      } else {
        var _ :- WriteU8(254);
        r := WriteAll([length % 0x100, length / 0x100 % 0x100, length / 0x1_0000]);
      }
    }

    method WriteBytes(value: bytes) returns (r: Result<()>)
      requires Valid()
      modifies this, output
      ensures Valid()
      ensures if |value| <= MAX_BYTES_LENGTH then Appends(EncodeBytes(value), r)
              else r == Err(InvalidLength) && written == old(written)
      ensures r.Err? && |value| <= MAX_BYTES_LENGTH ==>
        written == old(written) + BytesPrefix(value, output.Length - |old(written)|)
    {
      hide EncodeLength, EncodeBytes, LengthPrefix, PaddingLength, Zeros, Valid;
      Fits();
      if |value| > MAX_BYTES_LENGTH {
        return Err(InvalidLength);
      }
      var padding := Zeros(PaddingLength((if |value| < 254 then 1 else 4) + |value|));
      EncodeBytesParts(value);
      var _ :- WriteLength(|value|);
      var _ :- WriteAll(value);
      r := WriteAll(padding);
    }
  }
}
