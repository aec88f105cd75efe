/** The bounds-checked reader: every read goes through Take, which advances the position. */
module TlCursor {
  import opened Outcomes
  import opened Bytes
  import opened C = TlCodec

  // A method's answer r and, on success, the bytes it left behind are those of the reading it implements.
  ghost predicate Answers<T>(reading: Reading<T>, r: Result<T>, left: bytes) {
    match reading
    case Ok((value, rest)) => r == Ok(value) && left == rest
    case Err(kind) => r == Err(kind)
  }

  method IsZero(b: bytes) returns (zero: bool)
    ensures zero <==> b == Zeros(|b|)
  {
    var i := 0;
    while i < |b|
      invariant 0 <= i <= |b|
      invariant forall j :: 0 <= j < i ==> b[j] == 0
    {
      if b[i] != 0 {
        assert Zeros(|b|)[i] == 0;
        return false;
      }
      i := i + 1;
    }
    return true;
  }

  class Cursor {
    const input: bytes
    var position: nat

    ghost predicate Valid()
      reads this
    {
      position <= |input|
    }

    function Remaining(): (r: bytes)
      requires Valid()
      reads this
      ensures |r| == |input| - position
    {
      input[position..]
    }

    constructor (input: bytes)
      ensures Valid() && this.input == input && position == 0 && Remaining() == input
    {
      this.input := input;
      position := 0;
    }

    method Take(length: nat) returns (r: Result<bytes>)
      requires Valid()
      modifies this
      ensures Valid() && Answers(C.Take(old(Remaining()), length), r, Remaining())
      ensures position == old(position) + if r.Ok? then length else 0
      ensures Remaining() == C.TakeLeaves(old(Remaining()), length)
    {
      var end := position + length;
      if end > |input| {
        return Err(NeedMore);
      }
      var taken := input[position..end];
      position := end;
      assert taken == old(Remaining())[..length];
      assert Remaining() == old(Remaining())[length..];
      return Ok(taken);
    }

    method ReadU8() returns (r: Result<byte>)
      requires Valid()
      modifies this
      ensures Valid()
      ensures match C.Take(old(Remaining()), 1)
              case Ok((b, rest)) => r == Ok(b[0]) && Remaining() == rest
              case Err(kind) => r == Err(kind)
      ensures Remaining() == C.TakeLeaves(old(Remaining()), 1)
    {
      var b :- Take(1);
      return Ok(b[0]);
    }

    method ReadU32() returns (r: Result<u32>)
      requires Valid()
      modifies this
      ensures Valid() && Answers(C.ReadU32(old(Remaining())), r, Remaining())
      ensures Remaining() == C.TakeLeaves(old(Remaining()), 4)
    {
      var word :- Take(4);
      return Ok(U32Of(word));
    }

    method ReadI32() returns (r: Result<i32>)
      requires Valid()
      modifies this
      ensures Valid() && Answers(C.ReadI32(old(Remaining())), r, Remaining())
      ensures Remaining() == C.TakeLeaves(old(Remaining()), 4)
    {
      var word :- ReadU32();
      return Ok(ToI32(word));
    }

    method ReadU64() returns (r: Result<u64>)
      requires Valid()
      modifies this
      ensures Valid() && Answers(C.ReadU64(old(Remaining())), r, Remaining())
      ensures Remaining() == C.TakeLeaves(old(Remaining()), 8)
    {
      var word :- Take(8);
      return Ok(U64Of(word));
    }

    method ExpectConstructor(expected: u32) returns (r: Result<()>)
      requires Valid()
      modifies this
      ensures Valid()
      ensures match C.Expect(old(Remaining()), expected)
              case Ok(rest) => r == Ok(()) && Remaining() == rest
              case Err(kind) => r == Err(kind)
      ensures Remaining() == C.TakeLeaves(old(Remaining()), 4)
    {
      var actual :- ReadU32();
      return if actual == expected then Ok(()) else Err(UnexpectedConstructor);
    }

    method ReadLength() returns (r: Result<(nat, nat)>)
      requires Valid()
      modifies this
      ensures Valid() && Answers(C.ReadLength(old(Remaining())), r, Remaining())
      ensures Remaining() == C.LengthLeaves(old(Remaining()))
    {
      var first :- ReadU8();
      if first < 254 {
        return Ok((first, 1));
      } else if first == 254 {
        var wide :- Take(3);
        var length := LeValue(wide);
        return if length < 254 then Err(InvalidLength) else Ok((length, 4));
      } else {
        return Err(InvalidLength);
      }
    }

    method ReadBytes() returns (r: Result<bytes>)
      requires Valid()
      modifies this
      ensures Valid() && Answers(C.ReadBytes(old(Remaining())), r, Remaining())
      ensures Remaining() == C.BytesLeave(old(Remaining()))
    {
      hide C.ReadLength, C.LengthLeaves, PaddingLength, Remaining, Zeros;
      var prefix :- ReadLength();
      var value :- Take(prefix.0);
      var padding :- Take(PaddingLength(prefix.1 + prefix.0));
      var zero := IsZero(padding);
      return if zero then Ok(value) else Err(InvalidPacket);
    }

    method ReadVectorLength(maximum: u32) returns (r: Result<u32>)
      requires Valid()
      modifies this
      ensures Valid() && Answers(C.ReadVectorLength(old(Remaining()), maximum), r, Remaining())
      ensures Remaining() == C.VectorLengthLeaves(old(Remaining()))
    {
      var _ :- ExpectConstructor(VECTOR);
      var count :- ReadU32();
      return if count > maximum then Err(LimitExceeded) else Ok(count);
    }

    method Finish() returns (r: Result<()>)
      requires Valid()
      ensures r == C.Finish(Remaining())
    {
      return if position == |input| then Ok(()) else Err(InvalidLength);
    }
  }
}
