/**
 What the TL primitives mean as functions on byte strings.  A read takes the bytes not yet
 consumed and answers with a value and the bytes left over; a write is the string it emits.
 The classes Cursor and Writer are proved against these functions.
 */
module TlCodec {
  import opened Outcomes
  import opened Bytes

  type Reading<+T> = Result<(T, bytes)>

  const VECTOR: u32 := 0x1cb5_c415
  const MAX_BYTES_LENGTH: nat := 0x00ff_ffff

  // ----- reading ------------------------------------------------------------------------

  function Take(s: bytes, n: nat): (r: Reading<bytes>)
    ensures r.Ok? <==> n <= |s|
    ensures r.Ok? ==> r.value.0 + r.value.1 == s && |r.value.0| == n
  {
    if n <= |s| then Ok((s[..n], s[n..])) else Err(NeedMore)
  }

  function ReadU32(s: bytes): (r: Reading<u32>)
    ensures r.Ok? ==> |r.value.1| == |s| - 4
  {
    var (word, rest) :- Take(s, 4);
    Ok((U32Of(word), rest))
  }

  function ReadU64(s: bytes): (r: Reading<u64>)
    ensures r.Ok? ==> |r.value.1| == |s| - 8
  {
    var (word, rest) :- Take(s, 8);
    Ok((U64Of(word), rest))
  }

  function ReadI32(s: bytes): (r: Reading<i32>)
    ensures r.Ok? ==> |r.value.1| == |s| - 4
  {
    var (word, rest) :- ReadU32(s);
    Ok((ToI32(word), rest))
  }

  function ReadI64(s: bytes): (r: Reading<i64>)
    ensures r.Ok? ==> |r.value.1| == |s| - 8
  {
    var (word, rest) :- ReadU64(s);
    Ok((ToI64(word), rest))
  }

  // Consumes one constructor identifier, which has to be the expected one.
  function Expect(s: bytes, id: u32): (r: Result<bytes>)
    ensures r.Ok? ==> |r.value| == |s| - 4
  {
    var (actual, rest) :- ReadU32(s);
    if actual == id then Ok(rest) else Err(UnexpectedConstructor)
  }

  function Finish(s: bytes): Result<()> {
    if s == [] then Ok(()) else Err(InvalidLength)
  }

  // The zero bytes that bring a header and a value to a multiple of four.
  function PaddingLength(n: nat): (r: nat)
    ensures r < 4 && (n + r) % 4 == 0
  {
    (4 - n % 4) % 4
  }

  // The length prefix of a TL byte string: its value and its own width.
  function ReadLength(s: bytes): Reading<(nat, nat)> {
    var (first, rest) :- Take(s, 1);
    if first[0] < 254 then Ok(((first[0], 1), rest))
    else if first[0] == 254 then
      var (wide, rest) :- Take(rest, 3);
      var length := LeValue(wide);
      if length < 254 then Err(InvalidLength) else Ok(((length, 4), rest))
    else Err(InvalidLength)
  }

  function ReadBytes(s: bytes): (r: Reading<bytes>)
    ensures r.Ok? ==> |r.value.1| < |s|
  {
    var ((length, header), rest) :- ReadLength(s);
    var (value, rest) :- Take(rest, length);
    var (padding, rest) :- Take(rest, PaddingLength(header + length));
    if padding == Zeros(|padding|) then Ok((value, rest)) else Err(InvalidPacket)
  }

  function ReadVectorLength(s: bytes, maximum: u32): Reading<u32> {
    var rest :- Expect(s, VECTOR);
    var (count, rest) :- ReadU32(rest);
    if count > maximum then Err(LimitExceeded) else Ok((count, rest))
  }

  // ----- how far an attempt gets ----------------------------------------------------------

  // What is left when reading is tried, whether or not it succeeds: a read consists of takes, and the
  // first one that finds too few bytes takes none.
  function TakeLeaves(s: bytes, n: nat): bytes {
    if n <= |s| then s[n..] else s
  }

  function LengthLeaves(s: bytes): bytes {
    var rest := TakeLeaves(s, 1);
    if |s| >= 1 && s[0] == 254 then TakeLeaves(rest, 3) else rest
  }

  function BytesLeave(s: bytes): bytes {
    match ReadLength(s)
    case Err(_) => LengthLeaves(s)
    case Ok(((length, header), rest)) =>
      if |rest| < length then rest else TakeLeaves(rest[length..], PaddingLength(header + length))
  }

  function VectorLengthLeaves(s: bytes): bytes {
    if Expect(s, VECTOR).Ok? then TakeLeaves(Expect(s, VECTOR).value, 4) else TakeLeaves(s, 4)
  }

  // ----- writing ------------------------------------------------------------------------

  function EncodeI32(value: i32): bytes {
    Le32(FromI32(value))
  }

  function EncodeI64(value: i64): bytes {
    Le64(FromI64(value))
  }

  function EncodeLength(length: nat): bytes
    requires length <= MAX_BYTES_LENGTH
  {
    if length < 254 then [length]
    else [254, length % 0x100, length / 0x100 % 0x100, length / 0x1_0000]
  }

  function EncodeBytes(value: bytes): (text: bytes)
    requires |value| <= MAX_BYTES_LENGTH
    ensures |text| > |value| && |text| % 4 == 0
  {
    var header := EncodeLength(|value|);
    header + value + Zeros(PaddingLength(|header| + |value|))
  }

  lemma EncodeBytesParts(value: bytes)
    requires |value| <= MAX_BYTES_LENGTH
    ensures EncodeBytes(value) == EncodeLength(|value|) + value
                                  + Zeros(PaddingLength((if |value| < 254 then 1 else 4) + |value|))
  {
    hide PaddingLength;
  }

  // ----- the forms in bytes ---------------------------------------------------------------

  // Up to 253 bytes follow one byte with their number, more follow the byte 254 and three with their number;
  // zeros bring the whole to a multiple of four.
  lemma ByteStringInBytes(value: bytes)
    requires |value| <= 0xff_ffff
    ensures var text := EncodeBytes(value);
      var front := if |value| <= 253 then 1 else 4;
      && |text| % 4 == 0 && front + |value| <= |text| < front + |value| + 4
      && (if |value| <= 253 then text[0] == |value|
          else text[0] == 254 && text[1] as int + 0x100 * text[2] as int + 0x1_0000 * text[3] as int == |value|)
      && text[front..front + |value|] == value
      && forall i :: front + |value| <= i < |text| ==> text[i] == 0
  {
    var text := EncodeBytes(value);
    var header := EncodeLength(|value|);
    var front := |header|;
    var padding := Zeros(PaddingLength(front + |value|));
    assert text == header + (value + padding);
    assert text[front..][..|value|] == value;
    forall i | front + |value| <= i < |text| ensures text[i] == 0 {
      assert text[i] == padding[i - front - |value|];
    }
  }

  // Signed words are written in two's complement.
  lemma SignedWords(x: i32, y: i64)
    ensures LeValue(EncodeI32(x)) == x % 0x1_0000_0000
    ensures LeValue(EncodeI64(y)) == y % 0x1_0000_0000_0000_0000
  {
    hide LeValue, Le;
    U32RoundTrip(FromI32(x));
    U64RoundTrip(FromI64(y));
  }

  // ----- a read undoes the write --------------------------------------------------------

  lemma TakePrefix(value: bytes, rest: bytes)
    ensures Take(value + rest, |value|) == Ok((value, rest))
  {
    assert (value + rest)[..|value|] == value;
    assert (value + rest)[|value|..] == rest;
  }

  lemma ReadU32AfterWrite(value: u32, rest: bytes)
    ensures ReadU32(Le32(value) + rest) == Ok((value, rest))
  {
    TakePrefix(Le32(value), rest);
    U32RoundTrip(value);
  }

  lemma ReadU64AfterWrite(value: u64, rest: bytes)
    ensures ReadU64(Le64(value) + rest) == Ok((value, rest))
  {
    TakePrefix(Le64(value), rest);
    U64RoundTrip(value);
  }

  lemma ReadI32AfterWrite(value: i32, rest: bytes)
    ensures ReadI32(EncodeI32(value) + rest) == Ok((value, rest))
  {
    ReadU32AfterWrite(FromI32(value), rest);
  }

  lemma ReadI64AfterWrite(value: i64, rest: bytes)
    ensures ReadI64(EncodeI64(value) + rest) == Ok((value, rest))
  {
    ReadU64AfterWrite(FromI64(value), rest);
  }

  lemma ExpectAfterWrite(id: u32, rest: bytes)
    ensures Expect(Le32(id) + rest, id) == Ok(rest)
  {
    ReadU32AfterWrite(id, rest);
  }

  lemma ReadLengthAfterWrite(length: nat, rest: bytes)
    requires length <= MAX_BYTES_LENGTH
    ensures ReadLength(EncodeLength(length) + rest) == Ok(((length, |EncodeLength(length)|), rest))
  {
    var s := EncodeLength(length) + rest;
    if length < 254 {
      TakePrefix([length], rest);
    } else {
      var wide := [length % 0x100, length / 0x100 % 0x100, length / 0x1_0000];
      ThreeByteLength(wide);
      assert s == [254] + (wide + rest);
      TakePrefix([254], wide + rest);
      TakePrefix(wide, rest);
    }
  }

  lemma ReadBytesAfterWrite(value: bytes, rest: bytes)
    requires |value| <= MAX_BYTES_LENGTH
    ensures ReadBytes(EncodeBytes(value) + rest) == Ok((value, rest))
  {
    var header := EncodeLength(|value|);
    var padding := Zeros(PaddingLength(|header| + |value|));
    assert EncodeBytes(value) + rest == header + (value + (padding + rest));
    ReadLengthAfterWrite(|value|, value + (padding + rest));
    TakePrefix(value, padding + rest);
    TakePrefix(padding, rest);
  }

  // ----- and nothing but the written form is read ----------------------------------------

  lemma ReadU32IsCanonical(s: bytes)
    requires ReadU32(s).Ok?
    ensures s == Le32(ReadU32(s).value.0) + ReadU32(s).value.1
  {
    U32Canonical(s[..4]);
  }

  lemma ReadU64IsCanonical(s: bytes)
    requires ReadU64(s).Ok?
    ensures s == Le64(ReadU64(s).value.0) + ReadU64(s).value.1
  {
    U64Canonical(s[..8]);
  }

  lemma ReadI32IsCanonical(s: bytes)
    requires ReadI32(s).Ok?
    ensures s == EncodeI32(ReadI32(s).value.0) + ReadI32(s).value.1
  {
    ReadU32IsCanonical(s);
  }

  lemma ReadI64IsCanonical(s: bytes)
    requires ReadI64(s).Ok?
    ensures s == EncodeI64(ReadI64(s).value.0) + ReadI64(s).value.1
  {
    ReadU64IsCanonical(s);
  }

  lemma ThreeByteLength(wide: bytes)
    requires |wide| == 3
    ensures LeValue(wide) == wide[0] as int + 0x100 * wide[1] as int + 0x1_0000 * wide[2] as int
  {
    var tail := wide[1..];
    assert LeValue(tail[1..]) == tail[1];
  }

  lemma ThreeDigits(a: byte, b: byte, c: byte)
    ensures var n := a as int + 0x100 * b as int + 0x1_0000 * c as int;
      n % 0x100 == a && n / 0x100 % 0x100 == b && n / 0x1_0000 == c
  {
    var n := a as int + 0x100 * b as int + 0x1_0000 * c as int;
    assert n / 0x100 == b as int + 0x100 * c as int;
  }

  lemma LongLengthIsCanonical(wide: bytes)
    requires |wide| == 3 && LeValue(wide) >= 254
    ensures LeValue(wide) <= MAX_BYTES_LENGTH && EncodeLength(LeValue(wide)) == [254, wide[0], wide[1], wide[2]]
  {
    hide LeValue;
    ThreeByteLength(wide);
    ThreeDigits(wide[0], wide[1], wide[2]);
  }

  lemma ReadLengthIsCanonical(s: bytes)
    requires ReadLength(s).Ok?
    ensures var ((length, header), rest) := ReadLength(s).value;
      length <= MAX_BYTES_LENGTH && header == |EncodeLength(length)| && s == EncodeLength(length) + rest
  {
    hide LeValue;
    if s[0] == 254 {
      var wide := s[1..][..3];
      LongLengthIsCanonical(wide);
      hide EncodeLength;
      assert s == [s[0], s[1], s[2], s[3]] + s[1..][3..];
    }
  }

  lemma ReadBytesIsCanonical(s: bytes)
    requires ReadBytes(s).Ok?
    ensures var (value, rest) := ReadBytes(s).value;
      |value| <= MAX_BYTES_LENGTH && s == EncodeBytes(value) + rest
  {
    ReadLengthIsCanonical(s);
    var ((length, header), tail) := ReadLength(s).value;
    var (value, tail') := Take(tail, length).value;
    var (padding, rest) := Take(tail', PaddingLength(header + length)).value;
    RegroupFour(EncodeLength(length), value, padding, rest);
  }

  lemma RegroupFour(a: bytes, b: bytes, c: bytes, d: bytes)
    ensures a + (b + (c + d)) == a + b + c + d
  {
  }

  // The header of a vector: its identifier, and a count up to the limit.
  lemma VectorHeaderExactly(s: bytes, maximum: u32, count: u32, rest: bytes)
    ensures ReadVectorLength(s, maximum) == Ok((count, rest))
       <==> count <= maximum && s == Le32(0x1cb5_c415) + Le32(count) + rest
    ensures count > maximum && s == Le32(0x1cb5_c415) + Le32(count) + rest ==> ReadVectorLength(s, maximum) == Err(LimitExceeded)
  {
    hide Le32, ReadU32;
    Regroup(Le32(VECTOR), Le32(count), rest);
    ReadU32AfterWrite(VECTOR, Le32(count) + rest);
    ReadU32AfterWrite(count, rest);
    if ReadVectorLength(s, maximum).Ok? {
      ReadU32IsCanonical(s);
      ReadU32IsCanonical(ReadU32(s).value.1);
    }
  }

  // ----- lists of byte strings decode in one way only --------------------------------------

  ghost predicate Writable(fields: seq<bytes>) {
    forall i :: 0 <= i < |fields| ==> |fields[i]| <= MAX_BYTES_LENGTH
  }

  function EncodeFields(fields: seq<bytes>): bytes
    requires Writable(fields)
  {
    if fields == [] then [] else EncodeBytes(fields[0]) + EncodeFields(fields[1..])
  }

  // Prefix-freeness: of two lists whose encodings start the same text, the shorter is a prefix of the
  // longer, so with nothing behind them the lists are equal.
  lemma {:induction false} FieldsDecodeUniquely(a: seq<bytes>, b: seq<bytes>, restA: bytes, restB: bytes)
    requires Writable(a) && Writable(b) && |a| <= |b|
    requires EncodeFields(a) + restA == EncodeFields(b) + restB
    ensures a <= b && restA == EncodeFields(b[|a|..]) + restB
    ensures restA == [] ==> a == b
  {
    hide EncodeBytes, ReadBytes;
    if a == [] {
      assert restA == EncodeFields(a) + restA;
      assert b[0..] == b;
    } else {
      FirstFieldDecodes(a, restA);
      FirstFieldDecodes(b, restB);
      FieldsDecodeUniquely(a[1..], b[1..], restA, restB);
      assert a == [a[0]] + a[1..] && b == [b[0]] + b[1..];
      assert b[1..][|a| - 1..] == b[|a|..];
    }
  }

  lemma FirstFieldDecodes(fields: seq<bytes>, rest: bytes)
    requires Writable(fields) && fields != []
    ensures ReadBytes(EncodeFields(fields) + rest) == Ok((fields[0], EncodeFields(fields[1..]) + rest))
  {
    hide EncodeBytes, ReadBytes;
    var tail := EncodeFields(fields[1..]) + rest;
    Regroup(EncodeBytes(fields[0]), EncodeFields(fields[1..]), rest);
    ReadBytesAfterWrite(fields[0], tail);
  }
}
