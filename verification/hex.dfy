/** Hexadecimal text: written in lower case, read in either case. */
module Hex {
  import opened Outcomes
  import opened Bytes
  import opened TlWriter

  function Digit(value: nat): byte
    requires value < 16
  {
    if value < 10 then 48 + value else 87 + value
  }

  function DigitValue(digit: byte): Option<nat> {
    if 48 <= digit <= 57 then Some(digit - 48)
    else if 97 <= digit <= 102 then Some(digit - 87)
    else if 65 <= digit <= 70 then Some(digit - 55)
    else None
  }

  function Text(data: bytes): (text: bytes)
    ensures |text| == 2 * |data|
  {
    if data == [] then [] else [Digit(data[0] / 16), Digit(data[0] % 16)] + Text(data[1..])
  }

  // Reads pairs of digits up to the end of the text.
  function Pairs(text: bytes): (r: Result<bytes>)
    requires |text| % 2 == 0
    ensures r.Ok? ==> 2 * |r.value| == |text|
    ensures r.Err? ==> r.kind == InvalidPacket
  {
    if text == [] then Ok([])
    else
      match (DigitValue(text[0]), DigitValue(text[1]))
      case (Some(high), Some(low)) =>
        assert 16 * high + low < 256;
        var rest :- Pairs(text[2..]);
        Ok([16 * high + low] + rest)
      case _ => Err(InvalidPacket)
  }

  // The values of the pairs in front of the first that is not a number.
  function GoodPairs(text: bytes): (r: bytes)
    ensures 2 * |r| <= |text|
  {
    if |text| < 2 then []
    else
      match (DigitValue(text[0]), DigitValue(text[1]))
      case (Some(high), Some(low)) =>
        assert 16 * high + low < 256;
        [16 * high + low] + GoodPairs(text[2..])
      case _ => []
  }

  function Decode(text: bytes, n: nat): Result<bytes> {
    if |text| != 2 * n then Err(InvalidLength) else Pairs(text)
  }

  function LowerDigit(digit: byte): byte {
    if 65 <= digit <= 70 then digit + 32 else digit
  }

  function Lower(text: bytes): (r: bytes)
    ensures |r| == |text|
  {
    seq(|text|, i requires 0 <= i < |text| => LowerDigit(text[i]))
  }

  lemma DigitsAreCanonical(digit: byte, value: nat)
    requires value < 16
    ensures DigitValue(digit) == Some(value) <==> LowerDigit(digit) == Digit(value)
  {
  }

  // A text decodes to the given data exactly when, up to the case of its letters, it is what would
  // be written for that data.
  lemma {:induction false} DecodesExactlyWhatIsWritten(text: bytes, data: bytes)
    ensures Decode(text, |data|) == Ok(data) <==> Lower(text) == Text(data)
  {
    if |text| == 2 * |data| && data != [] {
      var high, low := data[0] / 16, data[0] % 16;
      DigitsAreCanonical(text[0], high);
      DigitsAreCanonical(text[1], low);
      DecodesExactlyWhatIsWritten(text[2..], data[1..]);
      assert Lower(text) == [LowerDigit(text[0]), LowerDigit(text[1])] + Lower(text[2..]);
      assert Text(data)[2..] == Text(data[1..]);
      assert Lower(text)[2..] == Lower(text[2..]);
      PairsSplit(text, data);
    } else if |text| == 2 * |data| {
      assert Lower(text) == Text(data);
    }
  }

  lemma PairsSplit(text: bytes, data: bytes)
    requires |text| == 2 * |data| && data != []
    ensures Pairs(text) == Ok(data)
       <==> DigitValue(text[0]) == Some(data[0] / 16) && DigitValue(text[1]) == Some(data[0] % 16)
            && Pairs(text[2..]) == Ok(data[1..])
  {
    assert data == [data[0]] + data[1..];
    assert data[0] == 16 * (data[0] / 16) + data[0] % 16;
  }

  lemma {:induction false} WrittenTextIsLower(data: bytes)
    ensures Lower(Text(data)) == Text(data)
  {
    if data != [] {
      WrittenTextIsLower(data[1..]);
      assert Lower(Text(data)) == [Digit(data[0] / 16), Digit(data[0] % 16)] + Lower(Text(data[1..]));
    }
  }

  lemma DecodeAfterText(data: bytes)
    ensures Decode(Text(data), |data|) == Ok(data)
  {
    WrittenTextIsLower(data);
    DecodesExactlyWhatIsWritten(Text(data), data);
  }

  // Two digits for every byte, the upper one first.
  lemma {:induction false} TextByDigits(data: bytes, i: nat)
    requires i < |data|
    ensures Text(data)[2 * i] == "0123456789abcdef"[data[i] / 16] as int
    ensures Text(data)[2 * i + 1] == "0123456789abcdef"[data[i] % 16] as int
    decreases i
  {
    DigitsInBytes(data[i] / 16);
    DigitsInBytes(data[i] % 16);
    hide Digit;
    if i > 0 {
      TextByDigits(data[1..], i - 1);
    }
  }

  lemma DigitsInBytes(value: nat)
    requires value < 16
    ensures Digit(value) == "0123456789abcdef"[value] as int
  {
  }

  // ----- the loops -----------------------------------------------------------------------------

  lemma {:induction false} TextOfConcat(a: bytes, b: bytes)
    ensures Text(a + b) == Text(a) + Text(b)
  {
    if a == [] {
      assert a + b == b;
    } else {
      TextOfConcat(a[1..], b);
      assert (a + b)[1..] == a[1..] + b;
    }
  }

  lemma TextOfByte(b: byte)
    ensures Text([b]) == [Digit(b / 16)] + [Digit(b % 16)]
  {
    assert [b][1..] == [];
  }

  lemma TextGrows(data: bytes, i: nat)
    requires i < |data|
    ensures Text(data[..i + 1]) == Text(data[..i]) + [Digit(data[i] / 16)] + [Digit(data[i] % 16)]
  {
    TextOfByte(data[i]);
    hide Text, Digit;
    TextOfConcat(data[..i], [data[i]]);
    assert data[..i + 1] == data[..i] + [data[i]];
  }

  method WriteByte(writer: Writer, value: byte) returns (r: Result<()>)
    requires writer.Valid()
    modifies writer, writer.output
    ensures writer.Valid() && writer.Appends([Digit(value / 16)] + [Digit(value % 16)], r)
  {
    hide Writer.Valid, Digit;
    var _ :- writer.WriteU8(Digit(value / 16));
    r := writer.WriteU8(Digit(value % 16));
  }

  method Write(writer: Writer, data: bytes) returns (r: Result<()>)
    requires writer.Valid()
    modifies writer, writer.output
    ensures writer.Valid() && writer.Appends(Text(data), r)
  {
    hide Writer.Valid, Text, Digit;
    var i := 0;
    assert data[..0] == [];
    EmptyText();
    writer.Fits();
    while i < |data|
      invariant 0 <= i <= |data|
      invariant writer.Valid()
      invariant writer.written == old(writer.written) + Text(data[..i])
      invariant |writer.written| <= writer.output.Length
    {
      TextGrows(data, i);
      var _ :- WriteByte(writer, data[i]);
      i := i + 1;
    }
    assert data[..i] == data;
    return Ok(());
  }

  lemma EmptyText()
    ensures Text([]) == []
  {
  }

  // Reading all pairs succeeds exactly when the good ones reach the end.
  lemma {:induction false} PairsAreGood(text: bytes)
    requires |text| % 2 == 0
    ensures Pairs(text) == if 2 * |GoodPairs(text)| == |text| then Ok(GoodPairs(text)) else Err(InvalidPacket)
  {
    hide DigitValue;
    if text != [] {
      PairsAreGood(text[2..]);
    }
  }

  // While the pairs are good, the next one decides whether there is one more.
  lemma {:induction false} GoodPairAt(text: bytes, i: nat)
    requires 2 * i + 2 <= |text| && i <= |GoodPairs(text)|
    ensures match (DigitValue(text[2 * i]), DigitValue(text[2 * i + 1]))
            case (Some(high), Some(low)) => i < |GoodPairs(text)| && GoodPairs(text)[i] == 16 * high + low
            case _ => i == |GoodPairs(text)|
    decreases i
  {
    hide DigitValue;
    if i > 0 {
      GoodPairAt(text[2..], i - 1);
    }
  }

  // The loop invariant: the first i pairs are good and stand decoded at the front of the buffer.
  ghost predicate DecodedUpTo(text: bytes, i: nat, was: bytes, buffer: bytes) {
    && i <= |GoodPairs(text)| <= |was|
    && buffer == Splice(was, 0, GoodPairs(text)[..i])
  }

  lemma DecodingContinues(text: bytes, i: nat, was: bytes, buffer: bytes)
    requires DecodedUpTo(text, i, was, buffer) && i < |GoodPairs(text)|
    ensures DecodedUpTo(text, i + 1, was, Splice(buffer, i, [GoodPairs(text)[i]]))
  {
    var good := GoodPairs(text);
    hide GoodPairs, Splice;
    SpliceGrows(was, 0, good[..i], [good[i]]);
    assert good[..i + 1] == good[..i] + [good[i]];
  }

  lemma DecodingBegins(text: bytes, n: nat, was: bytes)
    requires 2 * n == |text| && n <= |was|
    ensures DecodedUpTo(text, 0, was, was)
  {
    hide GoodPairs;
    assert Splice(was, 0, []) == was;
  }

  lemma DecodingEnds(text: bytes, was: bytes, buffer: bytes)
    requires DecodedUpTo(text, |GoodPairs(text)|, was, buffer)
    ensures buffer == Splice(was, 0, GoodPairs(text))
  {
    hide GoodPairs;
    assert GoodPairs(text)[..|GoodPairs(text)|] == GoodPairs(text);
  }

  // Decodes a text into the first n bytes of a buffer; a bad pair ends the work where it stands.
  method DecodeInto(text: bytes, output: array<byte>, n: nat) returns (r: Result<()>)
    requires n <= output.Length
    modifies output
    ensures r == match Decode(text, n) case Ok(_) => Ok(()) case Err(kind) => Err(kind)
    ensures output[..] == if |text| == 2 * n then Splice(old(output[..]), 0, GoodPairs(text)) else old(output[..])
    ensures Decode(text, n).Ok? ==> GoodPairs(text) == Decode(text, n).value
  {
    hide Pairs, Splice, DigitValue, DecodedUpTo, GoodPairs;
    if |text| != 2 * n {
      return Err(InvalidLength);
    }
    PairsAreGood(text);
    ghost var was := output[..];
    DecodingBegins(text, n, was);
    var i := 0;
    while i < n
      invariant 0 <= i <= n && i <= |GoodPairs(text)|
      invariant DecodedUpTo(text, i, was, output[..])
    {
      GoodPairAt(text, i);
      match (DigitValue(text[2 * i]), DigitValue(text[2 * i + 1])) {
        case (Some(high), Some(low)) =>
          DecodingContinues(text, i, was, output[..]);
          Store(output, i, [16 * high + low]);
        case _ =>
          DecodingEnds(text, was, output[..]);
          return Err(InvalidPacket);
      }
      i := i + 1;
    }
    DecodingEnds(text, was, output[..]);
    return Ok(());
  }
}
