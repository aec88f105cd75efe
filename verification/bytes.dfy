/** Bytes, exclusive or, and the little- and big-endian forms of a natural number. */
module Bytes {

  type byte = x: int | 0 <= x < 256
  type bytes = seq<byte>
  type u32 = x: int | 0 <= x < 0x1_0000_0000
  type u64 = x: int | 0 <= x < 0x1_0000_0000_0000_0000
  type i32 = x: int | -0x8000_0000 <= x < 0x8000_0000
  type i64 = x: int | -0x8000_0000_0000_0000 <= x < 0x8000_0000_0000_0000

  function Pow(base: nat, exponent: nat): nat
    decreases exponent, base
  {
    if exponent == 0 then 1 else base * Pow(base, exponent - 1)
  }

  function Zeros(n: nat): (r: bytes)
    ensures |r| == n
  {
    seq(n, _ => 0)
  }

  // ----- two's complement ---------------------------------------------------------------

  function FromI32(value: i32): u32 {
    if value < 0 then value + 0x1_0000_0000 else value
  }

  function ToI32(word: u32): i32 {
    if word < 0x8000_0000 then word else word - 0x1_0000_0000
  }

  function FromI64(value: i64): u64 {
    if value < 0 then value + 0x1_0000_0000_0000_0000 else value
  }

  function ToI64(word: u64): i64 {
    if word < 0x8000_0000_0000_0000 then word else word - 0x1_0000_0000_0000_0000
  }

  // ----- little endian ------------------------------------------------------------------

  function Le(value: nat, width: nat): (r: bytes)
    ensures |r| == width
    decreases value, width
  {
    if width == 0 then [] else [value % 256] + Le(value / 256, width - 1)
  }

  function LeValue(b: bytes): nat {
    if |b| == 0 then 0 else b[0] + 256 * LeValue(b[1..])
  }

  lemma {:induction false} LeRoundTrip(value: nat, width: nat)
    requires value < Pow(256, width)
    ensures LeValue(Le(value, width)) == value
    decreases width
  {
    if width != 0 {
      var r := Le(value, width);
      assert r[1..] == Le(value / 256, width - 1);
      LeRoundTrip(value / 256, width - 1);
    }
  }

  lemma {:induction false} LeCanonical(b: bytes)
    ensures LeValue(b) < Pow(256, |b|)
    ensures Le(LeValue(b), |b|) == b
  {
    if |b| != 0 {
      LeCanonical(b[1..]);
      assert LeValue(b) % 256 == b[0] && LeValue(b) / 256 == LeValue(b[1..]);
    }
  }

  function Le32(value: u32): (r: bytes)
    ensures |r| == 4
  {
    Le(value, 4)
  }

  function Le64(value: u64): (r: bytes)
    ensures |r| == 8
  {
    Le(value, 8)
  }

  function U32Of(b: bytes): u32
    requires |b| == 4
  {
    LeCanonical(b);
    assert Pow(256, 4) == 0x1_0000_0000;
    LeValue(b)
  }

  function U64Of(b: bytes): u64
    requires |b| == 8
  {
    LeCanonical(b);
    assert Pow(256, 8) == 0x1_0000_0000_0000_0000;
    LeValue(b)
  }

  lemma U32RoundTrip(value: u32)
    ensures U32Of(Le32(value)) == value
  {
    assert Pow(256, 4) == 0x1_0000_0000;
    LeRoundTrip(value, 4);
  }

  lemma U64RoundTrip(value: u64)
    ensures U64Of(Le64(value)) == value
  {
    assert Pow(256, 8) == 0x1_0000_0000_0000_0000;
    LeRoundTrip(value, 8);
  }

  lemma U32Canonical(b: bytes)
    requires |b| == 4
    ensures Le32(U32Of(b)) == b
  {
    LeCanonical(b);
  }

  lemma U64Canonical(b: bytes)
    requires |b| == 8
    ensures Le64(U64Of(b)) == b
  {
    LeCanonical(b);
  }

  // A little-endian text is worth its front plus its back, shifted by the places of the front.
  lemma {:induction false} LeValueOfConcat(a: bytes, b: bytes)
    ensures LeValue(a + b) == LeValue(a) + Pow(256, |a|) * LeValue(b)
  {
    if a == [] {
      assert a + b == b;
    } else {
      assert (a + b)[1..] == a[1..] + b;
      LeValueOfConcat(a[1..], b);
      assert Pow(256, |a|) == 256 * Pow(256, |a| - 1);
      assert 256 * (Pow(256, |a| - 1) * LeValue(b)) == Pow(256, |a|) * LeValue(b);
    }
  }

  // ----- big endian ---------------------------------------------------------------------

  function Be(value: nat, width: nat): (r: bytes)
    ensures |r| == width
    decreases value, width
  {
    if width == 0 then [] else Be(value / 256, width - 1) + [value % 256]
  }

  function BeValue(b: bytes): nat {
    if |b| == 0 then 0 else 256 * BeValue(b[..|b| - 1]) + b[|b| - 1]
  }

  lemma {:induction false} BeRoundTrip(value: nat, width: nat)
    requires value < Pow(256, width)
    ensures BeValue(Be(value, width)) == value
    decreases width
  {
    if width != 0 {
      var r := Be(value, width);
      assert r[..width - 1] == Be(value / 256, width - 1);
      BeRoundTrip(value / 256, width - 1);
    }
  }

  lemma {:induction false} BeCanonical(b: bytes)
    ensures BeValue(b) < Pow(256, |b|)
    ensures Be(BeValue(b), |b|) == b
  {
    if |b| != 0 {
      BeCanonical(b[..|b| - 1]);
      assert BeValue(b) % 256 == b[|b| - 1] && BeValue(b) / 256 == BeValue(b[..|b| - 1]);
      assert b == b[..|b| - 1] + [b[|b| - 1]];
    }
  }

  // A big-endian text is worth its back plus its front, shifted by the places of the back.
  lemma {:induction false} BeValueOfConcat(a: bytes, b: bytes)
    ensures BeValue(a + b) == BeValue(a) * Pow(256, |b|) + BeValue(b)
    decreases |b|
  {
    if b == [] {
      assert a + b == a;
    } else {
      var n := |b| - 1;
      assert (a + b)[..|a + b| - 1] == a + b[..n];
      BeValueOfConcat(a, b[..n]);
      assert Pow(256, |b|) == 256 * Pow(256, n);
      assert 256 * (BeValue(a) * Pow(256, n)) == BeValue(a) * Pow(256, |b|);
    }
  }

  // ----- exclusive or -------------------------------------------------------------------

  // The binary digits are added without carry, lowest digit first.
  function XorDigits(a: nat, b: nat, width: nat): nat
    decreases a, b, width
  {
    if width == 0 then 0
    else (if a % 2 == b % 2 then 0 else 1) + 2 * XorDigits(a / 2, b / 2, width - 1)
  }

  lemma {:induction false} XorDigitsInvolution(a: nat, b: nat, width: nat)
    requires a < Pow(2, width)
    ensures XorDigits(a, b, width) < Pow(2, width)
    ensures XorDigits(XorDigits(a, b, width), b, width) == a
    decreases width
  {
    if width != 0 {
      XorDigitsInvolution(a / 2, b / 2, width - 1);
      XorLowestDigit(a, b, width);
    }
  }

  lemma XorLowestDigit(a: nat, b: nat, width: nat)
    requires width > 0
    ensures var c := XorDigits(a, b, width);
      c / 2 == XorDigits(a / 2, b / 2, width - 1) && (c % 2 == 0 <==> a % 2 == b % 2)
  {
    var high := XorDigits(a / 2, b / 2, width - 1);
    assert (2 * high) / 2 == high && (1 + 2 * high) / 2 == high;
  }

  function XorByte(a: byte, b: byte): byte {
    assert Pow(2, 8) == 256;
    XorDigitsInvolution(a, b, 8);
    XorDigits(a, b, 8)
  }

  lemma XorByteInvolution(a: byte, b: byte)
    ensures XorByte(XorByte(a, b), b) == a
  {
    assert Pow(2, 8) == 256;
    XorDigitsInvolution(a, b, 8);
  }

  function BinaryDigit(x: nat, k: nat): nat
    decreases k
  {
    if k == 0 then x % 2 else BinaryDigit(x / 2, k - 1)
  }

  // Each binary digit of the result is one where the two digits differ.
  lemma {:induction false} XorDigit(a: nat, b: nat, width: nat, k: nat)
    requires k < width
    ensures BinaryDigit(XorDigits(a, b, width), k) == if BinaryDigit(a, k) == BinaryDigit(b, k) then 0 else 1
    decreases width
  {
    XorLowestDigit(a, b, width);
    if k > 0 {
      XorDigit(a / 2, b / 2, width - 1, k - 1);
    }
  }

  lemma XorByteDigit(a: byte, b: byte, k: nat)
    requires k < 8
    ensures BinaryDigit(XorByte(a, b), k) == if BinaryDigit(a, k) == BinaryDigit(b, k) then 0 else 1
  {
    XorDigit(a, b, 8, k);
  }

  // Combines two strings position by position, as far as both reach.
  function Xor(a: bytes, b: bytes): (r: bytes)
    ensures |r| == if |a| < |b| then |a| else |b|
  {
    seq(if |a| < |b| then |a| else |b|, i requires 0 <= i < |a| && i < |b| => XorByte(a[i], b[i]))
  }

  lemma XorInvolution(a: bytes, b: bytes)
    requires |a| <= |b|
    ensures Xor(Xor(a, b), b) == a
  {
    forall i | 0 <= i < |a| ensures Xor(Xor(a, b), b)[i] == a[i] {
      XorByteInvolution(a[i], b[i]);
    }
  }

  lemma Regroup(a: bytes, b: bytes, c: bytes)
    ensures (a + b) + c == a + (b + c)
  {
  }

  // ----- overwriting a stretch of a buffer ------------------------------------------------

  function Splice(buffer: bytes, at: nat, text: bytes): (r: bytes)
    requires at + |text| <= |buffer|
    ensures |r| == |buffer|
    ensures r[at..at + |text|] == text
  {
    buffer[..at] + text + buffer[at + |text|..]
  }

  lemma SpliceGrows(buffer: bytes, at: nat, first: bytes, second: bytes)
    requires at + |first| + |second| <= |buffer|
    ensures Splice(Splice(buffer, at, first), at + |first|, second) == Splice(buffer, at, first + second)
  {
  }

  lemma SpliceReplaces(buffer: bytes, at: nat, first: bytes, second: bytes)
    requires |first| == |second| && at + |first| <= |buffer|
    ensures Splice(Splice(buffer, at, first), at, second) == Splice(buffer, at, second)
  {
  }

  lemma SpliceBeyond(buffer: bytes, at: nat, text: bytes, lo: nat, hi: nat)
    requires at + |text| <= lo <= hi <= |buffer|
    ensures Splice(buffer, at, text)[lo..hi] == buffer[lo..hi]
  {
    var r := Splice(buffer, at, text);
    assert r[at + |text|..] == buffer[at + |text|..];
    assert r[lo..hi] == r[at + |text|..][lo - at - |text|..hi - at - |text|];
    assert buffer[lo..hi] == buffer[at + |text|..][lo - at - |text|..hi - at - |text|];
  }

  lemma SpliceUpTo(buffer: bytes, at: nat, text: bytes, hi: nat)
    requires at + |text| <= hi <= |buffer|
    ensures Splice(buffer, at, text + buffer[at + |text|..hi]) == Splice(buffer, at, text)
  {
  }

  lemma SpliceAll(buffer: bytes, text: bytes)
    requires |buffer| == |text|
    ensures Splice(buffer, 0, text) == text
  {
  }

  lemma SpliceSame(buffer: bytes, at: nat, n: nat)
    requires at + n <= |buffer|
    ensures Splice(buffer, at, buffer[at..at + n]) == buffer
  {
  }

  method Store(data: array<byte>, at: nat, text: bytes)
    requires at + |text| <= data.Length
    modifies data
    ensures data[..] == Splice(old(data[..]), at, text)
  {
    forall i | 0 <= i < |text| {
      data[at + i] := text[i];
    }
  }

  method XorInto(data: array<byte>, at: nat, mask: bytes)
    requires at + |mask| <= data.Length
    modifies data
    ensures data[..] == Splice(old(data[..]), at, Xor(old(data[at..at + |mask|]), mask))
  {
    var i := 0;
    while i < |mask|
      invariant 0 <= i <= |mask|
      invariant forall j :: 0 <= j < i ==> data[at + j] == XorByte(old(data[at + j]), mask[j])
      invariant forall j :: 0 <= j < data.Length && !(at <= j < at + i) ==> data[j] == old(data[j])
    {
      data[at + i] := XorByte(data[at + i], mask[i]);
      i := i + 1;
    }
    ghost var mixed := Xor(old(data[at..at + |mask|]), mask);
    forall j | 0 <= j < data.Length ensures data[j] == Splice(old(data[..]), at, mixed)[j] {
      if at <= j < at + |mask| {
        assert data[at + (j - at)] == mixed[j - at];
      }
    }
  }
}
