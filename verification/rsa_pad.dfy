/** RSA_PAD: the randomised padding before the RSA operation, and its inverse for the key holder. */
module RsaPad {
  import opened Outcomes
  import opened Bytes
  import opened Primitives
  import opened AesIge
  import opened NumberTheory
  import opened RandomSource

  const MAX_DATA: nat := 144
  const PADDED: nat := 192
  const ATTEMPTS: nat := 64
  const PUBLIC_EXPONENT: nat := 65_537

  function Reversed(b: bytes): (r: bytes)
    ensures |r| == |b|
  {
    seq(|b|, i requires 0 <= i < |b| => b[|b| - 1 - i])
  }

  lemma ReversedTwice(b: bytes)
    ensures Reversed(Reversed(b)) == b
  {
  }

  // ----- padding as a function of the bytes drawn ------------------------------------------------

  // The 256 bytes handed to RSA for one temporary key.
  function Candidate(suite: Suite, padded: bytes, tempKey: bytes): (r: bytes)
    requires |padded| == PADDED && |tempKey| == 32
    ensures |r| == 256
  {
    var dataWithHash := Reversed(padded) + Sha256(suite, tempKey + padded);
    var encrypted := IgeEncrypt(suite, tempKey, Zeros(32), dataWithHash);
    Xor(tempKey, Sha256(suite, encrypted)) + encrypted
  }

  function RsaEncrypt(modulus: nat, candidate: bytes): (r: bytes)
    requires modulus > 0
    ensures |r| == 256
  {
    Be(ModPow(BeValue(candidate), PUBLIC_EXPONENT, modulus), 256)
  }

  // Draws temporary keys until a candidate is below the modulus.
  function Attempt(suite: Suite, modulus: nat, padded: bytes, tape: bytes, failure: ErrorKind, attempts: nat)
    : (r: (Result<bytes>, bytes))
    requires modulus > 0 && |padded| == PADDED
    ensures r.0.Ok? ==> |r.0.value| == 256
    decreases |tape|
  {
    if attempts == 0 then (Err(LimitExceeded), tape)
    else
      var (tempKey, rest) := Drawn(tape, 32, failure);
      if tempKey.Err? then (Err(failure), rest)
      else
        var candidate := Candidate(suite, padded, tempKey.value);
        if BeValue(candidate) < modulus then (Ok(RsaEncrypt(modulus, candidate)), rest)
        else Attempt(suite, modulus, padded, rest, failure, attempts - 1)
  }

  function Padded(suite: Suite, modulus: nat, data: bytes, tape: bytes, failure: ErrorKind)
    : (r: (Result<bytes>, bytes))
    requires modulus > 0
    ensures r.0.Ok? ==> |r.0.value| == 256
  {
    if |data| > MAX_DATA then (Err(InvalidLength), tape)
    else
      var (padding, rest) := Drawn(tape, PADDED - |data|, failure);
      if padding.Err? then (Err(failure), rest)
      else Attempt(suite, modulus, data + padding.value, rest, failure, ATTEMPTS)
  }

  // ----- when padding succeeds ---------------------------------------------------------------------

  // The data with the random bytes that fill it up, and the k-th temporary key drawn behind them.
  function Filled(data: bytes, tape: bytes): (r: bytes)
    requires |data| <= 192 && 192 - |data| <= |tape|
    ensures |r| == 192
  {
    data + tape[..192 - |data|]
  }

  function TempKey(data: bytes, tape: bytes, k: nat): (r: bytes)
    requires |data| <= 192 && 192 - |data| + 32 * (k + 1) <= |tape|
    ensures |r| == 32
  {
    tape[192 - |data| + 32 * k..192 - |data| + 32 * (k + 1)]
  }

  // The k-th key is drawn and its candidate is below the modulus.
  predicate Fits(suite: Suite, modulus: nat, data: bytes, tape: bytes, k: nat)
    requires |data| <= 192
  {
    && 192 - |data| + 32 * (k + 1) <= |tape|
    && BeValue(Candidate(suite, Filled(data, tape), TempKey(data, tape, k))) < modulus
  }

  ghost predicate FirstFit(suite: Suite, modulus: nat, data: bytes, tape: bytes, k: nat)
    requires |data| <= 192
  {
    k < 64 && Fits(suite, modulus, data, tape, k) && forall j :: 0 <= j < k ==> !Fits(suite, modulus, data, tape, j)
  }

  ghost predicate SomeFits(suite: Suite, modulus: nat, data: bytes, tape: bytes)
    requires |data| <= 192
  {
    exists k: nat :: k < 64 && Fits(suite, modulus, data, tape, k)
  }

  lemma {:induction false} AttemptsFrom(suite: Suite, modulus: nat, data: bytes, tape: bytes, failure: ErrorKind, k: nat)
    requires modulus > 0 && |data| <= 192 && 192 - |data| + 32 * k <= |tape| && k <= 64
    requires forall j :: 0 <= j < k ==> !Fits(suite, modulus, data, tape, j)
    ensures var r := Attempt(suite, modulus, Filled(data, tape), tape[192 - |data| + 32 * k..], failure, 64 - k);
      && (r.0.Ok? <==> SomeFits(suite, modulus, data, tape))
      && forall i: nat :: FirstFit(suite, modulus, data, tape, i) ==>
        r == (Ok(RsaEncrypt(modulus, Candidate(suite, Filled(data, tape), TempKey(data, tape, i)))), tape[192 - |data| + 32 * (i + 1)..])
    decreases 64 - k
  {
    hide Candidate, RsaEncrypt, BeValue;
    var at := 192 - |data| + 32 * k;
    if k < 64 && at + 32 <= |tape| {
      assert tape[at..][..32] == TempKey(data, tape, k);
      assert tape[at..][32..] == tape[at + 32..];
      if !Fits(suite, modulus, data, tape, k) {
        AttemptsFrom(suite, modulus, data, tape, failure, k + 1);
      }
    }
  }

  // Padding succeeds exactly when the data is short enough, the filling is drawn, and one of the first 64 keys drawn
  // gives a candidate below the modulus; the first such key decides.
  lemma PaddingSucceedsExactly(suite: Suite, modulus: nat, data: bytes, tape: bytes, failure: ErrorKind)
    requires modulus > 0
    ensures var r := Padded(suite, modulus, data, tape, failure);
      && (r.0.Ok? <==> |data| <= 144 && SomeFits(suite, modulus, data, tape))
      && forall k: nat :: |data| <= 144 && FirstFit(suite, modulus, data, tape, k) ==>
        var candidate := BeValue(Candidate(suite, Filled(data, tape), TempKey(data, tape, k)));
        r == (Ok(Be(Pow(candidate, 65_537) % modulus, 256)), tape[192 - |data| + 32 * (k + 1)..])
  {
    hide Attempt, Candidate, BeValue, Be, Pow;
    if |data| <= 144 && 192 - |data| <= |tape| {
      AttemptsFrom(suite, modulus, data, tape, failure, 0);
    }
  }

  lemma PaddingSucceeds(suite: Suite, modulus: nat, data: bytes, tape: bytes, failure: ErrorKind)
    requires modulus > 0
    ensures Padded(suite, modulus, data, tape, failure).0.Ok? <==> |data| <= 144 && SomeFits(suite, modulus, data, tape)
  {
    hide Padded, SomeFits, FirstFit;
    PaddingSucceedsExactly(suite, modulus, data, tape, failure);
  }

  // The candidate in bytes: behind a masked key the encryption of the reversed data and a hash over key and data.
  lemma CandidateInBytes(suite: Suite, padded: bytes, tempKey: bytes, plain: bytes)
    requires |padded| == 192 && |tempKey| == 32 && |plain| == 224
    requires forall i :: 0 <= i < 192 ==> plain[i] == padded[191 - i]
    requires plain[192..] == Sha256(suite, tempKey + padded)
    ensures var r := Candidate(suite, padded, tempKey);
      && r[32..] == IgeEncrypt(suite, tempKey, Zeros(32), plain)
      && forall i :: 0 <= i < 32 ==> r[i] == XorByte(tempKey[i], Sha256(suite, r[32..])[i])
  {
    hide IgeEncrypt, Sha256, XorByte;
    assert plain == Reversed(padded) + Sha256(suite, tempKey + padded);
  }

  // ----- the key holder's side --------------------------------------------------------------------

  // Undoes the exclusive or, the encryption and the reversal, and checks the embedded hash.
  function Unpadded(suite: Suite, candidate: bytes): Option<bytes>
    requires |candidate| == 256
  {
    var tempKey := Xor(candidate[..32], Sha256(suite, candidate[32..]));
    var dataWithHash := IgeDecrypt(suite, tempKey, Zeros(32), candidate[32..]);
    var padded := Reversed(dataWithHash[..PADDED]);
    if dataWithHash[PADDED..] == Sha256(suite, tempKey + padded) then Some(padded) else None
  }

  // The private operation undoes the public one on residues.
  ghost predicate InvertsPublicOperation(privateOperation: nat -> nat, modulus: nat)
    requires modulus > 0
  {
    forall x :: 0 <= x < modulus ==> privateOperation(ModPow(x, 65_537, modulus)) == x
  }

  function KeyHolderReads(suite: Suite, privateOperation: nat -> nat, encrypted: bytes): Option<bytes> {
    Unpadded(suite, Be(privateOperation(BeValue(encrypted)), 256))
  }

  lemma UnpaddedCandidate(suite: Suite, padded: bytes, tempKey: bytes)
    requires |padded| == PADDED && |tempKey| == 32
    ensures Unpadded(suite, Candidate(suite, padded, tempKey)) == Some(padded)
  {
    hide Reversed, IgeEncrypt, IgeDecrypt, Sha256, Xor;
    var dataWithHash := Reversed(padded) + Sha256(suite, tempKey + padded);
    var encrypted := IgeEncrypt(suite, tempKey, Zeros(32), dataWithHash);
    var masked := Xor(tempKey, Sha256(suite, encrypted));
    var candidate := masked + encrypted;
    assert candidate[..32] == masked && candidate[32..] == encrypted;
    XorInvolution(tempKey, Sha256(suite, encrypted));
    IgeInverse(suite, tempKey, Zeros(32), dataWithHash);
    assert dataWithHash[..PADDED] == Reversed(padded);
    assert dataWithHash[PADDED..] == Sha256(suite, tempKey + padded);
    ReversedTwice(padded);
  }

  lemma KeyHolderReadsCandidate(suite: Suite, privateOperation: nat -> nat, modulus: nat, padded: bytes, tempKey: bytes)
    requires 0 < modulus <= Pow(256, 256) && InvertsPublicOperation(privateOperation, modulus)
    requires |padded| == PADDED && |tempKey| == 32
    requires BeValue(Candidate(suite, padded, tempKey)) < modulus
    ensures KeyHolderReads(suite, privateOperation, RsaEncrypt(modulus, Candidate(suite, padded, tempKey))) == Some(padded)
  {
    hide Candidate, Unpadded, ModPow;
    var candidate := Candidate(suite, padded, tempKey);
    BeRoundTrip(ModPow(BeValue(candidate), PUBLIC_EXPONENT, modulus), 256);
    BeCanonical(candidate);
    UnpaddedCandidate(suite, padded, tempKey);
  }

  lemma {:induction false} KeyHolderReadsAttempt(suite: Suite, privateOperation: nat -> nat, modulus: nat,
      padded: bytes, tape: bytes, failure: ErrorKind, attempts: nat)
    requires 0 < modulus <= Pow(256, 256) && InvertsPublicOperation(privateOperation, modulus)
    requires |padded| == PADDED
    requires Attempt(suite, modulus, padded, tape, failure, attempts).0.Ok?
    ensures KeyHolderReads(suite, privateOperation, Attempt(suite, modulus, padded, tape, failure, attempts).0.value)
         == Some(padded)
    decreases |tape|
  {
    hide Candidate, RsaEncrypt, KeyHolderReads, InvertsPublicOperation;
    var (tempKey, rest) := Drawn(tape, 32, failure);
    if BeValue(Candidate(suite, padded, tempKey.value)) < modulus {
      KeyHolderReadsCandidate(suite, privateOperation, modulus, padded, tempKey.value);
    } else {
      KeyHolderReadsAttempt(suite, privateOperation, modulus, padded, rest, failure, attempts - 1);
    }
  }

  // Whatever is drawn, a padding that succeeds lets the key holder recover the data, followed by the
  // random bytes that filled it up.
  lemma KeyHolderRecoversData(suite: Suite, privateOperation: nat -> nat, modulus: nat, data: bytes, tape: bytes,
        failure: ErrorKind)
    requires 0 < modulus <= Pow(256, 256) && InvertsPublicOperation(privateOperation, modulus)
    requires Padded(suite, modulus, data, tape, failure).0.Ok?
    ensures |data| <= MAX_DATA && PADDED - |data| <= |tape|
    ensures KeyHolderReads(suite, privateOperation, Padded(suite, modulus, data, tape, failure).0.value)
         == Some(data + tape[..PADDED - |data|])
  {
    hide Attempt, KeyHolderReads, InvertsPublicOperation;
    var (padding, rest) := Drawn(tape, PADDED - |data|, failure);
    KeyHolderReadsAttempt(suite, privateOperation, modulus, data + padding.value, rest, failure, ATTEMPTS);
  }

  // ----- the loops -------------------------------------------------------------------------------------

  method Reverse(padded: bytes) returns (reversed: bytes)
    requires |padded| == PADDED
    ensures reversed == Reversed(padded)
  {
    var buffer := new byte[PADDED](_ => 0);
    var i := 0;
    while i < PADDED
      invariant 0 <= i <= PADDED
      invariant forall j :: 0 <= j < i ==> buffer[j] == padded[PADDED - 1 - j]
    {
      buffer[i] := padded[PADDED - 1 - i];
      i := i + 1;
    }
    reversed := buffer[..];
  }

  method BuildCandidate(suite: Suite, padded: bytes, reversed: bytes, tempKey: bytes) returns (candidate: bytes)
    requires |padded| == PADDED && reversed == Reversed(padded) && |tempKey| == 32
    ensures candidate == Candidate(suite, padded, tempKey)
  {
    hide Reversed, IgeEncrypt, Sha256, Splice, Xor;
    var digest := Sha256(suite, tempKey + padded);
    var dataWithHash := new byte[224](_ => 0);
    ghost var blank, plain := dataWithHash[..], reversed + digest;
    Store(dataWithHash, 0, reversed);
    Store(dataWithHash, PADDED, digest);
    SpliceGrows(blank, 0, reversed, digest);
    SpliceAll(blank, plain);
    assert dataWithHash[..][0..224] == plain;
    AesIgeEncrypt(suite, tempKey, Zeros(32), dataWithHash, 0, 224);
    var encrypted := dataWithHash[..];
    SpliceAll(plain, IgeEncrypt(suite, tempKey, Zeros(32), plain));
    var key := new byte[32](_ => 0);
    ghost var blankKey := key[..];
    Store(key, 0, tempKey);
    SpliceAll(blankKey, tempKey);
    var mask := Sha256(suite, encrypted);
    assert key[0..0 + |mask|] == tempKey;
    XorInto(key, 0, mask);
    SpliceAll(tempKey, Xor(tempKey, mask));
    candidate := key[..] + encrypted;
  }

  method RsaPadEncrypt(suite: Suite, modulus: nat, data: bytes, random: Source) returns (r: Result<bytes>)
    requires modulus > 0
    modifies random
    ensures (r, random.tape) == Padded(suite, modulus, data, old(random.tape), random.failure)
    ensures r.Ok? <==> |data| <= 144 && SomeFits(suite, modulus, data, old(random.tape))
  {
    hide Candidate, RsaEncrypt, SomeFits;
    PaddingSucceeds(suite, modulus, data, random.tape, random.failure);
    if |data| > MAX_DATA {
      return Err(InvalidLength);
    }
    var padding :- random.Fill(PADDED - |data|);
    var padded := data + padding;
    var reversed := Reverse(padded);
    var left := ATTEMPTS;
    ghost var answer := Attempt(suite, modulus, padded, random.tape, random.failure, left);
    while left > 0
      invariant Attempt(suite, modulus, padded, random.tape, random.failure, left) == answer
    {
      var tempKey :- random.Fill(32);
      var candidate := BuildCandidate(suite, padded, reversed, tempKey);
      if BeValue(candidate) < modulus {
        return Ok(RsaEncrypt(modulus, candidate));
      }
      left := left - 1;
    }
    return Err(LimitExceeded);
  }
}
